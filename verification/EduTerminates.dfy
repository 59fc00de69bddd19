/**
  Programs that execute one another in a circle: exactly when the compile pass comes back, what the interpreters
  need for it, and both calls put together.
 */
module EduTerminates {
  import opened EduModel
  import opened EduEncode
  import opened EduDecode
  import opened EduCarried
  import opened EduWellFormed
  import opened EduShortest
  import opened EduFacts
  import opened EduCompile
  import opened EduNames
  import opened EduAccepted

  /** Every program there is or that is named by one. */
  ghost function Mentioned(env: Env): set<nat> {
    env.progs.Keys + set a, i | a in env.progs && 0 <= i < |env.progs[a]| && env.progs[a][i].fld1.User? ::
      env.progs[a][i].fld1.id
  }

  lemma RuleMentioned(env: Env, a: nat, i: int)
    requires 0 <= i < |env.ProgOf(a)| && env.ProgOf(a)[i].fld1.User?
    ensures a in Mentioned(env) && env.ProgOf(a)[i].fld1.id in Mentioned(env)
  {
    assert env.progs[a][i].fld1.User?;
  }

  lemma {:induction false} Smaller(a: set<nat>, b: set<nat>)
    requires a <= b
    ensures |a| <= |b|
    decreases |a|
  {
    if a != {} {
      var x :| x in a;
      Smaller(a - {x}, b - {x});
    }
  }

  // ---------- when a compilation comes back ----------

  /** A program that executes itself, at any depth. */
  ghost predicate Circular(env: Env, id: nat) {
    exists steps: nat :: steps > 0 && Executes(env, id, id, steps)
  }

  /** A compilation of a may ask for one of b: a executes b, or its EDU_START names it. */
  ghost predicate Asks(env: Env, a: nat, b: nat) {
    (exists j :: Refers(env, a, j) && env.ProgOf(a)[j].fld1 == User(b))
      || (env.ProgOf(a) != [] && env.ProgOf(a)[0].fld1 == User(b))
  }

  ghost predicate Touches(env: Env, a: nat, b: nat, steps: nat)
    decreases steps
  {
    if steps == 0 then a == b else exists c: nat :: Asks(env, a, c) && Touches(env, c, b, steps - 1)
  }

  /** From id a compilation can get to a program that executes itself. */
  ghost predicate Leads(env: Env, id: nat) {
    exists target: nat, steps: nat :: Touches(env, id, target, steps) && Circular(env, target)
  }

  lemma LeadsOn(env: Env, a: nat, b: nat)
    requires !Leads(env, a) && Asks(env, a, b)
    ensures !Leads(env, b) && !Circular(env, b)
  {
    hide Asks, Circular;
    assert Touches(env, b, b, 0);
    assert Touches(env, a, b, 1);
    forall target: nat, steps: nat | Touches(env, b, target, steps)
      ensures !Circular(env, target)
    {
      assert Touches(env, a, target, steps + 1);
    }
  }

  ghost predicate Under(env: Env, a: nat, b: nat) {
    exists steps: nat :: steps > 0 && Executes(env, a, b, steps)
  }

  ghost function AllUnder(env: Env, a: nat): set<nat> {
    set b | b in Mentioned(env) && Under(env, a, b)
  }

  lemma UnderFalls(env: Env, a: nat, j: int)
    requires Refers(env, a, j) && !Circular(env, env.ProgOf(a)[j].fld1.id)
    ensures |AllUnder(env, env.ProgOf(a)[j].fld1.id)| < |AllUnder(env, a)| <= |Mentioned(env)|
  {
    hide Mentioned;
    var b := env.ProgOf(a)[j].fld1.id;
    RuleMentioned(env, a, j);
    assert Executes(env, b, b, 0) && Executes(env, a, b, 1);
    forall c | c in AllUnder(env, b)
      ensures c in AllUnder(env, a)
    {
      var n: nat :| n > 0 && Executes(env, b, c, n);
      assert Executes(env, a, c, n + 1);
    }
    assert b !in AllUnder(env, b);
    Smaller(AllUnder(env, b), AllUnder(env, a) - {b});
    Smaller(AllUnder(env, a), Mentioned(env));
  }

  /** The programs without a node. */
  ghost function Missing(env: Env, hdl: Hdl): set<nat> {
    set a | a in Mentioned(env) && User(a) !in hdl
  }

  lemma FewerMissing(env: Env, hdl: Hdl, hdl': Hdl)
    requires hdl.Keys <= hdl'.Keys
    ensures |Missing(env, hdl')| <= |Missing(env, hdl)|
  {
    forall a | a in Missing(env, hdl') ensures a in Missing(env, hdl) { assert User(a) !in hdl'.Keys; }
    Smaller(Missing(env, hdl'), Missing(env, hdl));
  }

  /** The depth that is enough for a program: each node still to be made, and what executes below. */
  ghost function Need(env: Env, missing: nat, id: nat): nat {
    missing * (|Mentioned(env)| + 2) + |AllUnder(env, id)| + 1
  }

  lemma NeedLess(env: Env, missing: nat, missing': nat, a: nat, b: nat)
    requires missing' <= missing && (missing' < missing || |AllUnder(env, b)| < |AllUnder(env, a)|)
    ensures Need(env, missing', b) < Need(env, missing, a)
  {
    Smaller(AllUnder(env, b), Mentioned(env));
    hide AllUnder, Mentioned;
    Times(missing', missing, |Mentioned(env)| + 2);
  }

  lemma Times(less: nat, more: nat, n: nat)
    requires less <= more
    ensures less * n + (if less < more then n else 0) <= more * n
  {
    var d := more - less;
    assert more * n == (less + d) * n == less * n + d * n;
    if d > 0 { assert d * n == n + (d - 1) * n && (d - 1) * n >= 0; }
  }

  lemma {:induction false} CompileShallow(env: Env, hdl: Hdl, id: nat, depth: nat)
    requires !Leads(env, id) && depth > Need(env, |Missing(env, Entered(hdl, User(id)))|, id)
    ensures !Compile(env, hdl, User(id), depth).0.Deep?
    decreases depth, 0
  {
    hide CompileRules, ShapeOk, Leads, Asks, Missing, AllUnder, Need, Mentioned;
    if !Passed(hdl, User(id)) && env.ProgOf(id) != [] {
      var entered, node := Entered(hdl, User(id)), env.ProgOf(id)[0].fld1;
      var r := (Yes, entered);
      if node !in entered {
        r := Compile(env, entered, node, depth - 1);
        assert !r.0.Deep? by {
          if node.User? { NamedShallow(env, entered, id, depth); } else { BuiltIn(env, entered, node, id, depth); }
        }
      }
      if r.0.Yes? && HeaderOk(env.ProgOf(id)) {
        var sized := Sized(r.1, node, env.ProgOf(id));
        StillEnough(env, entered, sized, id);
        CompileRulesShallow(env, sized, node, id, 0, depth - 1);
      }
    }
  }

  lemma NeedGrows(env: Env, less: nat, more: nat, id: nat)
    requires less <= more
    ensures Need(env, less, id) <= Need(env, more, id)
  {
    hide AllUnder, Mentioned;
    Times(less, more, |Mentioned(env)| + 2);
  }

  lemma BuiltIn(env: Env, hdl: Hdl, edp: Edp, id: nat, depth: nat)
    requires !edp.User? && depth > Need(env, |Missing(env, hdl)|, id)
    ensures !Compile(env, hdl, edp, depth - 1).0.Deep?
  {
    assert |Missing(env, hdl)| * (|Mentioned(env)| + 2) >= 0;
  }

  /** The program EDU_START names is compiled when it has no node, and has one from then on. */
  lemma {:induction false} NamedShallow(env: Env, entered: Hdl, id: nat, depth: nat)
    requires !Leads(env, id) && env.ProgOf(id) != [] && env.ProgOf(id)[0].fld1.User?
      && env.ProgOf(id)[0].fld1 !in entered
    requires depth > Need(env, |Missing(env, entered)|, id)
    ensures !Compile(env, entered, env.ProgOf(id)[0].fld1, depth - 1).0.Deep?
    decreases depth - 1, 1
  {
    hide Compile, Need, AllUnder, Mentioned, Leads;
    var b := env.ProgOf(id)[0].fld1.id;
    assert Asks(env, id, b);
    LeadsOn(env, id, b);
    RuleMentioned(env, id, 0);
    var with := Entered(entered, User(b));
    assert Missing(env, with) == Missing(env, entered) - {b};
    NeedLess(env, |Missing(env, entered)|, |Missing(env, with)|, id, b);
    CompileShallow(env, entered, b, depth - 1);
  }

  lemma StillEnough(env: Env, hdl: Hdl, hdl': Hdl, id: nat)
    requires hdl.Keys <= hdl'.Keys
    ensures Need(env, |Missing(env, hdl')|, id) <= Need(env, |Missing(env, hdl)|, id)
  {
    hide Missing, Need;
    FewerMissing(env, hdl, hdl');
    NeedGrows(env, |Missing(env, hdl')|, |Missing(env, hdl)|, id);
  }

  lemma ReferredNeedsLess(env: Env, hdl: Hdl, id: nat, i: int)
    requires Refers(env, id, i) && !Circular(env, env.ProgOf(id)[i].fld1.id)
    ensures var b := env.ProgOf(id)[i].fld1.id;
      Need(env, |Missing(env, Entered(hdl, User(b)))|, b) < Need(env, |Missing(env, hdl)|, id)
  {
    hide Missing, Need, AllUnder, Mentioned, Circular;
    var b := env.ProgOf(id)[i].fld1.id;
    UnderFalls(env, id, i);
    FewerMissing(env, hdl, Entered(hdl, User(b)));
    NeedLess(env, |Missing(env, hdl)|, |Missing(env, Entered(hdl, User(b)))|, id, b);
  }

  lemma {:induction false} CompileRulesShallow(env: Env, hdl: Hdl, node: Edp, id: nat, i: nat, depth: nat)
    requires !Leads(env, id) && depth >= Need(env, |Missing(env, hdl)|, id)
    ensures !CompileRules(env, hdl, node, id, i, depth).0.Deep?
    decreases depth, 1, |env.ProgOf(id)| - i
  {
    hide Compile, RuleOk, Leads, Missing, AllUnder, Need;
    var prog := env.ProgOf(id);
    if i + 1 < |prog| && i < FirstEnd(prog, 0) {
      var next := (Yes, hdl);
      if prog[i].instr.Exec? && prog[i].fld1.User? {
        var b := prog[i].fld1.id;
        assert Refers(env, id, i) && prog[i].fld1 == User(b);
        LeadsOn(env, id, b);
        ReferredNeedsLess(env, hdl, id, i);
        CompileShallow(env, hdl, b, depth);
        next := Compile(env, hdl, prog[i].fld1, depth);
      }
      StillEnough(env, hdl, next.1, id);
      CompileRulesShallow(env, next.1, node, id, i + 1, depth);
    }
  }

  /** A depth that is enough for everything. */
  ghost function Ample(env: Env): nat {
    (|Mentioned(env)| + 1) * (|Mentioned(env)| + 2)
  }

  lemma AmpleMeans(env: Env, hdl: Hdl, id: nat)
    ensures Need(env, |Missing(env, hdl)|, id) < Ample(env)
  {
    Smaller(Missing(env, hdl), Mentioned(env));
    Smaller(AllUnder(env, id), Mentioned(env));
    hide AllUnder, Mentioned, Missing;
    Times(|Missing(env, hdl)|, |Mentioned(env)| + 1, |Mentioned(env)| + 2);
  }

  /**
    Whatever the names and the handle: a compilation that cannot get to a circle comes back, whatever else there is.
   */
  lemma CompileEnds(env: Env, hdl: Hdl, id: nat, depth: nat)
    requires !Leads(env, id) && depth >= Ample(env)
    ensures !Compile(env, hdl, User(id), depth).0.Deep?
  {
    hide Compile, Leads, Need, Ample, Missing;
    AmpleMeans(env, Entered(hdl, User(id)), id);
    CompileShallow(env, hdl, id, depth);
  }

  lemma {:induction false} TouchesExecutes(env: Env, id: nat, target: nat, steps: nat)
    requires OwnBelow(env, id) && Touches(env, id, target, steps)
    ensures exists n: nat :: Executes(env, id, target, n)
    decreases steps
  {
    if steps == 0 {
      assert Executes(env, id, target, 0);
    } else {
      OwnHere(env, id);
      var c: nat :| Asks(env, id, c) && Touches(env, c, target, steps - 1);
      if j :| Refers(env, id, j) && env.ProgOf(id)[j].fld1 == User(c) {
        OwnChild(env, id, j);
        TouchesExecutes(env, c, target, steps - 1);
        var n: nat :| Executes(env, c, target, n);
        assert Executes(env, id, target, n + 1);
      } else {
        TouchesExecutes(env, id, target, steps - 1);
      }
    }
  }

  /**
    For programs with their own names, after any run: a compilation that is not refused succeeds exactly when it
    cannot get to a circle, and otherwise never comes back.
   */
  lemma CompileIff(env: Env, asked: seq<(nat, nat)>, id: nat, depth: nat)
    requires OwnAsked(env, asked) && OwnBelow(env, id) && depth >= Ample(env)
    requires !Compile(env, AfterAll(env, asked), User(id), depth).0.No?
    ensures Compile(env, AfterAll(env, asked), User(id), depth).0.Yes? <==> !Leads(env, id)
  {
    hide Compile, Ample, OwnBelow, Executes, AfterAll;
    var hdl := AfterAll(env, asked);
    if Leads(env, id) {
      var target: nat, steps: nat :| Touches(env, id, target, steps) && Circular(env, target);
      TouchesExecutes(env, id, target, steps);
      var n: nat :| Executes(env, id, target, n);
      var round: nat :| round > 0 && Executes(env, target, target, round);
      var all := asked + [(id, depth)];
      assert OwnAsked(env, all);
      CircleNeverPasses(env, all, id, target, n, round);
      OneMore(env, asked, id, depth);
      EveryRunSound(env, asked);
      CompileSound(env, hdl, id, depth);
    } else {
      CompileEnds(env, hdl, id, depth);
    }
  }

  /** And an answer does not depend on the depth allowed. */
  lemma {:induction false} CompileSteady(env: Env, hdl: Hdl, edp: Edp, depth: nat, more: nat)
    requires depth <= more && !Compile(env, hdl, edp, depth).0.Deep?
    ensures Compile(env, hdl, edp, more) == Compile(env, hdl, edp, depth)
    decreases depth, 0
  {
    hide CompileRules, ShapeOk;
    if !Passed(hdl, edp) && edp.User? && env.ProgOf(edp.id) != [] {
      var prog, entered := env.ProgOf(edp.id), Entered(hdl, edp);
      var node, r := prog[0].fld1, (Yes, entered);
      if node !in entered {
        CompileSteady(env, entered, node, depth - 1, more - 1);
        r := Compile(env, entered, node, depth - 1);
      }
      if r.0.Yes? && HeaderOk(prog) && ShapeOk(prog) {
        CompileRulesSteady(env, Sized(r.1, node, prog), node, edp.id, 0, depth - 1, more - 1);
      }
    }
  }

  lemma {:induction false} CompileRulesSteady(env: Env, hdl: Hdl, node: Edp, id: nat, i: nat, depth: nat, more: nat)
    requires depth <= more && !CompileRules(env, hdl, node, id, i, depth).0.Deep?
    ensures CompileRules(env, hdl, node, id, i, more) == CompileRules(env, hdl, node, id, i, depth)
    decreases depth, 1, |env.ProgOf(id)| - i
  {
    hide Compile, RuleOk;
    var prog := env.ProgOf(id);
    if i + 1 < |prog| && i < FirstEnd(prog, 0) && !(prog[i].instr.Exec? && prog[i].fld1 == node) {
      var next := (Yes, hdl);
      if prog[i].instr.Exec? && prog[i].fld1.User? {
        CompileSteady(env, hdl, prog[i].fld1, depth, more);
        next := Compile(env, hdl, prog[i].fld1, depth);
      }
      if next.0.Yes? && RuleOk(next.1, NodeSize(next.1, node), prog, i) {
        CompileRulesSteady(env, next.1, node, id, i + 1, depth, more);
      }
    }
  }

  /** Two programs that hold a pointer to each other. */
  function Partner(id: nat): nat { if id == 0 then 1 else 0 }

  function PartnerProg(id: nat): Prog {
    [ Rule(Start, User(id), Plain, Basic(Uns8), 0, 8, 0, NoRoutine),
      Rule(Exec, User(Partner(id)), Attr(false, false, true, false), Basic(Uns8), 0, 0, 0, NoRoutine), Stop ]
  }

  lemma PartnerShape(id: nat)
    ensures var prog := PartnerProg(id); HeaderOk(prog) && ShapeOk(prog) && FirstEnd(prog, 0) == 2
  {
    TwoEnds(PartnerProg(id));
  }

  lemma PartnerRules(env: Env, hdl: Hdl, id: nat, depth: nat)
    requires env.ProgOf(id) == PartnerProg(id) && id < 2 && Compile(env, hdl, User(Partner(id)), depth).0.Deep?
    ensures CompileRules(env, hdl, User(id), id, 0, depth).0.Deep?
  {
    hide Compile, RuleOk, ShapeOk, FirstEnd;
    PartnerShape(id);
    assert CompileRules(env, hdl, User(id), id, 1, depth).0.Deep?;
    StartOk(hdl, NodeSize(hdl, User(id)), env.ProgOf(id));
  }

  /** edcompile_pass is set only at the end, so compiling either of the two recurses past every depth. */
  lemma {:induction false} PartnersNeverCompile(env: Env, hdl: Hdl, id: nat, depth: nat)
    requires env.ProgOf(0) == PartnerProg(0) && env.ProgOf(1) == PartnerProg(1) && id < 2
    requires !Passed(hdl, User(0)) && !Passed(hdl, User(1))
    ensures Compile(env, hdl, User(id), depth).0.Deep?
    decreases depth
  {
    hide Compile, CompileRules, ShapeOk;
    if depth == 0 {
      AtOnce(env, hdl, User(id), depth);
    } else {
      PartnerShape(id);
      OwnCompile(env, hdl, id, depth);
      var sized := Sized(Entered(hdl, User(id)), User(id), PartnerProg(id));
      PartnersNeverCompile(env, sized, Partner(id), depth - 1);
      PartnerRules(env, sized, id, depth - 1);
    }
  }

  lemma StartOk(hdl: Hdl, size: nat, prog: Prog)
    requires |prog| > 1 && prog[0].instr.Start?
    ensures RuleOk(hdl, size, prog, 0)
  {
  }

  // ---------- the graph the interpreters walk ----------

  /** a executes b in any rule, behind an early EDU_END too, where labels may lead. */
  ghost predicate Calls(env: Env, a: nat, b: nat) {
    exists i :: 0 <= i < |env.ProgOf(a)| && env.ProgOf(a)[i].instr.Exec? && env.ProgOf(a)[i].fld1 == User(b)
  }

  ghost predicate Walk(env: Env, a: nat, b: nat, steps: nat)
    decreases steps
  {
    if steps == 0 then a == b else exists c: nat :: Calls(env, a, c) && Walk(env, c, b, steps - 1)
  }

  ghost predicate Knot(env: Env, a: nat) {
    exists steps: nat :: steps > 0 && Walk(env, a, a, steps)
  }

  ghost predicate Acyclic(env: Env) {
    forall a: nat :: !Knot(env, a)
  }

  function At(rank: map<nat, nat>, id: nat): nat {
    if id in rank then rank[id] else 0
  }

  ghost predicate Falls(env: Env, rank: map<nat, nat>) {
    forall a: nat, b: nat :: Calls(env, a, b) ==> At(rank, b) < At(rank, a)
  }

  ghost predicate Below(env: Env, a: nat, b: nat) {
    exists steps: nat :: steps > 0 && Walk(env, a, b, steps)
  }

  ghost function AllBelow(env: Env, a: nat): set<nat> {
    set b | b in Mentioned(env) && Below(env, a, b)
  }

  /** The rank that the programs themselves give: how many are below. */
  ghost function Ranking(env: Env): map<nat, nat> {
    map a | a in Mentioned(env) :: |AllBelow(env, a)|
  }

  lemma CallMentioned(env: Env, a: nat, b: nat)
    requires Calls(env, a, b)
    ensures a in Mentioned(env) && b in Mentioned(env)
  {
    hide Mentioned;
    var i :| 0 <= i < |env.ProgOf(a)| && env.ProgOf(a)[i].instr.Exec? && env.ProgOf(a)[i].fld1 == User(b);
    RuleMentioned(env, a, i);
  }

  lemma RankingFalls(env: Env, a: nat, b: nat)
    requires Calls(env, a, b) && !Knot(env, b)
    ensures At(Ranking(env), b) < At(Ranking(env), a)
  {
    hide Calls, Mentioned;
    CallMentioned(env, a, b);
    assert Walk(env, b, b, 0) && Walk(env, a, b, 1);
    forall c | c in AllBelow(env, b)
      ensures c in AllBelow(env, a)
    {
      var n: nat :| n > 0 && Walk(env, b, c, n);
      assert Walk(env, a, c, n + 1);
    }
    assert b !in AllBelow(env, b);
    Smaller(AllBelow(env, b), AllBelow(env, a) - {b});
  }

  lemma {:induction false} WalkFalls(env: Env, rank: map<nat, nat>, a: nat, b: nat, steps: nat)
    requires Falls(env, rank) && Walk(env, a, b, steps)
    ensures At(rank, b) + steps <= At(rank, a)
    decreases steps
  {
    hide Calls;
    if steps > 0 {
      var c: nat :| Calls(env, a, c) && Walk(env, c, b, steps - 1);
      WalkFalls(env, rank, c, b, steps - 1);
    }
  }

  /** A rank that falls along every reference exists exactly when no program executes itself, at any depth. */
  lemma AcyclicIff(env: Env)
    ensures Acyclic(env) <==> exists rank :: Falls(env, rank)
  {
    hide Calls, Walk, Ranking;
    if Acyclic(env) {
      forall a: nat, b: nat | Calls(env, a, b)
        ensures At(Ranking(env), b) < At(Ranking(env), a)
      {
        RankingFalls(env, a, b);
      }
      assert Falls(env, Ranking(env));
    }
    if rank :| Falls(env, rank) {
      forall a: nat
        ensures !Knot(env, a)
      {
        if steps: nat :| steps > 0 && Walk(env, a, a, steps) { WalkFalls(env, rank, a, a, steps); }
      }
    }
  }

  // ---------- the interpreters, with the rank the programs give ----------

  /** The programs a run of id can get to. */
  ghost function Home(env: Env, id: nat): set<nat> {
    {id} + AllBelow(env, id)
  }

  /** None of them executes itself. */
  ghost predicate Untied(env: Env, id: nat) {
    forall b: nat, steps: nat :: Walk(env, id, b, steps) ==> !Knot(env, b)
  }

  ghost function Derived(env: Env): Env {
    env.(rank := Ranking(env))
  }

  lemma HomeWalk(env: Env, id: nat, b: nat)
    requires b in Home(env, id)
    ensures exists steps: nat :: Walk(env, id, b, steps)
  {
    hide Mentioned;
    if b == id {
      assert Walk(env, id, b, 0);
    } else {
      assert Below(env, id, b);
    }
  }

  lemma {:induction false} WalkOn(env: Env, a: nat, b: nat, steps: nat, c: nat)
    requires Walk(env, a, b, steps) && Calls(env, b, c)
    ensures Walk(env, a, c, steps + 1)
    decreases steps
  {
    hide Calls;
    if steps == 0 {
      assert Walk(env, c, c, 0);
    } else {
      var d: nat :| Calls(env, a, d) && Walk(env, d, b, steps - 1);
      WalkOn(env, d, b, steps - 1, c);
    }
  }

  /** No EDU_EXEC below id is refused for its rank. */
  lemma RankFalls(env: Env, id: nat)
    requires Untied(env, id)
    ensures Ranked(Derived(env), Home(env, id))
  {
    hide Walk, Ranking, Home, Knot;
    var e := Derived(env);
    forall a: nat, i | a in Home(env, id) && 0 <= i < |e.ProgOf(a)| && e.ProgOf(a)[i].instr.Exec?
      ensures e.RankOf(e.ProgOf(a)[i].fld1) < e.RankOf(User(a))
    {
      var c := e.ProgOf(a)[i].fld1;
      if c.User? {
        assert env.ProgOf(a)[i].fld1 == User(c.id);
        assert Calls(env, a, c.id);
        HomeWalk(env, id, a);
        var n: nat :| Walk(env, id, a, n);
        WalkOn(env, id, a, n, c.id);
        RankingFalls(env, a, c.id);
      }
    }
  }

  /** Programs fit for id: in no circle below it, and formed as EDU is meant. */
  ghost predicate Fit(env: Env, id: nat) {
    Untied(env, id) && Formed(Derived(env), Home(env, id))
  }

  lemma FitWellFormed(env: Env, id: nat)
    requires Fit(env, id)
    ensures WellFormed(Derived(env), Home(env, id)) && id in Home(env, id)
  {
    hide Formed, Ranked;
    RankFalls(env, id);
  }

  /**
    Then both sides come back: the encoder with success on every value that fits, the decoder on every input whatever.
   */
  lemma NeitherStrays(env: Env, tree: set<Edp>, id: nat, v: Field, inp: seq<byte>)
    requires Fit(env, id)
    ensures var e := Derived(env);
      && (FitsEdp(e, false, User(id), v) ==> EncEdp(e, tree, User(id), v).Ok?)
      && !DecEdp(e, User(id), inp).InStray?
      && (CharFree(e, Home(env, id)) ==> !DecEdp(e, User(id), inp).InOverrun?)
  {
    hide EncEdp, DecEdp, FitsEdp, CarEdp, Fit, WellFormed, Derived, Home;
    FitWellFormed(env, id);
    var e := Derived(env);
    if FitsEdp(e, false, User(id), v) { Written(e, Home(env, id), tree, User(id), v); }
    ReadEdp(e, Home(env, id), User(id), inp);
  }

  /**
    Every char-array rule writes behind its array exactly on a count above its size with that many characters there.
   */
  lemma CharRuleOverrunsIff(env: Env, id: nat, r: Rule, acc: Fields, inp: seq<byte>)
    requires CharArray(r) && !r.fld2.varLen
    ensures DecRule(env, id, r, acc, inp).InOverrun? <==> Overlong(r, inp)
  {
    hide DecInline, Overlong;
    ReadChars(env, r, acc, inp, Rec(acc));
  }

  function CharsProg(id: nat, n: nat): Prog
    requires n < 0x8000_0000_0000_0000
  {
    [ Rule(Start, User(id), Plain, Basic(Uns8), 0, n, 0, NoRoutine),
      Rule(Exec, Basic(Char), Attr(false, true, false, false), Basic(Uns8), 0, 0, n, NoRoutine), Stop ]
  }

  /** A structure that is one char array. */
  lemma CharArrayOverrunsIff(env: Env, id: nat, n: nat, inp: seq<byte>)
    requires n < 0x8000_0000_0000_0000 && env.ProgOf(id) == CharsProg(id, n)
    ensures DecEdp(env, User(id), inp).InOverrun? <==> Overlong(env.ProgOf(id)[1], inp)
  {
    var r := env.ProgOf(id)[1];
    CharRuleOverrunsIff(env, id, r, map[], inp);
    var d := DecRule(env, id, r, map[], inp);
    assert DecNode(env, id, 1, map[], inp).InOverrun? <==> d.InOverrun? by { hide DecRule, Overlong; }
    hide DecNode, Overlong;
  }

  // ---------- the whole call ----------

  /** ncs_edu_ver_exec to encode: compile, then run; Stray stands for not coming back. */
  ghost function Send(env: Env, hdl: Hdl, tree: set<Edp>, id: nat, v: Field, depth: nat): Out {
    match Compile(env, hdl, User(id), depth).0
    case Yes => EncEdp(Derived(env), tree, User(id), v)
    case No => Out.Fail
    case Deep => Out.Stray
  }

  ghost function Receive(env: Env, hdl: Hdl, id: nat, inp: seq<byte>, depth: nat): In<Field> {
    match Compile(env, hdl, User(id), depth).0
    case Yes => DecEdp(Derived(env), User(id), inp)
    case No => InFail
    case Deep => InStray
  }

  lemma {:induction false} ExecutesWalk(env: Env, id: nat, target: nat, steps: nat)
    requires Executes(env, id, target, steps)
    ensures Walk(env, id, target, steps)
    decreases steps
  {
    if steps > 0 {
      var j :| Refers(env, id, j) && Executes(env, env.ProgOf(id)[j].fld1.id, target, steps - 1);
      assert Calls(env, id, env.ProgOf(id)[j].fld1.id);
      ExecutesWalk(env, env.ProgOf(id)[j].fld1.id, target, steps - 1);
    }
  }

  lemma {:induction false} WalkHome(env: Env, id: nat, b: nat, steps: nat)
    requires Walk(env, id, b, steps)
    ensures b in Home(env, id)
  {
    hide Mentioned;
    if steps > 0 {
      assert Below(env, id, b);
      WalkMentioned(env, id, b, steps);
    }
  }

  lemma {:induction false} WalkMentioned(env: Env, id: nat, b: nat, steps: nat)
    requires Walk(env, id, b, steps) && steps > 0
    ensures b in Mentioned(env)
    decreases steps
  {
    hide Mentioned, Calls;
    var c: nat :| Calls(env, id, c) && Walk(env, c, b, steps - 1);
    CallMentioned(env, id, c);
    if steps > 1 { WalkMentioned(env, c, b, steps - 1); }
  }

  /** Fit programs have their own names and lead to no circle. */
  lemma FitCompiles(env: Env, id: nat)
    requires Fit(env, id)
    ensures OwnBelow(env, id) && !Leads(env, id)
  {
    hide FormFrom, Walk, Executes, Home, Touches;
    forall target: nat, steps: nat | Executes(env, id, target, steps)
      ensures OwnName(env, target)
    {
      ExecutesWalk(env, id, target, steps);
      WalkHome(env, id, target, steps);
      assert ProgForm(Derived(env), Home(env, id), target);
    }
    forall target: nat, steps: nat | Touches(env, id, target, steps)
      ensures !Circular(env, target)
    {
      TouchesExecutes(env, id, target, steps);
      var n: nat :| Executes(env, id, target, n);
      ExecutesWalk(env, id, target, n);
      if round: nat :| round > 0 && Executes(env, target, target, round) { ExecutesWalk(env, target, target, round); }
    }
  }

  /**
    Both calls, on any two handles, for programs fit for id, whatever other programs there are: each comes back, the
    sender succeeds exactly when its handle accepts the program, and the value arrives exactly when both do and every
    pointer got its count.
   */
  lemma SendReceiveIff(env: Env, mine: Hdl, yours: Hdl, tree: set<Edp>, id: nat, v: Field, rest: seq<byte>, depth: nat)
    requires Fit(env, id) && depth >= Ample(env) && FitsEdp(Derived(env), false, User(id), v)
    ensures var sent := Send(env, mine, tree, id, v, depth); var e := Derived(env);
      && !sent.Stray? && (sent.Ok? <==> Compile(env, mine, User(id), depth).0.Yes?)
      && CarEdp(e, User(id), v).Some?
      && (sent.Ok? ==>
        (Receive(env, yours, id, sent.bytes + rest, depth) == Got(CarEdp(e, User(id), v).value, rest) <==>
          Compile(env, yours, User(id), depth).0.Yes? && Counted(e, tree, User(id), v)))
  {
    hide Compile, EncEdp, DecEdp, CarEdp, FitsEdp, Counted, Fit, Leads, OwnBelow, WellFormed, Derived, Home, Ample;
    FitCompiles(env, id);
    FitWellFormed(env, id);
    CompileEnds(env, mine, id, depth);
    CompileEnds(env, yours, id, depth);
    RoundTripIff(Derived(env), Home(env, id), tree, User(id), v, rest);
  }
}
