/**
  What a compilation works on: the node of the program that EDU_START names.  With another name in EDU_START
  success says nothing about the program itself, and a refusal takes the other one's acceptance back.
 */
module EduNames {
  import opened EduModel
  import opened EduCompile

  /** A program whose checked rules execute built-in programs only. */
  ghost predicate Lone(env: Env, id: nat) {
    var prog := env.ProgOf(id);
    && prog != []
    && forall j :: 0 <= j < FirstEnd(prog, 0) && prog[j].instr.Exec? ==>
      !prog[j].fld1.User? && prog[j].fld1 != prog[0].fld1
  }

  ghost predicate RulesPass(hdl: Hdl, size: nat, prog: Prog, i: nat) {
    forall j :: i <= j < FirstEnd(prog, 0) && j + 1 < |prog| ==> RuleOk(hdl, size, prog, j)
  }

  lemma {:induction false} LoneRules(env: Env, hdl: Hdl, id: nat, i: nat, depth: nat)
    requires Lone(env, id) && env.ProgOf(id)[0].fld1 in hdl
    ensures var prog := env.ProgOf(id); var node := prog[0].fld1;
      CompileRules(env, hdl, node, id, i, depth) == (if RulesPass(hdl, hdl[node].size, prog, i) then Yes else No, hdl)
    decreases |env.ProgOf(id)| - i
  {
    hide RuleOk, Compile;
    var prog := env.ProgOf(id);
    if i + 1 < |prog| && i < FirstEnd(prog, 0) {
      LoneRules(env, hdl, id, i + 1, depth);
    }
  }

  /** Everything such a compilation does, on a handle that knows the name. */
  lemma LoneCompile(env: Env, hdl: Hdl, id: nat, depth: nat)
    requires Lone(env, id) && env.ProgOf(id)[0].fld1 in Entered(hdl, User(id)) && !Passed(hdl, User(id)) && depth > 0
    ensures var prog := env.ProgOf(id); var node := prog[0].fld1; var entered := Entered(hdl, User(id));
      var sized := Sized(entered, node, prog);
      Compile(env, hdl, User(id), depth) ==
        if !HeaderOk(prog) then (No, entered[node := entered[node].(passed := false)])
        else if ShapeOk(prog) && RulesPass(sized, Recorded(prog[0].fld5), prog, 0) then
          (Yes, sized[node := sized[node].(passed := true)])
        else (No, sized)
  {
    hide CompileRules, ShapeOk, RulesPass;
    var prog := env.ProgOf(id);
    LoneRules(env, Sized(Entered(hdl, User(id)), prog[0].fld1, prog), id, 0, depth - 1);
  }

  /** Whatever the programs and the handle: success records the program EDU_START names. */
  lemma RecordsTheNamed(env: Env, hdl: Hdl, id: nat, depth: nat)
    requires !Passed(hdl, User(id)) && Compile(env, hdl, User(id), depth).0.Yes?
    ensures env.ProgOf(id) != [] && Passed(Compile(env, hdl, User(id), depth).1, env.ProgOf(id)[0].fld1)
  {
    hide CompileRules;
  }

  /** What CompileSound concludes, for every handle in order. */
  ghost predicate Reliable(env: Env, id: nat, depth: nat) {
    forall hdl :: Closed(env, hdl) ==> ReliableOn(env, hdl, id, depth)
  }

  ghost predicate ReliableOn(env: Env, hdl: Hdl, id: nat, depth: nat) {
    var r := Compile(env, hdl, User(id), depth);
    Closed(env, r.1) && Keeps(hdl, r.1) && (r.0.Yes? ==> Passed(r.1, User(id)))
  }

  /** The checks hold whatever else is on the handle. */
  ghost predicate Good(env: Env, id: nat) {
    var prog := env.ProgOf(id);
    && Lone(env, id) && HeaderOk(prog) && ShapeOk(prog)
    && forall hdl :: RulesPass(hdl, Recorded(prog[0].fld5), prog, 0)
  }

  /** A handle on which a program has been entered and refused. */
  function Known(env: Env, edp: Edp): Hdl {
    var prog := if edp.User? then env.ProgOf(edp.id) else [];
    map[edp := if HeaderOk(prog) then HdlNode(Recorded(prog[0].fld5), prog[0].fld2, false)
      else HdlNode(0, Plain, false)]
  }

  lemma KnownClosed(env: Env, edp: Edp)
    ensures Closed(env, Known(env, edp))
  {
    forall id: nat ensures !Passed(Known(env, edp), User(id)) { }
  }

  /** The name is needed: a program that is accepted can be relied on exactly when its EDU_START names it. */
  lemma OwnNameIff(env: Env, id: nat, depth: nat)
    requires Good(env, id) && depth > 0
    ensures Reliable(env, id, depth) <==> OwnName(env, id)
  {
    hide Compile, ShapeOk, RulesPass, CompileRules, Closed;
    if OwnName(env, id) {
      LoneOwn(env, id);
      forall hdl | Closed(env, hdl) ensures ReliableOn(env, hdl, id, depth) { CompileSound(env, hdl, id, depth); }
    } else {
      var node := env.ProgOf(id)[0].fld1;
      var hdl := Known(env, node);
      KnownClosed(env, node);
      LoneCompile(env, hdl, id, depth);
      assert !ReliableOn(env, hdl, id, depth);
    }
  }

  lemma LoneOwn(env: Env, id: nat)
    requires Lone(env, id) && OwnName(env, id)
    ensures OwnBelow(env, id)
  {
    assert forall j :: !Refers(env, id, j);
    forall target: nat, steps: nat | Executes(env, id, target, steps)
      ensures OwnName(env, target)
    {
      assert steps == 0;
    }
  }

  // ---------- both ways it goes wrong ----------

  const Stop := Rule(End, Basic(Uns8), Plain, Basic(Uns8), 0, 0, 0, NoRoutine)

  function OneField(kind: Kind, lbl: int): Rule {
    Rule(Exec, Basic(kind), Plain, Basic(Uns8), lbl, 0, 0, NoRoutine)
  }

  /** One octet, an EDU_START that names a program, and a label. */
  function Named(name: nat, lbl: int): Prog {
    [ Rule(Start, User(name), Plain, Basic(Uns8), 0, 1, 0, NoRoutine), OneField(Uns8, lbl), Stop ]
  }

  lemma NamedMeans(env: Env, id: nat, name: nat, lbl: int)
    requires env.ProgOf(id) == Named(name, lbl) && (lbl == 0 || lbl == 100)
    ensures Lone(env, id) && HeaderOk(env.ProgOf(id)) && (ShapeOk(env.ProgOf(id)) <==> lbl == 0)
    ensures forall hdl :: RulesPass(hdl, 1, env.ProgOf(id), 0)
  {
    var prog := env.ProgOf(id);
    assert FirstEnd(prog, 2) == 2 && FirstEnd(prog, 1) == 2 && FirstEnd(prog, 0) == 2;
    assert prog[1].nxtLbl == lbl;
  }

  lemma OneMore(env: Env, asked: seq<(nat, nat)>, id: nat, depth: nat)
    ensures AfterAll(env, asked + [(id, depth)]) == Compile(env, AfterAll(env, asked), User(id), depth).1
  {
    var all := asked + [(id, depth)];
    assert all[..|all| - 1] == asked;
  }

  /** 1 has been refused for a label; then 0, which names 1, is accepted, and 1 is recorded as passed. */
  lemma RefusedThenRecorded(env: Env)
    requires env.ProgOf(1) == Named(1, 100) && env.ProgOf(0) == Named(1, 0)
    ensures Compile(env, map[], User(1), 1).0.No? && Compile(env, AfterAll(env, [(1, 1)]), User(0), 1).0.Yes?
    ensures var hdl := AfterAll(env, [(1, 1), (0, 1)]);
      Passed(hdl, User(1)) && !Sound(env, hdl, 1) && !Passed(hdl, User(0))
  {
    hide Compile, Lone, ShapeOk, RulesPass, AfterAll;
    NamedMeans(env, 1, 1, 100);
    NamedMeans(env, 0, 1, 0);
    LoneCompile(env, map[], 1, 1);
    AfterOne(env, 1, 1);
    LoneCompile(env, AfterAll(env, [(1, 1)]), 0, 1);
    OneMore(env, [(1, 1)], 0, 1);
    assert [(1, 1)] + [(0, 1)] == [(1, 1), (0, 1)];
  }

  lemma AfterOne(env: Env, id: nat, depth: nat)
    ensures AfterAll(env, [(id, depth)]) == Compile(env, map[], User(id), depth).1
  {
    OneMore(env, [], id, depth);
    assert [] + [(id, depth)] == [(id, depth)];
  }

  /** 1 has passed; then 0, which names 1, is refused, and 1 has passed no longer. */
  lemma PassedThenCleared(env: Env)
    requires env.ProgOf(1) == Named(1, 0) && env.ProgOf(0) == Named(1, 100)
    ensures Passed(AfterAll(env, [(1, 1)]), User(1)) && Compile(env, AfterAll(env, [(1, 1)]), User(0), 1).0.No?
    ensures !Passed(AfterAll(env, [(1, 1), (0, 1)]), User(1))
    ensures !Keeps(AfterAll(env, [(1, 1)]), AfterAll(env, [(1, 1), (0, 1)]))
  {
    hide Compile, Lone, ShapeOk, RulesPass, AfterAll;
    NamedMeans(env, 1, 1, 0);
    NamedMeans(env, 0, 1, 100);
    LoneCompile(env, map[], 1, 1);
    AfterOne(env, 1, 1);
    LoneCompile(env, AfterAll(env, [(1, 1)]), 0, 1);
    OneMore(env, [(1, 1)], 0, 1);
    assert [(1, 1)] + [(0, 1)] == [(1, 1), (0, 1)];
  }
}
