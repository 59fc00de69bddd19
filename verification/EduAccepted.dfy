/** What a program that passed the compile step can and cannot do when it runs. */
module EduAccepted {
  import opened EduModel
  import opened EduFlow
  import opened EduDecode
  import opened EduCompile
  import opened EduNames

  // ---------- programs below an accepted one ----------

  /** In every handle, a program that has passed executes only programs that have passed, at any depth. */
  lemma {:induction false} PassedAllTheWayDown(env: Env, asked: seq<(nat, nat)>, id: nat, target: nat, steps: nat)
    requires Accepted(env, asked, id) && Executes(env, id, target, steps)
    ensures Accepted(env, asked, target) && Sound(env, AfterAll(env, asked), target)
    decreases steps
  {
    hide AfterAll, OwnAsked, ShapeOk, HeaderOk, RulesOkFrom;
    AcceptedSound(env, asked, id);
    if steps > 0 {
      var j :| Refers(env, id, j) && Executes(env, env.ProgOf(id)[j].fld1.id, target, steps - 1);
      assert Passed(AfterAll(env, asked), env.ProgOf(id)[j].fld1);
      PassedAllTheWayDown(env, asked, env.ProgOf(id)[j].fld1.id, target, steps - 1);
    }
  }

  ghost predicate Uncircled(env: Env, hdl: Hdl) {
    forall id: nat, steps: nat :: Passed(hdl, User(id)) && steps > 0 ==> !Executes(env, id, id, steps)
  }

  lemma {:induction false} ReachesPassed(env: Env, hdl: Hdl, id: nat, target: nat, steps: nat)
    requires Closed(env, hdl) && PassedFrom(env, hdl, id, 0) && Executes(env, id, target, steps) && steps > 0
    ensures Passed(hdl, User(target))
    decreases steps
  {
    hide AllSized, ShapeOk, HeaderOk, RulesOkFrom;
    var j :| Refers(env, id, j) && Executes(env, env.ProgOf(id)[j].fld1.id, target, steps - 1);
    var next := env.ProgOf(id)[j].fld1.id;
    assert Passed(hdl, env.ProgOf(id)[j].fld1);
    if steps > 1 {
      assert Sound(env, hdl, next);
      ReachesPassed(env, hdl, next, target, steps - 1);
    }
  }

  /** Recording a program all of whose references are recorded closes no circle. */
  lemma RecordedUncircled(env: Env, hdl: Hdl, id: nat)
    requires Closed(env, hdl) && Uncircled(env, hdl) && PassedFrom(env, hdl, id, 0) && User(id) in hdl
    ensures Uncircled(env, hdl[User(id) := hdl[User(id)].(passed := true)])
  {
    hide Closed, PassedFrom, Executes;
    forall x: nat, steps: nat | Passed(hdl[User(id) := hdl[User(id)].(passed := true)], User(x)) && steps > 0
      ensures !Executes(env, x, x, steps)
    {
      if x == id && !Passed(hdl, User(id)) && Executes(env, id, id, steps) {
        ReachesPassed(env, hdl, id, id, steps);
      }
    }
  }

  lemma {:induction false} CompileUncircled(env: Env, hdl: Hdl, id: nat, depth: nat)
    requires Closed(env, hdl) && Uncircled(env, hdl) && OwnBelow(env, id)
    ensures Uncircled(env, Compile(env, hdl, User(id), depth).1)
    decreases depth, 0
  {
    hide Compile, CompileRules, ShapeOk, Closed, PassedFrom, Executes, OwnBelow;
    var prog := env.ProgOf(id);
    if Passed(hdl, User(id)) || depth == 0 {
      AtOnce(env, hdl, User(id), depth);
    } else {
      OwnHere(env, id);
      OwnCompile(env, hdl, id, depth);
      if HeaderOk(prog) {
        var sized := Sized(Entered(hdl, User(id)), User(id), prog);
        OwnSized(env, hdl, id);
        if ShapeOk(prog) {
          CompileRulesUncircled(env, sized, id, 0, depth - 1);
          CompileRulesSound(env, sized, id, 0, depth - 1);
          var r := CompileRules(env, sized, User(id), id, 0, depth - 1);
          if r.0.Yes? { RecordedUncircled(env, r.1, id); }
        }
      }
    }
  }

  lemma {:induction false} CompileRulesUncircled(env: Env, hdl: Hdl, id: nat, i: nat, depth: nat)
    requires Closed(env, hdl) && Uncircled(env, hdl) && OwnBelow(env, id)
    ensures Uncircled(env, CompileRules(env, hdl, User(id), id, i, depth).1)
    decreases depth, 1, |env.ProgOf(id)| - i
  {
    hide RuleOk, Compile, Closed, Uncircled, OwnBelow;
    var prog := env.ProgOf(id);
    if i + 1 < |prog| && i < FirstEnd(prog, 0) {
      var next := (Yes, hdl);
      if prog[i].instr.Exec? && prog[i].fld1.User? {
        OwnChild(env, id, i);
        CompileSound(env, hdl, prog[i].fld1.id, depth);
        CompileUncircled(env, hdl, prog[i].fld1.id, depth);
        next := Compile(env, hdl, prog[i].fld1, depth);
      }
      CompileRulesUncircled(env, next.1, id, i + 1, depth);
    }
  }

  lemma {:induction false} EveryRunUncircled(env: Env, asked: seq<(nat, nat)>)
    requires OwnAsked(env, asked)
    ensures Uncircled(env, AfterAll(env, asked))
  {
    hide Compile, Uncircled, OwnBelow;
    if asked != [] {
      var front, last := asked[..|asked| - 1], asked[|asked| - 1];
      EveryRunSound(env, front);
      EveryRunUncircled(env, front);
      CompileUncircled(env, AfterAll(env, front), last.0, last.1);
    } else {
      assert Uncircled(env, map[]) by { NothingPassed(env); }
    }
  }

  lemma NothingPassed(env: Env)
    ensures Uncircled(env, map[])
  {
  }

  /** Programs that execute each other in a circle are never accepted, nor is anything that leads to them. */
  lemma CircleNeverPasses(env: Env, asked: seq<(nat, nat)>, id: nat, target: nat, steps: nat, round: nat)
    requires OwnAsked(env, asked) && Executes(env, id, target, steps) && round > 0
      && Executes(env, target, target, round)
    ensures !Passed(AfterAll(env, asked), User(id))
  {
    hide AfterAll, Executes, Sound, OwnAsked;
    if Passed(AfterAll(env, asked), User(id)) {
      PassedAllTheWayDown(env, asked, id, target, steps);
      EveryRunUncircled(env, asked);
    }
  }

  // ---------- the program counter ----------

  predicate Reserved(lbl: int) {
    EDU_NEXT <= lbl <= EDU_FAIL
  }

  /** The labels a rule can produce when test routines return reserved labels or distances of zero or more. */
  ghost predicate CanReturn(r: Rule, lbl: int) {
    match r.instr
    case Test | VerUsr => lbl >= 0 || Reserved(lbl)
    case VerGe => lbl == EDU_NEXT || lbl == EDU_EXIT || lbl == r.nxtLbl
    case TestLlPtr => lbl == EDU_NEXT || lbl == EDU_EXIT || lbl == EDU_SAME
    case _ => lbl == EDU_NEXT || lbl == EDU_FAIL
  }

  predicate Inside(prog: Prog, flow: Flow) {
    flow.Goto? ==> 0 <= flow.pc <= |prog|
  }

  /** Neither interpreter leaves prog[] from pc on this label. */
  predicate ContainedAt(prog: Prog, pc: nat, lbl: int)
    requires pc < |prog|
  {
    && Inside(prog, EncNext(prog, pc, lbl)) && Inside(prog, DecNext(prog, pc, lbl))
    && (prog[pc].instr.Exec? && prog[pc].fld2.pointer ==> Inside(prog, EncNullNext(prog, pc)))
  }

  ghost predicate Contained(prog: Prog) {
    forall pc: nat, lbl: int :: pc < |prog| && !prog[pc].instr.End? && CanReturn(prog[pc], lbl) ==>
      ContainedAt(prog, pc, lbl)
  }

  predicate Sane(r: Rule) {
    r.instr.Exec? ==> r.nxtLbl >= 0 || Reserved(r.nxtLbl)
  }

  /** The labels followed after rule i: its own, or that of the extension after it. */
  predicate SaneAt(prog: Prog, i: nat)
    requires i < |prog|
  {
    && (prog[i].instr.VerGe? ==> i + prog[i].nxtLbl >= 0 || Reserved(prog[i].nxtLbl))
    && (!prog[i].instr.VerGe? && !prog[i].instr.VerUsr? ==>
      if prog[i].fld2.varLen then i + 1 < |prog| ==> Sane(prog[i + 1]) else Sane(prog[i]))
    && (prog[i].fld2.pointer ==> Sane(prog[i]))
  }

  /** What the compile step does not look at: labels that are negative numbers. */
  predicate LabelsSane(prog: Prog) {
    forall i: nat :: i < |prog| && !prog[i].instr.End? ==> SaneAt(prog, i)
  }

  /**
    Labels that the compile step holds to the length of the program, and that are not EDU_FAIL; of a pointer not
    EDU_SAME either.
   */
  predicate BoundedAt(prog: Prog, i: nat)
    requires i < |prog|
  {
    && (!prog[i].instr.VerGe? && !prog[i].instr.VerUsr? ==>
      var j := if prog[i].fld2.varLen then i + 1 else i;
      j < |prog| && prog[j].instr.Exec? ==> prog[j].nxtLbl <= |prog| && prog[j].nxtLbl != EDU_FAIL)
    && (prog[i].instr.Exec? && prog[i].fld2.pointer ==>
      prog[i].nxtLbl <= |prog| && prog[i].nxtLbl != EDU_FAIL && prog[i].nxtLbl != EDU_SAME)
  }

  /** The rules behind the first EDU_END, which it does not look at, are within those limits all the same. */
  predicate BoundedBehind(prog: Prog) {
    forall i: nat :: FirstEnd(prog, 0) <= i < |prog| && !prog[i].instr.End? ==> BoundedAt(prog, i)
  }

  lemma SaneIfContained(prog: Prog, i: nat)
    requires i < |prog| && !prog[i].instr.End?
    requires ContainedAt(prog, i, EDU_NEXT) && (prog[i].instr.VerGe? ==> ContainedAt(prog, i, prog[i].nxtLbl))
    ensures SaneAt(prog, i) && BoundedAt(prog, i)
  {
  }

  lemma ContainedIfSane(prog: Prog, pc: nat, lbl: int)
    requires pc < |prog| && !prog[pc].instr.End? && CanReturn(prog[pc], lbl) && SaneAt(prog, pc) && BoundedAt(prog, pc)
    ensures ContainedAt(prog, pc, lbl)
  {
  }

  lemma CheckedBounded(env: Env, hdl: Hdl, id: nat, i: nat)
    requires Sound(env, hdl, id) && i < FirstEnd(env.ProgOf(id), 0)
    ensures BoundedAt(env.ProgOf(id), i)
  {
    var prog := env.ProgOf(id);
    assert RuleOk(hdl, Recorded(prog[0].fld5), prog, i);
    if i + 1 < FirstEnd(prog, 0) { assert RuleOk(hdl, Recorded(prog[0].fld5), prog, i + 1); }
  }

  /**
    For a program that passed, the counter stays inside prog[] exactly when no label is a negative number other
    than the reserved ones, and the rules behind an early EDU_END keep the limits the others are held to.
   */
  lemma CounterContainedIff(env: Env, asked: seq<(nat, nat)>, id: nat)
    requires Accepted(env, asked, id)
    ensures var prog := env.ProgOf(id); Contained(prog) <==> LabelsSane(prog) && BoundedBehind(prog)
  {
    hide AfterAll, SaneAt, BoundedAt, ContainedAt, Closed, Sound;
    AcceptedSound(env, asked, id);
    var prog := env.ProgOf(id);
    var hdl := AfterAll(env, asked);
    if Contained(prog) {
      forall i: nat | i < |prog| && !prog[i].instr.End?
        ensures SaneAt(prog, i) && BoundedAt(prog, i)
      {
        SaneIfContained(prog, i);
      }
    }
    if LabelsSane(prog) && BoundedBehind(prog) {
      forall pc: nat, lbl: int | pc < |prog| && !prog[pc].instr.End? && CanReturn(prog[pc], lbl)
        ensures ContainedAt(prog, pc, lbl)
      {
        if pc < FirstEnd(prog, 0) { CheckedBounded(env, hdl, id, pc); }
        ContainedIfSane(prog, pc, lbl);
      }
    }
  }

  /** Test and version routines that return a reserved label or a distance of zero or more. */
  ghost predicate Forward(env: Env, r: Rule) {
    r.fld7.NoRoutine? ||
    ((forall x: Field :: CanReturn(r.(instr := Test), r.fld7.onField(x)))
      && CanReturn(r.(instr := VerUsr), r.fld7.onVersion(env.version)))
  }

  /** One turn of either loop: from rule pc to rule q, whatever structure it is looking at. */
  ghost predicate Turn(env: Env, prog: Prog, encoding: bool, pc: int, s: Field, q: int) {
    0 <= pc < |prog| && !prog[pc].instr.End? &&
    var flow := if encoding then EncFlow(env, prog, pc, s)
      else DecNext(prog, pc, DecLabel(env, prog[pc], if s.Rec? then s.fields else map[]));
    flow == Goto(q) || (flow.Again? && q == 0)
  }

  /** The counters of a run over any structures, a list node after another included. */
  ghost predicate Run(env: Env, prog: Prog, encoding: bool, pcs: seq<int>, seen: seq<Field>) {
    && |pcs| == |seen| + 1 && pcs[0] == 1
    && forall k :: 0 <= k < |seen| ==> Turn(env, prog, encoding, pcs[k], seen[k], pcs[k + 1])
  }

  lemma TurnInside(env: Env, prog: Prog, encoding: bool, pc: int, s: Field, q: int)
    requires Contained(prog) && (forall i :: 0 <= i < |prog| ==> Forward(env, prog[i]))
      && Turn(env, prog, encoding, pc, s, q)
    ensures 0 <= q <= |prog|
  {
    hide EncNext, DecNext, EncNullNext;
    var r := prog[pc];
    var lbl := if encoding then EncLabel(env, r, s) else DecLabel(env, r, if s.Rec? then s.fields else map[]);
    assert Forward(env, r);
    assert CanReturn(r, lbl);
    assert ContainedAt(prog, pc, lbl);
  }

  /** No run of a program that passed, in either direction, leaves prog[]. */
  lemma RunsInside(env: Env, asked: seq<(nat, nat)>, id: nat, encoding: bool, pcs: seq<int>, seen: seq<Field>, k: nat)
    requires Accepted(env, asked, id) && LabelsSane(env.ProgOf(id)) && BoundedBehind(env.ProgOf(id))
    requires forall i :: 0 <= i < |env.ProgOf(id)| ==> Forward(env, env.ProgOf(id)[i])
    requires Run(env, env.ProgOf(id), encoding, pcs, seen) && k < |pcs|
    ensures 0 <= pcs[k] <= |env.ProgOf(id)|
  {
    hide AfterAll, LabelsSane, BoundedBehind, Contained, Turn, Forward;
    CounterContainedIff(env, asked, id);
    AcceptedSound(env, asked, id);
    if k > 0 {
      TurnInside(env, env.ProgOf(id), encoding, pcs[k - 1], seen[k - 1], pcs[k]);
    }
  }

  // ---------- what the compile step lets through ----------

  /** A program of built-in fields passes on a fresh handle exactly when its own checks hold. */
  lemma FreshIff(env: Env, id: nat)
    requires Lone(env, id) && OwnName(env, id) && HeaderOk(env.ProgOf(id))
    ensures var prog := env.ProgOf(id); var size := Recorded(prog[0].fld5);
      Accepted(env, [(id, 1)], id) <==>
        ShapeOk(prog) && RulesPass(map[User(id) := HdlNode(size, prog[0].fld2, false)], size, prog, 0)
  {
    hide Compile, ShapeOk, RulesPass, Lone, OwnBelow;
    LoneOwn(env, id);
    LoneCompile(env, map[], id, 1);
    AfterOne(env, id, 1);
    var empty: Hdl := map[];
    var prog := env.ProgOf(id);
    assert Sized(Entered(empty, User(id)), User(id), prog) ==
      map[User(id) := HdlNode(Recorded(prog[0].fld5), prog[0].fld2, false)];
  }

  /** A structure of one declared size, two rules and the end. */
  function Two(id: nat, size: long, a: Rule, b: Rule): Prog {
    [ Rule(Start, User(id), Plain, Basic(Uns8), 0, size, 0, NoRoutine), a, b, Stop ]
  }

  lemma TwoEnds(prog: Prog)
    requires |prog| > 2 && prog[2].instr.End? && !prog[0].instr.End? && !prog[1].instr.End?
    ensures FirstEnd(prog, 0) == 2
  {
    assert FirstEnd(prog, 2) == 2 && FirstEnd(prog, 1) == 2;
  }

  /** A negative label passes the compile step and sends both interpreters out of the program. */
  lemma NegativeLabelAccepted(env: Env, id: nat)
    requires env.ProgOf(id) == Two(id, 1, OneField(Uns8, -1), Stop)
    ensures Accepted(env, [(id, 1)], id)
    ensures EncNext(env.ProgOf(id), 1, EDU_NEXT) == Goto(-1) && DecNext(env.ProgOf(id), 1, EDU_NEXT) == Goto(-1)
  {
    TwoEnds(env.ProgOf(id));
    FreshIff(env, id);
  }

  function EarlyEndProg(id: nat): Prog {
    [ Rule(Start, User(id), Plain, Basic(Uns8), 0, 1, 0, NoRoutine), OneField(Uns8, 3), Stop, OneField(Uns64, 100),
      Stop ]
  }

  /** Rules behind an early EDU_END are not looked at, but a label that was looked at leads there. */
  lemma EarlyEndUnchecked(env: Env, id: nat)
    requires env.ProgOf(id) == EarlyEndProg(id)
    ensures Accepted(env, [(id, 1)], id) && LabelsSane(env.ProgOf(id))
    ensures EncNext(env.ProgOf(id), 1, EDU_NEXT) == Goto(3) && DecNext(env.ProgOf(id), 1, EDU_NEXT) == Goto(3)
    ensures EncNext(env.ProgOf(id), 3, EDU_NEXT) == Goto(100) && DecNext(env.ProgOf(id), 3, EDU_NEXT) == Goto(100)
    ensures !Contained(env.ProgOf(id))
  {
    var prog := env.ProgOf(id);
    TwoEnds(prog);
    FreshIff(env, id);
    assert !ContainedAt(prog, 3, EDU_NEXT);
    assert CanReturn(prog[3], EDU_NEXT);
  }
}
