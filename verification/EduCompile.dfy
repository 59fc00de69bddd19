/**
  The compile pass: which programs it accepts, what acceptance guarantees the
  interpreters, and what it does not.
 */
module EduCompile {
  import opened EduModel

  const PTR_SIZE := 8

  /** EDU_HDL_NODE and the tree of them in EDU_HDL, by the program that is the key. */
  datatype HdlNode = HdlNode(size: nat, attr: Attr, passed: bool)

  type Hdl = map<Edp, HdlNode>

  /** ncs_edu_return_builtin_edp_size, else the size recorded in the tree. */
  function SizeIn(hdl: Hdl, edp: Edp): Option<nat> {
    match edp
    case Basic(k) => Some(if k.NcsBool? then 1 else Width(k))
    case Str => Some(0)
    case User(id) => if edp in hdl then Some(hdl[edp].size) else None
  }

  /** The size a node has, for the program whose rules are being checked. */
  function NodeSize(hdl: Hdl, node: Edp): nat {
    if node in hdl then hdl[node].size else 0
  }

  /** The declared size as it is stored, in 32 bits. */
  function Recorded(size: long): nat {
    size % 0x1_0000_0000
  }

  function FirstEnd(prog: Prog, i: nat): (e: nat)
    requires i <= |prog|
    ensures i <= e <= |prog|
    ensures e < |prog| ==> prog[e].instr.End?
    ensures forall j :: i <= j < e ==> !prog[j].instr.End?
    decreases |prog| - i
  {
    if i == |prog| || prog[i].instr.End? then i else FirstEnd(prog, i + 1)
  }

  /** The end of a pointer slot, in the unsigned arithmetic of sizeof. */
  function SlotEnd(offset: long): int {
    (offset + PTR_SIZE) % 0x1_0000_0000_0000_0000
  }

  /**
    The checks in front of the loops.  That EDU_START names the key of the node always holds: it was looked up by it.
   */
  predicate HeaderOk(prog: Prog) {
    |prog| > 1 && prog[0].instr.Start? && prog[|prog| - 1].instr.End?
  }

  /** The first loop: labels, EDU_START attributes, and the list test. */
  predicate ShapeOk(prog: Prog)
    requires |prog| > 1
  {
    var size := Recorded(prog[0].fld5);
    && (prog[0].fld2.lnklist || prog[0].fld2 == Plain)
    && (forall i :: 0 <= i < FirstEnd(prog, 0) ==> prog[i].nxtLbl < |prog|)
    && (forall i :: 0 < i < FirstEnd(prog, 0) ==> !prog[i].instr.Start?)
    && (forall i :: 0 <= i < FirstEnd(prog, 0) && prog[i].instr.TestLlPtr? ==>
      prog[i].fld1 == prog[0].fld1 && prog[0].fld2.lnklist && prog[i].fld5 != 0 && SlotEnd(prog[i].fld5) <= size)
    && (forall i, j :: 0 <= i < j < FirstEnd(prog, 0) ==> !(prog[i].instr.TestLlPtr? && prog[j].instr.TestLlPtr?))
  }

  /** Only one way of storing a field. */
  predicate AttrOk(a: Attr) {
    !a.lnklist && !(a.pointer && a.arr) && !(a.pointer && a.varLen) && !(a.arr && a.varLen)
  }

  /** The bound on a field that is an array, a pointer or of variable length; one of size 0 has none. */
  predicate SlotOk(r: Rule, size: nat, z: nat) {
    z != 0 ==>
      && (r.fld2.arr ==> r.fld5 + r.fld6 * z <= size)
      && (r.fld2.pointer || r.fld2.varLen ==> SlotEnd(r.fld5) <= size)
      && (r.fld2.varLen ==> !r.fld3.User?)
  }

  predicate IsSlot(r: Rule) {
    r.fld2.arr || r.fld2.pointer || r.fld2.varLen
  }

  /** The checks of the second loop on one rule, after the programs it names have been compiled. */
  predicate RuleOk(hdl: Hdl, size: nat, prog: Prog, i: nat)
    requires i + 1 < |prog|
  {
    var r := prog[i];
    var z := SizeIn(hdl, r.fld1);
    match r.instr
    case Exec =>
      && (r.fld2.varLen ==> prog[i + 1].instr.ExecExt?)
      && (size != 0 ==> AttrOk(r.fld2) && if IsSlot(r) then z.Some? && SlotOk(r, size, z.value) else r.fld5 < size)
      && r.nxtLbl != EDU_SAME && r.nxtLbl != EDU_FAIL
    case Test =>
      && !r.fld7.NoRoutine?
      && (size != 0 ==> r.fld5 < size && z.Some? && (z.value != 0 ==> r.fld5 + z.value <= size))
    case TestLlPtr => size != 0 ==> SlotEnd(r.fld5) <= size
    case VerGe | VerUsr => !r.fld7.NoRoutine?
    case _ => true
  }

  /** Deep stands for a recursion that has used up the depth it was given. */
  datatype Verdict = Yes | No | Deep

  /**
    ncs_edu_compile_edp and the program it calls: an entry is added if missing, and one that has passed is not
    compiled again.  The rules are then checked on the node of the program that EDU_START names, which is
    compiled first if it has none.  Built-in programs do nothing.
   */
  function Compile(env: Env, hdl: Hdl, edp: Edp, depth: nat): (r: (Verdict, Hdl))
    ensures hdl.Keys <= r.1.Keys && (!r.0.Deep? ==> edp in r.1)
    decreases depth, 0
  {
    if edp in hdl && hdl[edp].passed then (Yes, hdl)
    else if depth == 0 then (Deep, hdl)
    else
      var entered := Entered(hdl, edp);
      if !edp.User? then (Yes, entered)
      else
        var prog := env.ProgOf(edp.id);
        if prog == [] then (No, entered)
        else
          var node := prog[0].fld1;
          var r := if node in entered then (Yes, entered) else Compile(env, entered, node, depth - 1);
          if !r.0.Yes? then r else Check(env, r.1, node, edp.id, depth - 1)
  }

  function Entered(hdl: Hdl, edp: Edp): Hdl {
    if edp in hdl then hdl else hdl[edp := HdlNode(0, Plain, false)]
  }

  /** What the node looks like when the loops begin. */
  function Sized(hdl: Hdl, node: Edp, prog: Prog): Hdl
    requires |prog| > 0
  {
    hdl[node := HdlNode(Recorded(prog[0].fld5), prog[0].fld2, false)]
  }

  /** ncs_edu_run_rules_for_compile on a node. */
  function Check(env: Env, hdl: Hdl, node: Edp, id: nat, depth: nat): (r: (Verdict, Hdl))
    requires node in hdl
    ensures hdl.Keys <= r.1.Keys
    decreases depth, 2
  {
    var prog := env.ProgOf(id);
    if !HeaderOk(prog) then (No, hdl[node := hdl[node].(passed := false)])
    else if !ShapeOk(prog) then (No, Sized(hdl, node, prog))
    else
      var r := CompileRules(env, Sized(hdl, node, prog), node, id, 0, depth);
      if r.0.Yes? then (Yes, r.1[node := r.1[node].(passed := true)]) else r
  }

  /** The second loop, compiling on the way every user program that is executed. */
  function CompileRules(env: Env, hdl: Hdl, node: Edp, id: nat, i: nat, depth: nat): (r: (Verdict, Hdl))
    ensures hdl.Keys <= r.1.Keys
    decreases depth, 1, |env.ProgOf(id)| - i
  {
    var prog := env.ProgOf(id);
    if i + 1 >= |prog| || i >= FirstEnd(prog, 0) then (Yes, hdl)
    else if prog[i].instr.Exec? && prog[i].fld1 == node then (No, hdl)
    else
      var r := if prog[i].instr.Exec? && prog[i].fld1.User? then Compile(env, hdl, prog[i].fld1, depth) else (Yes, hdl);
      if !r.0.Yes? then r
      else if RuleOk(r.1, NodeSize(r.1, node), prog, i) then CompileRules(env, r.1, node, id, i + 1, depth)
      else (No, r.1)
  }

  // ---------- what acceptance means ----------

  /** The programs whose acceptance a handle records. */
  ghost predicate Passed(hdl: Hdl, edp: Edp) {
    edp in hdl && hdl[edp].passed
  }

  /** id executes target through a chain of EDU_EXEC references. */
  ghost predicate Executes(env: Env, id: nat, target: nat, steps: nat)
    decreases steps
  {
    if steps == 0 then id == target
    else exists j :: Refers(env, id, j) && Executes(env, env.ProgOf(id)[j].fld1.id, target, steps - 1)
  }

  /** A rule the compile pass looks at executes a user program. */
  predicate Refers(env: Env, id: nat, j: int) {
    0 <= j < FirstEnd(env.ProgOf(id), 0) && env.ProgOf(id)[j].instr.Exec? && env.ProgOf(id)[j].fld1.User?
  }

  /** The EDU_START of id, and of every program it executes at any depth, names its own program. */
  ghost predicate OwnBelow(env: Env, id: nat) {
    forall target: nat, steps: nat :: Executes(env, id, target, steps) ==> OwnName(env, target)
  }

  lemma OwnHere(env: Env, id: nat)
    requires OwnBelow(env, id)
    ensures OwnName(env, id)
  {
    assert Executes(env, id, id, 0);
  }

  lemma OwnChild(env: Env, id: nat, j: int)
    requires OwnBelow(env, id) && Refers(env, id, j)
    ensures OwnBelow(env, env.ProgOf(id)[j].fld1.id)
  {
    var child := env.ProgOf(id)[j].fld1.id;
    forall target: nat, steps: nat | Executes(env, child, target, steps)
      ensures OwnName(env, target)
    {
      assert Executes(env, id, target, steps + 1);
    }
  }

  /** Every entry carries the size and attributes its program declares, or none if its header is wrong. */
  ghost predicate AllSized(env: Env, hdl: Hdl) {
    forall id: nat :: User(id) in hdl ==>
      var prog, node := env.ProgOf(id), hdl[User(id)];
      if HeaderOk(prog) then node.size == Recorded(prog[0].fld5) && node.attr == prog[0].fld2
      else node.size == 0 && node.attr == Plain
  }

  ghost predicate PassedFrom(env: Env, hdl: Hdl, id: nat, i: nat) {
    forall j :: i <= j && Refers(env, id, j) ==> Passed(hdl, env.ProgOf(id)[j].fld1)
  }

  ghost predicate RulesOkFrom(env: Env, hdl: Hdl, id: nat, i: nat) {
    var prog := env.ProgOf(id);
    forall j :: i <= j < FirstEnd(prog, 0) && j + 1 < |prog| ==> RuleOk(hdl, Recorded(prog[0].fld5), prog, j)
  }

  /** A recorded program: its size is the declared one, its checks hold, and all it executes is recorded too. */
  ghost predicate Sound(env: Env, hdl: Hdl, id: nat) {
    var prog := env.ProgOf(id);
    && HeaderOk(prog) && ShapeOk(prog) && User(id) in hdl && hdl[User(id)].size == Recorded(prog[0].fld5)
    && PassedFrom(env, hdl, id, 0) && RulesOkFrom(env, hdl, id, 0)
  }

  ghost predicate Closed(env: Env, hdl: Hdl) {
    AllSized(env, hdl) && forall id: nat :: Passed(hdl, User(id)) ==> Sound(env, hdl, id)
  }

  /** Entries stay, and what has passed stays passed. */
  ghost predicate Keeps(hdl: Hdl, hdl': Hdl) {
    forall edp :: edp in hdl ==> edp in hdl' && (hdl[edp].passed ==> hdl'[edp].passed)
  }

  lemma RuleKept(env: Env, hdl: Hdl, hdl': Hdl, size: nat, prog: Prog, i: nat)
    requires AllSized(env, hdl) && AllSized(env, hdl') && Keeps(hdl, hdl') && i + 1 < |prog|
      && RuleOk(hdl, size, prog, i)
    ensures RuleOk(hdl', size, prog, i)
  {
    hide SlotOk, SlotEnd;
    var e := prog[i].fld1;
    assert SizeIn(hdl, e).Some? ==> SizeIn(hdl', e) == SizeIn(hdl, e);
  }

  lemma RulesKept(env: Env, hdl: Hdl, hdl': Hdl, id: nat, i: nat)
    requires AllSized(env, hdl) && AllSized(env, hdl') && Keeps(hdl, hdl')
    requires PassedFrom(env, hdl, id, i) && RulesOkFrom(env, hdl, id, i)
    ensures PassedFrom(env, hdl', id, i) && RulesOkFrom(env, hdl', id, i)
  {
    hide RuleOk, AllSized;
    var prog := env.ProgOf(id);
    forall j | i <= j < FirstEnd(prog, 0) && j + 1 < |prog|
      ensures RuleOk(hdl', Recorded(prog[0].fld5), prog, j)
    {
      RuleKept(env, hdl, hdl', Recorded(prog[0].fld5), prog, j);
    }
  }

  lemma ClosedAdded(env: Env, hdl: Hdl, hdl': Hdl, id: nat)
    requires Closed(env, hdl) && Keeps(hdl, hdl') && AllSized(env, hdl')
    requires Passed(hdl', User(id)) ==> Sound(env, hdl', id)
    requires forall e :: Passed(hdl', e) ==> e == User(id) || Passed(hdl, e)
    ensures Closed(env, hdl')
  {
    hide RulesOkFrom, PassedFrom, ShapeOk, AllSized;
    forall x: nat | Passed(hdl', User(x))
      ensures Sound(env, hdl', x)
    {
      if x != id {
        assert Sound(env, hdl, x);
        RulesKept(env, hdl, hdl', x, 0);
        SizeStays(env, hdl, hdl', x);
      }
    }
  }

  lemma SizeStays(env: Env, hdl: Hdl, hdl': Hdl, id: nat)
    requires AllSized(env, hdl) && AllSized(env, hdl') && User(id) in hdl && User(id) in hdl'
    ensures hdl'[User(id)].size == hdl[User(id)].size
  {
  }

  /** A program that has not passed may be entered, and its own node sized. */
  lemma OwnSized(env: Env, hdl: Hdl, id: nat)
    requires Closed(env, hdl) && !Passed(hdl, User(id)) && HeaderOk(env.ProgOf(id))
    ensures var sized := Sized(Entered(hdl, User(id)), User(id), env.ProgOf(id));
      Closed(env, sized) && Keeps(hdl, sized)
  {
    hide Sound;
    ClosedAdded(env, hdl, Sized(Entered(hdl, User(id)), User(id), env.ProgOf(id)), id);
  }

  lemma OwnEntered(env: Env, hdl: Hdl, id: nat)
    requires Closed(env, hdl) && !Passed(hdl, User(id)) && !HeaderOk(env.ProgOf(id))
    ensures Closed(env, Entered(hdl, User(id))) && Keeps(hdl, Entered(hdl, User(id)))
  {
    hide Sound;
    ClosedAdded(env, hdl, Entered(hdl, User(id)), id);
  }

  /** With its own name in EDU_START a program is checked on its own node. */
  lemma OwnCompile(env: Env, hdl: Hdl, id: nat, depth: nat)
    requires OwnName(env, id) && !Passed(hdl, User(id)) && depth > 0
    ensures var prog := env.ProgOf(id); var entered := Entered(hdl, User(id));
      var r := Compile(env, hdl, User(id), depth);
      if !HeaderOk(prog) then r == (No, entered)
      else if !ShapeOk(prog) then r == (No, Sized(entered, User(id), prog))
      else var c := CompileRules(env, Sized(entered, User(id), prog), User(id), id, 0, depth - 1);
        r == if c.0.Yes? then (Yes, c.1[User(id) := c.1[User(id)].(passed := true)]) else c
  {
    hide CompileRules, ShapeOk;
    var entered := Entered(hdl, User(id));
    assert entered[User(id) := entered[User(id)].(passed := false)] == entered;
  }

  /** Compilation of programs with their own names only ever records sound programs, and forgets none. */
  lemma {:induction false} CompileSound(env: Env, hdl: Hdl, id: nat, depth: nat)
    requires Closed(env, hdl) && OwnBelow(env, id)
    ensures var r := Compile(env, hdl, User(id), depth);
      Closed(env, r.1) && Keeps(hdl, r.1) && (r.0.Yes? ==> Passed(r.1, User(id)))
    decreases depth, 0
  {
    hide Compile, CompileRules, ShapeOk, Sound, OwnBelow;
    var prog := env.ProgOf(id);
    if Passed(hdl, User(id)) || depth == 0 {
      AtOnce(env, hdl, User(id), depth);
    } else {
      OwnHere(env, id);
      OwnCompile(env, hdl, id, depth);
      if !HeaderOk(prog) {
        OwnEntered(env, hdl, id);
      } else {
        OwnSized(env, hdl, id);
        if ShapeOk(prog) {
          var sized := Sized(Entered(hdl, User(id)), User(id), prog);
          CompileRulesSound(env, sized, id, 0, depth - 1);
          var r := CompileRules(env, sized, User(id), id, 0, depth - 1);
          if r.0.Yes? { Recording(env, r.1, id); }
        }
      }
    }
  }

  lemma AtOnce(env: Env, hdl: Hdl, edp: Edp, depth: nat)
    requires Passed(hdl, edp) || depth == 0
    ensures Compile(env, hdl, edp, depth) == if Passed(hdl, edp) then (Yes, hdl) else (Deep, hdl)
  {
  }

  /** Recording a program whose rules have all been checked. */
  lemma Recording(env: Env, hdl: Hdl, id: nat)
    requires Closed(env, hdl) && User(id) in hdl && HeaderOk(env.ProgOf(id)) && ShapeOk(env.ProgOf(id))
    requires PassedFrom(env, hdl, id, 0) && RulesOkFrom(env, hdl, id, 0)
    ensures var h := hdl[User(id) := hdl[User(id)].(passed := true)]; Closed(env, h) && Keeps(hdl, h)
  {
    hide ShapeOk, PassedFrom, RulesOkFrom;
    var h := hdl[User(id) := hdl[User(id)].(passed := true)];
    RulesKept(env, hdl, h, id, 0);
    ClosedAdded(env, hdl, h, id);
  }

  lemma {:induction false} CompileRulesSound(env: Env, hdl: Hdl, id: nat, i: nat, depth: nat)
    requires Closed(env, hdl) && OwnBelow(env, id) && User(id) in hdl && HeaderOk(env.ProgOf(id))
    ensures var r := CompileRules(env, hdl, User(id), id, i, depth);
      && Closed(env, r.1) && Keeps(hdl, r.1)
      && (r.0.Yes? ==> PassedFrom(env, r.1, id, i) && RulesOkFrom(env, r.1, id, i))
    decreases depth, 1, |env.ProgOf(id)| - i
  {
    hide RuleOk, Compile, Sound, OwnBelow;
    var prog := env.ProgOf(id);
    if i + 1 < |prog| && i < FirstEnd(prog, 0) && !(prog[i].instr.Exec? && prog[i].fld1 == User(id)) {
      var next := (Yes, hdl);
      if prog[i].instr.Exec? && prog[i].fld1.User? {
        OwnChild(env, id, i);
        CompileSound(env, hdl, prog[i].fld1.id, depth);
        next := Compile(env, hdl, prog[i].fld1, depth);
      }
      assert NodeSize(next.1, User(id)) == Recorded(prog[0].fld5);
      if next.0.Yes? && RuleOk(next.1, Recorded(prog[0].fld5), prog, i) {
        CompileRulesSound(env, next.1, id, i + 1, depth);
        var last := CompileRules(env, next.1, User(id), id, i + 1, depth);
        RuleKept(env, next.1, last.1, Recorded(prog[0].fld5), prog, i);
      }
    }
  }

  // ---------- whole runs of compilations ----------

  /** A fresh handle after any sequence of compile requests, each with its depth. */
  function AfterAll(env: Env, asked: seq<(nat, nat)>): Hdl {
    if asked == [] then map[]
    else
      var last := asked[|asked| - 1];
      Compile(env, AfterAll(env, asked[..|asked| - 1]), User(last.0), last.1).1
  }

  /** All that was asked for, and all that executes, has its own name in EDU_START. */
  ghost predicate OwnAsked(env: Env, asked: seq<(nat, nat)>) {
    forall k :: 0 <= k < |asked| ==> OwnBelow(env, asked[k].0)
  }

  lemma {:induction false} EveryRunSound(env: Env, asked: seq<(nat, nat)>)
    requires OwnAsked(env, asked)
    ensures Closed(env, AfterAll(env, asked))
  {
    hide OwnBelow;
    if asked != [] {
      EveryRunSound(env, asked[..|asked| - 1]);
      var last := asked[|asked| - 1];
      CompileSound(env, AfterAll(env, asked[..|asked| - 1]), last.0, last.1);
    }
  }

  /** What a run of that kind has accepted. */
  ghost predicate Accepted(env: Env, asked: seq<(nat, nat)>, id: nat) {
    OwnAsked(env, asked) && Passed(AfterAll(env, asked), User(id))
  }

  lemma AcceptedSound(env: Env, asked: seq<(nat, nat)>, id: nat)
    requires Accepted(env, asked, id)
    ensures Closed(env, AfterAll(env, asked)) && Sound(env, AfterAll(env, asked), id)
  {
    EveryRunSound(env, asked);
  }
}
