/**
  Which programs and which values EDU is meant for: a static form of programs, checked along every path that
  labels, versions and test routines could take, and a typing of values against them.
 */
module EduWellFormed {
  import opened EduModel
  import opened EduFlow
  import opened EduDecode
  import opened EduCarried

  // ---------- programs ----------

  /** The fields stored on the way to a rule, each with the rule that stored it. */
  type Stored = map<int, Rule>

  predicate Inline(r: Rule) {
    r.instr.Exec? && !r.fld2.arr && !r.fld2.pointer && !r.fld2.varLen
  }

  predicate Numeric(r: Rule) {
    Inline(r) && r.fld1.Basic?
  }

  predicate PlainText(r: Rule) {
    Inline(r) && r.fld1.Str?
  }

  /** The test does not tell a NULL string from an empty one. */
  predicate Blind(r: Rule) {
    LabelOn(r, Text(None)) == LabelOn(r, Text(Some([])))
  }

  predicate CanCount(edp: Edp) {
    edp.Basic? && !edp.kind.NcsBool? && !edp.kind.Char?
  }

  predicate Covers(home: set<nat>, edp: Edp) {
    edp.User? ==> edp.id in home
  }

  /** A field is stored once, lengths come first, and what a pointer leads to can be allocated. */
  predicate ExecForm(env: Env, home: set<nat>, id: nat, r: Rule, stored: Stored) {
    && r.fld5 !in stored && (env.IsList(User(id)) ==> r.fld5 != LinkOffset(env.ProgOf(id)))
    && Covers(home, r.fld1)
    && if r.fld2.pointer then !r.fld2.varLen && !r.fld1.Str? && (r.fld1.User? ==> r.fld1.id in env.allocs)
       else if r.fld2.arr then !r.fld2.varLen && !r.fld1.Str? && r.fld6 >= 0
       else if r.fld2.varLen then !r.fld1.Str? && CanCount(r.fld3) && r.fld6 in stored && Numeric(stored[r.fld6])
       else true
  }

  /** A test reads a number, or a string without minding NULL, that is already stored. */
  predicate TestForm(r: Rule, stored: Stored) {
    r.fld5 in stored && (Numeric(stored[r.fld5]) || (PlainText(stored[r.fld5]) && Blind(r)))
  }

  /** A label leads forward, or out, or fails; only its list test leaves a list. */
  ghost predicate StepForm(env: Env, home: set<nat>, id: nat, pc: nat, stored: Stored, flow: Flow)
    requires pc < |env.ProgOf(id)|
    decreases |env.ProgOf(id)| - pc, 0
  {
    match flow
    case Crash => true
    case Again => false
    case Leave(_) => !env.IsList(User(id))
    case Goto(q) => pc < q <= |env.ProgOf(id)| && FormFrom(env, home, id, q, stored)
  }

  ghost predicate LabelForm(env: Env, home: set<nat>, id: nat, pc: nat, stored: Stored, lbl: int)
    requires pc < |env.ProgOf(id)|
    decreases |env.ProgOf(id)| - pc, 1
  {
    var prog := env.ProgOf(id);
    StepForm(env, home, id, pc, stored, EncNext(prog, pc, lbl))
      && (EncNext(prog, pc, lbl).Crash? ==> DecNext(prog, pc, lbl).Crash?)
  }

  /** Every path from a rule on, with these fields stored. */
  ghost predicate FormFrom(env: Env, home: set<nat>, id: nat, pc: nat, stored: Stored)
    decreases |env.ProgOf(id)| - pc, 2
  {
    var prog := env.ProgOf(id);
    pc <= |prog| &&
    if pc == |prog| || prog[pc].instr.End? then !env.IsList(User(id))
    else
      var r := prog[pc];
      match r.instr
      case TestLlPtr => env.IsList(User(id)) && r.fld5 == LinkOffset(prog) && LlTestIsLast(prog, pc)
      case Exec =>
        && ExecForm(env, home, id, r, stored) && LabelForm(env, home, id, pc, stored[r.fld5 := r], EDU_NEXT)
        && (r.fld2.pointer ==> StepForm(env, home, id, pc, stored[r.fld5 := r], EncNullNext(prog, pc)))
      case Test => TestForm(r, stored) && forall x: Field :: LabelForm(env, home, id, pc, stored, LabelOn(r, x))
      case VerGe | VerUsr => LabelForm(env, home, id, pc, stored, VersionLabel(env, r))
      case _ => LabelForm(env, home, id, pc, stored, EDU_NEXT)
  }

  /** EDU_START names the program itself, and every path from the rule behind it is well formed. */
  ghost predicate ProgForm(env: Env, home: set<nat>, id: nat) {
    && OwnName(env, id) && (env.IsList(User(id)) ==> StartFallsThrough(env.ProgOf(id)) && id in env.allocs)
    && FormFrom(env, home, id, 1, map[])
  }

  /** The form of a set of programs that execute no others. */
  ghost predicate Formed(env: Env, home: set<nat>) {
    forall id :: id in home ==> ProgForm(env, home, id)
  }

  /** The rank falls along every EDU_EXEC of theirs. */
  ghost predicate Ranked(env: Env, home: set<nat>) {
    forall id: nat, i :: id in home && 0 <= i < |env.ProgOf(id)| && env.ProgOf(id)[i].instr.Exec? ==>
      env.RankOf(env.ProgOf(id)[i].fld1) < env.RankOf(User(id))
  }

  ghost predicate WellFormed(env: Env, home: set<nat>) {
    Formed(env, home) && Ranked(env, home)
  }

  // ---------- values ----------

  /** Where the rules lead on a value, and the fields they touch; nothing is encoded. */
  datatype Course = Course(end: Flow, touched: set<int>)

  function CourseFrom(env: Env, id: nat, pc: nat, s: Field): Course
    decreases |env.ProgOf(id)| - pc
  {
    var prog := env.ProgOf(id);
    if pc >= |prog| || prog[pc].instr.End? then Course(Leave(false), {})
    else
      var own := if prog[pc].instr.Exec? then {prog[pc].fld5} else {};
      var flow := EncFlow(env, prog, pc, s);
      if flow.Goto? && pc < flow.pc <= |prog| then
        var c := CourseFrom(env, id, flow.pc, s);
        Course(c.end, own + c.touched)
      else Course(flow, own)
  }

  /** How many nodes of a list the encoder visits. */
  function Nodes(env: Env, id: nat, s: Field): nat
    decreases s
  {
    var next := NextNode(s, LinkOffset(env.ProgOf(id)));
    if CourseFrom(env, id, 1, s).end.Again? && next.Some? then 1 + Nodes(env, id, next.value) else 1
  }

  /** v is a value for edp; an exact one is in normal form, with nothing in it that the rules do not send. */
  predicate FitsEdp(env: Env, exact: bool, edp: Edp, v: Field)
    decreases env.RankOf(edp), 4
  {
    match edp
    case Basic(k) => v.Num? && InRange(k, v.n)
    case Str => false
    case User(id) =>
      && v.Rec? && id in env.progs
      && if env.IsList(edp) then FitsChain(env, exact, id, v) && Nodes(env, id, v) < 0x1_0000
         else FitsNode(env, exact, id, 1, v) && (exact ==> v.fields.Keys == CourseFrom(env, id, 1, v).touched)
  }

  predicate FitsChain(env: Env, exact: bool, id: nat, s: Field)
    decreases env.RankOf(User(id)), 3, s
  {
    var link := LinkOffset(env.ProgOf(id));
    var c := CourseFrom(env, id, 1, s);
    var next := NextNode(s, link);
    && s.Rec? && FitsNode(env, exact, id, 1, s)
    && (c.end.Again? ==> next.Some? && FitsChain(env, exact, id, next.value))
    && (exact ==> s.fields.Keys == c.touched + {link} && (!c.end.Again? ==> s.fields[link] == Ref(None)))
  }

  /** Every rule on the way finds a field of its type, and no test refuses the value. */
  predicate FitsNode(env: Env, exact: bool, id: nat, pc: nat, s: Field)
    decreases env.RankOf(User(id)), 2, |env.ProgOf(id)| - pc
  {
    var prog := env.ProgOf(id);
    pc >= |prog| || prog[pc].instr.End? ||
    var flow := EncFlow(env, prog, pc, s);
    && FitsRule(env, exact, id, prog[pc], s) && !flow.Crash?
    && (flow.Goto? && pc < flow.pc <= |prog| ==> FitsNode(env, exact, id, flow.pc, s))
  }

  predicate FitsRule(env: Env, exact: bool, id: nat, r: Rule, s: Field)
    decreases env.RankOf(User(id)), 1
  {
    r.instr.Exec? ==>
      s.Rec? && r.fld5 in s.fields && env.RankOf(r.fld1) < env.RankOf(User(id))
        && FitsField(env, exact, r, s, s.fields[r.fld5])
  }

  predicate FitsField(env: Env, exact: bool, r: Rule, s: Field, f: Field)
    decreases env.RankOf(r.fld1), 6
  {
    if r.fld2.pointer then f.Ref? && (f.target.Some? ==> FitsEdp(env, exact, r.fld1, f.target.value))
    else if r.fld2.arr then
      && f.Vec? && |f.elems| == r.fld6
      && if r.fld1 == Basic(Char) then
           var n := StrLen(f.elems);
           n.Some? && n.value < 0x1_0000 && FitsSeq(env, exact, r.fld1, f.elems[..n.value])
             && (exact ==> f.elems[n.value..] == Zeros(r.fld6 - n.value))
         else FitsSeq(env, exact, r.fld1, f.elems)
    else if r.fld2.varLen then
      var n := LengthOf(r.fld3, Peek(s, r.fld6, r.fld3));
      && n.Some? && f.Ref? && (f.target.Some? ==> f.target.value.Vec?)
      && if n.value == 0 then (exact ==> f.target.None?)
         else
           && f.target.Some? && n.value <= |f.target.value.elems| && (exact ==> n.value == |f.target.value.elems|)
           && FitsSeq(env, exact, r.fld1, f.target.value.elems[..n.value])
    else if r.fld1.Str? then f.Text? && (f.text.Some? ==> |f.text.value| < 0x1_0000 && (exact ==> f.text.value != []))
    else FitsEdp(env, exact, r.fld1, f)
  }

  predicate FitsSeq(env: Env, exact: bool, edp: Edp, elems: seq<Field>)
    decreases env.RankOf(edp), 5
  {
    forall i :: 0 <= i < |elems| ==> FitsEdp(env, exact, edp, elems[i])
  }

  /** A structure with a field of the right type for every rule fits, whichever way the labels go, unless one fails. */
  lemma {:induction false} TypedFits(env: Env, exact: bool, id: nat, pc: nat, s: Field)
    requires var prog := env.ProgOf(id);
      forall i :: pc <= i < |prog| && !prog[i].instr.End? ==>
        FitsRule(env, exact, id, prog[i], s) && !EncFlow(env, prog, i, s).Crash?
    ensures FitsNode(env, exact, id, pc, s)
    decreases |env.ProgOf(id)| - pc
  {
    hide FitsRule, EncFlow, FitsEdp;
    var prog := env.ProgOf(id);
    if pc < |prog| && !prog[pc].instr.End? {
      var flow := EncFlow(env, prog, pc, s);
      if flow.Goto? && pc < flow.pc <= |prog| { TypedFits(env, exact, id, flow.pc, s); }
    }
  }

  // ---------- what fits is carried ----------

  /** What has been carried agrees with the value wherever tests and lengths look. */
  ghost predicate Agree(exact: bool, s: Field, stored: Stored, done: Fields) {
    s.Rec? && done.Keys == stored.Keys &&
    forall o :: o in stored ==>
      && o in s.fields && (exact ==> done[o] == s.fields[o])
      && (Numeric(stored[o]) ==> s.fields[o].Num? && done[o] == s.fields[o])
      && (PlainText(stored[o]) ==>
        s.fields[o].Text? && done[o] == if s.fields[o] == Text(Some([])) then Text(None) else s.fields[o])
  }

  lemma SameMap<T>(a: map<int, T>, b: map<int, T>)
    requires a.Keys == b.Keys && forall o :: o in a && o in b ==> a[o] == b[o]
    ensures a == b
  {
    forall o | o in a ensures o in b && a[o] == b[o] { assert o in a.Keys; assert o in b.Keys; }
    forall o | o in b ensures o in a && a[o] == b[o] { assert o in b.Keys; assert o in a.Keys; }
  }

  lemma LlFlow(env: Env, prog: Prog, pc: nat, s: Field)
    requires pc < |prog| && prog[pc].instr.TestLlPtr?
    ensures EncFlow(env, prog, pc, s) == if NoNext(s, prog[pc].fld5) then Leave(true) else Again
  {
  }

  lemma {:induction false} EdpCarries(env: Env, home: set<nat>, exact: bool, edp: Edp, v: Field)
    requires WellFormed(env, home) && Covers(home, edp) && FitsEdp(env, exact, edp, v)
    ensures CarEdp(env, edp, v).Some? && (exact ==> CarEdp(env, edp, v) == Some(v))
    decreases env.RankOf(edp), 4
  {
    hide CarNodeFrom, CarChain, FitsNode, FitsChain, FormFrom;
    if edp.User? {
      if env.IsList(edp) {
        ChainCarries(env, home, exact, edp.id, v);
      } else {
        assert ProgForm(env, home, edp.id);
        NodeCarries(env, home, exact, edp.id, 1, v, map[], map[]);
        if exact { SameMap(CarNodeFrom(env, edp.id, 1, v, map[]).value.fields, v.fields); }
      }
    }
  }

  lemma {:induction false} ChainCarries(env: Env, home: set<nat>, exact: bool, id: nat, s: Field)
    requires WellFormed(env, home) && id in home && env.IsList(User(id)) && FitsChain(env, exact, id, s)
    ensures CarChain(env, id, s).Some? && CarChain(env, id, s).value.1 == Nodes(env, id, s)
    ensures exact ==> CarChain(env, id, s).value.0 == s
    decreases env.RankOf(User(id)), 3, s
  {
    hide CarNodeFrom, FitsNode, FormFrom, CourseFrom, CarEdp;
    assert ProgForm(env, home, id);
    NodeCarries(env, home, exact, id, 1, s, map[], map[]);
    var link := LinkOffset(env.ProgOf(id));
    var n := CarNodeFrom(env, id, 1, s, map[]).value;
    var next := NextNode(s, link);
    if n.end.Again? {
      ChainCarries(env, home, exact, id, next.value);
      if exact { SameMap(n.fields[link := Ref(Some(next.value))], s.fields); }
    } else {
      if exact { SameMap(n.fields[link := Ref(None)], s.fields); }
    }
  }

  lemma {:induction false} NodeCarries(env: Env, home: set<nat>, exact: bool, id: nat, pc: nat, s: Field,
          stored: Stored, done: Fields)
    requires WellFormed(env, home) && FormFrom(env, home, id, pc, stored) && FitsNode(env, exact, id, pc, s)
      && Agree(exact, s, stored, done)
    requires env.IsList(User(id)) ==> LinkOffset(env.ProgOf(id)) !in stored
    ensures CarNodeFrom(env, id, pc, s, done).Some?
    ensures var c := CarNodeFrom(env, id, pc, s, done).value; var w := CourseFrom(env, id, pc, s);
      && c.end == w.end && c.fields.Keys == stored.Keys + w.touched && (c.end.Leave? || c.end.Again?)
      && (env.IsList(User(id)) ==>
        c.end != Leave(false) && LinkOffset(env.ProgOf(id)) !in c.fields && c.lastPc < |env.ProgOf(id)|)
      && (c.end.Again? ==> env.IsList(User(id)))
        && (env.IsList(User(id)) && c.end.Leave? ==> NoNext(s, LinkOffset(env.ProgOf(id))))
      && (exact ==> forall o :: o in c.fields ==> o in s.fields && c.fields[o] == s.fields[o])
    decreases env.RankOf(User(id)), 2, |env.ProgOf(id)| - pc
  {
    hide CarRule, FitsRule, CarEdp, FitsEdp, EncFlow;
    var prog := env.ProgOf(id);
    if pc < |prog| && !prog[pc].instr.End? {
      var r := prog[pc];
      RuleCarries(env, home, exact, id, pc, s, stored, done);
      var flow := EncFlow(env, prog, pc, s);
      if r.instr.TestLlPtr? {
        LlFlow(env, prog, pc, s);
      } else if flow.Goto? {
        assert r.instr.Exec? ==> stored[r.fld5 := r].Keys == stored.Keys + {r.fld5};
        NodeCarries(env, home, exact, id, flow.pc, s, if r.instr.Exec? then stored[r.fld5 := r]
          else stored, CarRule(env, id, r, s, done).value);
      }
    }
  }

  /** One rule is carried, the tests of both sides agree, and the way on is well formed. */
  lemma {:induction false} RuleCarries(env: Env, home: set<nat>, exact: bool, id: nat, pc: nat, s: Field,
          stored: Stored, done: Fields)
    requires WellFormed(env, home) && pc < |env.ProgOf(id)| && !env.ProgOf(id)[pc].instr.End?
    requires FormFrom(env, home, id, pc, stored) && FitsRule(env, exact, id, env.ProgOf(id)[pc], s)
      && Agree(exact, s, stored, done)
    requires !EncFlow(env, env.ProgOf(id), pc, s).Crash?
    ensures var prog := env.ProgOf(id); var r := prog[pc]; var c := CarRule(env, id, r, s, done);
      var stored' := if r.instr.Exec? then stored[r.fld5 := r] else stored;
      c.Some? && Agree(exact, s, stored', c.value)
        && (r.instr.TestLlPtr? || StepForm(env, home, id, pc, stored', EncFlow(env, prog, pc, s)))
    decreases env.RankOf(User(id)), 1
  {
    var r := env.ProgOf(id)[pc];
    if r.instr.Exec? {
      hide FitsEdp, CarEdp, FitsField, CarInline;
      FieldCarries(env, home, exact, id, r, s, stored, done);
    } else if r.instr.Test? {
      assert LabelForm(env, home, id, pc, stored, LabelOn(r, Peek(s, r.fld5, r.fld1)));
    }
  }

  lemma {:induction false} FieldCarries(env: Env, home: set<nat>, exact: bool, id: nat, r: Rule, s: Field,
          stored: Stored, done: Fields)
    requires WellFormed(env, home) && r.instr.Exec? && ExecForm(env, home, id, r, stored)
      && Agree(exact, s, stored, done)
    requires FitsRule(env, exact, id, r, s)
    ensures var f := s.fields[r.fld5];
      var g := if r.fld2.pointer then CarPointer(env, r, f) else CarInline(env, r, s, f, done);
      && g.Some? && (exact ==> g == Some(f))
      && (Numeric(r) ==> f.Num? && g.value == f)
      && (PlainText(r) ==> f.Text? && g.value == if f == Text(Some([])) then Text(None) else f)
    decreases env.RankOf(User(id)), 0
  {
    hide FitsSeq, CarSeq;
    var f := s.fields[r.fld5];
    if r.fld2.pointer {
      if f.target.Some? { EdpCarries(env, home, exact, r.fld1, f.target.value); }
    } else if r.fld2.arr {
      if r.fld1 == Basic(Char) {
        var n := StrLen(f.elems).value;
        SeqCarries(env, home, exact, r.fld1, f.elems[..n]);
        assert exact ==> f.elems == f.elems[..n] + Zeros(r.fld6 - n);
      } else {
        SeqCarries(env, home, exact, r.fld1, f.elems);
      }
    } else if r.fld2.varLen {
      assert done[r.fld6] == s.fields[r.fld6];
      var n := LengthOf(r.fld3, Peek(s, r.fld6, r.fld3)).value;
      if n != 0 {
        var elems := f.target.value.elems;
        SeqCarries(env, home, exact, r.fld1, elems[..n]);
        assert exact ==> elems[..n] == elems;
      }
    } else if !r.fld1.Str? {
      EdpCarries(env, home, exact, r.fld1, f);
    }
  }

  lemma {:induction false} SeqCarries(env: Env, home: set<nat>, exact: bool, edp: Edp, elems: seq<Field>)
    requires WellFormed(env, home) && Covers(home, edp) && FitsSeq(env, exact, edp, elems)
    ensures CarSeq(env, edp, elems).Some? && (exact ==> CarSeq(env, edp, elems) == Some(elems))
    decreases env.RankOf(edp), 5, |elems|
  {
    hide CarEdp, FitsEdp;
    if elems != [] {
      EdpCarries(env, home, exact, edp, elems[0]);
      SeqCarries(env, home, exact, edp, elems[1..]);
      assert elems == [elems[0]] + elems[1..];
    }
  }
}
