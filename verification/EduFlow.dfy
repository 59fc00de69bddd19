/** What both sides of EDU do with labels, tests and lengths. */
module EduFlow {
  import opened EduModel

  /** Where control goes after one rule. */
  datatype Flow = Goto(pc: int) | Leave(patched: bool) | Again | Crash

  /** Reading a field the way a test routine does: untouched memory is zero. */
  function Peek(s: Field, offset: int, edp: Edp): Field {
    if s.Rec? && offset in s.fields then s.fields[offset]
    else if edp.Basic? then Num(0) else if edp.Str? then Text(None) else Rec(map[])
  }

  predicate IsNull(f: Field) {
    f.Ref? && f.target.None?
  }

  /** The next pointer of a list node is NULL. */
  predicate NoNext(s: Field, offset: int) {
    s.Rec? ==> offset in s.fields ==> IsNull(s.fields[offset])
  }

  /** The node behind a next pointer. */
  function NextNode(s: Field, link: int): Option<Field> {
    if s.Rec? && link in s.fields && s.fields[link].Ref? then s.fields[link].target else None
  }

  /** A version routine that never skips. */
  function NoVersion(v: nat): int { 0 }

  /** ncs_edu_get_size_of_var_len_data: the count converted to uint32_t. */
  function LengthOf(edp: Edp, f: Field): Option<nat> {
    if edp.Basic? && !edp.kind.NcsBool? && !edp.kind.Char? && f.Num? then Some(f.n % 0x1_0000_0000) else None
  }

  /** strlen over a char array; None when no terminator lies inside it. */
  function StrLen(elems: seq<Field>): (r: Option<nat>)
    ensures r.Some? ==> r.value < |elems| && elems[r.value] == Num(0)
    ensures r.Some? ==> forall i :: 0 <= i < r.value ==> elems[i] != Num(0)
  {
    if elems == [] then None
    else if elems[0] == Num(0) then Some(0)
    else var r := StrLen(elems[1..]); if r.Some? then Some(r.value + 1) else None
  }

  function VersionLabel(env: Env, r: Rule): int {
    if r.fld7.NoRoutine? then EDU_EXIT
    else if r.instr.VerGe? then (if env.version >= r.fld7.minVersion then EDU_NEXT else r.nxtLbl)
    else r.fld7.onVersion(env.version)
  }

  function LabelOn(r: Rule, x: Field): int {
    if r.fld7.NoRoutine? then EDU_EXIT else r.fld7.onField(x)
  }

  function TestLabel(r: Rule, s: Field): int {
    LabelOn(r, Peek(s, r.fld5, r.fld1))
  }

  /** The label ncs_edu_exec_rule returns while encoding, once an EDU_EXEC has written its bytes. */
  function EncLabel(env: Env, r: Rule, s: Field): int {
    match r.instr
    case Test => TestLabel(r, s)
    case VerGe | VerUsr => VersionLabel(env, r)
    case TestLlPtr => if NoNext(s, r.fld5) then EDU_EXIT else EDU_SAME
    case _ => EDU_NEXT
  }

  /** What the encoding loop does with a label. */
  function EncNext(prog: Prog, pc: nat, lbl: int): Flow
    requires pc < |prog|
  {
    var r := prog[pc];
    if lbl == 0 || lbl == EDU_NEXT then
      if r.instr.VerGe? || r.instr.VerUsr? then Goto(pc + 1)
      else
        var j := if r.fld2.varLen then pc + 1 else pc;
        if j >= |prog| then Crash
        else
          var l := prog[j].nxtLbl;
          if l == 0 || l == EDU_NEXT then Goto(j + 1)
          else if l == EDU_EXIT then Leave(false)
          else if l == EDU_SAME then Crash
          else if prog[j].instr.Exec? then Goto(l)
          else Goto(j + 1)
    else if lbl == EDU_EXIT then Leave(true)
    else if lbl == EDU_SAME then Again
    else if lbl == EDU_FAIL then Crash
    else if r.instr.Test? || r.instr.VerGe? || r.instr.VerUsr? then
      if pc + lbl >= |prog| then Crash else Goto(pc + lbl)
    else Goto(lbl)
  }

  /** The shortcut the encoding loop takes itself when a pointer field is NULL. */
  function EncNullNext(prog: Prog, pc: nat): Flow
    requires pc < |prog|
  {
    var l := prog[pc].nxtLbl;
    if l == 0 || l == EDU_NEXT then Goto(pc + 1) else if l == EDU_EXIT then Leave(false) else Goto(l)
  }

  predicate NullPointerRule(r: Rule, s: Field) {
    r.instr.Exec? && r.fld2.pointer && s.Rec? && r.fld5 in s.fields && IsNull(s.fields[r.fld5])
  }

  function EncFlow(env: Env, prog: Prog, pc: nat, s: Field): Flow
    requires pc < |prog|
  {
    if NullPointerRule(prog[pc], s) then EncNullNext(prog, pc)
    else EncNext(prog, pc, EncLabel(env, prog[pc], s))
  }
}
