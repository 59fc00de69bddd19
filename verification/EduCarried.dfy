/**
  What the wire carries.  Carried maps a value to the value the peer will hold, and is
  undefined when a program or a value leaves the discipline the format relies on.  It
  looks at rules and values only, never at bytes.
 */
module EduCarried {
  import opened EduModel
  import opened EduFlow
  import opened EduDecode

  /** A structure that has at least these fields. */
  ghost predicate Extends(part: Fields, whole: Field) {
    whole.Rec? && forall o :: o in part ==> o in whole.fields && whole.fields[o] == part[o]
  }

  datatype CarNodeOut = CarNode(fields: Fields, end: Flow, lastPc: nat)

  /** After the list test the decoder runs on; it must meet the end of the program. */
  predicate LlTestIsLast(prog: Prog, pc: nat)
    requires pc < |prog|
  {
    var next := DecNext(prog, pc, EDU_NEXT);
    next.Leave? || (next.Goto? && pc < next.pc <= |prog| && (next.pc == |prog| || prog[next.pc].instr.End?))
  }

  /** The encoder restarts each further list node at rule 0, the decoder at rule 1. */
  predicate StartFallsThrough(prog: Prog) {
    |prog| > 1 && prog[0].instr.Start? && EncNext(prog, 0, EDU_NEXT) == Goto(1)
  }

  function CarEdp(env: Env, edp: Edp, f: Field): Option<Field>
    decreases env.RankOf(edp), 4
  {
    match edp
    case Basic(k) => if f.Num? && InRange(k, f.n) then Some(f) else None
    case Str => None
    case User(id) =>
      if !f.Rec? then None
      else if env.IsList(edp) then
        var c := CarChain(env, id, f);
        if c.Some? && c.value.1 < 0x1_0000 then Some(c.value.0) else None
      else
        var n := CarNodeFrom(env, id, 1, f, map[]);
        if n.Some? && n.value.end.Leave? then Some(Rec(n.value.fields)) else None
  }

  /** A linked list with its number of nodes. */
  function CarChain(env: Env, id: nat, s: Field): Option<(Field, nat)>
    decreases env.RankOf(User(id)), 3, s
  {
    var prog := env.ProgOf(id);
    var link := LinkOffset(prog);
    var n := CarNodeFrom(env, id, 1, s, map[]);
    if !s.Rec? || !StartFallsThrough(prog) || n.None? || link in n.value.fields then None
    else if n.value.end == Leave(true) then
      if NoNext(s, link) then Some((Rec(n.value.fields[link := Ref(None)]), 1)) else None
    else if !n.value.end.Again? || n.value.lastPc >= |prog| then None
    else if !(link in s.fields && s.fields[link].Ref? && s.fields[link].target.Some?) then None
    else if id !in env.allocs then None
    else
      var tail := CarChain(env, id, s.fields[link].target.value);
      if tail.None? then None
      else Some((Rec(n.value.fields[link := Ref(Some(tail.value.0))]), tail.value.1 + 1))
  }

  /** One structure from one program counter on; done holds the fields already carried. */
  function CarNodeFrom(env: Env, id: nat, pc: nat, s: Field, done: Fields): Option<CarNodeOut>
    decreases env.RankOf(User(id)), 2, |env.ProgOf(id)| - pc
  {
    var prog := env.ProgOf(id);
    if pc > |prog| then None
    else if pc == |prog| || prog[pc].instr.End? then Some(CarNode(done, Leave(false), pc))
    else
      var done' := CarRule(env, id, prog[pc], s, done);
      if done'.None? then None
      else if prog[pc].instr.TestLlPtr? then
        if !LlTestIsLast(prog, pc) || !env.IsList(User(id)) || prog[pc].fld5 != LinkOffset(prog) then None
        else Some(CarNode(done'.value, if NoNext(s, prog[pc].fld5) then Leave(true) else Again, pc))
      else
        match EncFlow(env, prog, pc, s)
        case Crash => None
        case Again => None
        case Leave(patched) => Some(CarNode(done'.value, Leave(patched), pc))
        case Goto(q) => if pc < q <= |prog| then CarNodeFrom(env, id, q, s, done'.value) else None
  }

  /** One rule.  A test reads a field already carried, and must not tell the sender's copy from the peer's. */
  function CarRule(env: Env, id: nat, r: Rule, s: Field, done: Fields): Option<Fields>
    decreases env.RankOf(User(id)), 1
  {
    if r.instr.Test? then
      if r.fld5 in done && TestLabel(r, s) == TestLabel(r, Rec(done)) then Some(done) else None
    else if !r.instr.Exec? then Some(done)
    else if !(s.Rec? && r.fld5 in s.fields) || r.fld5 in done || env.RankOf(r.fld1) >= env.RankOf(User(id)) then None
    else
      var g := if r.fld2.pointer then CarPointer(env, r, s.fields[r.fld5])
        else CarInline(env, r, s, s.fields[r.fld5], done);
      if g.Some? then Some(done[r.fld5 := g.value]) else None
  }

  function CarPointer(env: Env, r: Rule, f: Field): Option<Field>
    decreases env.RankOf(r.fld1), 6
  {
    if r.fld2.varLen || r.fld1.Str? || !f.Ref? then None
    else if f.target.None? then Some(f)
    else if r.fld1.User? && r.fld1.id !in env.allocs then None
    else
      var g := CarEdp(env, r.fld1, f.target.value);
      if g.Some? then Some(Ref(g)) else None
  }

  function CarInline(env: Env, r: Rule, s: Field, f: Field, done: Fields): Option<Field>
    decreases env.RankOf(r.fld1), 6
  {
    if r.fld2.arr then
      if r.fld2.varLen || r.fld1.Str? || !f.Vec? || |f.elems| != r.fld6 then None
      else if r.fld1 == Basic(Char) then
        var n := StrLen(f.elems);
        if n.None? || n.value >= 0x1_0000 then None
        else
          var g := CarSeq(env, r.fld1, f.elems[..n.value]);
          if g.Some? then Some(Vec(g.value + Zeros(r.fld6 - n.value))) else None
      else
        var g := CarSeq(env, r.fld1, f.elems);
        if g.Some? then Some(Vec(g.value)) else None
    else if r.fld2.varLen then
      var n := LengthOf(r.fld3, Peek(s, r.fld6, r.fld3));
      if n.None? || r.fld1.Str? || r.fld6 !in done || n != LengthOf(r.fld3, Peek(Rec(done), r.fld6, r.fld3)) then None
      else if n.value == 0 then (if f.Ref? && (f.target.None? || f.target.value.Vec?) then Some(Ref(None)) else None)
      else if !(f.Ref? && f.target.Some? && f.target.value.Vec? && n.value <= |f.target.value.elems|) then None
      else
        var g := CarSeq(env, r.fld1, f.target.value.elems[..n.value]);
        if g.Some? then Some(Ref(Some(Vec(g.value)))) else None
    else if r.fld1.Str? then
      if !f.Text? || (f.text.Some? && |f.text.value| >= 0x1_0000) then None
      else if f.text == Some([]) then Some(Text(None))
      else Some(f)
    else CarEdp(env, r.fld1, f)
  }

  function CarSeq(env: Env, edp: Edp, elems: seq<Field>): Option<seq<Field>>
    decreases env.RankOf(edp), 5, |elems|
  {
    if elems == [] then Some([])
    else
      var g := CarEdp(env, edp, elems[0]);
      var gs := CarSeq(env, edp, elems[1..]);
      if g.Some? && gs.Some? then Some([g.value] + gs.value) else None
  }
}
