/**
  The octets the format asks for: one program run on one value, with a count in front of every pointer
  to anything but a list.  The encoder of EduEncode writes them unless its pointer attribute is stale.
 */
module EduFormat {
  import opened EduModel
  import opened EduFlow

  /** Fail is an EDU error return; Stray is anything the C code leaves undefined or never finishes. */
  datatype FmtOut = Fail | Stray | Ok(bytes: seq<byte>)

  datatype NodeOut = NodeFail | NodeStray | Node(bytes: seq<byte>, end: Flow, lastPc: nat, path: seq<nat>)

  datatype ChainOut = ChainFail | ChainStray | Chain(bytes: seq<byte>, count: nat, patched: bool)

  /** One program run on one object: ncs_edu_run_edp while encoding. */
  function FmtEdp(env: Env, edp: Edp, f: Field): FmtOut
    decreases env.RankOf(edp), 4
  {
    match edp
    case Basic(k) => if f.Num? then Ok(EncBasic(k, f.n)) else Stray
    case Str => Ok(U16(0))  // reached from arrays and pointers only, with a zero length
    case User(id) =>
      match FmtChain(env, id, 1, f)
      case ChainFail => Fail
      case ChainStray => Stray
      case Chain(b, count, patched) =>
        if !env.IsList(edp) then Ok(b)
        else if patched then Ok(U16(count) + b)
        else Ok([env.junk.0, env.junk.1] + b)
  }

  /** The whole encoding loop: node after node as long as EDU_TEST_LL_PTR finds a next one. */
  function FmtChain(env: Env, id: nat, pc: nat, s: Field): ChainOut
    decreases env.RankOf(User(id)), 3, s
  {
    match FmtNode(env, id, pc, s)
    case NodeFail => ChainFail
    case NodeStray => ChainStray
    case Node(b, end, lastPc, _) =>
      if end.Leave? then Chain(b, 1, end.patched)
      else if lastPc >= |env.ProgOf(id)| then ChainStray
      else
        var next := env.ProgOf(id)[lastPc].fld5;
        if !(s.Rec? && next in s.fields && s.fields[next].Ref? && s.fields[next].target.Some?) then ChainStray
        else match FmtChain(env, id, 0, s.fields[next].target.value)
          case ChainFail => ChainFail
          case ChainStray => ChainStray
          case Chain(b', count, patched) => Chain(b + b', count + 1, patched)
  }

  /** The loop from one program counter to the end of the current structure. */
  function FmtNode(env: Env, id: nat, pc: nat, s: Field): (out: NodeOut)
    ensures out.Node? ==> out.end.Leave? || out.end.Again?
    decreases env.RankOf(User(id)), 2, |env.ProgOf(id)| - pc
  {
    var prog := env.ProgOf(id);
    if pc > |prog| then NodeStray
    else if pc == |prog| || prog[pc].instr.End? then Node([], Leave(false), pc, [])
    else match FmtRule(env, id, prog[pc], s)
      case Fail => NodeFail
      case Stray => NodeStray
      case Ok(b) =>
        match EncFlow(env, prog, pc, s)
        case Crash => NodeFail
        case Leave(patched) => Node(b, Leave(patched), pc, [pc])
        case Again => Node(b, Again, pc, [pc])
        case Goto(q) =>
          if !(pc < q <= |prog|) then NodeStray
          else match FmtNode(env, id, q, s)
            case NodeFail => NodeFail
            case NodeStray => NodeStray
            case Node(b', end, lastPc, path) => Node(b + b', end, lastPc, [pc] + path)
  }

  /** The bytes of one rule: the pointer count written by the loop, then the action of EDU_EXEC. */
  function FmtRule(env: Env, id: nat, r: Rule, s: Field): FmtOut
    decreases env.RankOf(User(id)), 1
  {
    if !r.instr.Exec? then Ok([])
    else if !(s.Rec? && r.fld5 in s.fields) || env.RankOf(r.fld1) >= env.RankOf(User(id)) then Stray
    else
      var f := s.fields[r.fld5];
      if r.fld2.pointer then
        if !f.Ref? then Stray
        else if f.target.None? then Ok(U16(0))
        else match FmtEdp(env, r.fld1, f.target.value)
          case Fail => Fail
          case Stray => Stray
          case Ok(b) => Ok((if env.IsList(r.fld1) then [] else U16(1)) + b)
      else FmtInline(env, r, s, f)
  }

  /** ncs_edu_prfm_enc_on_non_ptr. */
  function FmtInline(env: Env, r: Rule, s: Field, f: Field): FmtOut
    decreases env.RankOf(r.fld1), 6
  {
    if r.fld2.arr then
      if !f.Vec? then Stray
      else if r.fld1 == Basic(Char) then
        var n := StrLen(f.elems);
        if n.None? then Stray
        else
          var n16 := n.value % 0x1_0000;
          match FmtSeq(env, r.fld1, f.elems[..n16])
          case Fail => Fail
          case Stray => Stray
          case Ok(b) => Ok(U16(n16) + b)
      else if |f.elems| != r.fld6 then Stray
      else FmtSeq(env, r.fld1, f.elems)
    else if r.fld2.varLen then
      var n := LengthOf(r.fld3, Peek(s, r.fld6, r.fld3));
      if n.None? || r.fld1.Str? then Fail
      else if n.value == 0 then Ok([])
      else if !(f.Ref? && f.target.Some? && f.target.value.Vec? && n.value <= |f.target.value.elems|) then Stray
      else FmtSeq(env, r.fld1, f.target.value.elems[..n.value])
    else if r.fld1.Str? then
      if !f.Text? then Stray
      else
        var t := if f.text.Some? then f.text.value else [];
        Ok(U16(|t|) + t[..|t| % 0x1_0000])
    else FmtEdp(env, r.fld1, f)
  }

  /** The loops over array and variable-length elements. */
  function FmtSeq(env: Env, edp: Edp, elems: seq<Field>): FmtOut
    decreases env.RankOf(edp), 5, |elems|
  {
    if elems == [] then Ok([])
    else match FmtEdp(env, edp, elems[0])
      case Fail => Fail
      case Stray => Stray
      case Ok(b) =>
        match FmtSeq(env, edp, elems[1..])
        case Fail => Fail
        case Stray => Stray
        case Ok(b') => Ok(b + b')
  }
}
