/**
  The decoding interpreter: ncs_edu_run_rules_for_dec and the functions below it,
  reading from the front of a byte sequence and building the structure from zeroed memory.
 */
module EduDecode {
  import opened EduModel
  import opened EduFlow

  /**
    Fail is an error return or running out of input; Overrun is writing behind the end of a char array;
    Stray is a run that is undefined in any other way or does not come back.
   */
  datatype In<+T> = InFail | InStray | InOverrun | Got(value: T, rest: seq<byte>)

  datatype NodeIn = NodeIn(fields: Fields, path: seq<nat>)

  function TakeU16(inp: seq<byte>): In<nat> {
    if |inp| < 2 then InFail else Got(FromU16(inp[..2]), inp[2..])
  }

  /** NCS_EDU_ADMIN_OP_TYPE_GET_LL_NEXT_OFFSET: the last EDU_TEST_LL_PTR before the first EDU_END. */
  function NextOffset(prog: Prog, pc: nat, found: Option<int>): Option<int>
    decreases |prog| - pc
  {
    if pc >= |prog| || prog[pc].instr.End? then found
    else NextOffset(prog, pc + 1, if prog[pc].instr.TestLlPtr? then Some(prog[pc].fld5) else found)
  }

  function LinkOffset(prog: Prog): int {
    var o := NextOffset(prog, 0, None);
    if o.Some? then o.value else 0
  }

  /** The label ncs_edu_exec_rule returns while decoding, once an EDU_EXEC has stored its field. */
  function DecLabel(env: Env, r: Rule, acc: Fields): int {
    match r.instr
    case Test => TestLabel(r, Rec(acc))
    case VerGe | VerUsr => VersionLabel(env, r)
    case _ => EDU_NEXT
  }

  /** What the decoding loop does with a label. */
  function DecNext(prog: Prog, pc: nat, lbl: int): Flow
    requires pc < |prog|
  {
    var r := prog[pc];
    if lbl == 0 || lbl == EDU_NEXT then
      if r.instr.VerGe? || r.instr.VerUsr? then Goto(pc + 1)
      else
        var j := if r.fld2.varLen then pc + 1 else pc;
        if j >= |prog| then Crash
        else
          var l := prog[j].nxtLbl;
          if l == 0 || l == EDU_NEXT then Goto(j + 1)
          else if l == EDU_EXIT then Leave(false)
          else if l == EDU_SAME then Goto(j + 1)
          else if prog[j].instr.Exec? then Goto(l)
          else Goto(j + 1)
    else if lbl == EDU_EXIT || lbl == EDU_SAME then Leave(true)
    else if lbl == EDU_FAIL then Crash
    else if r.instr.Test? || r.instr.VerGe? || r.instr.VerUsr? then
      if pc + lbl >= |prog| then Crash else Goto(pc + lbl)
    else Goto(lbl)
  }

  /** ncs_edu_run_edp into memory that is already there. */
  function DecEdp(env: Env, edp: Edp, inp: seq<byte>): In<Field>
    decreases env.RankOf(edp), 5
  {
    match edp
    case Basic(k) =>
      if |inp| < Width(k) then InFail else Got(Num(DecBasic(k, inp[..Width(k)])), inp[Width(k)..])
    case Str => DecText(inp)
    case User(id) =>
      if !env.IsList(edp) then
        match DecNode(env, id, 1, map[], inp)
        case InFail => InFail
        case InStray => InStray
        case InOverrun => InOverrun
        case Got(n, rest) => Got(Rec(n.fields), rest)
      else match TakeU16(inp)
        case InFail => InFail
        case InStray => InStray
        case InOverrun => InOverrun
        case Got(count, rest) =>
          match DecNodes(env, id, count, true, rest)
          case InFail => InFail
          case InStray => InStray
          case InOverrun => InOverrun
          case Got(f, rest') => Got(if f.Some? then f.value else Rec(map[]), rest')
  }

  /** The loop of ncs_edu_run_edp over list nodes; all but a node already in memory must be allocated. */
  function DecNodes(env: Env, id: nat, count: nat, inMemory: bool, inp: seq<byte>): In<Option<Field>>
    decreases env.RankOf(User(id)), 4, count
  {
    if count == 0 then Got(None, inp)
    else if !inMemory && id !in env.allocs then InFail
    else match DecNode(env, id, 1, map[], inp)
      case InFail => InFail
      case InStray => InStray
      case InOverrun => InOverrun
      case Got(n, rest) =>
        match DecNodes(env, id, count - 1, false, rest)
        case InFail => InFail
        case InStray => InStray
        case InOverrun => InOverrun
        case Got(tail, rest') => Got(Some(Rec(n.fields[LinkOffset(env.ProgOf(id)) := Ref(tail)])), rest')
  }

  /** The decoding loop over one structure. */
  function DecNode(env: Env, id: nat, pc: nat, acc: Fields, inp: seq<byte>): In<NodeIn>
    decreases env.RankOf(User(id)), 3, |env.ProgOf(id)| - pc
  {
    var prog := env.ProgOf(id);
    if pc > |prog| then InStray
    else if pc == |prog| || prog[pc].instr.End? then Got(NodeIn(acc, []), inp)
    else match DecRule(env, id, prog[pc], acc, inp)
      case InFail => InFail
      case InStray => InStray
      case InOverrun => InOverrun
      case Got(acc', rest) =>
        match DecNext(prog, pc, DecLabel(env, prog[pc], acc'))
        case Crash => InFail
        case Leave(_) => Got(NodeIn(acc', [pc]), rest)
        case Again => Got(NodeIn(acc', [pc]), rest)
        case Goto(q) =>
          if !(pc < q <= |prog|) then InStray
          else match DecNode(env, id, q, acc', rest)
            case InFail => InFail
            case InStray => InStray
            case InOverrun => InOverrun
            case Got(n, rest') => Got(NodeIn(n.fields, [pc] + n.path), rest')
  }

  /** One rule: EDU_EXEC stores a field, everything else leaves the structure alone. */
  function DecRule(env: Env, id: nat, r: Rule, acc: Fields, inp: seq<byte>): In<Fields>
    decreases env.RankOf(User(id)), 2
  {
    if !r.instr.Exec? then Got(acc, inp)
    else if env.RankOf(r.fld1) >= env.RankOf(User(id)) then InStray
    else
      var got := if r.fld2.pointer then DecPointer(env, r.fld1, inp) else DecInline(env, r, acc, inp);
      match got
      case InFail => InFail
      case InStray => InStray
      case InOverrun => InOverrun
      case Got(f, rest) => Got(acc[r.fld5 := f], rest)
  }

  /** A pointer field: its count, then that many runs into the same slot. */
  function DecPointer(env: Env, edp: Edp, inp: seq<byte>): In<Field>
    decreases env.RankOf(edp), 7
  {
    match TakeU16(inp)
    case InFail => InFail
    case InStray => InStray
    case InOverrun => InOverrun
    case Got(count, rest) =>
      if env.IsList(edp) then
        match DecNodes(env, edp.id, count, false, rest)
        case InFail => InFail
        case InStray => InStray
        case InOverrun => InOverrun
        case Got(f, rest') => Got(Ref(f), rest')
      else if edp.Str? then InStray
      else if count > 0 && edp.User? && edp.id !in env.allocs then InFail
      else DecRepeat(env, edp, count, None, rest)
  }

  function DecRepeat(env: Env, edp: Edp, count: nat, last: Option<Field>, inp: seq<byte>): In<Field>
    decreases env.RankOf(edp), 6, count
  {
    if count == 0 then Got(Ref(last), inp)
    else match DecEdp(env, edp, inp)
      case InFail => InFail
      case InStray => InStray
      case InOverrun => InOverrun
      case Got(f, rest) => DecRepeat(env, edp, count - 1, Some(f), rest)
  }

  function DecText(inp: seq<byte>): In<Field> {
    match TakeU16(inp)
    case InFail => InFail
    case InStray => InStray
    case InOverrun => InOverrun
    case Got(n, rest) =>
      if n == 0 then Got(Text(None), rest)
      else if |rest| < n then InFail
      else Got(Text(Some(rest[..n])), rest[n..])
  }

  /** ncs_edu_prfm_dec_on_non_ptr. */
  function DecInline(env: Env, r: Rule, acc: Fields, inp: seq<byte>): In<Field>
    decreases env.RankOf(r.fld1), 7
  {
    if r.fld2.varLen then
      var n := LengthOf(r.fld3, Peek(Rec(acc), r.fld6, r.fld3));
      if n.None? || r.fld1.Str? then InFail
      else if n.value == 0 then Got(Ref(None), inp)
      else match DecSeq(env, r.fld1, n.value, inp)
        case InFail => InFail
        case InStray => InStray
        case InOverrun => InOverrun
        case Got(elems, rest) => Got(Ref(Some(Vec(elems))), rest)
    else if r.fld1.Str? then DecText(inp)
    else if r.fld2.arr then
      if r.fld1 == Basic(Char) then
        match TakeU16(inp)
        case InFail => InFail
        case InStray => InStray
        case InOverrun => InOverrun
        case Got(n, rest) =>
          if n > r.fld6 then (if |rest| > r.fld6 then InOverrun else InFail)
          else match DecSeq(env, r.fld1, n, rest)
            case InFail => InFail
            case InStray => InStray
            case InOverrun => InOverrun
            case Got(elems, rest') => Got(Vec(elems + Zeros(r.fld6 - n)), rest')
      else if r.fld6 < 0 then InStray
      else match DecSeq(env, r.fld1, r.fld6, inp)
        case InFail => InFail
        case InStray => InStray
        case InOverrun => InOverrun
        case Got(elems, rest) => Got(Vec(elems), rest)
    else DecEdp(env, r.fld1, inp)
  }

  /** The part of a char array the decoder never writes. */
  function Zeros(n: nat): (z: seq<Field>)
    ensures |z| == n && forall i :: 0 <= i < n ==> z[i] == Num(0)
  {
    seq(n, _ => Num(0))
  }

  function DecSeq(env: Env, edp: Edp, count: nat, inp: seq<byte>): In<seq<Field>>
    decreases env.RankOf(edp), 6, count
  {
    if count == 0 then Got([], inp)
    else match DecEdp(env, edp, inp)
      case InFail => InFail
      case InStray => InStray
      case InOverrun => InOverrun
      case Got(f, rest) =>
        match DecSeq(env, edp, count - 1, rest)
        case InFail => InFail
        case InStray => InStray
        case InOverrun => InOverrun
        case Got(fs, rest') => Got([f] + fs, rest')
  }
}
