/**
  The encoding interpreter: ncs_edu_run_rules_for_enc and the functions below it, writing to a USRBUF chain
  seen as a byte sequence.  Besides the bytes it has state: the built-in programs entered in the handle's
  tree, and in each loop the linked-list bit of dtype_attrb, which decides whether a pointer gets a count.
 */
module EduEncode {
  import opened EduModel
  import opened EduFlow

  /** A pointer rule as a loop met it: where it leads, whether it was NULL, and whether its program was in the tree. */
  datatype Event = Event(edp: Edp, isNull: bool, inTree: bool)

  /**
    Fail is an EDU error return; Stray is anything the C code leaves undefined or never finishes.
    loops holds, for each loop that was run, nested ones included, the pointer rules it met.
   */
  datatype Out = Fail | Stray | Ok(bytes: seq<byte>, tree: set<Edp>, loops: set<seq<Event>>)

  datatype EncNodeOut =
    | EncNodeFail
    | EncNodeStray
    | EncNoded(bytes: seq<byte>, end: Flow, lastPc: nat, path: seq<nat>, bit: bool, tree: set<Edp>, events: seq<Event>,
      loops: set<seq<Event>>)

  datatype EncChainOut =
    | EncChainFail
    | EncChainStray
    | EncChained(bytes: seq<byte>, count: nat, patched: bool, tree: set<Edp>, events: seq<Event>,
      loops: set<seq<Event>>)

  /**
    User programs are in the tree once compiled, built-in ones only after they have run; those ignore the attribute
    query.
   */
  predicate Answers(tree: set<Edp>, edp: Edp) {
    edp.User? || edp in tree
  }

  /** The bit after the program behind a pointer has been looked up. */
  function Lookup(env: Env, tree: set<Edp>, bit: bool, edp: Edp): bool {
    if Answers(tree, edp) then env.IsList(edp) else bit
  }

  predicate PointerRule(r: Rule) {
    r.instr.Exec? && r.fld2.pointer
  }

  function BitAfter(env: Env, r: Rule, bit: bool, tree: set<Edp>): bool {
    if PointerRule(r) then Lookup(env, tree, bit, r.fld1) else bit
  }

  function Met(r: Rule, s: Field, tree: set<Edp>): seq<Event> {
    if PointerRule(r) then [Event(r.fld1, NullPointerRule(r, s), Answers(tree, r.fld1))] else []
  }

  /** One program run on one object: ncs_edu_run_edp while encoding. */
  function EncEdp(env: Env, tree: set<Edp>, edp: Edp, f: Field): Out
    decreases env.RankOf(edp), 4
  {
    match edp
    case Basic(k) => if f.Num? then Ok(EncBasic(k, f.n), tree + {edp}, {}) else Stray
    case Str => Ok(U16(0), tree + {edp}, {})  // reached from arrays and pointers only, with a zero length
    case User(id) =>
      match EncChain(env, id, 1, f, false, tree)
      case EncChainFail => Fail
      case EncChainStray => Stray
      case EncChained(b, count, patched, tree', events, loops) =>
        var head := if !env.IsList(edp) then [] else if patched then U16(count) else [env.junk.0, env.junk.1];
        Ok(head + b, tree', loops + {events})
  }

  /**
    The whole encoding loop: node after node as long as EDU_TEST_LL_PTR finds a next one; the bit outlives the node.
   */
  function EncChain(env: Env, id: nat, pc: nat, s: Field, bit: bool, tree: set<Edp>): EncChainOut
    decreases env.RankOf(User(id)), 3, s
  {
    match EncNode(env, id, pc, s, bit, tree)
    case EncNodeFail => EncChainFail
    case EncNodeStray => EncChainStray
    case EncNoded(b, end, lastPc, _, bit', tree', events, loops) =>
      if end.Leave? then EncChained(b, 1, end.patched, tree', events, loops)
      else if lastPc >= |env.ProgOf(id)| then EncChainStray
      else
        var next := env.ProgOf(id)[lastPc].fld5;
        if !(s.Rec? && next in s.fields && s.fields[next].Ref? && s.fields[next].target.Some?) then EncChainStray
        else match EncChain(env, id, 0, s.fields[next].target.value, bit', tree')
          case EncChainFail => EncChainFail
          case EncChainStray => EncChainStray
          case EncChained(b', count, patched, tree'', events', loops') =>
            EncChained(b + b', count + 1, patched, tree'', events + events', loops + loops')
  }

  /** The loop from one program counter to the end of the current structure. */
  function EncNode(env: Env, id: nat, pc: nat, s: Field, bit: bool, tree: set<Edp>): (out: EncNodeOut)
    ensures out.EncNoded? ==> out.end.Leave? || out.end.Again?
    decreases env.RankOf(User(id)), 2, |env.ProgOf(id)| - pc
  {
    var prog := env.ProgOf(id);
    if pc > |prog| then EncNodeStray
    else if pc == |prog| || prog[pc].instr.End? then EncNoded([], Leave(false), pc, [], bit, tree, [], {})
    else
      var r := prog[pc];
      var bit' := BitAfter(env, r, bit, tree);
      match EncRule(env, id, r, s, bit', tree)
      case Fail => EncNodeFail
      case Stray => EncNodeStray
      case Ok(b, tree', loops) =>
        match EncFlow(env, prog, pc, s)
        case Crash => EncNodeFail
        case Leave(patched) => EncNoded(b, Leave(patched), pc, [pc], bit', tree', Met(r, s, tree), loops)
        case Again => EncNoded(b, Again, pc, [pc], bit', tree', Met(r, s, tree), loops)
        case Goto(q) =>
          if !(pc < q <= |prog|) then EncNodeStray
          else match EncNode(env, id, q, s, bit', tree')
            case EncNodeFail => EncNodeFail
            case EncNodeStray => EncNodeStray
            case EncNoded(b', end, lastPc, path, bit'', tree'', events, loops') =>
              EncNoded(b + b', end, lastPc, [pc] + path, bit'', tree'', Met(r, s, tree) + events, loops + loops')
  }

  /** The bytes of one rule: the pointer count the loop writes unless the bit is set, then the action of EDU_EXEC. */
  function EncRule(env: Env, id: nat, r: Rule, s: Field, bit: bool, tree: set<Edp>): Out
    decreases env.RankOf(User(id)), 1
  {
    if !r.instr.Exec? then Ok([], tree, {})
    else if !(s.Rec? && r.fld5 in s.fields) || env.RankOf(r.fld1) >= env.RankOf(User(id)) then Stray
    else
      var f := s.fields[r.fld5];
      if r.fld2.pointer then
        if !f.Ref? then Stray
        else if f.target.None? then Ok(U16(0), tree, {})
        else match EncEdp(env, tree, r.fld1, f.target.value)
          case Fail => Fail
          case Stray => Stray
          case Ok(b, tree', loops) => Ok((if bit then [] else U16(1)) + b, tree', loops)
      else EncInline(env, tree, r, s, f)
  }

  /** ncs_edu_prfm_enc_on_non_ptr. */
  function EncInline(env: Env, tree: set<Edp>, r: Rule, s: Field, f: Field): Out
    decreases env.RankOf(r.fld1), 6
  {
    if r.fld2.arr then
      if !f.Vec? then Stray
      else if r.fld1 == Basic(Char) then
        var n := StrLen(f.elems);
        if n.None? then Stray
        else
          var n16 := n.value % 0x1_0000;
          match EncSeq(env, tree, r.fld1, f.elems[..n16])
          case Fail => Fail
          case Stray => Stray
          case Ok(b, tree', loops) => Ok(U16(n16) + b, tree', loops)
      else if |f.elems| != r.fld6 then Stray
      else EncSeq(env, tree, r.fld1, f.elems)
    else if r.fld2.varLen then
      var n := LengthOf(r.fld3, Peek(s, r.fld6, r.fld3));
      if n.None? || r.fld1.Str? then Fail
      else if n.value == 0 then Ok([], tree, {})
      else if !(f.Ref? && f.target.Some? && f.target.value.Vec? && n.value <= |f.target.value.elems|) then Stray
      else
        match EncSeq(env, tree, r.fld1, f.target.value.elems[..n.value])
        case Fail => Fail
        case Stray => Stray
        case Ok(b, tree', loops) =>
          // octets and characters are copied in one go, without running their program
          Ok(b, if r.fld1 == Basic(Uns8) || r.fld1 == Basic(Char) then tree else tree', loops)
    else if r.fld1.Str? then
      if !f.Text? then Stray
      else
        var t := if f.text.Some? then f.text.value else [];
        Ok(U16(|t|) + t[..|t| % 0x1_0000], tree + {Str}, {})
    else EncEdp(env, tree, r.fld1, f)
  }

  /** The loops over array and variable-length elements. */
  function EncSeq(env: Env, tree: set<Edp>, edp: Edp, elems: seq<Field>): Out
    decreases env.RankOf(edp), 5, |elems|
  {
    if elems == [] then Ok([], tree, {})
    else match EncEdp(env, tree, edp, elems[0])
      case Fail => Fail
      case Stray => Stray
      case Ok(b, tree', loops) =>
        match EncSeq(env, tree', edp, elems[1..])
        case Fail => Fail
        case Stray => Stray
        case Ok(b', tree'', loops') => Ok(b + b', tree'', loops + loops')
  }
}
