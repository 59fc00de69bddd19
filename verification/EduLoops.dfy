/**
  The two interpreter loops as the C code runs them: a program counter, a current node,
  a 16-bit node counter and a reserved count that is patched when the list ends.
 */
module EduLoops {
  import opened SeqFacts
  import opened EduModel
  import opened EduFlow
  import opened EduEncode
  import opened EduDecode

  /** The uint16_t node counter. */
  function Bump(cnt: nat, ghost nodes: nat): (r: nat)
    requires cnt == (nodes + 1) % 0x1_0000
    ensures r == (nodes + 2) % 0x1_0000
  {
    (cnt + 1) % 0x1_0000
  }

  /** The part of a run that is over: bytes, nodes, pointers met and loops run. */
  datatype Past = Past(bytes: seq<byte>, nodes: nat, events: seq<Event>, loops: set<seq<Event>>)

  function Add(p: Past, q: Past): Past {
    Past(p.bytes + q.bytes, p.nodes + q.nodes, p.events + q.events, p.loops + q.loops)
  }

  /** What is left of a run, with its past in front. */
  function Prepend(p: Past, tail: EncChainOut): EncChainOut {
    if tail.EncChained? then
      EncChained(p.bytes + tail.bytes, p.nodes + tail.count, tail.patched, tail.tree, p.events + tail.events,
        p.loops + tail.loops)
    else tail
  }

  lemma PrependTwice(p: Past, q: Past, tail: EncChainOut)
    ensures Prepend(p, Prepend(q, tail)) == Prepend(Add(p, q), tail)
  {
    if tail.EncChained? {
      Assoc(p.bytes, q.bytes, tail.bytes);
      Assoc(p.events, q.events, tail.events);
      assert p.loops + (q.loops + tail.loops) == p.loops + q.loops + tail.loops;
    }
  }

  /** The run from the end of a node on. */
  function AfterNode(env: Env, id: nat, s: Field, n: EncNodeOut): EncChainOut {
    match n
    case EncNodeFail => EncChainFail
    case EncNodeStray => EncChainStray
    case EncNoded(b, end, lastPc, _, bit, tree, events, loops) =>
      if end.Leave? then EncChained(b, 1, end.patched, tree, events, loops)
      else if lastPc >= |env.ProgOf(id)| then EncChainStray
      else
        var next := NextNode(s, env.ProgOf(id)[lastPc].fld5);
        if next.None? then EncChainStray
        else Prepend(Past(b, 1, events, loops), EncChain(env, id, 0, next.value, bit, tree))
  }

  lemma Unrolled(env: Env, id: nat, pc: nat, s: Field, bit: bool, tree: set<Edp>)
    ensures EncChain(env, id, pc, s, bit, tree) == AfterNode(env, id, s, EncNode(env, id, pc, s, bit, tree))
  {
    hide EncNode, EncEdp;
  }

  lemma AfterRule(env: Env, id: nat, s: Field, pc: nat, first: Past, n: EncNodeOut)
    requires n.EncNoded? && first.nodes == 0
    ensures AfterNode(env, id, s,
      EncNoded(first.bytes + n.bytes, n.end, n.lastPc, [pc] + n.path, n.bit, n.tree, first.events + n.events,
      first.loops + n.loops))
      == Prepend(first, AfterNode(env, id, s, n))
  {
    hide EncChain;
    if !n.end.Leave? && n.lastPc < |env.ProgOf(id)| {
      var next := NextNode(s, env.ProgOf(id)[n.lastPc].fld5);
      if next.Some? {
        PrependTwice(first, Past(n.bytes, 1, n.events, n.loops), EncChain(env, id, 0, next.value, n.bit, n.tree));
      }
    }
  }

  /** One turn of the encoding loop. */
  lemma EncTurn(env: Env, id: nat, pc: nat, s: Field, bit: bool, tree: set<Edp>)
    requires pc < |env.ProgOf(id)| && !env.ProgOf(id)[pc].instr.End?
    requires EncRule(env, id, env.ProgOf(id)[pc], s, BitAfter(env, env.ProgOf(id)[pc], bit, tree), tree).Ok?
    ensures var prog := env.ProgOf(id); var r := prog[pc]; var bit' := BitAfter(env, r, bit, tree);
      var e := EncRule(env, id, r, s, bit', tree);
      var c := EncChain(env, id, pc, s, bit, tree);
      match EncFlow(env, prog, pc, s)
      case Crash => c == EncChainFail
      case Leave(p) => c == EncChained(e.bytes, 1, p, e.tree, Met(r, s, tree), e.loops)
      case Goto(q) =>
        c == if !(pc < q <= |prog|) then EncChainStray
             else Prepend(Past(e.bytes, 0, Met(r, s, tree), e.loops), EncChain(env, id, q, s, bit', e.tree))
      case Again =>
        var next := NextNode(s, r.fld5);
        c == if next.None? then EncChainStray
             else Prepend(Past(e.bytes, 1, Met(r, s, tree), e.loops), EncChain(env, id, 0, next.value, bit', e.tree))
  {
    hide EncRule, EncEdp, EncFlow, Met, BitAfter, EncChain;
    Unrolled(env, id, pc, s, bit, tree);
    var prog := env.ProgOf(id);
    var r := prog[pc];
    var bit' := BitAfter(env, r, bit, tree);
    var e := EncRule(env, id, r, s, bit', tree);
    var flow := EncFlow(env, prog, pc, s);
    if flow.Goto? && pc < flow.pc <= |prog| {
      Unrolled(env, id, flow.pc, s, bit', e.tree);
      var n := EncNode(env, id, flow.pc, s, bit', e.tree);
      if n.EncNoded? { AfterRule(env, id, s, pc, Past(e.bytes, 0, Met(r, s, tree), e.loops), n); }
    }
  }

  /** The turns on which the loop stops without following a rule. */
  lemma EncStops(env: Env, id: nat, pc: nat, s: Field, bit: bool, tree: set<Edp>)
    ensures var prog := env.ProgOf(id); var c := EncChain(env, id, pc, s, bit, tree);
      && (pc > |prog| ==> c == EncChainStray)
      && (pc == |prog| || (pc < |prog| && prog[pc].instr.End?) ==> c == EncChained([], 1, false, tree, [], {}))
      && (pc < |prog| && !prog[pc].instr.End? ==>
        !EncRule(env, id, prog[pc], s, BitAfter(env, prog[pc], bit, tree), tree).Ok? ==> !c.EncChained?)
  {
    hide EncRule, EncEdp, EncInline, EncSeq, EncFlow;
  }

  /** ncs_encode_16bit into the space reserved for the count. */
  function PatchCount(ghost buf: seq<byte>, ghost header: seq<byte>, ghost written: seq<byte>, out: seq<byte>, at: nat,
          cnt: nat, ghost nodes: nat): (r: seq<byte>)
    requires |header| == 2 && out == buf + header + written && at == |buf| && cnt == (nodes + 1) % 0x1_0000
    ensures r == buf + U16(nodes + 1) + written
  {
    var count := U16(cnt);
    var r := out[at := count[0]][at + 1 := count[1]];
    assert count == U16(nodes + 1);
    assert r == buf + count + written;
    r
  }

  /**
    ncs_edu_run_rules_for_enc on a USRBUF, with the tree of the handle and the attribute of the last pointer
    that was answered; ok is false for EDU_FAIL and for anything undefined.
   */
  method RunRulesForEnc(env: Env, tree0: set<Edp>, id: nat, s: Field, buf: seq<byte>)
          returns (ok: bool, out: seq<byte>, tree: set<Edp>)
    ensures ok <==> EncEdp(env, tree0, User(id), s).Ok?
    ensures ok ==> out == buf + EncEdp(env, tree0, User(id), s).bytes && tree == EncEdp(env, tree0, User(id), s).tree
  {
    hide EncChain, EncNode, EncRule, EncFlow, EncEdp, U16, ToWire, BitAfter, Met;
    OpenRun(env, tree0, id, s);
    var prog := env.ProgOf(id);
    var isList := env.IsList(User(id));
    var header := if isList then [env.junk.0, env.junk.1] else [];
    out, tree := buf + header, tree0;
    var cnt, attrb := 1, false;
    var pc, cur, patched := 1, s, false;
    ghost var total := EncChain(env, id, 1, s, false, tree0);
    ghost var past := Past([], 0, [], {});
    EncStops(env, id, 1, s, false, tree0);
    if pc > |prog| { return false, out, tree; }
    Whole(total);
    while pc != |prog| && !prog[pc].instr.End? && !patched
      invariant 0 <= pc <= |prog|
      invariant !patched ==> total == Prepend(past, EncChain(env, id, pc, cur, attrb, tree))
      invariant patched ==> total == EncChained(past.bytes, past.nodes + 1, true, tree, past.events, past.loops)
      invariant out == buf + header + past.bytes
      invariant cnt == (past.nodes + 1) % 0x1_0000
      decreases cur, |prog| - pc, !patched
    {
      var r := prog[pc];
      EncStops(env, id, pc, cur, attrb, tree);
      ghost var before, events := past, Met(r, cur, tree);
      var attrb' := BitAfter(env, r, attrb, tree);
      var step := EncRule(env, id, r, cur, attrb', tree);
      if !step.Ok? { return false, out, tree; }
      EncTurn(env, id, pc, cur, attrb, tree);
      Assoc(buf + header, past.bytes, step.bytes);
      out, tree, attrb := out + step.bytes, step.tree, attrb';
      match EncFlow(env, prog, pc, cur)
      case Crash => return false, out, tree;
      case Goto(q) =>
        if !(pc < q <= |prog|) { return false, out, tree; }
        past := Add(before, Past(step.bytes, 0, events, step.loops));
        PrependTwice(before, Past(step.bytes, 0, events, step.loops), EncChain(env, id, q, cur, attrb, tree));
        pc := q;
      case Leave(p) =>
        past := Add(before, Past(step.bytes, 0, events, step.loops));
        if !p {
          ClosedRun(env, tree0, id, s);
          Assoc(buf, header, past.bytes);
          return true, out, tree;
        }
        patched := true;
      case Again =>
        var next := NextNode(cur, r.fld5);
        if next.None? { return false, out, tree; }
        past := Add(before, Past(step.bytes, 1, events, step.loops));
        PrependTwice(before, Past(step.bytes, 1, events, step.loops), EncChain(env, id, 0, next.value, attrb, tree));
        cnt := Bump(cnt, before.nodes);
        cur, pc := next.value, 0;
    }
    EncStops(env, id, pc, cur, attrb, tree);
    assert past.bytes + [] == past.bytes;
    if patched && isList {
      out := PatchCount(buf, header, past.bytes, out, |buf|, cnt, past.nodes);
    }
    ClosedRun(env, tree0, id, s);
    Assoc(buf, if patched && isList then U16(past.nodes + 1) else header, past.bytes);
    return true, out, tree;
  }

  lemma Whole(c: EncChainOut)
    ensures Prepend(Past([], 0, [], {}), c) == c
  {
    if c.EncChained? {
      assert [] + c.bytes == c.bytes && [] + c.events == c.events && {} + c.loops == c.loops;
    }
  }

  lemma OpenRun(env: Env, tree: set<Edp>, id: nat, s: Field)
    ensures EncEdp(env, tree, User(id), s).Ok? ==> EncChain(env, id, 1, s, false, tree).EncChained?
  {
    hide EncChain;
  }

  lemma ClosedRun(env: Env, tree: set<Edp>, id: nat, s: Field)
    ensures var c := EncChain(env, id, 1, s, false, tree);
      c.EncChained? ==>
        EncEdp(env, tree, User(id), s) ==
        Ok((if !env.IsList(User(id)) then [] else if c.patched then U16(c.count)
          else [env.junk.0, env.junk.1]) + c.bytes,
           c.tree, c.loops + {c.events})
  {
    hide EncChain;
  }

  /** ncs_edu_run_rules_for_dec: one structure, built from zeroed memory. */
  method RunRulesForDec(env: Env, id: nat, inp: seq<byte>) returns (ok: bool, fields: Fields, rest: seq<byte>)
    ensures ok <==> DecNode(env, id, 1, map[], inp).Got?
    ensures ok ==> var d := DecNode(env, id, 1, map[], inp); fields == d.value.fields && rest == d.rest
  {
    var prog := env.ProgOf(id);
    var pc := 1;
    fields, rest := map[], inp;
    ghost var total := DecNode(env, id, 1, map[], inp);
    if pc > |prog| { return false, fields, rest; }
    while pc != |prog| && !prog[pc].instr.End?
      invariant 0 <= pc <= |prog|
      invariant var d := DecNode(env, id, pc, fields, rest);
        (total.Got? <==> d.Got?) && (d.Got? ==> total.value.fields == d.value.fields && total.rest == d.rest)
      decreases |prog| - pc
    {
      var r := prog[pc];
      match DecRule(env, id, r, fields, rest) {
        case InFail => return false, fields, rest;
        case InStray => return false, fields, rest;
        case InOverrun => return false, fields, rest;
        case Got(fields', rest') =>
          match DecNext(prog, pc, DecLabel(env, r, fields')) {
            case Crash => return false, fields, rest;
            case Leave(_) => return true, fields', rest';
            case Again => return true, fields', rest';
            case Goto(q) =>
              if !(pc < q <= |prog|) { return false, fields, rest; }
              pc, fields, rest := q, fields', rest';
          }
      }
    }
    return true, fields, rest;
  }
}
