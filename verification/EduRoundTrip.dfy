/**
  The two interpreters agree: whatever is carried is encoded, decoded to exactly what
  the wire carries, leaving the bytes behind it untouched, along the same program counters.
 */
module EduRoundTrip {
  import opened EduModel
  import opened EduFlow
  import opened EduFormat
  import opened EduDecode
  import opened EduCarried

  lemma TakeU16Back(v: nat, rest: seq<byte>)
    requires v < 0x1_0000
    ensures TakeU16(U16(v) + rest) == Got(v, rest)
  {
    U16RoundTrip(v);
    assert (U16(v) + rest)[..2] == U16(v);
    assert (U16(v) + rest)[2..] == rest;
  }

  lemma {:induction false} TripEdp(env: Env, edp: Edp, f: Field, rest: seq<byte>)
    requires CarEdp(env, edp, f).Some?
    ensures FmtEdp(env, edp, f).Ok?
    ensures DecEdp(env, edp, FmtEdp(env, edp, f).bytes + rest) == Got(CarEdp(env, edp, f).value, rest)
    decreases env.RankOf(edp), 4
  {
    hide FmtChain, FmtNode, FmtInline, FmtSeq, DecNodes, DecNode, DecPointer, DecInline, DecSeq, CarInline, CarSeq,
      CarNodeFrom;
    hide Width, EncBasic, DecBasic, InRange;
    match edp
    case Basic(k) =>
      BasicRoundTrip(k, f.n);
      var b := EncBasic(k, f.n);
      assert (b + rest)[..Width(k)] == b && (b + rest)[Width(k)..] == rest;
    case User(id) =>
      if env.IsList(edp) {
        TripChain(env, id, f, true, rest);
        var e := FmtChain(env, id, 1, f);
        TakeU16Back(e.count, e.bytes + rest);
        assert U16(e.count) + e.bytes + rest == U16(e.count) + (e.bytes + rest);
      } else {
        TripNode(env, id, 1, f, map[], rest);
        SingleNode(env, id, f);
      }
  }

  lemma SingleNode(env: Env, id: nat, s: Field)
    requires FmtNode(env, id, 1, s).Node? && FmtNode(env, id, 1, s).end.Leave?
    ensures var n := FmtNode(env, id, 1, s); FmtChain(env, id, 1, s) == Chain(n.bytes, 1, n.end.patched)
  {
    hide FmtNode, FmtEdp;
  }

  /** A list: as many nodes are decoded as the patched count says. */
  lemma {:induction false} TripChain(env: Env, id: nat, s: Field, inMemory: bool, rest: seq<byte>)
    requires CarChain(env, id, s).Some?
    requires inMemory || id in env.allocs
    ensures var e := FmtChain(env, id, 1, s);
      && e.Chain? && e.patched && e.count == CarChain(env, id, s).value.1
      && DecNodes(env, id, e.count, inMemory, e.bytes + rest) == Got(Some(CarChain(env, id, s).value.0), rest)
    decreases env.RankOf(User(id)), 3, s
  {
    hide FmtNode, FmtEdp, FmtRule, FmtInline, FmtSeq, DecNode, DecEdp, DecRule, DecInline, DecSeq;
    hide CarNodeFrom, CarRule, CarInline, CarSeq, CarEdp;
    var prog := env.ProgOf(id);
    var link := LinkOffset(prog);
    var n := CarNodeFrom(env, id, 1, s, map[]).value;
    var e := FmtChain(env, id, 1, s);
    if n.end == Leave(true) {
      TripNode(env, id, 1, s, map[], rest);
    } else {
      AgainAtLink(env, id, 1, s, map[]);
      var next := s.fields[link].target.value;
      TripChain(env, id, next, false, rest);
      ChainFromStart(env, id, next);
      var tail := FmtChain(env, id, 1, next);
      TripNode(env, id, 1, s, map[], tail.bytes + rest);
      var b := FmtNode(env, id, 1, s).bytes;
      assert b + tail.bytes + rest == b + (tail.bytes + rest);
    }
  }

  /** The encoder goes on to the next node only at the rule that names the next pointer. */
  lemma {:induction false} AgainAtLink(env: Env, id: nat, pc: nat, s: Field, done: Fields)
    requires CarNodeFrom(env, id, pc, s, done).Some? && CarNodeFrom(env, id, pc, s, done).value.end.Again?
    ensures var c := CarNodeFrom(env, id, pc, s, done).value; var prog := env.ProgOf(id);
      c.lastPc < |prog| && prog[c.lastPc].fld5 == LinkOffset(prog)
    decreases |env.ProgOf(id)| - pc
  {
    hide CarRule, CarInline, CarSeq, CarEdp, CarChain;
    var prog := env.ProgOf(id);
    if pc < |prog| && !prog[pc].instr.TestLlPtr? {
      var flow := EncFlow(env, prog, pc, s);
      if flow.Goto? {
        AgainAtLink(env, id, flow.pc, s, CarRule(env, id, prog[pc], s, done).value);
      }
    }
  }

  /** Restarting at rule 0 writes the same bytes as starting at rule 1. */
  lemma ChainFromStart(env: Env, id: nat, s: Field)
    requires StartFallsThrough(env.ProgOf(id))
    ensures FmtChain(env, id, 0, s) == FmtChain(env, id, 1, s)
  {
    var prog := env.ProgOf(id);
    hide FmtEdp, FmtInline, FmtSeq;
    assert EncFlow(env, prog, 0, s) == Goto(1);
    assert FmtRule(env, id, prog[0], s) == Ok([]);
    var n := FmtNode(env, id, 1, s);
    var m := FmtNode(env, id, 0, s);
    if n.Node? {
      assert m == Node([] + n.bytes, n.end, n.lastPc, [0] + n.path);
      assert [] + n.bytes == n.bytes;
    } else {
      assert m == n;
    }
  }

  /** Lockstep: one structure is encoded and decoded along the same program counters. */
  lemma {:induction false} TripNode(env: Env, id: nat, pc: nat, s: Field, done: Fields, rest: seq<byte>)
    requires CarNodeFrom(env, id, pc, s, done).Some?
    ensures var e := FmtNode(env, id, pc, s); var c := CarNodeFrom(env, id, pc, s, done).value;
      && e.Node? && e.end == c.end && e.lastPc == c.lastPc
      && DecNode(env, id, pc, done, e.bytes + rest) == Got(NodeIn(c.fields, e.path), rest)
    decreases env.RankOf(User(id)), 2, |env.ProgOf(id)| - pc
  {
    hide FmtChain, FmtEdp, FmtRule, FmtInline, FmtSeq, DecNodes, DecEdp, DecRule, DecInline, DecSeq, CarChain, CarRule,
      CarInline, CarSeq, CarEdp;
    hide EncFlow, DecNext, DecLabel;
    var prog := env.ProgOf(id);
    if pc == |prog| || prog[pc].instr.End? {
      assert [] + rest == rest;
    } else {
      var r := prog[pc];
      var done' := CarRule(env, id, r, s, done).value;
      FlowsAgree(env, id, pc, s, done);
      if r.instr.TestLlPtr? {
        TripLlTest(env, id, pc, s, done, rest);
      } else {
        match EncFlow(env, prog, pc, s)
        case Leave(_) => TripRule(env, id, r, s, done, rest);
        case Goto(q) =>
          TripNode(env, id, q, s, done', rest);
          var tail := FmtNode(env, id, q, s);
          TripRule(env, id, r, s, done, tail.bytes + rest);
          var b := FmtRule(env, id, r, s).bytes;
          assert b + tail.bytes + rest == b + (tail.bytes + rest);
      }
    }
  }

  /** The list test ends a node on both sides. */
  lemma TripLlTest(env: Env, id: nat, pc: nat, s: Field, done: Fields, rest: seq<byte>)
    requires pc < |env.ProgOf(id)| && env.ProgOf(id)[pc].instr.TestLlPtr? && LlTestIsLast(env.ProgOf(id), pc)
    ensures CarRule(env, id, env.ProgOf(id)[pc], s, done) == Some(done)
    ensures FmtNode(env, id, pc, s) ==
      Node([], if NoNext(s, env.ProgOf(id)[pc].fld5) then Leave(true) else Again, pc, [pc])
    ensures DecNode(env, id, pc, done, [] + rest) == Got(NodeIn(done, [pc]), rest)
  {
    hide FmtEdp, FmtInline, FmtSeq, FmtChain, DecNodes, DecEdp, DecInline, DecSeq;
    var prog := env.ProgOf(id);
    assert [] + rest == rest;
    assert FmtRule(env, id, prog[pc], s) == Ok([]);
    assert DecRule(env, id, prog[pc], done, rest) == Got(done, rest);
    var next := DecNext(prog, pc, EDU_NEXT);
    if next.Goto? {
      assert DecNode(env, id, next.pc, done, rest) == Got(NodeIn(done, []), rest);
      assert [pc] + [] == [pc];
    }
  }

  /** The decoder's label and jump are the encoder's, rule by rule. */
  lemma FlowsAgree(env: Env, id: nat, pc: nat, s: Field, done: Fields)
    requires pc < |env.ProgOf(id)| && CarRule(env, id, env.ProgOf(id)[pc], s, done).Some?
    ensures var prog := env.ProgOf(id); var r := prog[pc];
      var enc := EncFlow(env, prog, pc, s);
      var dec := DecNext(prog, pc, DecLabel(env, r, CarRule(env, id, r, s, done).value));
      !r.instr.TestLlPtr? && (enc.Leave? || (enc.Goto? && pc < enc.pc)) ==>
        (enc.Leave? <==> dec.Leave?) && (enc.Goto? ==> dec == enc)
  {
  }

  lemma {:induction false} TripRule(env: Env, id: nat, r: Rule, s: Field, done: Fields, rest: seq<byte>)
    requires CarRule(env, id, r, s, done).Some?
    ensures FmtRule(env, id, r, s).Ok?
    ensures DecRule(env, id, r, done, FmtRule(env, id, r, s).bytes + rest) ==
      Got(CarRule(env, id, r, s, done).value, rest)
    decreases env.RankOf(User(id)), 1
  {
    hide FmtChain, FmtEdp, FmtInline, FmtSeq, DecNodes, DecEdp, DecPointer, DecInline, DecSeq, CarChain, CarInline,
      CarSeq, CarEdp;
    if !r.instr.Exec? {
      assert [] + rest == rest;
    } else if r.fld2.pointer {
      TripPointer(env, r.fld1, r, s.fields[r.fld5], rest);
    } else {
      TripInline(env, r, s, s.fields[r.fld5], done, rest);
    }
  }

  /** A pointer and its NULL marker, or its list count. */
  lemma {:induction false} TripPointer(env: Env, edp: Edp, r: Rule, f: Field, rest: seq<byte>)
    requires r.fld1 == edp && CarPointer(env, r, f).Some?
    ensures f.target.Some? ==> FmtEdp(env, edp, f.target.value).Ok?
    ensures
      var b := if f.target.None? then U16(0)
               else (if env.IsList(edp) then [] else U16(1)) + FmtEdp(env, edp, f.target.value).bytes;
      DecPointer(env, edp, b + rest) == Got(CarPointer(env, r, f).value, rest)
    decreases env.RankOf(edp), 6
  {
    hide FmtNode, FmtRule, FmtInline, FmtSeq, DecNode, DecRule, DecInline, DecSeq, CarNodeFrom, CarRule, CarInline,
      CarSeq;
    hide FmtChain, CarChain;
    if f.target.None? {
      TakeU16Back(0, rest);
    } else {
      TripEdp(env, edp, f.target.value, rest);
      var b := FmtEdp(env, edp, f.target.value).bytes;
      if env.IsList(edp) {
        TripChain(env, edp.id, f.target.value, false, rest);
        var e := FmtChain(env, edp.id, 1, f.target.value);
        TakeU16Back(e.count, e.bytes + rest);
        assert [] + b == b;
        assert b + rest == U16(e.count) + (e.bytes + rest);
      } else {
        TakeU16Back(1, b + rest);
        assert U16(1) + b + rest == U16(1) + (b + rest);
        assert DecRepeat(env, edp, 1, None, b + rest) == DecRepeat(env, edp, 0, CarEdp(env, edp, f.target.value), rest);
      }
    }
  }

  lemma {:induction false} TripInline(env: Env, r: Rule, s: Field, f: Field, done: Fields, rest: seq<byte>)
    requires CarInline(env, r, s, f, done).Some?
    ensures FmtInline(env, r, s, f).Ok?
    ensures DecInline(env, r, done, FmtInline(env, r, s, f).bytes + rest) ==
      Got(CarInline(env, r, s, f, done).value, rest)
    decreases env.RankOf(r.fld1), 7
  {
    hide FmtChain, FmtNode, FmtRule, FmtSeq, DecNodes, DecNode, DecRule, DecSeq, CarChain, CarNodeFrom, CarRule, CarSeq;
    hide CarEdp, FmtEdp, DecEdp;
    if r.fld2.arr {
      if r.fld1 == Basic(Char) {
        TripCharArray(env, r, s, f, done, rest);
      } else {
        TripSeq(env, r.fld1, f.elems, rest);
      }
    } else if r.fld2.varLen {
      var n := LengthOf(r.fld3, Peek(s, r.fld6, r.fld3)).value;
      if n == 0 {
        assert [] + rest == rest;
      } else {
        TripSeq(env, r.fld1, f.target.value.elems[..n], rest);
      }
    } else if r.fld1.Str? {
      TripText(if f.text.Some? then f.text.value else [], rest);
    } else {
      TripEdp(env, r.fld1, f, rest);
    }
  }

  /** A string: its length, its bytes, and NULL for the empty one. */
  lemma TripText(t: seq<byte>, rest: seq<byte>)
    requires |t| < 0x1_0000
    ensures DecText(U16(|t|) + t[..|t| % 0x1_0000] + rest) == Got(Text(if t == [] then None else Some(t)), rest)
  {
    TakeU16Back(|t|, t + rest);
    assert U16(|t|) + t[..|t| % 0x1_0000] + rest == U16(|t|) + (t + rest);
    assert (t + rest)[..|t|] == t && (t + rest)[|t|..] == rest;
  }

  /** A char array travels as a string and comes back padded with zeros. */
  lemma {:induction false} TripCharArray(env: Env, r: Rule, s: Field, f: Field, done: Fields, rest: seq<byte>)
    requires r.fld2.arr && r.fld1 == Basic(Char) && CarInline(env, r, s, f, done).Some?
    ensures FmtInline(env, r, s, f).Ok?
    ensures DecInline(env, r, done, FmtInline(env, r, s, f).bytes + rest) ==
      Got(CarInline(env, r, s, f, done).value, rest)
    decreases env.RankOf(r.fld1), 6
  {
    hide FmtChain, FmtNode, FmtRule, FmtSeq, DecNodes, DecNode, DecRule, DecSeq, CarChain, CarNodeFrom, CarRule, CarSeq;
    hide CarEdp, FmtEdp, DecEdp;
    var n := StrLen(f.elems).value;
    TripSeq(env, r.fld1, f.elems[..n], rest);
    var b := FmtSeq(env, r.fld1, f.elems[..n]).bytes;
    TakeU16Back(n, b + rest);
    assert U16(n) + b + rest == U16(n) + (b + rest);
  }

  lemma {:induction false} TripSeq(env: Env, edp: Edp, elems: seq<Field>, rest: seq<byte>)
    requires CarSeq(env, edp, elems).Some?
    ensures FmtSeq(env, edp, elems).Ok? && |CarSeq(env, edp, elems).value| == |elems|
    ensures DecSeq(env, edp, |elems|, FmtSeq(env, edp, elems).bytes + rest) == Got(CarSeq(env, edp, elems).value, rest)
    decreases env.RankOf(edp), 5, |elems|
  {
    hide FmtChain, FmtNode, FmtRule, FmtInline, DecNodes, DecNode, DecRule, DecInline, CarChain, CarNodeFrom, CarRule,
      CarInline;
    hide CarEdp, FmtEdp, DecEdp;
    if elems == [] {
      assert [] + rest == rest;
    } else {
      TripSeq(env, edp, elems[1..], rest);
      var tail := FmtSeq(env, edp, elems[1..]).bytes;
      TripEdp(env, edp, elems[0], tail + rest);
      var b := FmtEdp(env, edp, elems[0]).bytes;
      assert b + tail + rest == b + (tail + rest);
    }
  }
}
