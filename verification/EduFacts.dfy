/**
  The theorems about EDU as a caller sees it, and the places where the C code does not
  keep the promise its format makes.
 */
module EduFacts {
  import opened SeqFacts
  import opened EduModel
  import opened EduFlow
  import opened EduEncode
  import opened EduFormat
  import opened EduDecode
  import opened EduCarried
  import opened EduRoundTrip
  import opened EduStable
  import opened EduPart
  import opened EduWellFormed
  import opened EduShortest
  import C = EduCounts

  /** The handle's tree and the loops of this run are such that every pointer gets its count. */
  ghost predicate Counted(env: Env, tree: set<Edp>, edp: Edp, v: Field) {
    var e := EncEdp(env, tree, edp, v);
    e.Ok? && C.AllCounted(env, e.loops)
  }

  /**
    That is: no loop, nested ones included, met a list pointer and behind it, with nothing answered between, a non-NULL
    pointer that went unanswered.
   */
  lemma CountedMeans(env: Env, tree: set<Edp>, edp: Edp, v: Field)
    requires EncEdp(env, tree, edp, v).Ok?
    ensures Counted(env, tree, edp, v) <==>
      forall es :: es in EncEdp(env, tree, edp, v).loops ==> !exists i: nat, j: nat :: C.Loses(env, es, i, j)
  {
    hide EncEdp, C.CountedFrom, C.Loses;
    forall es | es in EncEdp(env, tree, edp, v).loops
      ensures C.CountedFrom(env, false, es) <==> !exists i: nat, j: nat :: C.Loses(env, es, i, j)
    {
      C.CountedIff(env, es);
    }
  }

  /** What the encoder wrote, compared with the format; it succeeds on every value that fits. */
  lemma Written(env: Env, home: set<nat>, tree: set<Edp>, edp: Edp, v: Field)
    requires WellFormed(env, home) && Covers(home, edp) && FitsEdp(env, false, edp, v)
    ensures CarEdp(env, edp, v).Some? && FmtEdp(env, edp, v).Ok? && EncEdp(env, tree, edp, v).Ok?
    ensures var e, w := EncEdp(env, tree, edp, v).bytes, FmtEdp(env, edp, v).bytes;
      if Counted(env, tree, edp, v) then e == w else |e| < |w|
  {
    hide CarEdp, EncEdp, FmtEdp, FitsEdp;
    EdpCarries(env, home, false, edp, v);
    TripEdp(env, edp, v, []);
    C.EdpRefines(env, tree, edp, v);
  }

  /**
    ncs_edu_ver_exec, encode on one side and decode on the other: for every well-formed set of programs, every
    value that fits, every handle and whatever follows, the peer gets what the wire carries and stops in the
    right place if and only if every pointer got its count.
   */
  lemma RoundTripIff(env: Env, home: set<nat>, tree: set<Edp>, edp: Edp, v: Field, rest: seq<byte>)
    requires WellFormed(env, home) && Covers(home, edp) && FitsEdp(env, false, edp, v)
    ensures CarEdp(env, edp, v).Some? && EncEdp(env, tree, edp, v).Ok?
    ensures DecEdp(env, edp, EncEdp(env, tree, edp, v).bytes + rest) == Got(CarEdp(env, edp, v).value, rest)
      <==> Counted(env, tree, edp, v)
  {
    hide CarEdp, EncEdp, DecEdp, FmtEdp, FitsEdp, Counted;
    Written(env, home, tree, edp, v);
    var b, w := EncEdp(env, tree, edp, v).bytes, CarEdp(env, edp, v).value;
    TripEdp(env, edp, v, rest);
    StableEdp(env, edp, v);
    ReadEdp(env, home, edp, b + rest);
  }

  lemma {:induction false} ExactFits(env: Env, home: set<nat>, edp: Edp, v: Field)
    requires WellFormed(env, home) && Covers(home, edp) && FitsEdp(env, true, edp, v)
    ensures CarEdp(env, edp, v) == Some(v) && FmtEdp(env, edp, v).Ok?
  {
    hide CarEdp, FmtEdp, FitsEdp, DecEdp;
    EdpCarries(env, home, true, edp, v);
    TripEdp(env, edp, v, []);
  }

  /** A value in normal form comes back as itself. */
  lemma ExactRoundTripIff(env: Env, home: set<nat>, tree: set<Edp>, edp: Edp, v: Field, rest: seq<byte>)
    requires WellFormed(env, home) && Covers(home, edp) && FitsEdp(env, true, edp, v)
    ensures EncEdp(env, tree, edp, v).Ok?
    ensures DecEdp(env, edp, EncEdp(env, tree, edp, v).bytes + rest) == Got(v, rest) <==> Counted(env, tree, edp, v)
  {
    hide CarEdp, EncEdp, DecEdp, FmtEdp;
    ExactFits(env, home, edp, v);
    C.EdpRefines(env, tree, edp, v);
    var b := EncEdp(env, tree, edp, v).bytes;
    TripEdp(env, edp, v, rest);
    ReadEdp(env, home, edp, b + rest);
  }

  /** On a handle whose tree holds what the programs with lists point to, every value comes back. */
  lemma TameRoundTrip(env: Env, home: set<nat>, tree: set<Edp>, edp: Edp, v: Field, rest: seq<byte>)
    requires WellFormed(env, home) && Covers(home, edp) && FitsEdp(env, true, edp, v) && C.Tame(env, tree)
    ensures EncEdp(env, tree, edp, v).Ok? && DecEdp(env, edp, EncEdp(env, tree, edp, v).bytes + rest) == Got(v, rest)
  {
    hide EncEdp, DecEdp, FitsEdp;
    ExactRoundTripIff(env, home, tree, edp, v, rest);
    C.EdpTame(env, tree, edp, v);
  }

  /** What arrives can be sent on: it is part of what was sent, and writes the same octets. */
  lemma Forwarded(env: Env, home: set<nat>, edp: Edp, v: Field)
    requires WellFormed(env, home) && Covers(home, edp) && FitsEdp(env, false, edp, v)
    ensures CarEdp(env, edp, v).Some? && FmtEdp(env, edp, v).Ok?
    ensures var w := CarEdp(env, edp, v).value;
      PartOf(w, v) && CarEdp(env, edp, w) == Some(w) && FmtEdp(env, edp, w) == FmtEdp(env, edp, v)
  {
    hide CarEdp, FmtEdp, FitsEdp, PartOf, DecEdp;
    EdpCarries(env, home, false, edp, v);
    TripEdp(env, edp, v, []);
    StableEdp(env, edp, v);
    PartEdp(env, edp, v);
  }

  /** Lockstep: on a structure whose counts are written, both interpreters visit the same rules. */
  lemma Lockstep(env: Env, home: set<nat>, id: nat, s: Field, bit: bool, tree: set<Edp>, rest: seq<byte>)
    requires WellFormed(env, home) && id in home && s.Rec? && FitsNode(env, false, id, 1, s)
    ensures var e := EncNode(env, id, 1, s, bit, tree);
      && e.EncNoded?
      && (C.AllCounted(env, e.loops) && C.CountedFrom(env, bit, e.events) ==>
        var d := DecNode(env, id, 1, map[], e.bytes + rest);
        d.Got? && d.value.path == e.path && d.rest == rest && d.value.fields.Keys == CourseFrom(env, id, 1, s).touched)
  {
    hide EncNode, DecNode, FmtNode, FitsNode, FormFrom, CourseFrom, C.AllCounted, C.CountedFrom, CarNodeFrom;
    assert ProgForm(env, home, id);
    NodeCarries(env, home, false, id, 1, s, map[], map[]);
    TripNode(env, id, 1, s, map[], rest);
    C.NodeRefines(env, id, 1, s, bit, tree);
  }

  // ---------- the 16-bit list count ----------

  function NodeCount(f: Field, link: int): nat
    decreases f
  {
    if f.Rec? && link in f.fields && f.fields[link].Ref? && f.fields[link].target.Some?
    then 1 + NodeCount(f.fields[link].target.value, link)
    else 1
  }

  lemma {:induction false} DecodedCount(env: Env, id: nat, count: nat, inMemory: bool, inp: seq<byte>)
    ensures var d := DecNodes(env, id, count, inMemory, inp);
      d.Got? ==>
        && (d.value.None? <==> count == 0)
        && (d.value.Some? ==> NodeCount(d.value.value, LinkOffset(env.ProgOf(id))) == count)
    decreases count
  {
    hide DecNode, DecEdp, LinkOffset;
    if count != 0 && (inMemory || id in env.allocs) {
      var n := DecNode(env, id, 1, map[], inp);
      if n.Got? {
        DecodedCount(env, id, count - 1, false, n.rest);
      }
    }
  }

  lemma {:induction false} CarriedCount(env: Env, id: nat, s: Field)
    requires CarChain(env, id, s).Some?
    ensures var c := CarChain(env, id, s).value; NodeCount(c.0, LinkOffset(env.ProgOf(id))) == c.1
    decreases s
  {
    hide CarNodeFrom, CarEdp, LinkOffset;
    var n := CarNodeFrom(env, id, 1, s, map[]).value;
    if n.end.Again? {
      CarriedCount(env, id, s.fields[LinkOffset(env.ProgOf(id))].target.value);
    }
  }

  lemma TakeWrapped(k: nat, rest: seq<byte>)
    ensures TakeU16(U16(k) + rest) == Got(k % 0x1_0000, rest)
  {
    TakeU16Back(k % 0x1_0000, rest);
  }

  /**
    A list whose counts are written comes back exactly when its length fits the 16-bit counter the encoder increments.
   */
  lemma ListRoundTripIff(env: Env, home: set<nat>, tree: set<Edp>, id: nat, s: Field, rest: seq<byte>)
    requires WellFormed(env, home) && id in home && env.IsList(User(id)) && FitsChain(env, true, id, s)
    requires Counted(env, tree, User(id), s)
    ensures DecEdp(env, User(id), EncEdp(env, tree, User(id), s).bytes + rest) == Got(s, rest) <==>
      Nodes(env, id, s) < 0x1_0000
  {
    hide EncEdp, EncChain, FmtChain, FmtNode, FmtInline, FmtSeq, DecNodes, DecNode, DecPointer, DecInline, DecSeq,
      CarChain, LinkOffset, FitsChain, Nodes;
    ChainCarries(env, home, true, id, s);
    C.EdpRefines(env, tree, User(id), s);
    var (g, k) := CarChain(env, id, s).value;
    TripChain(env, id, s, true, rest);
    var b := FmtChain(env, id, 1, s).bytes;
    TakeWrapped(k, b + rest);
    assert U16(k) + b + rest == U16(k) + (b + rest);
    if k >= 0x1_0000 {
      CarriedCount(env, id, s);
      DecodedCount(env, id, k % 0x1_0000, true, b + rest);
    }
  }

  // ---------- programs the compile pass accepts but the interpreters disagree on ----------

  /**
    An array of strings: the encoder writes one zero length per element, the decoder reads
    one string.  Only an array of one element leaves the decoder at the right place.
   */
  lemma StringArrayIff(env: Env, tree: set<Edp>, r: Rule, s: Field, f: Field, acc: Fields, rest: seq<byte>)
    requires r.fld1.Str? && r.fld2 == Attr(false, true, false, false)
    requires f.Vec? && |f.elems| == r.fld6
    ensures EncInline(env, tree, r, s, f).Ok? && |EncInline(env, tree, r, s, f).bytes| == 2 * r.fld6
    ensures (exists w :: DecInline(env, r, acc, EncInline(env, tree, r, s, f).bytes + rest) == Got(w, rest)) <==>
      r.fld6 == 1
  {
    ZeroLengths(env, f.elems);
    var b := FmtSeq(env, Str, f.elems).bytes;
    assert FmtInline(env, r, s, f) == FmtSeq(env, Str, f.elems);
    InlineExact(env, tree, r, s, f);
    hide EncInline, FmtSeq, DecInline, FmtInline;
    if r.fld6 > 0 {
      ZeroText(env, r, acc, b[2..] + rest);
      assert b == U16(0) + b[2..];
      Assoc(U16(0), b[2..], rest);
      assert r.fld6 == 1 ==> b[2..] + rest == rest;
    } else {
      assert b + rest == rest;
      EatsTwo(env, r, acc, rest);
    }
  }

  lemma ZeroText(env: Env, r: Rule, acc: Fields, rest: seq<byte>)
    requires r.fld1.Str? && !r.fld2.varLen
    ensures DecInline(env, r, acc, U16(0) + rest) == Got(Text(None), rest)
  {
    TakeU16Back(0, rest);
  }

  lemma EatsTwo(env: Env, r: Rule, acc: Fields, inp: seq<byte>)
    requires r.fld1.Str? && !r.fld2.varLen
    ensures var d := DecInline(env, r, acc, inp); d.Got? ==> |d.rest| < |inp|
  {
  }

  lemma InlineExact(env: Env, tree: set<Edp>, r: Rule, s: Field, f: Field)
    requires !r.fld1.User? && FmtInline(env, r, s, f).Ok?
    ensures EncInline(env, tree, r, s, f).Ok? && EncInline(env, tree, r, s, f).bytes == FmtInline(env, r, s, f).bytes
  {
    hide EncInline, FmtInline;
    C.InlineRefines(env, tree, r, s, f);
    C.InlineLeafy(env, tree, r, s, f);
  }

  lemma {:induction false} ZeroLengths(env: Env, elems: seq<Field>)
    ensures FmtSeq(env, Str, elems).Ok? && |FmtSeq(env, Str, elems).bytes| == 2 * |elems|
    ensures elems != [] ==> FmtSeq(env, Str, elems).bytes[..2] == U16(0)
  {
    if elems != [] {
      ZeroLengths(env, elems[1..]);
    }
  }

  // ---------- why tests and lengths must follow the fields they read ----------

  function ExitOnOne(f: Field): int { if f == Num(1) then EDU_EXIT else EDU_NEXT }

  function Octet(offset: long): Rule {
    Rule(Exec, Basic(Uns8), Plain, Basic(Uns8), 0, offset, 0, NoRoutine)
  }

  function EarlyTestProg(id: nat): Prog {
    [ Rule(Start, User(id), Plain, Basic(Uns8), 0, 1, 0, NoRoutine),
      Rule(Test, Basic(Uns8), Plain, Basic(Uns8), 0, 0, 0, Routine(ExitOnOne, NoVersion, 0)),
      Octet(0),
      Rule(End, Basic(Uns8), Plain, Basic(Uns8), 0, 0, 0, NoRoutine) ]
  }

  /** A test placed before the field it reads sees zero on the peer: nothing is sent, one byte is consumed. */
  lemma EarlyTestDesynchronises(env: Env, tree: set<Edp>, id: nat, b: byte, rest: seq<byte>)
    requires env.ProgOf(id) == EarlyTestProg(id)
    ensures EncEdp(env, tree, User(id), Rec(map[0 := Num(1)])).Ok?
      && EncEdp(env, tree, User(id), Rec(map[0 := Num(1)])).bytes == []
    ensures DecEdp(env, User(id), [b] + rest) == Got(Rec(map[0 := Num(b as int)]), rest)
  {
    var s := Rec(map[0 := Num(1)]);
    var prog := EarlyTestProg(id);
    C.LeafyExact(env, tree, id, s);
    hide EncEdp;
    assert EncFlow(env, prog, 1, s) == Leave(true);
    assert FmtRule(env, id, prog[1], s) == FmtOut.Ok([]);
    assert FmtNode(env, id, 1, s) == Node([], Leave(true), 1, [1]);
    DecOctet(env, id, 2, 0, map[], b, rest);
    assert DecRule(env, id, prog[1], map[], [b] + rest) == Got(map[], [b] + rest);
    assert DecNode(env, id, 3, map[0 := Num(b as int)], rest) == Got(NodeIn(map[0 := Num(b as int)], []), rest);
  }

  /** One octet field, decoded. */
  lemma DecOctet(env: Env, id: nat, pc: nat, offset: long, acc: Fields, b: byte, rest: seq<byte>)
    requires pc < |env.ProgOf(id)| && env.ProgOf(id)[pc] == Octet(offset)
    ensures var n := DecNode(env, id, pc + 1, acc[offset := Num(b as int)], rest);
      n.Got? ==> DecNode(env, id, pc, acc, [b] + rest) == Got(NodeIn(n.value.fields, [pc] + n.value.path), n.rest)
  {
    assert ([b] + rest)[..1] == [b] && ([b] + rest)[1..] == rest;
    assert [b][..0] == [] && FromWire([b]) == b;
    assert DecInline(env, Octet(offset), acc, [b] + rest) == Got(Num(b as int), rest);
    assert DecNext(env.ProgOf(id), pc, EDU_NEXT) == Goto(pc + 1);
  }

  function LateFieldProg(id: nat): Prog {
    [ Rule(Start, User(id), Attr(true, false, false, false), Basic(Uns8), 0, 24, 0, NoRoutine),
      Rule(TestLlPtr, User(id), Plain, Basic(Uns8), 0, 8, 0, NoRoutine),
      Octet(16),
      Rule(End, Basic(Uns8), Plain, Basic(Uns8), 0, 0, 0, NoRoutine) ]
  }

  /** A field placed after the list test is never sent, yet the peer reads it. */
  lemma FieldAfterListTestDesynchronises(env: Env, tree: set<Edp>, id: nat, x: int, b: byte, rest: seq<byte>)
    requires env.ProgOf(id) == LateFieldProg(id)
    ensures var e := EncEdp(env, tree, User(id), Rec(map[8 := Ref(None), 16 := Num(x)])); e.Ok? && e.bytes == U16(1)
    ensures DecEdp(env, User(id), U16(1) + ([b] + rest)) == Got(Rec(map[16 := Num(b as int), 8 := Ref(None)]), rest)
  {
    var s := Rec(map[8 := Ref(None), 16 := Num(x)]);
    var prog := LateFieldProg(id);
    C.LeafyExact(env, tree, id, s);
    hide EncEdp;
    assert EncFlow(env, prog, 1, s) == Leave(true);
    assert FmtRule(env, id, prog[1], s) == FmtOut.Ok([]);
    assert FmtNode(env, id, 1, s) == Node([], Leave(true), 1, [1]);
    assert U16(1) + [] == U16(1);
    TakeU16Back(1, [b] + rest);
    DecOctet(env, id, 2, 16, map[], b, rest);
    assert DecRule(env, id, prog[1], map[], [b] + rest) == Got(map[], [b] + rest);
    assert DecNode(env, id, 3, map[16 := Num(b as int)], rest) == Got(NodeIn(map[16 := Num(b as int)], []), rest);
    assert DecNext(prog, 1, EDU_NEXT) == Goto(2);
    var n := DecNode(env, id, 1, map[], [b] + rest);
    assert n.Got? && n.value.fields == map[16 := Num(b as int)] && n.rest == rest;
    assert NextOffset(prog, 3, Some(8)) == Some(8) && NextOffset(prog, 2, Some(8)) == Some(8);
    assert NextOffset(prog, 1, None) == Some(8);
    assert LinkOffset(prog) == 8;
    assert DecNodes(env, id, 0, false, rest) == Got(None, rest);
    assert DecNodes(env, id, 1, true, [b] + rest) == Got(Some(Rec(map[16 := Num(b as int), 8 := Ref(None)])), rest);
  }
}
