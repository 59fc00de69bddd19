/**
  The built-in program for NCS_KEY.  Its test routine returns the format number as the
  jump distance, and the numbers are 1, 3 and 4, not 1, 2 and 3.
 */
module EduNcsKey {
  import opened EduModel
  import opened EduFlow
  import opened EduEncode
  import F = EduFormat
  import C = EduCounts
  import opened EduDecode
  import opened EduCarried
  import opened EduRoundTrip

  const FMT_NUM := 1
  const FMT_HDL := 2
  const FMT_STR := 3
  const FMT_OCT := 4
  const MAX_KEY_LEN := 42

  // Offsets within NCS_KEY; the members of the union val start together.
  const SVC := 0
  const TYPE := 4
  const FMAT := 5
  const VAL := 8
  const OCT_DATA := 9
  const KEY_SIZE := 56

  /** ncs_edu_ncs_key_test_fmat_fnc. */
  function FormatTest(f: Field): int {
    if f == Num(FMT_NUM) then FMT_NUM
    else if f == Num(FMT_STR) then FMT_STR
    else if f == Num(FMT_OCT) then FMT_OCT
    else EDU_FAIL
  }

  function Simple(k: Kind, offset: long, nxtLbl: int): Rule {
    Rule(Exec, Basic(k), Plain, Basic(k), nxtLbl, offset, 0, NoRoutine)
  }

  function Octets(offset: long): Rule {
    Rule(Exec, Basic(Uns8), Attr(false, true, false, false), Basic(Uns8), EDU_EXIT, offset, MAX_KEY_LEN, NoRoutine)
  }

  function KeyProg(id: nat): Prog {
    [ Rule(Start, User(id), Plain, Basic(Uns8), 0, KEY_SIZE, 0, NoRoutine),
      Simple(Uns32, SVC, 0),
      Simple(Uns8, TYPE, 0),
      Simple(Uns8, FMAT, 0),
      Rule(Test, Basic(Uns8), Plain, Basic(Uns8), 0, FMAT, 0, Routine(FormatTest, NoVersion, 0)),
      Simple(Uns32, VAL, EDU_EXIT),
      Octets(VAL),
      Simple(Uns8, VAL, 0),
      Octets(OCT_DATA),
      Rule(End, Basic(Uns8), Plain, Basic(Uns8), 0, 0, 0, NoRoutine) ]
  }

  ghost predicate Octet(f: Field) { f.Num? && InRange(Uns8, f.n) }

  /** A key whose header is well formed. */
  ghost predicate Header(s: Field, fmat: int) {
    && s.Rec? && SVC in s.fields && TYPE in s.fields && FMAT in s.fields
    && s.fields[SVC].Num? && InRange(Uns32, s.fields[SVC].n)
    && Octet(s.fields[TYPE]) && s.fields[FMAT] == Num(fmat) && 0 <= fmat < 256
  }

  /** The data bytes of an octet-string key. */
  ghost predicate HasData(s: Field) {
    s.Rec? && OCT_DATA in s.fields && s.fields[OCT_DATA].Vec? && |s.fields[OCT_DATA].elems| == MAX_KEY_LEN
    && forall i :: 0 <= i < MAX_KEY_LEN ==> Octet(s.fields[OCT_DATA].elems[i])
  }

  function HeaderOf(s: Field): Fields
    requires s.Rec? && SVC in s.fields && TYPE in s.fields && FMAT in s.fields
  {
    map[SVC := s.fields[SVC], TYPE := s.fields[TYPE], FMAT := s.fields[FMAT]]
  }

  lemma {:induction false} OctetsCarry(env: Env, elems: seq<Field>)
    requires forall i :: 0 <= i < |elems| ==> Octet(elems[i])
    ensures CarSeq(env, Basic(Uns8), elems) == Some(elems)
  {
    if elems != [] {
      OctetsCarry(env, elems[1..]);
      assert [elems[0]] + elems[1..] == elems;
    }
  }

  lemma SimpleStep(env: Env, id: nat, pc: nat, s: Field, done: Fields, k: Kind, offset: long)
    requires env.ProgOf(id) == KeyProg(id) && pc < 10 && KeyProg(id)[pc] == Simple(k, offset, 0)
    requires s.Rec? && offset in s.fields && s.fields[offset].Num? && InRange(k, s.fields[offset].n) && offset !in done
    ensures CarNodeFrom(env, id, pc, s, done) == CarNodeFrom(env, id, pc + 1, s, done[offset := s.fields[offset]])
  {
    var r := KeyProg(id)[pc];
    assert CarInline(env, r, s, s.fields[offset], done) == Some(s.fields[offset]);
    assert CarRule(env, id, r, s, done) == Some(done[offset := s.fields[offset]]);
    assert EncFlow(env, env.ProgOf(id), pc, s) == Goto(pc + 1);
  }

  lemma InRangeOctet(n: int)
    requires 0 <= n < 256
    ensures InRange(Uns8, n)
  {
    PowerOfWidth(Uns8);
  }

  lemma HeaderSteps(env: Env, id: nat, s: Field, fmat: int)
    requires env.ProgOf(id) == KeyProg(id) && Header(s, fmat)
    ensures CarNodeFrom(env, id, 1, s, map[]) == CarNodeFrom(env, id, 4, s, HeaderOf(s))
  {
    hide CarNodeFrom, InRange;
    assert InRange(Uns8, fmat) by { InRangeOctet(fmat); }
    SimpleStep(env, id, 1, s, map[], Uns32, SVC);
    SimpleStep(env, id, 2, s, map[SVC := s.fields[SVC]], Uns8, TYPE);
    SimpleStep(env, id, 3, s, map[SVC := s.fields[SVC], TYPE := s.fields[TYPE]], Uns8, FMAT);
  }

  lemma TestStep(env: Env, id: nat, s: Field, fmat: int)
    requires env.ProgOf(id) == KeyProg(id) && Header(s, fmat) && (fmat == FMT_NUM || fmat == FMT_STR || fmat == FMT_OCT)
    ensures CarNodeFrom(env, id, 4, s, HeaderOf(s)) == CarNodeFrom(env, id, 4 + fmat, s, HeaderOf(s))
  {
    var r := KeyProg(id)[4];
    assert TestLabel(r, s) == fmat && TestLabel(r, Rec(HeaderOf(s))) == fmat;
    assert CarRule(env, id, r, s, HeaderOf(s)) == Some(HeaderOf(s));
    assert EncFlow(env, env.ProgOf(id), 4, s) == Goto(4 + fmat);
  }

  lemma DataStep(env: Env, id: nat, s: Field, done: Fields)
    requires env.ProgOf(id) == KeyProg(id) && HasData(s) && OCT_DATA !in done
    ensures CarNodeFrom(env, id, 8, s, done) == Some(CarNode(done[OCT_DATA := s.fields[OCT_DATA]], Leave(false), 8))
  {
    var r := KeyProg(id)[8];
    OctetsCarry(env, s.fields[OCT_DATA].elems);
    assert CarInline(env, r, s, s.fields[OCT_DATA], done) == Some(s.fields[OCT_DATA]);
    assert CarRule(env, id, r, s, done) == Some(done[OCT_DATA := s.fields[OCT_DATA]]);
    assert EncFlow(env, env.ProgOf(id), 8, s) == Leave(false);
  }

  /** The key program has no pointers, so the handle does not matter. */
  lemma KeyExact(env: Env, tree: set<Edp>, id: nat, s: Field)
    requires env.ProgOf(id) == KeyProg(id)
    ensures var e, w := EncEdp(env, tree, User(id), s), F.FmtEdp(env, User(id), s);
      C.Same(e, w) && (e.Ok? ==> e.bytes == w.bytes)
  {
    C.LeafyExact(env, tree, id, s);
  }

  /** Numeric keys survive. */
  lemma NumKey(env: Env, tree: set<Edp>, id: nat, s: Field, rest: seq<byte>)
    requires env.ProgOf(id) == KeyProg(id) && Header(s, FMT_NUM)
    requires VAL in s.fields && s.fields[VAL].Num? && InRange(Uns32, s.fields[VAL].n)
    ensures EncEdp(env, tree, User(id), s).Ok?
    ensures DecEdp(env, User(id), EncEdp(env, tree, User(id), s).bytes + rest)
      == Got(Rec(HeaderOf(s)[VAL := s.fields[VAL]]), rest)
  {
    HeaderSteps(env, id, s, FMT_NUM);
    TestStep(env, id, s, FMT_NUM);
    var r := KeyProg(id)[5];
    var done := HeaderOf(s);
    assert CarInline(env, r, s, s.fields[VAL], done) == Some(s.fields[VAL]);
    assert CarRule(env, id, r, s, done) == Some(done[VAL := s.fields[VAL]]);
    assert EncFlow(env, env.ProgOf(id), 5, s) == Leave(false);
    assert CarNodeFrom(env, id, 5, s, done) == Some(CarNode(done[VAL := s.fields[VAL]], Leave(false), 5));
    TripEdp(env, User(id), s, rest);
    KeyExact(env, tree, id, s);
  }

  /** String keys travel through the octet-string rules: byte 0 as a length, the rest as data. */
  lemma StrKey(env: Env, tree: set<Edp>, id: nat, s: Field, rest: seq<byte>)
    requires env.ProgOf(id) == KeyProg(id) && Header(s, FMT_STR) && HasData(s)
    requires VAL in s.fields && Octet(s.fields[VAL])
    ensures EncEdp(env, tree, User(id), s).Ok?
    ensures DecEdp(env, User(id), EncEdp(env, tree, User(id), s).bytes + rest)
      == Got(Rec(HeaderOf(s)[VAL := s.fields[VAL]][OCT_DATA := s.fields[OCT_DATA]]), rest)
  {
    hide CarNodeFrom, F.FmtEdp, DecEdp, InRange;
    HeaderSteps(env, id, s, FMT_STR);
    TestStep(env, id, s, FMT_STR);
    SimpleStep(env, id, 7, s, HeaderOf(s), Uns8, VAL);
    DataStep(env, id, s, HeaderOf(s)[VAL := s.fields[VAL]]);
    TripEdp(env, User(id), s, rest);
    KeyExact(env, tree, id, s);
  }

  /** Octet-string keys lose their length: whatever it was, the peer's stays zero. */
  lemma OctKeyLosesLength(env: Env, tree: set<Edp>, id: nat, s: Field, rest: seq<byte>)
    requires env.ProgOf(id) == KeyProg(id) && Header(s, FMT_OCT) && HasData(s)
    ensures EncEdp(env, tree, User(id), s).Ok?
    ensures var d := DecEdp(env, User(id), EncEdp(env, tree, User(id), s).bytes + rest);
      d == Got(Rec(HeaderOf(s)[OCT_DATA := s.fields[OCT_DATA]]), rest) && Peek(d.value, VAL, Basic(Uns8)) == Num(0)
  {
    HeaderSteps(env, id, s, FMT_OCT);
    TestStep(env, id, s, FMT_OCT);
    DataStep(env, id, s, HeaderOf(s));
    TripEdp(env, User(id), s, rest);
    KeyExact(env, tree, id, s);
  }

  /** So the length of an octet-string key arrives exactly when it is zero. */
  lemma OctKeyIff(env: Env, tree: set<Edp>, id: nat, s: Field, rest: seq<byte>)
    requires env.ProgOf(id) == KeyProg(id) && Header(s, FMT_OCT) && HasData(s)
    requires VAL in s.fields && Octet(s.fields[VAL])
    ensures EncEdp(env, tree, User(id), s).Ok?
    ensures var d := DecEdp(env, User(id), EncEdp(env, tree, User(id), s).bytes + rest);
      (d.Got? && Peek(d.value, VAL, Basic(Uns8)) == s.fields[VAL]) <==> s.fields[VAL] == Num(0)
  {
    hide F.FmtEdp, DecEdp;
    OctKeyLosesLength(env, tree, id, s, rest);
  }

  /** Every other format is refused by the encoder. */
  lemma OtherFormatsFail(env: Env, tree: set<Edp>, id: nat, s: Field, fmat: int)
    requires env.ProgOf(id) == KeyProg(id) && Header(s, fmat)
    requires fmat != FMT_NUM && fmat != FMT_STR && fmat != FMT_OCT
    ensures EncEdp(env, tree, User(id), s) == Fail
  {
    KeyExact(env, tree, id, s);
    hide EncEdp;
    assert EncFlow(env, env.ProgOf(id), 4, s) == Crash;
    assert F.FmtRule(env, id, KeyProg(id)[4], s) == F.Ok([]);
    assert F.FmtNode(env, id, 4, s) == F.NodeFail;
    EncSimple(env, id, 3, s, Uns8, FMAT);
    EncSimple(env, id, 2, s, Uns8, TYPE);
    EncSimple(env, id, 1, s, Uns32, SVC);
  }

  lemma EncSimple(env: Env, id: nat, pc: nat, s: Field, k: Kind, offset: long)
    requires env.ProgOf(id) == KeyProg(id) && pc < 10 && KeyProg(id)[pc] == Simple(k, offset, 0)
    requires s.Rec? && offset in s.fields && s.fields[offset].Num?
    ensures F.FmtNode(env, id, pc + 1, s) == F.NodeFail ==> F.FmtNode(env, id, pc, s) == F.NodeFail
  {
    var r := KeyProg(id)[pc];
    assert F.FmtInline(env, r, s, s.fields[offset]) == F.FmtEdp(env, Basic(k), s.fields[offset]);
    assert F.FmtRule(env, id, r, s).Ok?;
    assert EncFlow(env, env.ProgOf(id), pc, s) == Goto(pc + 1);
  }
}
