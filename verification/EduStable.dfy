/**
  What comes off the wire is a fixed point: the peer's copy encodes to the same bytes
  and carries itself, so values can be forwarded any number of times.
 */
module EduStable {
  import opened EduModel
  import opened EduFlow
  import opened EduFormat
  import opened EduDecode
  import opened EduCarried
  import opened EduRoundTrip

  lemma {:induction false} StableEdp(env: Env, edp: Edp, f: Field)
    requires CarEdp(env, edp, f).Some?
    ensures var g := CarEdp(env, edp, f).value;
      CarEdp(env, edp, g) == Some(g) && FmtEdp(env, edp, g) == FmtEdp(env, edp, f)
    decreases env.RankOf(edp), 4
  {
    hide FmtNode, FmtInline, FmtSeq, CarInline, CarSeq, CarNodeFrom, CarChain, FmtChain;
    if edp.User? {
      if env.IsList(edp) {
        StableChain(env, edp.id, f);
      } else {
        var c := CarNodeFrom(env, edp.id, 1, f, map[]).value;
        StableNode(env, edp.id, 1, f, map[], Rec(c.fields));
        TripNode(env, edp.id, 1, f, map[], []);
        SingleNode(env, edp.id, f);
        SingleNode(env, edp.id, Rec(c.fields));
      }
    }
  }

  lemma {:induction false} StableChain(env: Env, id: nat, s: Field)
    requires CarChain(env, id, s).Some?
    ensures var c := CarChain(env, id, s);
      c.value.0.Rec? && CarChain(env, id, c.value.0) == c && FmtChain(env, id, 1, c.value.0) == FmtChain(env, id, 1, s)
    decreases env.RankOf(User(id)), 3, s
  {
    hide FmtNode, FmtEdp, FmtRule, FmtInline, FmtSeq, DecNode, CarNodeFrom, CarRule, CarInline, CarSeq, CarEdp;
    var link := LinkOffset(env.ProgOf(id));
    var c := CarChain(env, id, s).value;
    var n := CarNodeFrom(env, id, 1, s, map[]).value;
    StableNode(env, id, 1, s, map[], c.0);
    TripNode(env, id, 1, s, map[], []);
    if n.end.Again? {
      AgainAtLink(env, id, 1, s, map[]);
      var next := s.fields[link].target.value;
      StableChain(env, id, next);
      ChainFromStart(env, id, next);
      ChainFromStart(env, id, CarChain(env, id, next).value.0);
    }
  }

  lemma {:induction false} Grows(env: Env, id: nat, pc: nat, s: Field, done: Fields)
    requires CarNodeFrom(env, id, pc, s, done).Some?
    ensures Extends(done, Rec(CarNodeFrom(env, id, pc, s, done).value.fields))
    decreases |env.ProgOf(id)| - pc
  {
    var prog := env.ProgOf(id);
    if pc < |prog| && !prog[pc].instr.End? && !prog[pc].instr.TestLlPtr? {
      var flow := EncFlow(env, prog, pc, s);
      if flow.Goto? {
        Grows(env, id, flow.pc, s, CarRule(env, id, prog[pc], s, done).value);
      }
    }
  }

  /** Running on any structure that extends what was carried takes the same course. */
  lemma {:induction false} StableNode(env: Env, id: nat, pc: nat, s: Field, done: Fields, g: Field)
    requires CarNodeFrom(env, id, pc, s, done).Some?
    requires Extends(CarNodeFrom(env, id, pc, s, done).value.fields, g)
    requires env.IsList(User(id)) ==>
      (NoNext(g, LinkOffset(env.ProgOf(id))) <==> !CarNodeFrom(env, id, pc, s, done).value.end.Again?)
    ensures CarNodeFrom(env, id, pc, g, done) == CarNodeFrom(env, id, pc, s, done)
    ensures FmtNode(env, id, pc, g) == FmtNode(env, id, pc, s)
    decreases env.RankOf(User(id)), 2, |env.ProgOf(id)| - pc
  {
    hide FmtChain, FmtEdp, FmtRule, FmtInline, FmtSeq, CarChain, CarRule, CarInline, CarSeq, CarEdp, EncNext,
      EncNullNext;
    var prog := env.ProgOf(id);
    if pc < |prog| && !prog[pc].instr.End? {
      var r := prog[pc];
      var done' := CarRule(env, id, r, s, done).value;
      var flow := EncFlow(env, prog, pc, s);
      if r.instr.TestLlPtr? {
        TripLlTest(env, id, pc, s, done, []);
        TripLlTest(env, id, pc, g, done, []);
      } else if !flow.Goto? {
        StableRule(env, id, r, s, done, g);
        assert EncFlow(env, prog, pc, g) == flow;
      } else {
        Grows(env, id, flow.pc, s, done');
        StableRule(env, id, r, s, done, g);
        assert EncFlow(env, prog, pc, g) == flow;
        StableNode(env, id, flow.pc, s, done', g);
      }
    }
  }

  lemma {:induction false} StableRule(env: Env, id: nat, r: Rule, s: Field, done: Fields, g: Field)
    requires CarRule(env, id, r, s, done).Some?
    requires Extends(CarRule(env, id, r, s, done).value, g)
    ensures CarRule(env, id, r, g, done) == CarRule(env, id, r, s, done)
    ensures FmtRule(env, id, r, g) == FmtRule(env, id, r, s)
    ensures NullPointerRule(r, g) == NullPointerRule(r, s)
    ensures r.instr.Test? ==> TestLabel(r, g) == TestLabel(r, s)
    decreases env.RankOf(User(id)), 1
  {
    if r.instr.Exec? {
      var f := s.fields[r.fld5];
      if r.fld2.pointer {
        if f.target.Some? {
          StableEdp(env, r.fld1, f.target.value);
        }
      } else {
        StableInline(env, r, s, f, done, g);
      }
    }
  }

  lemma {:induction false} StableInline(env: Env, r: Rule, s: Field, f: Field, done: Fields, g: Field)
    requires CarInline(env, r, s, f, done).Some? && Extends(done, g)
    ensures var f' := CarInline(env, r, s, f, done).value;
      CarInline(env, r, g, f', done) == Some(f') && FmtInline(env, r, g, f') == FmtInline(env, r, s, f)
    decreases env.RankOf(r.fld1), 6
  {
    hide FmtChain, FmtNode, FmtRule, FmtSeq, CarChain, CarNodeFrom, CarRule, CarSeq, CarEdp, FmtEdp;
    if r.fld2.arr {
      if r.fld1 == Basic(Char) {
        StableCharArray(env, r, s, f, done, g);
      } else {
        StableSeq(env, r.fld1, f.elems);
      }
    } else if r.fld2.varLen {
      var n := LengthOf(r.fld3, Peek(s, r.fld6, r.fld3)).value;
      if n != 0 {
        StableSeq(env, r.fld1, f.target.value.elems[..n]);
        var e := CarSeq(env, r.fld1, f.target.value.elems[..n]).value;
        assert e[..n] == e;
      }
    } else if !r.fld1.Str? {
      StableEdp(env, r.fld1, f);
    }
  }

  lemma {:induction false} StableCharArray(env: Env, r: Rule, s: Field, f: Field, done: Fields, g: Field)
    requires r.fld2.arr && r.fld1 == Basic(Char) && CarInline(env, r, s, f, done).Some?
    ensures var f' := CarInline(env, r, s, f, done).value;
      CarInline(env, r, g, f', done) == Some(f') && FmtInline(env, r, g, f') == FmtInline(env, r, s, f)
  {
    hide FmtChain, FmtNode, FmtRule, FmtSeq, CarChain, CarNodeFrom, CarRule, CarSeq, CarEdp, FmtEdp;
    var n := StrLen(f.elems).value;
    CarSeqOfNumbers(env, Char, f.elems[..n]);
    StrLenPadded(f.elems[..n], r.fld6 - n);
    assert (f.elems[..n] + Zeros(r.fld6 - n))[..n] == f.elems[..n];
  }

  lemma {:induction false} CarSeqOfNumbers(env: Env, k: Kind, elems: seq<Field>)
    requires CarSeq(env, Basic(k), elems).Some?
    ensures CarSeq(env, Basic(k), elems) == Some(elems)
  {
    if elems != [] {
      CarSeqOfNumbers(env, k, elems[1..]);
      assert [elems[0]] + elems[1..] == elems;
    }
  }

  lemma {:induction false} StrLenPadded(e: seq<Field>, pad: nat)
    requires pad > 0 && forall i :: 0 <= i < |e| ==> e[i] != Num(0)
    ensures StrLen(e + Zeros(pad)) == Some(|e|)
  {
    if e != [] {
      StrLenPadded(e[1..], pad);
      assert (e + Zeros(pad))[1..] == e[1..] + Zeros(pad);
    }
  }

  lemma {:induction false} StableSeq(env: Env, edp: Edp, elems: seq<Field>)
    requires CarSeq(env, edp, elems).Some?
    ensures var g := CarSeq(env, edp, elems).value;
      |g| == |elems| && CarSeq(env, edp, g) == Some(g) && FmtSeq(env, edp, g) == FmtSeq(env, edp, elems)
    decreases env.RankOf(edp), 5, |elems|
  {
    if elems != [] {
      StableEdp(env, edp, elems[0]);
      StableSeq(env, edp, elems[1..]);
    }
  }
}
