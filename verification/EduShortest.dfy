/**
  The decoder on any input at all.  It never runs astray on well-formed programs, and whatever it accepts is
  at least as long as what the format would write for the value it got: no shorter octets stand for it.
 */
module EduShortest {
  import opened EduModel
  import opened EduFlow
  import opened EduFormat
  import opened EduDecode
  import opened EduCarried
  import opened EduRoundTrip
  import opened EduWellFormed

  /** No program stores a char array, whose count comes from the input. */
  ghost predicate CharFree(env: Env, home: set<nat>) {
    forall id: nat, i :: id in home && 0 <= i < |env.ProgOf(id)| ==> !CharArray(env.ProgOf(id)[i])
  }

  predicate CharArray(r: Rule) {
    r.instr.Exec? && r.fld2.arr && !r.fld2.pointer && r.fld1 == Basic(Char)
  }

  /** The input begins with a count above the size of the array, and goes on with more characters than it holds. */
  predicate Overlong(r: Rule, inp: seq<byte>) {
    |inp| >= 2 && FromU16(inp[..2]) > r.fld6 && |inp| - 2 > r.fld6
  }

  /** d stayed on track, and the format needs no more octets than it took. */
  ghost predicate Enough(took: int, out: FmtOut) {
    took >= 0 && (out.Ok? ==> |out.bytes| <= took)
  }

  lemma {:induction false} ReadEdp(env: Env, home: set<nat>, edp: Edp, inp: seq<byte>)
    requires WellFormed(env, home) && Covers(home, edp)
    ensures var d := DecEdp(env, edp, inp);
      && !d.InStray? && (CharFree(env, home) ==> !d.InOverrun?)
      && (d.Got? ==> Enough(|inp| - |d.rest|, FmtEdp(env, edp, d.value)))
    decreases env.RankOf(edp), 5
  {
    hide DecNode, DecNodes, FmtChain, FmtNode, FormFrom, CharFree, EncBasic, DecBasic;
    if edp.User? {
      assert ProgForm(env, home, edp.id);
      var id := edp.id;
      if !env.IsList(edp) {
        var d := DecNode(env, id, 1, map[], inp);
        var g := if d.Got? then Rec(d.value.fields) else Rec(map[]);
        ReadNode(env, home, id, 1, map[], map[], inp, g);
        AloneChain(env, id, g);
      } else {
        var c := TakeU16(inp);
        if c.Got? { ReadNodes(env, home, id, c.value, true, c.rest); }
        EmptyChain(env, id);
      }
    }
  }

  /** Nothing can be encoded from a structure without fields. */
  lemma {:induction false} EmptyNode(env: Env, id: nat, pc: nat)
    ensures var n := FmtNode(env, id, pc, Rec(map[])); n.Node? ==> n.bytes == []
    decreases |env.ProgOf(id)| - pc
  {
    hide FmtInline, FmtEdp;
    var prog := env.ProgOf(id);
    if pc < |prog| {
      var flow := EncFlow(env, prog, pc, Rec(map[]));
      if flow.Goto? && pc < flow.pc <= |prog| { EmptyNode(env, id, flow.pc); }
    }
  }

  lemma EmptyChain(env: Env, id: nat)
    ensures var c := FmtChain(env, id, 1, Rec(map[])); c.Chain? ==> c.bytes == []
  {
    hide FmtNode, FmtEdp;
    EmptyNode(env, id, 1);
  }

  lemma AloneChain(env: Env, id: nat, s: Field)
    ensures var n, c := FmtNode(env, id, 1, s), FmtChain(env, id, 1, s);
      (n.Node? ==> n.end.Leave?) && c.Chain? ==> n.Node? && c.bytes == n.bytes
  {
    hide FmtNode, FmtEdp;
  }

  lemma {:induction false} ReadNodes(env: Env, home: set<nat>, id: nat, count: nat, inMemory: bool, inp: seq<byte>)
    requires WellFormed(env, home) && id in home && env.IsList(User(id))
    ensures var d := DecNodes(env, id, count, inMemory, inp);
      && !d.InStray? && (CharFree(env, home) ==> !d.InOverrun?)
      && (d.Got? ==>
        && |d.rest| <= |inp| && (d.value.Some? <==> count > 0)
        && (d.value.Some? ==> var c := FmtChain(env, id, 1, d.value.value); c.Chain? ==> |c.bytes| <= |inp| - |d.rest|))
    decreases env.RankOf(User(id)), 4, count
  {
    hide DecNode, FmtNode, FormFrom, CharFree, LinkOffset, DecEdp, FmtEdp;
    assert ProgForm(env, home, id);
    if count > 0 && (inMemory || id in env.allocs) {
      var n := DecNode(env, id, 1, map[], inp);
      ReadNode(env, home, id, 1, map[], map[], inp, Rec(map[]));
      if n.Got? {
        ReadNodes(env, home, id, count - 1, false, n.rest);
        var tail := DecNodes(env, id, count - 1, false, n.rest);
        if tail.Got? {
          var s := Rec(n.value.fields[LinkOffset(env.ProgOf(id)) := Ref(tail.value)]);
          ReadNode(env, home, id, 1, map[], map[], inp, s);
          if tail.value.Some? { ChainFromStart(env, id, tail.value.value); }
        }
      }
    }
  }

  lemma LabelMeans(env: Env, home: set<nat>, id: nat, pc: nat, stored: Stored, lbl: int)
    requires pc < |env.ProgOf(id)| && LabelForm(env, home, id, pc, stored, lbl)
    ensures var enc := EncNext(env.ProgOf(id), pc, lbl);
      && !enc.Again? && (enc.Crash? ==> DecNext(env.ProgOf(id), pc, lbl).Crash?)
      && (enc.Goto? ==> pc < enc.pc <= |env.ProgOf(id)| && FormFrom(env, home, id, enc.pc, stored))
  {
    hide EncNext, DecNext, FormFrom;
  }

  lemma NextAgree(prog: Prog, pc: nat, lbl: int)
    requires pc < |prog| && !EncNext(prog, pc, lbl).Again?
      && (EncNext(prog, pc, lbl).Crash? ==> DecNext(prog, pc, lbl).Crash?)
    ensures var enc, dec := EncNext(prog, pc, lbl), DecNext(prog, pc, lbl);
      (enc.Goto? ==> dec == enc) && (enc.Leave? <==> dec.Leave?) && (enc.Crash? <==> dec.Crash?)
  {
  }

  lemma NullAgree(prog: Prog, pc: nat)
    requires pc < |prog| && PlainPointer(prog[pc])
    requires EncNullNext(prog, pc).Goto? ==> pc < EncNullNext(prog, pc).pc
    ensures var enc, dec := EncNullNext(prog, pc), DecNext(prog, pc, EDU_NEXT);
      (enc.Goto? ==> dec == enc) && (enc.Leave? <==> dec.Leave?) && !enc.Crash? && !enc.Again?
  {
  }

  predicate PlainPointer(r: Rule) {
    r.instr.Exec? && r.fld2.pointer && !r.fld2.varLen
  }

  ghost predicate NodeEnough(env: Env, id: nat, took: int, n: NodeOut) {
    took >= 0 &&
    (n.Node? ==> |n.bytes| <= took && (n.end.Again? ==>
      env.IsList(User(id)) && n.lastPc < |env.ProgOf(id)|
        && env.ProgOf(id)[n.lastPc].fld5 == LinkOffset(env.ProgOf(id))))
  }

  /** One structure: decoding stores each field once, and encoding what was stored takes the same course. */
  lemma {:induction false} ReadNode(env: Env, home: set<nat>, id: nat, pc: nat, stored: Stored, acc: Fields,
          inp: seq<byte>, g: Field)
    requires WellFormed(env, home) && id in home && FormFrom(env, home, id, pc, stored) && acc.Keys == stored.Keys
    requires env.IsList(User(id)) ==> LinkOffset(env.ProgOf(id)) !in stored
    ensures var d := DecNode(env, id, pc, acc, inp);
      && !d.InStray? && (CharFree(env, home) ==> !d.InOverrun?)
      && (d.Got? ==>
        && |d.rest| <= |inp| && Extends(acc, Rec(d.value.fields))
        && (env.IsList(User(id)) ==> LinkOffset(env.ProgOf(id)) !in d.value.fields)
        && (Extends(d.value.fields, g) ==> NodeEnough(env, id, |inp| - |d.rest|, FmtNode(env, id, pc, g))))
    decreases env.RankOf(User(id)), 3, |env.ProgOf(id)| - pc
  {
    hide DecRule, FmtRule, DecEdp, FmtEdp, EncNext, DecNext, EncNullNext, CharFree, LinkOffset, LlTestIsLast;
    var prog := env.ProgOf(id);
    if pc < |prog| && !prog[pc].instr.End? {
      var r := prog[pc];
      if r.instr.TestLlPtr? {
        ReadLlTest(env, id, pc, acc, inp, g);
      } else {
        var stored' := if r.instr.Exec? then stored[r.fld5 := r] else stored;
        ReadRule(env, home, id, pc, stored, acc, inp, g);
        var d := DecRule(env, id, r, acc, inp);
        if d.Got? {
          CourseAgrees(env, home, id, pc, stored, d.value, g);
          var dec := DecNext(prog, pc, DecLabel(env, r, d.value));
          if dec.Goto? {
            ReadNode(env, home, id, dec.pc, stored', d.value, d.rest, g);
          }
        }
      }
    }
  }

  lemma ReadLlTest(env: Env, id: nat, pc: nat, acc: Fields, inp: seq<byte>, g: Field)
    requires pc < |env.ProgOf(id)| && env.ProgOf(id)[pc].instr.TestLlPtr? && LlTestIsLast(env.ProgOf(id), pc)
    ensures DecNode(env, id, pc, acc, inp) == Got(NodeIn(acc, [pc]), inp)
    ensures FmtNode(env, id, pc, g) ==
      Node([], if NoNext(g, env.ProgOf(id)[pc].fld5) then Leave(true) else Again, pc, [pc])
  {
    hide DecNode, FmtNode;
    TripLlTest(env, id, pc, g, acc, inp);
    assert [] + inp == inp;
  }

  /** What the decoder does next is what the encoder would do next on the same fields, and it is well formed. */
  lemma CourseAgrees(env: Env, home: set<nat>, id: nat, pc: nat, stored: Stored, acc': Fields, g: Field)
    requires pc < |env.ProgOf(id)| && !env.ProgOf(id)[pc].instr.End? && !env.ProgOf(id)[pc].instr.TestLlPtr?
    requires FormFrom(env, home, id, pc, stored)
    requires var r := env.ProgOf(id)[pc]; acc'.Keys == if r.instr.Exec? then stored.Keys + {r.fld5} else stored.Keys
    ensures var prog := env.ProgOf(id); var r := prog[pc];
      var stored' := if r.instr.Exec? then stored[r.fld5 := r] else stored;
      var enc, dec := EncFlow(env, prog, pc, g), DecNext(prog, pc, DecLabel(env, r, acc'));
      && (dec.Goto? ==> pc < dec.pc <= |prog| && FormFrom(env, home, id, dec.pc, stored'))
      && (Extends(acc', g) ==>
        (dec.Goto? ==> enc == dec) && (dec.Leave? ==> enc.Leave?) && !enc.Again? && (enc.Goto? ==> dec.Goto?))
  {
    hide EncNext, DecNext, EncNullNext;
    var prog := env.ProgOf(id);
    var r := prog[pc];
    var lbl := DecLabel(env, r, acc');
    var stored' := if r.instr.Exec? then stored[r.fld5 := r] else stored;
    if r.instr.Test? { assert LabelForm(env, home, id, pc, stored, LabelOn(r, Peek(Rec(acc'), r.fld5, r.fld1))); }
    assert LabelForm(env, home, id, pc, stored', lbl);
    LabelMeans(env, home, id, pc, stored', lbl);
    NextAgree(prog, pc, lbl);
    if r.instr.Exec? && r.fld2.pointer {
      assert StepForm(env, home, id, pc, stored', EncNullNext(prog, pc));
      NullAgree(prog, pc);
    }
  }

  lemma {:induction false} ReadRule(env: Env, home: set<nat>, id: nat, pc: nat, stored: Stored, acc: Fields,
          inp: seq<byte>, g: Field)
    requires WellFormed(env, home) && id in home && pc < |env.ProgOf(id)| && acc.Keys == stored.Keys
    requires env.ProgOf(id)[pc].instr.Exec? ==> ExecForm(env, home, id, env.ProgOf(id)[pc], stored)
    ensures var r := env.ProgOf(id)[pc]; var d := DecRule(env, id, r, acc, inp);
      && !d.InStray? && (CharFree(env, home) ==> !d.InOverrun?)
      && (d.Got? ==>
        && d.value.Keys == (if r.instr.Exec? then stored.Keys + {r.fld5} else stored.Keys) && Extends(acc, Rec(d.value))
        && |d.rest| <= |inp| && (Extends(d.value, g) ==> Enough(|inp| - |d.rest|, FmtRule(env, id, r, g))))
    decreases env.RankOf(User(id)), 2
  {
    hide DecEdp, FmtEdp, DecInline, FmtInline, DecPointer;
    var r := env.ProgOf(id)[pc];
    if r.instr.Exec? {
      assert CharFree(env, home) ==> !CharArray(r);
      assert env.RankOf(r.fld1) < env.RankOf(User(id));
      if r.fld2.pointer {
        ReadPointer(env, home, r, inp);
      } else {
        ReadInline(env, home, id, r, stored, acc, inp, g);
      }
    }
  }

  lemma {:induction false} ReadPointer(env: Env, home: set<nat>, r: Rule, inp: seq<byte>)
    requires WellFormed(env, home) && PlainPointer(r) && !r.fld1.Str?
      && (r.fld1.User? ==> r.fld1.id in home && r.fld1.id in env.allocs)
    ensures var d := DecPointer(env, r.fld1, inp);
      && !d.InStray? && (CharFree(env, home) ==> !d.InOverrun?)
      && (d.Got? ==>
        && d.value.Ref? && |d.rest| + 2 <= |inp|
        && (d.value.target.Some? ==>
          Enough(|inp| - |d.rest| - (if env.IsList(r.fld1) then 0 else 2), FmtEdp(env, r.fld1, d.value.target.value))))
    decreases env.RankOf(r.fld1), 7
  {
    hide DecNodes, DecRepeat, CharFree, FmtChain;
    var c := TakeU16(inp);
    if c.Got? {
      if env.IsList(r.fld1) {
        ReadNodes(env, home, r.fld1.id, c.value, false, c.rest);
      } else {
        ReadRepeat(env, home, r.fld1, c.value, None, c.rest);
      }
    }
  }

  lemma {:induction false} ReadRepeat(env: Env, home: set<nat>, edp: Edp, count: nat, last: Option<Field>,
          inp: seq<byte>)
    requires WellFormed(env, home) && Covers(home, edp)
    ensures var d := DecRepeat(env, edp, count, last, inp);
      && !d.InStray? && (CharFree(env, home) ==> !d.InOverrun?)
      && (d.Got? ==>
        && |d.rest| <= |inp| && d.value.Ref? && (count == 0 ==> d.value == Ref(last))
        && (count > 0 ==> d.value.target.Some? && Enough(|inp| - |d.rest|, FmtEdp(env, edp, d.value.target.value))))
    decreases env.RankOf(edp), 6, count
  {
    hide DecEdp, FmtEdp, CharFree;
    if count > 0 {
      ReadEdp(env, home, edp, inp);
      var d := DecEdp(env, edp, inp);
      if d.Got? { ReadRepeat(env, home, edp, count - 1, Some(d.value), d.rest); }
    }
  }

  lemma {:induction false} ReadInline(env: Env, home: set<nat>, id: nat, r: Rule, stored: Stored, acc: Fields,
          inp: seq<byte>, g: Field)
    requires WellFormed(env, home) && r.instr.Exec? && ExecForm(env, home, id, r, stored) && !r.fld2.pointer
      && acc.Keys == stored.Keys
    ensures var d := DecInline(env, r, acc, inp);
      && !d.InStray? && (CharFree(env, home) && !CharArray(r) ==> !d.InOverrun?)
      && (d.Got? ==> |d.rest| <= |inp| && (Extends(acc, g) ==> Enough(|inp| - |d.rest|, FmtInline(env, r, g, d.value))))
    decreases env.RankOf(r.fld1), 7
  {
    hide DecEdp, FmtEdp, DecSeq, FmtSeq, CharFree;
    if r.fld2.varLen {
      var n := LengthOf(r.fld3, Peek(Rec(acc), r.fld6, r.fld3));
      if n.Some? && n.value != 0 {
        ReadSeq(env, home, r.fld1, n.value, inp);
        var d := DecSeq(env, r.fld1, n.value, inp);
        if d.Got? { assert d.value[..n.value] == d.value; }
      }
    } else if r.fld1.Str? {
    } else if r.fld2.arr {
      if r.fld1 == Basic(Char) {
        ReadChars(env, r, acc, inp, g);
      } else {
        ReadSeq(env, home, r.fld1, r.fld6, inp);
      }
    } else {
      ReadEdp(env, home, r.fld1, inp);
    }
  }

  lemma ReadChars(env: Env, r: Rule, acc: Fields, inp: seq<byte>, g: Field)
    requires CharArray(r) && !r.fld2.varLen
    ensures var d := DecInline(env, r, acc, inp);
      && !d.InStray? && (d.InOverrun? <==> Overlong(r, inp))
      && (d.Got? ==> |d.rest| <= |inp| && Enough(|inp| - |d.rest|, FmtInline(env, r, g, d.value)))
    decreases env.RankOf(r.fld1), 6
  {
    hide DecEdp, FmtEdp, DecSeq, FmtSeq;
    var c := TakeU16(inp);
    if c.Got? && c.value <= r.fld6 {
      DecChars(env, c.value, c.rest);
      var d := DecSeq(env, Basic(Char), c.value, c.rest);
      if d.Got? {
        var elems := d.value + Zeros(r.fld6 - c.value);
        var n := StrLen(elems);
        if n.Some? {
          assert c.value < r.fld6 ==> elems[c.value] == Num(0);
          FmtChars(env, elems[..n.value % 0x1_0000]);
        }
      }
    }
  }

  lemma {:induction false} DecChars(env: Env, count: nat, inp: seq<byte>)
    ensures var d := DecSeq(env, Basic(Char), count, inp);
      !d.InStray? && !d.InOverrun? && (d.Got? ==> |d.value| == count && |d.rest| + count == |inp|)
    decreases count
  {
    if count > 0 && inp != [] { DecChars(env, count - 1, inp[1..]); }
  }

  lemma {:induction false} FmtChars(env: Env, elems: seq<Field>)
    ensures FmtSeq(env, Basic(Char), elems).Ok? ==> |FmtSeq(env, Basic(Char), elems).bytes| == |elems|
  {
    if elems != [] { FmtChars(env, elems[1..]); }
  }

  lemma {:induction false} ReadSeq(env: Env, home: set<nat>, edp: Edp, count: nat, inp: seq<byte>)
    requires WellFormed(env, home) && Covers(home, edp)
    ensures var d := DecSeq(env, edp, count, inp);
      && !d.InStray? && (CharFree(env, home) ==> !d.InOverrun?)
      && (d.Got? ==> |d.value| == count && Enough(|inp| - |d.rest|, FmtSeq(env, edp, d.value)))
    decreases env.RankOf(edp), 6, count
  {
    hide DecEdp, FmtEdp, CharFree;
    if count > 0 {
      ReadEdp(env, home, edp, inp);
      var d := DecEdp(env, edp, inp);
      if d.Got? {
        ReadSeq(env, home, edp, count - 1, d.rest);
        var d' := DecSeq(env, edp, count - 1, d.rest);
        if d'.Got? { assert ([d.value] + d'.value)[1..] == d'.value; }
      }
    }
  }
}
