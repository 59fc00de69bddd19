/**
  The memory an accepted program touches: what the compile pass checks of offsets and sizes, exactly, and what
  follows for fields, array elements, next pointers, tested fields and the lengths of variable-length data.
 */
module EduFields {
  import opened EduModel
  import opened EduCompile
  import opened EduNames
  import opened EduAccepted

  /** Within a structure of this size. */
  predicate Within(size: nat, from: int, to: int) {
    0 <= from && to <= size
  }

  /**
    The end of the memory EDU_EXEC reads or writes in place for a field of this rule, z being the size of its program.
   */
  function FieldEnd(r: Rule, z: nat): int {
    if r.fld2.arr then r.fld5 + r.fld6 * z
    else if r.fld2.pointer || r.fld2.varLen || r.fld1.Str? then r.fld5 + PTR_SIZE
    else r.fld5 + z
  }

  /** Where the memory ends that a test rule reads: a string is reached through the pointer stored at its offset. */
  function TestEnd(r: Rule, z: nat): int {
    r.fld5 + if r.fld1.Str? then PTR_SIZE else z
  }

  lemma SlotEndMeans(o: long, size: nat)
    requires size < 0x1_0000_0000
    ensures SlotEnd(o) <= size <==> -PTR_SIZE <= o && o + PTR_SIZE <= size
  {
  }

  // ---------- what is known of every accepted program ----------

  /** Whatever an accepted program executes has a size: a built-in's own, or the one its program declares. */
  lemma FieldSized(env: Env, asked: seq<(nat, nat)>, id: nat, i: nat)
    requires Accepted(env, asked, id) && i < FirstEnd(env.ProgOf(id), 0) && env.ProgOf(id)[i].instr.Exec?
    ensures SizeIn(AfterAll(env, asked), env.ProgOf(id)[i].fld1).Some?
    ensures var e := env.ProgOf(id)[i].fld1;
      e.User? ==> |env.ProgOf(e.id)| > 0 && SizeIn(AfterAll(env, asked), e) == Some(Recorded(env.ProgOf(e.id)[0].fld5))
  {
    hide AfterAll, RulesOkFrom, ShapeOk, OwnAsked;
    AcceptedSound(env, asked, id);
    var e := env.ProgOf(id)[i].fld1;
    if e.User? {
      assert Passed(AfterAll(env, asked), e);
      AcceptedSound(env, asked, e.id);
    }
  }

  /**
    Arrays and pointer and variable-length slots: with a declared size and a target that has one, they end inside, and
    lie inside exactly when the offset is not negative.  A slot that is a pointer is at most eight octets in front.
   */
  lemma SlotInsideIff(env: Env, asked: seq<(nat, nat)>, id: nat, i: nat)
    requires Accepted(env, asked, id) && i < FirstEnd(env.ProgOf(id), 0)
    requires env.ProgOf(id)[i].instr.Exec? && IsSlot(env.ProgOf(id)[i])
    ensures var r := env.ProgOf(id)[i]; var size := Recorded(env.ProgOf(id)[0].fld5);
      var z := SizeIn(AfterAll(env, asked), r.fld1);
      && z.Some?
      && (size != 0 && z.value != 0 ==>
        && FieldEnd(r, z.value) <= size && (Within(size, r.fld5, FieldEnd(r, z.value)) <==> r.fld5 >= 0)
        && (!r.fld2.arr ==> r.fld5 >= -PTR_SIZE))
  {
    FieldSized(env, asked, id, i);
    AcceptedSound(env, asked, id);
    hide AfterAll, SlotEnd, OwnAsked;
    var prog := env.ProgOf(id);
    assert RuleOk(AfterAll(env, asked), Recorded(prog[0].fld5), prog, i);
    SlotEndMeans(prog[i].fld5, Recorded(prog[0].fld5));
  }

  /** Every element of such an array lies inside exactly when the array starts at zero or more, or has no element. */
  lemma ElementsInsideIff(env: Env, asked: seq<(nat, nat)>, id: nat, i: nat)
    requires Accepted(env, asked, id) && i < FirstEnd(env.ProgOf(id), 0)
    requires env.ProgOf(id)[i].instr.Exec? && env.ProgOf(id)[i].fld2.arr
    ensures var r := env.ProgOf(id)[i]; var size := Recorded(env.ProgOf(id)[0].fld5);
      var z := SizeIn(AfterAll(env, asked), r.fld1);
      && z.Some?
      && (size != 0 && z.value != 0 ==>
        ((forall k: nat :: k < r.fld6 ==> ElementWithin(size, r, z.value, k)) <==> r.fld5 >= 0 || r.fld6 <= 0))
  {
    SlotInsideIff(env, asked, id, i);
    hide AfterAll, SizeIn, Accepted, FirstEnd;
    var r := env.ProgOf(id)[i];
    var size, z := Recorded(env.ProgOf(id)[0].fld5), SizeIn(AfterAll(env, asked), r.fld1);
    if size != 0 && z.value != 0 {
      if r.fld5 >= 0 {
        forall k: nat | k < r.fld6 ensures ElementWithin(size, r, z.value, k) { LastElement(r.fld6, z.value, k); }
      } else if r.fld6 > 0 {
        assert !ElementWithin(size, r, z.value, 0);
      }
    }
  }

  predicate ElementWithin(size: nat, r: Rule, z: nat, k: nat) {
    Within(size, r.fld5 + k * z, r.fld5 + k * z + z)
  }

  lemma LastElement(n: int, z: int, k: nat)
    requires k < n && z > 0
    ensures 0 <= k * z && k * z + z <= n * z
  {
    var d := n - (k + 1);
    assert d * z >= 0;
    assert n * z == (d + k + 1) * z == d * z + k * z + z;
  }

  /** The next pointer of an accepted list ends inside, and lies inside exactly when its offset is not negative. */
  lemma NextPointerInsideIff(env: Env, asked: seq<(nat, nat)>, id: nat, i: nat)
    requires Accepted(env, asked, id) && i < FirstEnd(env.ProgOf(id), 0) && env.ProgOf(id)[i].instr.TestLlPtr?
    ensures var o := env.ProgOf(id)[i].fld5; var size := Recorded(env.ProgOf(id)[0].fld5);
      && o != 0 && -PTR_SIZE <= o && o + PTR_SIZE <= size
      && (Within(size, o, o + PTR_SIZE) <==> o > 0)
  {
    AcceptedSound(env, asked, id);
    hide AfterAll, RulesOkFrom, SlotEnd, OwnAsked;
    SlotEndMeans(env.ProgOf(id)[i].fld5, Recorded(env.ProgOf(id)[0].fld5));
  }

  /**
    Tests and plain fields of a program with a declared size.  A tested field that has a size ends inside, and lies
    inside exactly when its offset is not negative; a plain field or a tested string starts inside exactly then, and
    ends at most its size less one outside.
   */
  lemma ReadsBounded(env: Env, asked: seq<(nat, nat)>, id: nat, i: nat)
    requires Accepted(env, asked, id) && i < FirstEnd(env.ProgOf(id), 0)
    ensures var r := env.ProgOf(id)[i]; var size := Recorded(env.ProgOf(id)[0].fld5);
      var z := SizeIn(AfterAll(env, asked), r.fld1);
      size != 0 ==>
      && (r.instr.Test? ==>
        && z.Some? && r.fld5 < size
        && (z.value != 0 ==>
          TestEnd(r, z.value) <= size && (Within(size, r.fld5, TestEnd(r, z.value)) <==> r.fld5 >= 0))
        && (r.fld1.Str? ==> TestEnd(r, z.value) <= size + PTR_SIZE - 1))
      && (r.instr.Exec? && !IsSlot(r) ==>
        && z.Some? && r.fld5 < size
        && FieldEnd(r, z.value) <= size - 1 + if r.fld1.Str? then PTR_SIZE else z.value)
  {
    if env.ProgOf(id)[i].instr.Exec? { FieldSized(env, asked, id, i); }
    AcceptedSound(env, asked, id);
    hide AfterAll, OwnAsked;
    assert RuleOk(AfterAll(env, asked), Recorded(env.ProgOf(id)[0].fld5), env.ProgOf(id), i);
  }

  // ---------- exactly what passes ----------

  const Extension := Rule(ExecExt, Basic(Uns8), Plain, Basic(Uns8), 0, 0, 0, NoRoutine)

  /** One field or test, in a structure of a declared size. */
  function One(id: nat, size: long, r: Rule): Prog {
    Two(id, size, r, if r.fld2.varLen then Extension else Stop)
  }

  predicate Single(r: Rule) {
    (r.instr.Exec? || r.instr.Test?) && !r.fld1.User? && r.nxtLbl == 0
  }

  lemma OneEnds(prog: Prog, id: nat, size: long, r: Rule)
    requires prog == One(id, size, r) && Single(r)
    ensures FirstEnd(prog, 0) == if r.fld2.varLen then 3 else 2
    ensures HeaderOk(prog) && ShapeOk(prog)
  {
    assert FirstEnd(prog, 3) == 3;
    assert FirstEnd(prog, 2) == if r.fld2.varLen then 3 else 2;
    assert FirstEnd(prog, 1) == FirstEnd(prog, 2);
    assert FirstEnd(prog, 0) == FirstEnd(prog, 1);
  }

  /** Such a program is accepted exactly when the check of its one rule holds. */
  lemma OneIff(env: Env, id: nat, size: long, r: Rule)
    requires env.ProgOf(id) == One(id, size, r) && Single(r)
    ensures var s := Recorded(size);
      Accepted(env, [(id, 1)], id) <==> RuleOk(map[User(id) := HdlNode(s, Plain, false)], s, env.ProgOf(id), 1)
  {
    var prog := env.ProgOf(id);
    OneEnds(prog, id, size, r);
    FreshIff(env, id);
    hide Accepted;
    var hdl: Hdl := map[User(id) := HdlNode(Recorded(size), Plain, false)];
    assert RuleOk(hdl, Recorded(size), prog, 0);
    assert r.fld2.varLen ==> RuleOk(hdl, Recorded(size), prog, 2);
  }

  /** What stands at an offset, without a label. */
  function At(instr: Instr, edp: Edp, attr: Attr, offset: long, n: long, routine: Routine): Rule {
    Rule(instr, edp, attr, Basic(Uns32), 0, offset, n, routine)
  }

  const Pointer := Attr(false, false, true, false)
  const Array := Attr(false, true, false, false)
  const VarLen := Attr(false, false, false, true)

  function KindSize(k: Kind): nat {
    if k.NcsBool? then 1 else Width(k)
  }

  /** A plain field passes whenever its first octet lies in front of the end, at any negative offset too. */
  lemma PlainAcceptedIff(env: Env, id: nat, size: long, edp: Edp, o: long)
    requires !edp.User? && env.ProgOf(id) == One(id, size, At(Exec, edp, Plain, o, 0, NoRoutine))
    ensures Accepted(env, [(id, 1)], id) <==> Recorded(size) == 0 || o < Recorded(size)
  {
    hide Accepted;
    OneIff(env, id, size, At(Exec, edp, Plain, o, 0, NoRoutine));
  }

  /** A pointer passes up to eight octets in front of the structure; one to a string passes anywhere. */
  lemma PointerAcceptedIff(env: Env, id: nat, size: long, edp: Edp, o: long)
    requires !edp.User? && env.ProgOf(id) == One(id, size, At(Exec, edp, Pointer, o, 0, NoRoutine))
    ensures Accepted(env, [(id, 1)], id) <==>
      Recorded(size) == 0 || edp.Str? || (-PTR_SIZE <= o && o + PTR_SIZE <= Recorded(size))
  {
    hide Accepted, SlotEnd;
    OneIff(env, id, size, At(Exec, edp, Pointer, o, 0, NoRoutine));
    SlotEndMeans(o, Recorded(size));
  }

  /** An array passes whenever it ends inside, wherever it starts; one of strings passes anywhere. */
  lemma ArrayAcceptedIff(env: Env, id: nat, size: long, edp: Edp, o: long, n: long)
    requires !edp.User? && env.ProgOf(id) == One(id, size, At(Exec, edp, Array, o, n, NoRoutine))
    ensures Accepted(env, [(id, 1)], id) <==>
      Recorded(size) == 0 || edp.Str? || o + n * KindSize(edp.kind) <= Recorded(size)
  {
    hide Accepted;
    OneIff(env, id, size, At(Exec, edp, Array, o, n, NoRoutine));
  }

  /** Variable-length data is checked like a pointer; nothing is asked of the offset its length is read from. */
  lemma LengthUnchecked(env: Env, id: nat, size: long, edp: Edp, o: long, length: long)
    requires !edp.User? && env.ProgOf(id) == One(id, size, At(Exec, edp, VarLen, o, length, NoRoutine))
    ensures Accepted(env, [(id, 1)], id) <==>
      Recorded(size) == 0 || edp.Str? || (-PTR_SIZE <= o && o + PTR_SIZE <= Recorded(size))
  {
    hide Accepted, SlotEnd;
    OneIff(env, id, size, At(Exec, edp, VarLen, o, length, NoRoutine));
    SlotEndMeans(o, Recorded(size));
  }

  /** A tested field passes whenever it ends inside, a tested string whenever its first octet does. */
  lemma TestAcceptedIff(env: Env, id: nat, size: long, edp: Edp, o: long, routine: Routine)
    requires !edp.User? && routine.Routine? && env.ProgOf(id) == One(id, size, At(Test, edp, Plain, o, 0, routine))
    ensures Accepted(env, [(id, 1)], id) <==>
      Recorded(size) == 0 || o + (if edp.Str? then 1 else KindSize(edp.kind)) <= Recorded(size)
  {
    hide Accepted;
    OneIff(env, id, size, At(Test, edp, Plain, o, 0, routine));
  }

  // ---------- accepted programs outside their structures ----------

  /** A pointer to a string a thousand octets behind a structure of eight. */
  lemma StringPointerOutside(env: Env, id: nat)
    requires env.ProgOf(id) == One(id, 8, At(Exec, Str, Pointer, 1000, 0, NoRoutine))
    ensures Accepted(env, [(id, 1)], id) && FieldEnd(env.ProgOf(id)[1], 0) == 1008
  {
    PointerAcceptedIff(env, id, 8, Str, 1000);
  }

  /** A pointer that begins in front of its structure. */
  lemma PointerInFront(env: Env, id: nat)
    requires env.ProgOf(id) == One(id, 8, At(Exec, Basic(Uns32), Pointer, -1, 0, NoRoutine))
    ensures Accepted(env, [(id, 1)], id) && !Within(8, -1, FieldEnd(env.ProgOf(id)[1], 4))
  {
    PointerAcceptedIff(env, id, 8, Basic(Uns32), -1);
  }

  /** A number a hundred octets in front of it. */
  lemma FieldInFront(env: Env, id: nat)
    requires env.ProgOf(id) == One(id, 8, At(Exec, Basic(Uns32), Plain, -100, 0, NoRoutine))
    ensures Accepted(env, [(id, 1)], id) && FieldEnd(env.ProgOf(id)[1], 4) == -96
  {
    PlainAcceptedIff(env, id, 8, Basic(Uns32), -100);
  }

  /** An eight-octet number that ends seven octets behind it. */
  lemma PlainFieldOverrun(env: Env, id: nat)
    requires env.ProgOf(id) == One(id, 1, At(Exec, Basic(Uns64), Plain, 0, 0, NoRoutine))
    ensures Accepted(env, [(id, 1)], id) && FieldEnd(env.ProgOf(id)[1], 8) == 1 + 7
  {
    PlainAcceptedIff(env, id, 1, Basic(Uns64), 0);
  }

  /** A string test that reads seven octets behind it. */
  lemma TestedStringOverrun(env: Env, id: nat, routine: Routine)
    requires routine.Routine? && env.ProgOf(id) == One(id, 1, At(Test, Str, Plain, 0, 0, routine))
    ensures Accepted(env, [(id, 1)], id) && TestEnd(env.ProgOf(id)[1], 0) == 1 + 7
  {
    TestAcceptedIff(env, id, 1, Str, 0, routine);
  }

  /** Data whose length, four octets, is read a thousand octets behind a structure of eight. */
  lemma LengthOutside(env: Env, id: nat)
    requires env.ProgOf(id) == One(id, 8, At(Exec, Basic(Uns16), VarLen, 0, 1000, NoRoutine))
    ensures Accepted(env, [(id, 1)], id) && !Within(8, env.ProgOf(id)[1].fld6, env.ProgOf(id)[1].fld6 + 4)
  {
    LengthUnchecked(env, id, 8, Basic(Uns16), 0, 1000);
  }

  // ---------- next pointers ----------

  function ListProg(id: nat, size: long, o: long): Prog {
    [ Rule(Start, User(id), Attr(true, false, false, false), Basic(Uns8), 0, size, 0, NoRoutine),
      Rule(TestLlPtr, User(id), Plain, Basic(Uns8), 0, o, 0, NoRoutine), Stop ]
  }

  /** A list passes with its next pointer up to eight octets in front, but not at offset zero. */
  lemma NextAcceptedIff(env: Env, id: nat, size: long, o: long)
    requires env.ProgOf(id) == ListProg(id, size, o)
    ensures Accepted(env, [(id, 1)], id) <==> o != 0 && -PTR_SIZE <= o && o + PTR_SIZE <= Recorded(size)
  {
    var prog := env.ProgOf(id);
    TwoEnds(prog);
    SlotEndMeans(o, Recorded(size));
    FreshIff(env, id);
    hide Accepted, SlotEnd;
    var hdl: Hdl := map[User(id) := HdlNode(Recorded(size), prog[0].fld2, false)];
    assert RuleOk(hdl, Recorded(size), prog, 0);
    assert SlotEnd(o) <= Recorded(size) ==> RuleOk(hdl, Recorded(size), prog, 1);
    assert ShapeOk(prog) <==> o != 0 && SlotEnd(o) <= Recorded(size);
  }

  lemma NextInFront(env: Env, id: nat)
    requires env.ProgOf(id) == ListProg(id, 8, -4)
    ensures Accepted(env, [(id, 1)], id) && !Within(8, -4, -4 + PTR_SIZE)
  {
    NextAcceptedIff(env, id, 8, -4);
  }
}
