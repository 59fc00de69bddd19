/**
  The peer's copy piece by piece: every number is the sender's at the same place, except zeros behind the end
  of a char array; a pointer is NULL only where the sender's was, or led to data of length zero.
 */
module EduPart {
  import opened EduModel
  import opened EduFlow
  import opened EduDecode
  import opened EduCarried

  ghost predicate PartOf(g: Field, f: Field)
    decreases g
  {
    match g
    case Num(_) => g == f
    case Text(t) => g == f || (t.None? && f == Text(Some([])))
    case Rec(m) => f.Rec? && forall o :: o in m ==>
      if o in f.fields then PartOf(m[o], f.fields[o]) else m[o] == Ref(None)
    case Vec(s) =>
      && f.Vec? && |s| <= |f.elems|
      && forall i :: 0 <= i < |s| ==>
        PartOf(s[i], f.elems[i]) || (s[i] == Num(0) && exists j :: 0 <= j <= i && f.elems[j] == Num(0))
    case Ref(t) =>
      && f.Ref?
      && if t.None? then f.target.None? || f.target.value.Vec?
         else f.target.Some? && PartOf(t.value, f.target.value)
  }

  lemma {:induction false} PartEdp(env: Env, edp: Edp, f: Field)
    requires CarEdp(env, edp, f).Some?
    ensures PartOf(CarEdp(env, edp, f).value, f)
    decreases env.RankOf(edp), 4
  {
    if edp.User? {
      if env.IsList(edp) {
        PartChain(env, edp.id, f);
      } else {
        PartNode(env, edp.id, 1, f, map[]);
      }
    }
  }

  lemma {:induction false} PartChain(env: Env, id: nat, s: Field)
    requires CarChain(env, id, s).Some?
    ensures PartOf(CarChain(env, id, s).value.0, s)
    decreases env.RankOf(User(id)), 3, s
  {
    hide CarNodeFrom, CarEdp, CarRule, CarInline, CarSeq;
    PartNode(env, id, 1, s, map[]);
    var n := CarNodeFrom(env, id, 1, s, map[]).value;
    if n.end.Again? {
      PartChain(env, id, s.fields[LinkOffset(env.ProgOf(id))].target.value);
    }
  }

  lemma {:induction false} PartNode(env: Env, id: nat, pc: nat, s: Field, done: Fields)
    requires CarNodeFrom(env, id, pc, s, done).Some? && PartOf(Rec(done), s)
    ensures PartOf(Rec(CarNodeFrom(env, id, pc, s, done).value.fields), s)
    decreases env.RankOf(User(id)), 2, |env.ProgOf(id)| - pc
  {
    hide CarChain, CarEdp, CarRule, CarInline, CarSeq, EncNext, EncNullNext;
    var prog := env.ProgOf(id);
    if pc < |prog| && !prog[pc].instr.End? {
      var done' := CarRule(env, id, prog[pc], s, done).value;
      PartRule(env, id, prog[pc], s, done);
      var flow := EncFlow(env, prog, pc, s);
      if !prog[pc].instr.TestLlPtr? && flow.Goto? {
        PartNode(env, id, flow.pc, s, done');
      }
    }
  }

  lemma {:induction false} PartRule(env: Env, id: nat, r: Rule, s: Field, done: Fields)
    requires CarRule(env, id, r, s, done).Some? && PartOf(Rec(done), s)
    ensures PartOf(Rec(CarRule(env, id, r, s, done).value), s)
    decreases env.RankOf(User(id)), 1
  {
    hide CarChain, CarNodeFrom, CarEdp, CarInline, CarSeq;
    if r.instr.Exec? {
      var f := s.fields[r.fld5];
      if r.fld2.pointer {
        if f.target.Some? {
          PartEdp(env, r.fld1, f.target.value);
        }
      } else {
        PartInline(env, r, s, f, done);
      }
    }
  }

  lemma {:induction false} PartInline(env: Env, r: Rule, s: Field, f: Field, done: Fields)
    requires CarInline(env, r, s, f, done).Some?
    ensures PartOf(CarInline(env, r, s, f, done).value, f)
    decreases env.RankOf(r.fld1), 6
  {
    hide CarChain, CarNodeFrom, CarEdp, CarRule, CarSeq;
    if r.fld2.arr {
      PartSeq(env, r.fld1, if r.fld1 == Basic(Char) then f.elems[..StrLen(f.elems).value] else f.elems);
    } else if r.fld2.varLen {
      var n := LengthOf(r.fld3, Peek(s, r.fld6, r.fld3)).value;
      if n != 0 {
        PartSeq(env, r.fld1, f.target.value.elems[..n]);
      }
    } else if !r.fld1.Str? {
      PartEdp(env, r.fld1, f);
    }
  }

  lemma {:induction false} PartSeq(env: Env, edp: Edp, elems: seq<Field>)
    requires CarSeq(env, edp, elems).Some?
    ensures var g := CarSeq(env, edp, elems).value;
      |g| == |elems| && forall i :: 0 <= i < |g| ==> PartOf(g[i], elems[i])
    decreases env.RankOf(edp), 5, |elems|
  {
    hide CarChain, CarNodeFrom, CarEdp, CarRule, CarInline, PartOf;
    if elems != [] {
      PartEdp(env, edp, elems[0]);
      PartSeq(env, edp, elems[1..]);
    }
  }
}
