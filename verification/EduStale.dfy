/** The stale pointer attribute in octets: a pointer to a list, then a pointer to a number. */
module EduStale {
  import opened EduModel
  import opened EduFlow
  import opened EduEncode
  import opened EduDecode
  import opened EduCarried
  import opened EduWellFormed
  import C = EduCounts
  import Facts = EduFacts

  function Here(instr: Instr, edp: Edp, attr: Attr, offset: long): Rule {
    Rule(instr, edp, attr, edp, 0, offset, 0, NoRoutine)
  }

  const Pointer := Attr(false, false, true, false)

  const Top: Prog := [Here(Start, User(0), Plain, 16), Here(Exec, User(1), Pointer, 0),
    Here(Exec, Basic(Uns32), Pointer, 8), Here(End, Basic(Uns8), Plain, 0)]

  function List(k: Kind): Prog {
    [Here(Start, User(1), Attr(true, false, false, false), 16), Here(Exec, Basic(k), Plain, 0),
      Here(TestLlPtr, User(1), Plain, 8), Here(End, Basic(Uns8), Plain, 0)]
  }

  /** Program 0 points to a list and then to a number; the nodes of the list, program 1, hold a number of kind k. */
  function Programs(k: Kind): Env {
    Env(map[0 := Top, 1 := List(k)], 0, {0, 1}, map[0 := 1, 1 := 0], (0, 0))
  }

  function Item(x: int): Field { Rec(map[0 := Num(x), 8 := Ref(None)]) }

  function Both(x: int, y: int): Field { Rec(map[0 := Ref(Some(Item(x))), 8 := Ref(Some(Num(y)))]) }

  lemma Link(k: Kind)
    ensures LinkOffset(List(k)) == 8
  {
    var p := List(k);
    assert NextOffset(p, 3, Some(8)) == Some(8);
    assert NextOffset(p, 2, None) == Some(8);
    assert NextOffset(p, 1, None) == Some(8);
  }

  /** Running the list enters the kind of number its nodes hold. */
  lemma ListRun(k: Kind, x: int, tree: set<Edp>)
    ensures EncEdp(Programs(k), tree, User(1), Item(x)) == Ok(U16(1) + EncBasic(k, x), tree + {Basic(k)}, {[]})
  {
    var env, s := Programs(k), Item(x);
    var prog := env.ProgOf(1);
    assert EncFlow(env, prog, 2, s) == Leave(true);
    assert EncRule(env, 1, prog[2], s, false, tree + {Basic(k)}) == Ok([], tree + {Basic(k)}, {});
    assert EncNode(env, 1, 2, s, false, tree + {Basic(k)}) ==
      EncNoded([], Leave(true), 2, [2], false, tree + {Basic(k)}, [], {});
    NumberRun(env, tree, k, x);
    assert EncInline(env, tree, prog[1], s, Num(x)) == EncEdp(env, tree, Basic(k), Num(x));
    assert EncRule(env, 1, prog[1], s, false, tree) == Ok(EncBasic(k, x), tree + {Basic(k)}, {});
    assert EncFlow(env, prog, 1, s) == Goto(2);
    assert EncBasic(k, x) + [] == EncBasic(k, x);
    var n := EncNode(env, 1, 1, s, false, tree);
    assert n == EncNoded(EncBasic(k, x), Leave(true), 2, [1] + [2], false, tree + {Basic(k)}, [] + [], {} + {});
    assert EncChain(env, 1, 1, s, false, tree) == EncChained(EncBasic(k, x), 1, true, tree + {Basic(k)}, [], {});
    var none: set<seq<Event>> := {};
    assert none + {[]} == {[]};
  }

  /** From the second pointer on, with the attribute of the list still set. */
  lemma SecondRun(k: Kind, x: int, y: int, tree: set<Edp>)
    ensures var known := Basic(Uns32) in tree;
      EncNode(Programs(k), 0, 2, Both(x, y), true, tree) ==
      EncNoded((if known then U16(1) else []) + EncBasic(Uns32, y), Leave(false), 3, [2], !known,
        tree + {Basic(Uns32)}, [Event(Basic(Uns32), false, known)], {})
  {
    var env, s := Programs(k), Both(x, y);
    var prog := env.ProgOf(0);
    var known := Basic(Uns32) in tree;
    NumberRun(env, tree, Uns32, y);
    hide EncEdp;
    var b, e := (if known then U16(1) else []) + EncBasic(Uns32, y), Event(Basic(Uns32), false, known);
    assert EncRule(env, 0, prog[2], s, !known, tree) == Ok(b, tree + {Basic(Uns32)}, {});
    assert EncFlow(env, prog, 2, s) == Goto(3);
    assert EncNode(env, 0, 3, s, !known, tree + {Basic(Uns32)}) ==
      EncNoded([], Leave(false), 3, [], !known, tree + {Basic(Uns32)}, [], {});
    assert b + [] == b && [e] + [] == [e] && [2] + [] == [2];
  }

  /**
    The octets of the whole value: the count of the second pointer is there only if its program was in the tree by then.
   */
  lemma WholeRun(k: Kind, x: int, y: int, tree: set<Edp>)
    ensures var e := EncEdp(Programs(k), tree, User(0), Both(x, y));
      var known := Basic(Uns32) in tree + {Basic(k)};
      && e.Ok? && e.bytes == U16(1) + EncBasic(k, x) + ((if known then U16(1) else []) + EncBasic(Uns32, y))
      && e.loops == {[], [Event(User(1), false, true), Event(Basic(Uns32), false, known)]}
  {
    var env, s := Programs(k), Both(x, y);
    var prog := env.ProgOf(0);
    var tree1 := tree + {Basic(k)};
    var known := Basic(Uns32) in tree1;
    ListRun(k, x, tree);
    SecondRun(k, x, y, tree1);
    hide EncEdp;
    var b1 := U16(1) + EncBasic(k, x);
    var e1, e2 := Event(User(1), false, true), Event(Basic(Uns32), false, known);
    assert [] + b1 == b1;
    assert EncRule(env, 0, prog[1], s, true, tree) == Ok(b1, tree1, {[]});
    assert EncFlow(env, prog, 1, s) == Goto(2);
    assert [e1] + [e2] == [e1, e2];
    TopRun(env, tree, s);
  }

  lemma NumberRun(env: Env, tree: set<Edp>, k: Kind, y: int)
    ensures EncEdp(env, tree, Basic(k), Num(y)) == Ok(EncBasic(k, y), tree + {Basic(k)}, {})
  {
  }

  lemma TopRun(env: Env, tree: set<Edp>, s: Field)
    requires EncChain(env, 0, 1, s, false, tree).EncChained? && !env.IsList(User(0))
    ensures var c := EncChain(env, 0, 1, s, false, tree);
      EncEdp(env, tree, User(0), s) == Ok(c.bytes, c.tree, c.loops + {c.events})
  {
    hide EncChain;
    var c := EncChain(env, 0, 1, s, false, tree);
    assert [] + c.bytes == c.bytes;
  }

  const Home := {0, 1}

  lemma AllFormed(k: Kind)
    ensures WellFormed(Programs(k), Home)
  {
    var env := Programs(k);
    Link(k);
    hide LinkOffset;
    var top, list := env.ProgOf(0), env.ProgOf(1);
    var s1 := map[0 := top[1]];
    var s2 := s1[8 := top[2]];
    assert FormFrom(env, Home, 0, 3, s2);
    assert EncNext(top, 2, EDU_NEXT) == Goto(3) && EncNullNext(top, 2) == Goto(3);
    assert LabelForm(env, Home, 0, 2, s2, EDU_NEXT) && StepForm(env, Home, 0, 2, s2, Goto(3));
    assert FormFrom(env, Home, 0, 2, s1);
    assert EncNext(top, 1, EDU_NEXT) == Goto(2) && EncNullNext(top, 1) == Goto(2);
    assert LabelForm(env, Home, 0, 1, s1, EDU_NEXT) && StepForm(env, Home, 0, 1, s1, Goto(2));
    assert FormFrom(env, Home, 0, 1, map[]);
    var l1 := map[0 := list[1]];
    assert DecNext(list, 2, EDU_NEXT) == Goto(3) && LlTestIsLast(list, 2);
    assert FormFrom(env, Home, 1, 2, l1);
    assert EncNext(list, 1, EDU_NEXT) == Goto(2);
    assert LabelForm(env, Home, 1, 1, l1, EDU_NEXT);
    assert FormFrom(env, Home, 1, 1, map[]);
    assert StartFallsThrough(list);
  }

  lemma ListFits(k: Kind, x: int)
    requires InRange(k, x)
    ensures FitsEdp(Programs(k), true, User(1), Item(x))
  {
    var env, t := Programs(k), Item(x);
    var list := env.ProgOf(1);
    Link(k);
    hide LinkOffset;
    assert EncFlow(env, list, 1, t) == Goto(2) && EncFlow(env, list, 2, t) == Leave(true);
    assert CourseFrom(env, 1, 2, t) == Course(Leave(true), {});
    assert CourseFrom(env, 1, 1, t) == Course(Leave(true), {0} + {});
    assert FitsEdp(env, true, Basic(k), Num(x));
    assert FitsRule(env, true, 1, list[1], t) && FitsRule(env, true, 1, list[2], t);
    assert FitsNode(env, true, 1, 2, t);
    assert FitsNode(env, true, 1, 1, t);
    assert t.fields.Keys == {0} + {8};
    assert FitsChain(env, true, 1, t) && Nodes(env, 1, t) == 1;
  }

  lemma Fitting(k: Kind, x: int, y: int)
    requires InRange(k, x) && InRange(Uns32, y)
    ensures FitsEdp(Programs(k), true, User(0), Both(x, y))
  {
    var env, s := Programs(k), Both(x, y);
    var top := env.ProgOf(0);
    ListFits(k, x);
    assert FitsEdp(env, true, Basic(Uns32), Num(y));
    hide InRange, FitsChain;
    assert EncFlow(env, top, 1, s) == Goto(2) && EncFlow(env, top, 2, s) == Goto(3);
    assert FitsRule(env, true, 0, top[1], s) && FitsRule(env, true, 0, top[2], s);
    assert FitsNode(env, true, 0, 3, s);
    assert FitsNode(env, true, 0, 2, s);
    assert FitsNode(env, true, 0, 1, s);
    assert CourseFrom(env, 0, 3, s) == Course(Leave(false), {});
    assert CourseFrom(env, 0, 2, s) == Course(Leave(false), {8} + {});
    assert CourseFrom(env, 0, 1, s) == Course(Leave(false), {0} + {8});
    assert s.fields.Keys == {0, 8};
  }

  /**
    The value comes back exactly when the number's program is in the tree, or the list has just run it.
    On a fresh handle with nodes of another kind the two octets of the count are missing.
   */
  lemma StaleCountIff(k: Kind, x: int, y: int, tree: set<Edp>, rest: seq<byte>)
    requires InRange(k, x) && InRange(Uns32, y)
    ensures var env := Programs(k); var e := EncEdp(env, tree, User(0), Both(x, y));
      e.Ok? && (DecEdp(env, User(0), e.bytes + rest) == Got(Both(x, y), rest) <==> Basic(Uns32) in tree || k == Uns32)
  {
    hide EncEdp, DecEdp, FitsEdp, WellFormed;
    var env := Programs(k);
    AllFormed(k);
    Fitting(k, x, y);
    WholeRun(k, x, y, tree);
    Facts.ExactRoundTripIff(env, Home, tree, User(0), Both(x, y), rest);
    var known := Basic(Uns32) in tree + {Basic(k)};
    var e1, e2 := Event(User(1), false, true), Event(Basic(Uns32), false, known);
    C.OneEvent(env, false, e1);
    C.OneEvent(env, true, e2);
    C.Joined(env, false, [e1], [e2]);
    assert [e1] + [e2] == [e1, e2];
  }

  /** Two octets too few: the peer takes the high half of the number for the count. */
  lemma StaleOctets(x: int, y: int)
    requires InRange(Uns16, x) && InRange(Uns32, y)
    ensures EncEdp(Programs(Uns16), {}, User(0), Both(x, y)).Ok?
    ensures EncEdp(Programs(Uns16), {}, User(0), Both(x, y)).bytes == U16(1) + EncBasic(Uns16, x) + EncBasic(Uns32, y)
  {
    hide EncEdp;
    WholeRun(Uns16, x, y, {});
    assert [] + EncBasic(Uns32, y) == EncBasic(Uns32, y);
  }
}
