/**
  Does the encoder write the count every pointer needs?  It writes what the format asks for exactly when no
  loop meets, behind a list pointer, a non-NULL pointer to a built-in program that is not yet in the tree.
 */
module EduCounts {
  import opened EduModel
  import opened EduFlow
  import opened EduEncode
  import F = EduFormat

  // ---------- one loop ----------

  function BitEnd(env: Env, bit: bool, es: seq<Event>): bool
    decreases |es|
  {
    if es == [] then bit else BitEnd(env, if es[0].inTree then env.IsList(es[0].edp) else bit, es[1..])
  }

  /** No pointer of these loses its count, from a given bit on. */
  predicate CountedFrom(env: Env, bit: bool, es: seq<Event>)
    decreases |es|
  {
    es == [] ||
    var b := if es[0].inTree then env.IsList(es[0].edp) else bit;
    (!es[0].isNull && b ==> env.IsList(es[0].edp)) && CountedFrom(env, b, es[1..])
  }

  lemma {:induction false} Joined(env: Env, bit: bool, a: seq<Event>, b: seq<Event>)
    ensures BitEnd(env, bit, a + b) == BitEnd(env, BitEnd(env, bit, a), b)
    ensures CountedFrom(env, bit, a + b) <==> CountedFrom(env, bit, a) && CountedFrom(env, BitEnd(env, bit, a), b)
    decreases |a|
  {
    if a == [] {
      assert a + b == b;
    } else {
      assert (a + b)[1..] == a[1..] + b && (a + b)[0] == a[0];
      Joined(env, if a[0].inTree then env.IsList(a[0].edp) else bit, a[1..], b);
    }
  }

  lemma OneEvent(env: Env, bit: bool, e: Event)
    ensures var b := if e.inTree then env.IsList(e.edp) else bit;
      BitEnd(env, bit, [e]) == b && (CountedFrom(env, bit, [e]) <==> (!e.isNull && b ==> env.IsList(e.edp)))
  {
    assert [e][1..] == [];
  }

  /** A list pointer at i, only programs missing from the tree since, and one of them behind a non-NULL pointer at j. */
  ghost predicate Loses(env: Env, es: seq<Event>, i: nat, j: nat) {
    && i < j < |es| && es[i].inTree && env.IsList(es[i].edp)
    && !es[j].isNull && !env.IsList(es[j].edp)
    && forall m :: i < m <= j ==> !es[m].inTree
  }

  /** A list pointer at i, and only programs missing from the tree since. */
  ghost predicate LeftAt(env: Env, es: seq<Event>, i: nat) {
    i < |es| && es[i].inTree && env.IsList(es[i].edp) && forall m :: i < m < |es| ==> !es[m].inTree
  }

  lemma LeftAtEnd(env: Env, front: seq<Event>, e: Event, i: nat)
    ensures LeftAt(env, front + [e], i) <==>
      if i == |front| then e.inTree && env.IsList(e.edp) else !e.inTree && LeftAt(env, front, i)
  {
    var es := front + [e];
    assert es[|front|] == e && forall m :: 0 <= m < |front| ==> es[m] == front[m];
  }

  lemma {:induction false} BitEndIff(env: Env, es: seq<Event>)
    ensures BitEnd(env, false, es) <==> exists i: nat :: LeftAt(env, es, i)
  {
    if es != [] {
      var front, e := es[..|es| - 1], es[|es| - 1];
      assert es == front + [e];
      Joined(env, false, front, [e]);
      BitEndIff(env, front);
      OneEvent(env, BitEnd(env, false, front), e);
      hide LeftAt;
      forall i: nat
        ensures LeftAt(env, es, i) <==>
          if i == |front| then e.inTree && env.IsList(e.edp) else !e.inTree && LeftAt(env, front, i)
      {
        LeftAtEnd(env, front, e, i);
      }
      assert LeftAt(env, front, |front|) ==> false by { NotThere(env, front); }
      assert e.inTree && env.IsList(e.edp) ==> LeftAt(env, es, |front|);
    } else {
      forall i: nat ensures !LeftAt(env, es, i) { }
    }
  }

  lemma NotThere(env: Env, es: seq<Event>)
    ensures !LeftAt(env, es, |es|)
  {
  }

  /** Every count of a loop is written exactly when it loses none. */
  lemma {:induction false} CountedIff(env: Env, es: seq<Event>)
    ensures CountedFrom(env, false, es) <==> !exists i: nat, j: nat :: Loses(env, es, i, j)
  {
    if es != [] {
      var front, e := es[..|es| - 1], es[|es| - 1];
      assert es == front + [e];
      Joined(env, false, front, [e]);
      CountedIff(env, front);
      BitEndIff(env, front);
      LosesEnd(env, es, front, e);
    }
  }

  lemma LosesEnd(env: Env, es: seq<Event>, front: seq<Event>, e: Event)
    requires es == front + [e]
    ensures (exists i: nat, j: nat :: Loses(env, es, i, j)) <==>
      (exists i: nat, j: nat :: Loses(env, front, i, j))
      || (!e.isNull && !env.IsList(e.edp) && !e.inTree && exists i: nat :: LeftAt(env, front, i))
  {
    assert forall m :: 0 <= m < |front| ==> front[m] == es[m];
    assert es[|front|] == e;
    if i: nat, j: nat :| Loses(env, es, i, j) {
      if j < |front| {
        assert Loses(env, front, i, j);
      } else {
        assert LeftAt(env, front, i);
      }
    }
    if i: nat, j: nat :| Loses(env, front, i, j) {
      assert Loses(env, es, i, j);
    }
    if !e.isNull && !env.IsList(e.edp) && !e.inTree {
      if i: nat :| LeftAt(env, front, i) {
        assert Loses(env, es, i, |front|);
      }
    }
  }

  // ---------- the whole run ----------

  ghost predicate AllCounted(env: Env, loops: set<seq<Event>>) {
    forall es :: es in loops ==> CountedFrom(env, false, es)
  }

  lemma AllJoined(env: Env, a: set<seq<Event>>, b: set<seq<Event>>)
    ensures AllCounted(env, a + b) <==> AllCounted(env, a) && AllCounted(env, b)
  {
  }

  /** The same bytes when the counts are there, and fewer when they are not. */
  ghost predicate Refines(counted: bool, e: seq<byte>, f: seq<byte>) {
    if counted then e == f else |e| < |f|
  }

  lemma RefinesBoth(c: bool, a: seq<byte>, x: seq<byte>, d: bool, b: seq<byte>, y: seq<byte>)
    requires Refines(c, a, x) && Refines(d, b, y)
    ensures Refines(c && d, a + b, x + y)
  {
  }

  ghost predicate Same(e: Out, f: F.FmtOut) {
    (e.Fail? <==> f.Fail?) && (e.Stray? <==> f.Stray?)
  }

  lemma {:induction false} EdpRefines(env: Env, tree: set<Edp>, edp: Edp, f: Field)
    ensures var e, w := EncEdp(env, tree, edp, f), F.FmtEdp(env, edp, f);
      Same(e, w) && (e.Ok? ==> tree <= e.tree && Refines(AllCounted(env, e.loops), e.bytes, w.bytes))
    decreases env.RankOf(edp), 4
  {
    hide EncChain, F.FmtChain;
    if edp.User? {
      ChainRefines(env, edp.id, 1, f, false, tree);
      var c, w := EncChain(env, edp.id, 1, f, false, tree), F.FmtChain(env, edp.id, 1, f);
      if c.EncChained? {
        var head := if !env.IsList(edp) then [] else if c.patched then U16(c.count) else [env.junk.0, env.junk.1];
        var counted := AllCounted(env, c.loops) && CountedFrom(env, false, c.events);
        RefinesBoth(true, head, head, counted, c.bytes, w.bytes);
        assert [] + w.bytes == w.bytes;
        assert AllCounted(env, c.loops + {c.events}) <==> counted;
      }
    }
  }

  lemma {:induction false} ChainRefines(env: Env, id: nat, pc: nat, s: Field, bit: bool, tree: set<Edp>)
    ensures var e, w := EncChain(env, id, pc, s, bit, tree), F.FmtChain(env, id, pc, s);
      && (e.EncChainFail? <==> w.ChainFail?) && (e.EncChainStray? <==> w.ChainStray?)
      && (e.EncChained? ==>
        && e.count == w.count && e.patched == w.patched && tree <= e.tree
        && Refines(AllCounted(env, e.loops) && CountedFrom(env, bit, e.events), e.bytes, w.bytes))
    decreases env.RankOf(User(id)), 3, s
  {
    hide EncNode, F.FmtNode, EncEdp, F.FmtEdp;
    NodeRefines(env, id, pc, s, bit, tree);
    var n, m := EncNode(env, id, pc, s, bit, tree), F.FmtNode(env, id, pc, s);
    if n.EncNoded? && n.end.Again? && n.lastPc < |env.ProgOf(id)| {
      var next := env.ProgOf(id)[n.lastPc].fld5;
      if s.Rec? && next in s.fields && s.fields[next].Ref? && s.fields[next].target.Some? {
        var t := s.fields[next].target.value;
        ChainRefines(env, id, 0, t, n.bit, n.tree);
        var e, w := EncChain(env, id, 0, t, n.bit, n.tree), F.FmtChain(env, id, 0, t);
        if e.EncChained? {
          Joined(env, bit, n.events, e.events);
          RefinesBoth(AllCounted(env, n.loops) && CountedFrom(env, bit, n.events), n.bytes, m.bytes,
                      AllCounted(env, e.loops) && CountedFrom(env, n.bit, e.events), e.bytes, w.bytes);
          AllJoined(env, n.loops, e.loops);
        }
      }
    }
  }

  lemma Nothing(env: Env, bit: bool)
    ensures Refines(AllCounted(env, {}) && CountedFrom(env, bit, []), [], []) && BitEnd(env, bit, []) == bit
  {
  }

  ghost predicate NodeMatches(env: Env, bit: bool, tree: set<Edp>, e: EncNodeOut, w: F.NodeOut) {
    && (e.EncNodeFail? <==> w.NodeFail?) && (e.EncNodeStray? <==> w.NodeStray?)
    && (e.EncNoded? ==>
      && e.end == w.end && e.lastPc == w.lastPc && e.path == w.path && tree <= e.tree
        && e.bit == BitEnd(env, bit, e.events)
      && Refines(AllCounted(env, e.loops) && CountedFrom(env, bit, e.events), e.bytes, w.bytes))
  }

  /** A rule in front of the rest of a structure. */
  lemma InFront(env: Env, bit: bool, tree: set<Edp>, pc: nat, e: Out, es: seq<Event>, x: seq<byte>, n: EncNodeOut,
          m: F.NodeOut)
    requires e.Ok? && tree <= e.tree && Refines(AllCounted(env, e.loops) && CountedFrom(env, bit, es), e.bytes, x)
    requires n.EncNoded? && NodeMatches(env, BitEnd(env, bit, es), e.tree, n, m) && (n.end.Leave? || n.end.Again?)
    ensures NodeMatches(env, bit, tree,
      EncNoded(e.bytes + n.bytes, n.end, n.lastPc, [pc] + n.path, n.bit, n.tree, es + n.events, e.loops + n.loops),
      F.Node(x + m.bytes, m.end, m.lastPc, [pc] + m.path))
  {
    hide CountedFrom, BitEnd, AllCounted, Refines;
    Joined(env, bit, es, n.events);
    AllJoined(env, e.loops, n.loops);
    RefinesBoth(AllCounted(env, e.loops) && CountedFrom(env, bit, es), e.bytes, x,
                AllCounted(env, n.loops) && CountedFrom(env, BitEnd(env, bit, es), n.events), n.bytes, m.bytes);
  }

  lemma {:induction false} NodeRefines(env: Env, id: nat, pc: nat, s: Field, bit: bool, tree: set<Edp>)
    ensures NodeMatches(env, bit, tree, EncNode(env, id, pc, s, bit, tree), F.FmtNode(env, id, pc, s))
    decreases env.RankOf(User(id)), 2, |env.ProgOf(id)| - pc
  {
    hide EncRule, F.FmtRule, EncFlow, CountedFrom, BitEnd, AllCounted, Refines, Met, BitAfter;
    Nothing(env, bit);
    var prog := env.ProgOf(id);
    if pc < |prog| && !prog[pc].instr.End? {
      var r := prog[pc];
      var bit' := BitAfter(env, r, bit, tree);
      RuleRefines(env, id, r, s, bit, tree);
      var e, w := EncRule(env, id, r, s, bit', tree), F.FmtRule(env, id, r, s);
      var flow := EncFlow(env, prog, pc, s);
      if e.Ok? && flow.Goto? && pc < flow.pc <= |prog| {
        NodeRefines(env, id, flow.pc, s, bit', e.tree);
        var n, m := EncNode(env, id, flow.pc, s, bit', e.tree), F.FmtNode(env, id, flow.pc, s);
        if n.EncNoded? {
          hide NodeMatches;
          InFront(env, bit, tree, pc, e, Met(r, s, tree), w.bytes, n, m);
        }
      }
    }
  }

  lemma {:induction false} RuleRefines(env: Env, id: nat, r: Rule, s: Field, bit: bool, tree: set<Edp>)
    ensures var bit' := BitAfter(env, r, bit, tree); var es := Met(r, s, tree);
      var e, w := EncRule(env, id, r, s, bit', tree), F.FmtRule(env, id, r, s);
      && BitEnd(env, bit, es) == bit'
      && Same(e, w) && (e.Ok? ==>
        tree <= e.tree && Refines(AllCounted(env, e.loops) && CountedFrom(env, bit, es), e.bytes, w.bytes))
    decreases env.RankOf(User(id)), 1
  {
    hide EncEdp, F.FmtEdp, EncInline, F.FmtInline;
    if r.instr.Exec? && s.Rec? && r.fld5 in s.fields && env.RankOf(r.fld1) < env.RankOf(User(id)) {
      var f := s.fields[r.fld5];
      if !r.fld2.pointer {
        InlineRefines(env, tree, r, s, f);
      } else if f.Ref? && f.target.Some? {
        EdpRefines(env, tree, r.fld1, f.target.value);
        var e, w := EncEdp(env, tree, r.fld1, f.target.value), F.FmtEdp(env, r.fld1, f.target.value);
        var bit' := BitAfter(env, r, bit, tree);
        if e.Ok? {
          OneEvent(env, bit, Met(r, s, tree)[0]);
          var a, x := if bit' then [] else U16(1), if env.IsList(r.fld1) then [] else U16(1);
          RefinesBoth(CountedFrom(env, bit, Met(r, s, tree)), a, x, AllCounted(env, e.loops), e.bytes, w.bytes);
        }
      }
    }
  }

  lemma {:induction false} InlineRefines(env: Env, tree: set<Edp>, r: Rule, s: Field, f: Field)
    ensures var e, w := EncInline(env, tree, r, s, f), F.FmtInline(env, r, s, f);
      Same(e, w) && (e.Ok? ==> tree <= e.tree && Refines(AllCounted(env, e.loops), e.bytes, w.bytes))
    decreases env.RankOf(r.fld1), 6
  {
    hide EncEdp, F.FmtEdp, EncSeq, F.FmtSeq;
    if r.fld2.arr {
      if f.Vec? {
        var n := StrLen(f.elems);
        if r.fld1 != Basic(Char) {
          SeqRefines(env, tree, r.fld1, f.elems);
        } else if n.Some? {
          var n16 := n.value % 0x1_0000;
          SeqRefines(env, tree, r.fld1, f.elems[..n16]);
          var e, w := EncSeq(env, tree, r.fld1, f.elems[..n16]), F.FmtSeq(env, r.fld1, f.elems[..n16]);
          if e.Ok? { RefinesBoth(true, U16(n16), U16(n16), AllCounted(env, e.loops), e.bytes, w.bytes); }
        }
      }
    } else if r.fld2.varLen {
      var n := LengthOf(r.fld3, Peek(s, r.fld6, r.fld3));
      if n.Some? && f.Ref? && f.target.Some? && f.target.value.Vec? && n.value <= |f.target.value.elems| {
        SeqRefines(env, tree, r.fld1, f.target.value.elems[..n.value]);
      }
    } else if !r.fld1.Str? {
      EdpRefines(env, tree, r.fld1, f);
    }
  }

  lemma {:induction false} SeqRefines(env: Env, tree: set<Edp>, edp: Edp, elems: seq<Field>)
    ensures var e, w := EncSeq(env, tree, edp, elems), F.FmtSeq(env, edp, elems);
      Same(e, w) && (e.Ok? ==> tree <= e.tree && Refines(AllCounted(env, e.loops), e.bytes, w.bytes))
    decreases env.RankOf(edp), 5, |elems|
  {
    hide EncEdp, F.FmtEdp;
    if elems != [] {
      EdpRefines(env, tree, edp, elems[0]);
      var e, w := EncEdp(env, tree, edp, elems[0]), F.FmtEdp(env, edp, elems[0]);
      if e.Ok? {
        SeqRefines(env, e.tree, edp, elems[1..]);
        var e', w' := EncSeq(env, e.tree, edp, elems[1..]), F.FmtSeq(env, edp, elems[1..]);
        if e'.Ok? {
          RefinesBoth(AllCounted(env, e.loops), e.bytes, w.bytes, AllCounted(env, e'.loops), e'.bytes, w'.bytes);
          AllJoined(env, e.loops, e'.loops);
        }
      }
    }
  }

  // ---------- a condition on programs and handle ----------

  ghost predicate Answered(env: Env, tree: set<Edp>, id: nat) {
    forall i :: 0 <= i < |env.ProgOf(id)| && PointerRule(env.ProgOf(id)[i]) ==> Answers(tree, env.ProgOf(id)[i].fld1)
  }

  ghost predicate Listless(env: Env, id: nat) {
    forall i :: 0 <= i < |env.ProgOf(id)| && PointerRule(env.ProgOf(id)[i]) ==> !env.IsList(env.ProgOf(id)[i].fld1)
  }

  /** A program that points to a list points to nothing the tree does not hold. */
  ghost predicate Tame(env: Env, tree: set<Edp>) {
    forall id: nat :: Answered(env, tree, id) || Listless(env, id)
  }

  lemma {:induction false} CalmCounted(env: Env, bit: bool, es: seq<Event>)
    requires (forall k :: 0 <= k < |es| ==> es[k].inTree)
      || (!bit && forall k :: 0 <= k < |es| ==> !env.IsList(es[k].edp))
    ensures CountedFrom(env, bit, es)
    decreases |es|
  {
    if es != [] { CalmCounted(env, if es[0].inTree then env.IsList(es[0].edp) else bit, es[1..]); }
  }

  ghost predicate Calm(env: Env, tree: set<Edp>, id: nat, es: seq<Event>) {
    && (Answered(env, tree, id) ==> forall k :: 0 <= k < |es| ==> es[k].inTree)
    && (Listless(env, id) ==> forall k :: 0 <= k < |es| ==> !env.IsList(es[k].edp))
  }

  /** Then every count is written, whatever the value. */
  lemma {:induction false} EdpTame(env: Env, tree: set<Edp>, edp: Edp, f: Field)
    requires Tame(env, tree) && EncEdp(env, tree, edp, f).Ok?
    ensures AllCounted(env, EncEdp(env, tree, edp, f).loops)
    decreases env.RankOf(edp), 4
  {
    hide EncChain;
    if edp.User? {
      ChainTame(env, tree, edp.id, 1, f, false, tree);
      CalmCounted(env, false, EncChain(env, edp.id, 1, f, false, tree).events);
    }
  }

  lemma {:induction false} ChainTame(env: Env, tree0: set<Edp>, id: nat, pc: nat, s: Field, bit: bool, tree: set<Edp>)
    requires Tame(env, tree0) && tree0 <= tree && EncChain(env, id, pc, s, bit, tree).EncChained?
    ensures var e := EncChain(env, id, pc, s, bit, tree); AllCounted(env, e.loops) && Calm(env, tree0, id, e.events)
    decreases env.RankOf(User(id)), 3, s
  {
    hide EncNode, EncEdp, F.FmtNode;
    NodeTame(env, tree0, id, pc, s, bit, tree);
    NodeRefines(env, id, pc, s, bit, tree);
    var n := EncNode(env, id, pc, s, bit, tree);
    if n.end.Again? {
      ChainTame(env, tree0, id, 0, s.fields[env.ProgOf(id)[n.lastPc].fld5].target.value, n.bit, n.tree);
    }
  }

  lemma {:induction false} NodeTame(env: Env, tree0: set<Edp>, id: nat, pc: nat, s: Field, bit: bool, tree: set<Edp>)
    requires Tame(env, tree0) && tree0 <= tree && EncNode(env, id, pc, s, bit, tree).EncNoded?
    ensures var e := EncNode(env, id, pc, s, bit, tree); AllCounted(env, e.loops) && Calm(env, tree0, id, e.events)
    decreases env.RankOf(User(id)), 2, |env.ProgOf(id)| - pc
  {
    hide EncRule, EncEdp, EncFlow, F.FmtRule, CountedFrom, Tame;
    var prog := env.ProgOf(id);
    if pc < |prog| && !prog[pc].instr.End? {
      var r := prog[pc];
      var bit' := BitAfter(env, r, bit, tree);
      RuleTame(env, tree0, id, r, s, bit', tree);
      RuleRefines(env, id, r, s, bit, tree);
      var flow := EncFlow(env, prog, pc, s);
      if flow.Goto? {
        NodeTame(env, tree0, id, flow.pc, s, bit', EncRule(env, id, r, s, bit', tree).tree);
      }
    }
  }

  lemma TameStays(env: Env, tree0: set<Edp>, tree: set<Edp>)
    requires Tame(env, tree0) && tree0 <= tree
    ensures Tame(env, tree)
  {
    forall id: nat ensures Answered(env, tree, id) || Listless(env, id) {
      assert Answered(env, tree0, id) || Listless(env, id);
    }
  }

  lemma {:induction false} RuleTame(env: Env, tree0: set<Edp>, id: nat, r: Rule, s: Field, bit: bool, tree: set<Edp>)
    requires Tame(env, tree0) && tree0 <= tree && EncRule(env, id, r, s, bit, tree).Ok?
    ensures AllCounted(env, EncRule(env, id, r, s, bit, tree).loops)
    decreases env.RankOf(User(id)), 1
  {
    hide EncEdp, EncInline;
    TameStays(env, tree0, tree);
    if r.instr.Exec? {
      var f := s.fields[r.fld5];
      if !r.fld2.pointer {
        InlineTame(env, tree, r, s, f);
      } else if f.target.Some? {
        EdpTame(env, tree, r.fld1, f.target.value);
      }
    }
  }

  lemma {:induction false} InlineTame(env: Env, tree: set<Edp>, r: Rule, s: Field, f: Field)
    requires Tame(env, tree) && EncInline(env, tree, r, s, f).Ok?
    ensures AllCounted(env, EncInline(env, tree, r, s, f).loops)
    decreases env.RankOf(r.fld1), 6
  {
    hide EncEdp, EncSeq;
    if r.fld2.arr {
      SeqTame(env, tree, r.fld1, if r.fld1 == Basic(Char) then f.elems[..StrLen(f.elems).value % 0x1_0000]
        else f.elems);
    } else if r.fld2.varLen {
      var n := LengthOf(r.fld3, Peek(s, r.fld6, r.fld3)).value;
      if n != 0 { SeqTame(env, tree, r.fld1, f.target.value.elems[..n]); }
    } else if !r.fld1.Str? {
      EdpTame(env, tree, r.fld1, f);
    }
  }

  lemma {:induction false} SeqTame(env: Env, tree: set<Edp>, edp: Edp, elems: seq<Field>)
    requires Tame(env, tree) && EncSeq(env, tree, edp, elems).Ok?
    ensures AllCounted(env, EncSeq(env, tree, edp, elems).loops)
    decreases env.RankOf(edp), 5, |elems|
  {
    hide EncEdp, F.FmtEdp;
    if elems != [] {
      EdpTame(env, tree, edp, elems[0]);
      EdpRefines(env, tree, edp, elems[0]);
      var e := EncEdp(env, tree, edp, elems[0]);
      TameStays(env, tree, e.tree);
      SeqTame(env, e.tree, edp, elems[1..]);
    }
  }

  // ---------- programs of plain fields ----------

  /** Only built-in programs, and no pointers. */
  ghost predicate Leafy(env: Env, id: nat) {
    forall i :: 0 <= i < |env.ProgOf(id)| && env.ProgOf(id)[i].instr.Exec? ==>
      !env.ProgOf(id)[i].fld2.pointer && !env.ProgOf(id)[i].fld1.User?
  }

  lemma {:induction false} SeqLeafy(env: Env, tree: set<Edp>, edp: Edp, elems: seq<Field>)
    requires !edp.User? && EncSeq(env, tree, edp, elems).Ok?
    ensures EncSeq(env, tree, edp, elems).loops == {}
    decreases |elems|
  {
    if elems != [] { SeqLeafy(env, EncEdp(env, tree, edp, elems[0]).tree, edp, elems[1..]); }
  }

  lemma InlineLeafy(env: Env, tree: set<Edp>, r: Rule, s: Field, f: Field)
    requires !r.fld1.User? && EncInline(env, tree, r, s, f).Ok?
    ensures EncInline(env, tree, r, s, f).loops == {}
  {
    hide EncSeq;
    if r.fld2.arr {
      SeqLeafy(env, tree, r.fld1, if r.fld1 == Basic(Char) then f.elems[..StrLen(f.elems).value % 0x1_0000]
        else f.elems);
    } else if r.fld2.varLen {
      var n := LengthOf(r.fld3, Peek(s, r.fld6, r.fld3)).value;
      if n != 0 { SeqLeafy(env, tree, r.fld1, f.target.value.elems[..n]); }
    }
  }

  lemma {:induction false} NodeLeafy(env: Env, id: nat, pc: nat, s: Field, bit: bool, tree: set<Edp>)
    requires Leafy(env, id) && EncNode(env, id, pc, s, bit, tree).EncNoded?
    ensures var e := EncNode(env, id, pc, s, bit, tree); e.events == [] && e.loops == {}
    decreases |env.ProgOf(id)| - pc
  {
    hide EncInline, EncEdp, EncFlow;
    var prog := env.ProgOf(id);
    if pc < |prog| && !prog[pc].instr.End? {
      var r := prog[pc];
      var bit' := BitAfter(env, r, bit, tree);
      if r.instr.Exec? { InlineLeafy(env, tree, r, s, s.fields[r.fld5]); }
      var flow := EncFlow(env, prog, pc, s);
      if flow.Goto? { NodeLeafy(env, id, flow.pc, s, bit', EncRule(env, id, r, s, bit', tree).tree); }
    }
  }

  lemma {:induction false} ChainLeafy(env: Env, id: nat, pc: nat, s: Field, bit: bool, tree: set<Edp>)
    requires Leafy(env, id) && EncChain(env, id, pc, s, bit, tree).EncChained?
    ensures var e := EncChain(env, id, pc, s, bit, tree); e.events == [] && e.loops == {}
    decreases s
  {
    hide EncNode, EncEdp;
    NodeLeafy(env, id, pc, s, bit, tree);
    var n := EncNode(env, id, pc, s, bit, tree);
    if n.end.Again? { ChainLeafy(env, id, 0, s.fields[env.ProgOf(id)[n.lastPc].fld5].target.value, n.bit, n.tree); }
  }

  /** Such a program writes what the format asks for on any handle. */
  lemma LeafyExact(env: Env, tree: set<Edp>, id: nat, s: Field)
    requires Leafy(env, id)
    ensures var e, w := EncEdp(env, tree, User(id), s), F.FmtEdp(env, User(id), s);
      Same(e, w) && (e.Ok? ==> e.bytes == w.bytes)
  {
    hide F.FmtEdp, EncChain;
    EdpRefines(env, tree, User(id), s);
    var c := EncChain(env, id, 1, s, false, tree);
    if c.EncChained? {
      ChainLeafy(env, id, 1, s, false, tree);
      assert {} + {c.events} == {[]};
    }
  }
}
