/**
  The handle manager against an abstract table: which cell is bound to what, how many
  takes are outstanding, and whether a destroyer is waiting for them.
 */
module HandleSafety {
  import opened HandleModel

  datatype Use = Use(seqId: nat, id: nat, data: int, takes: nat, dying: bool)

  type Table = map<Loc, Use>

  ghost predicate Distinct(list: seq<Loc>) {
    forall i, j :: 0 <= i < j < |list| ==> list[i] != list[j]
  }

  /** What the word at l must be: in use, being destroyed, or on the free list. */
  ghost predicate CellOk(s: State, a: Table, l: Loc)
    requires l in s.cells
  {
    var c := s.cells[l];
    && InTable(l) && 1 <= c.seqId < SEQ_CNT
    && (l !in a ==> c == FreeWord(Hdl(c.seqId, l)) && l !in s.waiting)
    && (l in a ==>
      && c.seqId == a[l].seqId && c.useCt == 1 + a[l].takes && c.useCt < USE_CNT
      && (!a[l].dying ==> c.busy && c.data == Client(a[l].data) && c.svcId == a[l].id && l !in s.waiting)
      && (a[l].dying ==>
        && !c.busy && c.data == Semaphore && l in s.waiting
        && s.waiting[l] == Waiter(Hdl(a[l].seqId, l), Client(a[l].data), if a[l].takes == 0 then 1 else 0)))
  }

  /** Each cell that is not in use stands exactly once on the list of its own pool. */
  ghost predicate ListsOk(s: State, a: Table) {
    && |s.free| == POOL_CNT
    && (forall p :: 0 <= p < POOL_CNT ==> Distinct(s.free[p]))
    && (forall p, l :: 0 <= p < POOL_CNT ==> (l in s.free[p] <==> l in s.cells && l !in a && PoolOf(l.unit) == p))
  }

  /** Banks come whole. */
  ghost predicate BanksOk(s: State) {
    forall l, i :: l in s.cells && 0 <= i < CELL_CNT ==> Loc(l.unit, l.bank, i) in s.cells
  }

  ghost predicate Inv(s: State, a: Table) {
    && ListsOk(s, a) && BanksOk(s)
    && (forall l :: l in s.cells ==> CellOk(s, a, l))
    && (forall l :: l in a ==> l in s.cells)
    && (forall l :: l in s.waiting ==> l in a)
  }

  /** A handle that leads to a live object of this service. */
  ghost predicate Bound(a: Table, id: nat, h: Hdl) {
    h.at in a && a[h.at].seqId == h.seqId && a[h.at].id == id && !a[h.at].dying
  }

  /** The value printed on a free cell, in a bank whose number makes the word read as busy. */
  ghost predicate Phantom(s: State, a: Table, id: nat, h: Hdl) {
    && h.at in s.cells && h.at !in a && s.cells[h.at].seqId == h.seqId
    && (h.at.bank / 16) % 2 == 1 && id == h.at.unit + 0x100 * (h.at.bank % 16)
  }

  lemma FoundIff(s: State, a: Table, h: Hdl)
    requires Inv(s, a)
    ensures Found(s, h) <==> h.at in s.cells
  {
  }

  /** The lookup accepts a handle exactly when it is bound, or is a phantom. */
  lemma MatchesIff(s: State, a: Table, id: nat, h: Hdl)
    requires Inv(s, a)
    ensures Matches(s, id, h) <==> Bound(a, id, h) || Phantom(s, a, id, h)
  {
    FoundIff(s, a, h);
    if h.at in s.cells {
      assert CellOk(s, a, h.at);
    }
  }

  lemma SameLists(s: State, s': State, a: Table, a': Table)
    requires ListsOk(s, a) && s'.free == s.free && s'.cells.Keys == s.cells.Keys && a'.Keys == a.Keys
    ensures ListsOk(s', a')
  {
    forall p, l | 0 <= p < POOL_CNT
      ensures l in s'.free[p] <==> l in s'.cells && l !in a' && PoolOf(l.unit) == p
    {
      assert l in s.free[p] <==> l in s.cells && l !in a && PoolOf(l.unit) == p;
      assert l in a' <==> l in a'.Keys;
      assert l in s'.cells <==> l in s'.cells.Keys;
    }
  }

  /** Changing one cell that is in use. */
  lemma Touch(s: State, a: Table, l: Loc, s': State, a': Table)
    requires Inv(s, a) && l in a
    requires s'.free == s.free && s'.cells.Keys == s.cells.Keys && a'.Keys == a.Keys && CellOk(s', a', l)
    requires forall x :: x in s.cells && x != l ==>
      s'.cells[x] == s.cells[x] && (x in s'.waiting <==> x in s.waiting)
        && (x in s.waiting ==> s'.waiting[x] == s.waiting[x])
    requires forall x :: x in a && x != l ==> a'[x] == a[x]
    requires forall x :: x in s'.waiting ==> x in s.waiting || x == l
    ensures Inv(s', a')
  {
    hide ListsOk, BanksOk, FreeWord;
    SameLists(s, s', a, a');
    SameBanks(s, s');
    forall x | x in s'.cells
      ensures CellOk(s', a', x)
    {
      assert x in s.cells.Keys;
      assert CellOk(s, a, x);
      assert x in a' <==> x in a'.Keys;
      assert x in a <==> x in a.Keys;
    }
    forall x | x in a' ensures x in s'.cells { assert x in a.Keys; assert x in s'.cells.Keys; }
    forall x | x in s'.waiting ensures x in a' { assert x in a.Keys; }
  }

  // ---------- take and give ----------

  function Taken(a: Table, h: Hdl): Table
    requires h.at in a
  {
    a[h.at := a[h.at].(takes := a[h.at].takes + 1)]
  }

  lemma TakeOk(s: State, a: Table, id: nat, h: Hdl)
    requires Inv(s, a) && Bound(a, id, h) && a[h.at].takes + 2 < USE_CNT
    ensures Take(s, id, h).1 == Some(Client(a[h.at].data))
    ensures Inv(Take(s, id, h).0, Taken(a, h))
  {
    MatchesIff(s, a, id, h);
    assert CellOk(s, a, h.at);
    var s' := Take(s, id, h).0;
    assert CellOk(s', Taken(a, h), h.at);
    Touch(s, a, h.at, s', Taken(a, h));
  }

  function Given(a: Table, h: Hdl): Table
    requires h.at in a
  {
    if a[h.at].takes == 0 then a else a[h.at := a[h.at].(takes := a[h.at].takes - 1)]
  }

  /** A give on any bound or dying handle; one too many changes nothing. */
  lemma GiveOk(s: State, a: Table, h: Hdl)
    requires Inv(s, a) && h.at in a && a[h.at].seqId == h.seqId
    ensures Inv(Give(s, h), Given(a, h))
  {
    hide PoolOf, FreeWord;
    FoundIff(s, a, h);
    assert CellOk(s, a, h.at);
    var c := s.cells[h.at];
    assert (c.useCt + USE_CNT - 1) % USE_CNT == c.useCt - 1;
    var s' := Give(s, h);
    assert s'.cells.Keys == s.cells.Keys;
    assert CellOk(s', Given(a, h), h.at);
    Touch(s, a, h.at, s', Given(a, h));
  }

  // ---------- destroy ----------

  lemma NextSeqRange(q: nat)
    ensures 1 <= NextSeq(q) < SEQ_CNT
  {
  }

  /** Putting the cell back on the list of its pool. */
  lemma FreeLists(s: State, a: Table, l: Loc, s': State)
    requires ListsOk(s, a) && l in a && l in s.cells && l.unit < UNIT_CNT
    requires s'.cells.Keys == s.cells.Keys && PoolOf(l.unit) < POOL_CNT
    requires s'.free == s.free[PoolOf(l.unit) := [l] + s.free[PoolOf(l.unit)]]
    ensures ListsOk(s', a - {l})
  {
    hide PoolOf;
    var pool := PoolOf(l.unit);
    assert l !in s.free[pool];
    forall p, x | 0 <= p < POOL_CNT
      ensures x in s'.free[p] <==> x in s'.cells && x !in a - {l} && PoolOf(x.unit) == p
    {
      assert x in s.free[p] <==> x in s.cells && x !in a && PoolOf(x.unit) == p;
      assert x in s'.cells <==> x in s'.cells.Keys;
      if p == pool { assert s'.free[p] == [l] + s.free[p]; }
    }
    assert Distinct(s'.free[pool]);
  }

  lemma FreeOk(s: State, a: Table, l: Loc, s': State)
    requires Inv(s, a) && l in a && l.unit < UNIT_CNT
    requires s' == FreeCell(s, Hdl(a[l].seqId, l)).(waiting := s.waiting - {l})
    ensures Inv(s', a - {l})
  {
    hide ListsOk, BanksOk, PoolOf, FreeWord, NextSeq;
    assert CellOk(s, a, l);
    PoolMapIff(l.unit, 0);
    NextSeqRange(a[l].seqId);
    assert s'.cells.Keys == s.cells.Keys;
    FreeLists(s, a, l, s');
    SameBanks(s, s');
    FreeWordSeq(Hdl(NextSeq(a[l].seqId), l));
    var a' := a - {l};
    forall x | x in s'.cells
      ensures CellOk(s', a', x)
    {
      assert x in s.cells && CellOk(s, a, x);
    }
  }

  lemma FreeWordSeq(h: Hdl)
    ensures FreeWord(h).seqId == h.seqId
  {
  }

  lemma SameBanks(s: State, s': State)
    requires BanksOk(s) && s'.cells.Keys == s.cells.Keys
    ensures BanksOk(s')
  {
    forall x, i | x in s'.cells && 0 <= i < CELL_CNT
      ensures Loc(x.unit, x.bank, i) in s'.cells
    {
      assert x in s.cells.Keys;
      assert Loc(x.unit, x.bank, i) in s.cells;
      assert Loc(x.unit, x.bank, i) in s'.cells.Keys;
    }
  }

  lemma DestroyAtOnce(s: State, a: Table, id: nat, h: Hdl)
    requires Inv(s, a) && Bound(a, id, h) && a[h.at].takes == 0
    ensures CellOk(s, a, h.at) && h.at.unit < UNIT_CNT
    ensures Destroy(s, id, h).1 == Done(Client(a[h.at].data))
    ensures Inv(Destroy(s, id, h).0, a - {h.at})
  {
    MatchesIff(s, a, id, h);
    assert CellOk(s, a, h.at);
    assert h == Hdl(a[h.at].seqId, h.at);
    assert s.waiting - {h.at} == s.waiting;
    FreeOk(s, a, h.at, Destroy(s, id, h).0);
  }

  function Dying(a: Table, h: Hdl): Table
    requires h.at in a
  {
    a[h.at := a[h.at].(dying := true)]
  }

  lemma DestroyBlocks(s: State, a: Table, id: nat, h: Hdl)
    requires Inv(s, a) && Bound(a, id, h) && a[h.at].takes > 0
    ensures CellOk(s, a, h.at) && h.at.unit < UNIT_CNT
    ensures Destroy(s, id, h).1 == Blocked
    ensures Inv(Destroy(s, id, h).0, Dying(a, h))
  {
    MatchesIff(s, a, id, h);
    assert CellOk(s, a, h.at);
    var s' := Destroy(s, id, h).0;
    assert h == Hdl(a[h.at].seqId, h.at);
    assert CellOk(s', Dying(a, h), h.at);
    Touch(s, a, h.at, s', Dying(a, h));
  }

  lemma ResumeOk(s: State, a: Table, l: Loc)
    requires Inv(s, a) && l in s.waiting
    ensures CellOk(s, a, l) && s.waiting[l].hdl.at.unit < UNIT_CNT
    ensures a[l].takes > 0 ==> Resume(s, l) == (s, None)
    ensures a[l].takes == 0 ==> Resume(s, l).1 == Some(Client(a[l].data)) && Inv(Resume(s, l).0, a - {l})
  {
    assert l in a && CellOk(s, a, l);
    if a[l].takes == 0 {
      FreeOk(s, a, l, Resume(s, l).0);
    }
  }

  // ---------- create and declare ----------

  /** The bank after its first n cells have been carved. */
  ghost predicate Carved(s: State, s': State, unit: nat, bank: nat, n: nat)
    requires |s.free| == POOL_CNT && |s'.free| == POOL_CNT && unit < UNIT_CNT
  {
    && s'.waiting == s.waiting && s'.curr == s.curr
    && (forall l :: l in s'.cells <==> l in s.cells || (l.unit == unit && l.bank == bank && l.idx < n))
    && (forall l :: l in s'.cells ==>
      s'.cells[l] == if l.unit == unit && l.bank == bank && l.idx < n then FreeWord(Hdl(1, l)) else s.cells[l])
    && (forall p :: 0 <= p < POOL_CNT && p != PoolOf(unit) ==> s'.free[p] == s.free[p])
    && (forall l :: PoolOf(unit) < POOL_CNT ==>
      (l in s'.free[PoolOf(unit)] <==> l in s.free[PoolOf(unit)] || (l.unit == unit && l.bank == bank && l.idx < n)))
    && (PoolOf(unit) < POOL_CNT ==> Distinct(s'.free[PoolOf(unit)]))
  }

  lemma {:induction false} CarveShape(s: State, unit: nat, bank: nat, n: nat)
    requires |s.free| == POOL_CNT && unit < UNIT_CNT && n <= CELL_CNT
    requires PoolOf(unit) < POOL_CNT && Distinct(s.free[PoolOf(unit)])
    requires forall l: Loc :: l.unit == unit && l.bank == bank ==> l !in s.cells && l !in s.free[PoolOf(unit)]
    ensures Carved(s, Carve(s, unit, bank, n), unit, bank, n)
  {
    if n > 0 {
      CarveShape(s, unit, bank, n - 1);
      CarveStep(s, Carve(s, unit, bank, n - 1), unit, bank, n - 1);
    }
  }

  lemma CarveStep(s: State, m: State, unit: nat, bank: nat, n: nat)
    requires |s.free| == POOL_CNT && |m.free| == POOL_CNT && unit < UNIT_CNT && PoolOf(unit) < POOL_CNT
    requires Carved(s, m, unit, bank, n) && Loc(unit, bank, n) !in s.cells
      && Loc(unit, bank, n) !in s.free[PoolOf(unit)]
    ensures Carved(s, FreeCell(m, Hdl(0, Loc(unit, bank, n))), unit, bank, n + 1)
  {
    hide PoolOf, FreeWord;
    var l := Loc(unit, bank, n);
    var s' := FreeCell(m, Hdl(0, l));
    var pool := PoolOf(unit);
    assert NextSeq(0) == 1;
    assert s'.free[pool] == [l] + m.free[pool];
    assert l !in m.free[pool];
    assert forall x: Loc :: x.unit == unit && x.bank == bank && x.idx == n <==> x == l;
  }

  /** A whole new bank of free cells keeps the invariant. */
  lemma NewBankOk(s: State, a: Table, unit: nat, bank: nat)
    requires Inv(s, a) && unit < UNIT_CNT && bank < BANK_CNT && !HasBank(s, unit, bank)
    ensures Inv(Carve(s, unit, bank, CELL_CNT), a)
    ensures Carved(s, Carve(s, unit, bank, CELL_CNT), unit, bank, CELL_CNT)
  {
    PoolMapIff(unit, 0);
    forall l: Loc | l.unit == unit && l.bank == bank
      ensures l !in s.cells && l !in s.free[PoolOf(unit)]
    {
      assert l in s.cells ==> HasBank(s, l.unit, l.bank);
    }
    CarveShape(s, unit, bank, CELL_CNT);
    BankAdded(s, a, unit, bank, Carve(s, unit, bank, CELL_CNT));
  }

  lemma BankAdded(s: State, a: Table, unit: nat, bank: nat, s': State)
    requires Inv(s, a) && unit < UNIT_CNT && bank < BANK_CNT && |s'.free| == POOL_CNT && PoolOf(unit) < POOL_CNT
    requires forall l: Loc :: l.unit == unit && l.bank == bank ==> l !in s.cells
    requires Carved(s, s', unit, bank, CELL_CNT)
    ensures Inv(s', a)
  {
    hide PoolOf;
    forall l | l in s'.cells
      ensures CellOk(s', a, l)
    {
      FreeWordSeq(Hdl(1, l));
      if l in s.cells { assert CellOk(s, a, l); }
    }
    forall l, i | l in s'.cells && 0 <= i < CELL_CNT
      ensures Loc(l.unit, l.bank, i) in s'.cells
    {
      if l in s.cells { assert Loc(l.unit, l.bank, i) in s.cells; }
    }
  }

  /** Handing out the free cell at position k of its list. */
  lemma HandOut(s: State, a: Table, pool: nat, k: nat, id: nat, data: int, s': State)
    requires Inv(s, a) && pool < POOL_CNT && k < |s.free[pool]| && id < SVC_CNT
    requires s.free[pool][k] in s.cells
    requires s' == s.(cells := s.cells[s.free[pool][k] := Occupied(s.cells[s.free[pool][k]], id, data)],
                      free := s.free[pool := s.free[pool][..k] + s.free[pool][k + 1..]])
    ensures var l := s.free[pool][k];
      && l !in a && PoolOf(l.unit) == pool && HdlOf(s.cells[l]) == Hdl(s.cells[l].seqId, l)
        && 1 <= s.cells[l].seqId < SEQ_CNT
      && Inv(s', a[l := Use(s.cells[l].seqId, id, data, 0, false)])
  {
    hide PoolOf, FreeWord, HdlOf, BanksOk;
    var list := s.free[pool];
    var l := list[k];
    assert l in list;
    assert CellOk(s, a, l);
    OverlayRoundTrip(Hdl(s.cells[l].seqId, l));
    var a' := a[l := Use(s.cells[l].seqId, id, data, 0, false)];
    var list' := list[..k] + list[k + 1..];
    RemovedOnce(list, k);
    forall p, x | 0 <= p < POOL_CNT
      ensures x in s'.free[p] <==> x in s'.cells && x !in a' && PoolOf(x.unit) == p
    {
      assert x in s.free[p] <==> x in s.cells && x !in a && PoolOf(x.unit) == p;
      if p == pool { assert s'.free[p] == list'; }
    }
    assert s'.cells.Keys == s.cells.Keys;
    SameBanks(s, s');
    forall x | x in s'.cells
      ensures CellOk(s', a', x)
    {
      assert CellOk(s, a, x);
    }
  }

  lemma RemovedOnce(list: seq<Loc>, k: nat)
    requires Distinct(list) && k < |list|
    ensures var r := list[..k] + list[k + 1..];
      Distinct(r) && forall x :: x in r <==> x in list && x != list[k]
  {
    var r := list[..k] + list[k + 1..];
    forall x | x in list && x != list[k]
      ensures x in r
    {
      var i :| 0 <= i < |list| && list[i] == x;
      assert x == if i < k then r[i] else r[i - 1];
    }
    forall x | x in r
      ensures x in list && x != list[k]
    {
      var i :| 0 <= i < |r| && r[i] == x;
      assert x == if i < k then list[i] else list[i + 1];
    }
  }
}
