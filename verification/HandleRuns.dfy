/** Whole runs of the handle manager: any interleaving of its calls by any number of threads. */
module HandleRuns {
  import opened HandleModel
  import opened HandleSafety

  // ---------- create and declare ----------

  lemma {:induction false} FindBankMeans(s: State, unit: nat, from: nat, tries: nat)
    requires from < BANK_CNT
    ensures var r := FindBank(s, unit, from, tries); r.Some? ==> r.value < BANK_CNT && !HasBank(s, unit, r.value)
    decreases tries
  {
    if tries > 0 && HasBank(s, unit, from) {
      FindBankMeans(s, unit, (from + 1) % BANK_CNT, tries - 1);
    }
  }

  /** Steps of the scan, which wraps round, from one bank to another. */
  function Distance(from: nat, to: nat): int {
    if to >= from then to - from else to + BANK_CNT - from
  }

  lemma {:induction false} ScanReaches(s: State, unit: nat, from: nat, tries: nat, target: nat)
    requires from < BANK_CNT && target < BANK_CNT && !HasBank(s, unit, target) && Distance(from, target) < tries
    ensures FindBank(s, unit, from, tries).Some?
    decreases tries
  {
    if HasBank(s, unit, from) {
      var next := (from + 1) % BANK_CNT;
      assert next == if from == BANK_CNT - 1 then 0 else from + 1;
      ScanReaches(s, unit, next, tries - 1, target);
    }
  }

  /** The scan for a bank ends exactly when the unit has one that is unused. */
  lemma ScanEndsIff(s: State, unit: nat, from: nat)
    requires from < BANK_CNT
    ensures FindBank(s, unit, from, BANK_CNT).Some? <==> exists bank: nat :: bank < BANK_CNT && !HasBank(s, unit, bank)
  {
    if bank: nat :| bank < BANK_CNT && !HasBank(s, unit, bank) {
      ScanReaches(s, unit, from, BANK_CNT, bank);
    }
    FindBankMeans(s, unit, from, BANK_CNT);
  }

  /** Cells that were there keep their content; new ones are free with sequence number 1. */
  ghost predicate Stocked(s: State, s': State) {
    && s'.waiting == s.waiting
    && (forall x :: x in s.cells ==> x in s'.cells && s'.cells[x] == s.cells[x])
    && (forall x :: x in s'.cells && x !in s.cells ==> s'.cells[x] == FreeWord(Hdl(1, x)))
  }

  /** The same, but for the one cell handed out. */
  ghost predicate Grown(s: State, s': State, l: Loc) {
    && s'.waiting == s.waiting && l in s'.cells
    && (forall x :: x in s.cells ==> x in s'.cells && (x != l ==> s'.cells[x] == s.cells[x]))
    && (forall x :: x in s'.cells && x !in s.cells && x != l ==> s'.cells[x] == FreeWord(Hdl(1, x)))
  }

  /** A handle is fresh when its cell is free and carries its sequence number, or is still to be made. */
  ghost predicate Fresh(s: State, a: Table, h: Hdl) {
    h.at !in a && h.seqId == if h.at in s.cells then s.cells[h.at].seqId else 1
  }

  lemma NinePools(s: State, a: Table)
    requires Inv(s, a)
    ensures |s.free| == POOL_CNT
  {
  }

  lemma SupplyOk(s: State, a: Table, pool: nat)
    requires Inv(s, a) && pool < POOL_CNT && CanSupply(s, pool)
    ensures Inv(Supply(s, pool), a) && Supply(s, pool).free[pool] != []
    ensures Stocked(s, Supply(s, pool))
  {
    hide Inv, PoolOf, FreeWord, Carve, CellOk;
    NinePools(s, a);
    if s.free[pool] == [] {
      var unit := PoolMin(pool);
      PoolMapIff(unit, pool);
      FindBankMeans(s, unit, CurrOf(s, unit), BANK_CNT);
      var bank := FindBank(s, unit, CurrOf(s, unit), BANK_CNT).value;
      var s0 := s.(curr := s.curr[unit := (bank + 1) % BANK_CNT]);
      CurrIrrelevant(s, a, s0.curr);
      NewBankOk(s0, a, unit, bank);
      BankAbsent(s0, a, unit, bank);
      assert Loc(unit, bank, 0) in Supply(s, pool).free[pool];
    }
  }

  lemma CurrIrrelevant(s: State, a: Table, curr: map<nat, nat>)
    requires Inv(s, a)
    ensures Inv(s.(curr := curr), a)
  {
    var s' := s.(curr := curr);
    forall l | l in s'.cells ensures CellOk(s', a, l) { assert CellOk(s, a, l); }
    SameLists(s, s', a, a);
  }

  /** A new handle: never zero, not in use, of the right pool, bound to exactly what was saved. */
  lemma CreateOk(s: State, a: Table, pool: nat, id: nat, data: int)
    requires Inv(s, a) && pool < POOL_CNT && CanSupply(s, pool) && id < SVC_CNT
    ensures var (s', r) := Create(s, pool, id, data);
      && r.Some? && ValidHdl(r.value) && Pack(r.value) != 0 && Fresh(s, a, r.value) && PoolOf(r.value.at.unit) == pool
      && Inv(s', a[r.value.at := Use(r.value.seqId, id, data, 0, false)])
      && Grown(s, s', r.value.at)
  {
    hide PoolOf, FreeWord, HdlOf, Supply, CanSupply, Inv;
    NinePools(s, a);
    SupplyOk(s, a, pool);
    var s1 := Supply(s, pool);
    FirstIsFree(s1, a, pool);
    var l := s1.free[pool][0];
    var (s', r) := Create(s, pool, id, data);
    assert s1.free[pool][..0] + s1.free[pool][1..] == s1.free[pool][1..];
    HandOut(s1, a, pool, 0, id, data, s');
    assert r == Some(Hdl(s1.cells[l].seqId, l));
    FreeWordSeq(Hdl(1, l));
  }

  lemma FirstIsFree(s: State, a: Table, pool: nat)
    requires Inv(s, a) && pool < POOL_CNT && s.free[pool] != []
    ensures s.free[pool][0] in s.cells && InTable(s.free[pool][0])
  {
    assert s.free[pool][0] in s.free[pool];
    assert CellOk(s, a, s.free[pool][0]);
  }

  lemma PositionFinds(s: State, a: Table, h: Hdl)
    requires Inv(s, a) && ValidHdl(h) && h.at in s.cells && h.at !in a && s.cells[h.at].seqId == h.seqId
    ensures PoolOf(h.at.unit) < POOL_CNT
    ensures Position(s, s.free[PoolOf(h.at.unit)], h) < |s.free[PoolOf(h.at.unit)]|
  {
    var pool := PoolOf(h.at.unit);
    PoolMapIff(h.at.unit, pool);
    assert h.at in s.free[pool];
    assert CellOk(s, a, h.at);
    OverlayRoundTrip(h);
    var k := Position(s, s.free[pool], h);
    var i :| 0 <= i < |s.free[pool]| && s.free[pool][i] == h.at;
    PositionIsOwner(s, a, h, pool, k);
  }

  /** The entry found carries the handle of its own cell. */
  lemma PositionIsOwner(s: State, a: Table, h: Hdl, pool: nat, k: nat)
    requires Inv(s, a) && pool < POOL_CNT && k == Position(s, s.free[pool], h)
    ensures k < |s.free[pool]| ==>
      s.free[pool][k] == h.at && h.at in s.cells && h.at !in a && s.cells[h.at].seqId == h.seqId
  {
    if k < |s.free[pool]| {
      var l := s.free[pool][k];
      assert l in s.free[pool];
      assert CellOk(s, a, l);
      OverlayRoundTrip(Hdl(s.cells[l].seqId, l));
    }
  }

  /** The bank of a handle, made on demand. */
  function WithBank(s: State, h: Hdl): (s': State)
    requires |s.free| == POOL_CNT && h.at.unit < UNIT_CNT
    ensures |s'.free| == POOL_CNT
  {
    if HasBank(s, h.at.unit, h.at.bank) then s else Carve(s, h.at.unit, h.at.bank, CELL_CNT)
  }

  lemma WithBankOk(s: State, a: Table, h: Hdl)
    requires Inv(s, a) && ValidHdl(h)
    ensures var s1 := WithBank(s, h);
      && Inv(s1, a) && Stocked(s, s1) && h.at in s1.cells
      && forall x :: x in s1.cells ==> x in s.cells || (x.unit == h.at.unit && x.bank == h.at.bank)
  {
    var l := Loc(h.at.unit, h.at.bank, 0);
    if HasBank(s, h.at.unit, h.at.bank) {
      assert Loc(l.unit, l.bank, h.at.idx) in s.cells;
    } else {
      NewBankOk(s, a, h.at.unit, h.at.bank);
      BankAbsent(s, a, h.at.unit, h.at.bank);
    }
  }

  lemma BankAbsent(s: State, a: Table, unit: nat, bank: nat)
    requires Inv(s, a) && !HasBank(s, unit, bank)
    ensures forall l: Loc :: l.unit == unit && l.bank == bank ==> l !in s.cells
  {
    forall l: Loc | l.unit == unit && l.bank == bank
      ensures l !in s.cells
    {
      assert l in s.cells ==> HasBank(s, l.unit, l.bank);
    }
  }

  /** The backup gets the declared handle exactly when it is fresh there. */
  lemma DeclareIff(s: State, a: Table, h: Hdl, id: nat, data: int)
    requires Inv(s, a) && ValidHdl(h) && id < SVC_CNT
    ensures var (s', ok) := Declare(s, h, id, data);
      && (ok <==> Fresh(s, a, h))
      && Inv(s', if ok then a[h.at := Use(h.seqId, id, data, 0, false)] else a)
      && Grown(s, s', h.at)
      && forall x :: x in s'.cells ==> x in s.cells || (x.unit == h.at.unit && x.bank == h.at.bank)
  {
    hide PoolOf, FreeWord, HdlOf, Inv, Carve;
    NinePools(s, a);
    var pool := PoolOf(h.at.unit);
    PoolMapIff(h.at.unit, 0);
    WithBankOk(s, a, h);
    var s1 := WithBank(s, h);
    FreeWordSeq(Hdl(1, h.at));
    var k := Position(s1, s1.free[pool], h);
    PositionIsOwner(s1, a, h, pool, k);
    if h.at !in a && s1.cells[h.at].seqId == h.seqId {
      PositionFinds(s1, a, h);
    }
    if k < |s1.free[pool]| {
      HandOut(s1, a, pool, k, id, data, Declare(s, h, id, data).0);
    }
  }
}
