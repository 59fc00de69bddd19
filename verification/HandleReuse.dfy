/** How long a stale handle stays harmless, and the two ways the word layout can be tricked. */
module HandleReuse {
  import opened HandleModel
  import opened HandleSafety
  import opened HandleRuns
  import opened HandleHistory

  /** Whether this step puts cell l back on the free list. */
  ghost predicate Frees(s: State, a: Table, op: Op, l: Loc) {
    l in a && l !in StepA(s, a, op)
  }

  /** Only a release changes a cell's sequence number, and it moves it on by one. */
  lemma StepSeq(s: State, a: Table, op: Op, l: Loc)
    requires Inv(s, a) && Allowed(s, a, op) && l in s.cells
    ensures var s' := StepS(s, op);
      l in s'.cells && s'.cells[l].seqId == if Frees(s, a, op, l) then NextSeq(s.cells[l].seqId) else s.cells[l].seqId
  {
    hide Inv, CellOk, Create, Declare, CanSupply, FreeWord, NextSeq;
    NinePools(s, a);
    match op
    case OpCreate(pool, id, data) =>
      if pool < POOL_CNT {
        CreateOk(s, a, pool, id, data);
        IssuedSeq(StepS(s, op), StepA(s, a, op), Issued(s, op).value.at);
      } else {
        BadPool(s, pool, id, data);
      }
    case OpDeclare(h, id, data) =>
      DeclareIff(s, a, h, id, data);
      DeclaredSeq(s, a, h, id, data, l);
    case OpTake(_, _) =>
    case OpGive(_) =>
    case OpDestroy(id, h) => DestroySeq(s, a, id, h, l);
    case OpResume(x) => ResumeSeq(s, a, x, l);
  }

  lemma IssuedSeq(s: State, a: Table, l: Loc)
    requires Inv(s, a) && l in a
    ensures l in s.cells && s.cells[l].seqId == a[l].seqId
  {
    assert CellOk(s, a, l);
  }

  lemma DeclaredSeq(s: State, a: Table, h: Hdl, id: nat, data: int, l: Loc)
    requires Inv(s, a) && ValidHdl(h) && id < SVC_CNT && l in s.cells
    ensures l in Declare(s, h, id, data).0.cells && Declare(s, h, id, data).0.cells[l].seqId == s.cells[l].seqId
  {
    hide Inv, CellOk, FreeWord, HdlOf, Carve, PoolOf;
    NinePools(s, a);
    WithBankOk(s, a, h);
    PoolMapIff(h.at.unit, 0);
    assert l in WithBank(s, h).cells && WithBank(s, h).cells[l] == s.cells[l];
  }

  lemma DestroySeq(s: State, a: Table, id: nat, h: Hdl, l: Loc)
    requires Inv(s, a) && Allowed(s, a, OpDestroy(id, h)) && l in s.cells
    ensures var s' := StepS(s, OpDestroy(id, h));
      l in s'.cells && s'.cells[l].seqId == if Frees(s, a, OpDestroy(id, h), l) then NextSeq(s.cells[l].seqId)
        else s.cells[l].seqId
  {
    MatchesIff(s, a, id, h);
    if h.at in s.cells {
      assert CellOk(s, a, h.at);
    }
    FreeWordSeq(Hdl(NextSeq(h.seqId), h.at));
    hide FreeWord, NextSeq;
  }

  lemma ResumeSeq(s: State, a: Table, x: Loc, l: Loc)
    requires Inv(s, a) && l in s.cells
    ensures var s' := StepS(s, OpResume(x));
      l in s'.cells && s'.cells[l].seqId == if Frees(s, a, OpResume(x), l) then NextSeq(s.cells[l].seqId)
        else s.cells[l].seqId
  {
    if x in a {
      assert CellOk(s, a, x);
      FreeWordSeq(Hdl(NextSeq(a[x].seqId), x));
    }
    hide FreeWord, NextSeq;
  }

  /** How often a run releases cell l. */
  ghost function FreeCount(s: State, a: Table, ops: seq<Op>, l: Loc): nat {
    if ops == [] then 0
    else
      FreeCount(s, a, ops[..|ops| - 1], l)
      + (if Frees(RunS(s, ops[..|ops| - 1]), RunA(s, a, ops[..|ops| - 1]), ops[|ops| - 1], l) then 1 else 0)
  }

  function Advance(q: nat, k: nat): nat {
    if k == 0 then q else NextSeq(Advance(q, k - 1))
  }

  lemma {:induction false} RunSeq(s: State, a: Table, ops: seq<Op>, l: Loc)
    requires Inv(s, a) && AllowedRun(s, a, ops) && l in s.cells
    ensures l in RunS(s, ops).cells && RunS(s, ops).cells[l].seqId == Advance(s.cells[l].seqId, FreeCount(s, a, ops, l))
  {
    hide Inv, Allowed, StepS, StepA, NextSeq;
    if ops != [] {
      var front := ops[..|ops| - 1];
      RunSeq(s, a, front, l);
      RunOk(s, a, front);
      StepSeq(RunS(s, front), RunA(s, a, front), ops[|ops| - 1], l);
    }
  }

  lemma NextSeqMeans(q: nat)
    requires 1 <= q < SEQ_CNT
    ensures NextSeq(q) == if q == SEQ_CNT - 1 then 1 else q + 1
  {
  }

  /** The numbers 1 to 15 go round in a cycle of fifteen. */
  lemma {:induction false} AdvanceMeans(q: nat, k: nat)
    requires 1 <= q < SEQ_CNT && k < SEQ_CNT
    ensures Advance(q, k) == if q + k < SEQ_CNT then q + k else q + k - (SEQ_CNT - 1)
  {
    hide NextSeq;
    if k > 0 {
      AdvanceMeans(q, k - 1);
      NextSeqMeans(Advance(q, k - 1));
    }
  }

  /** A handle whose cell carries another number is refused everywhere and changes nothing. */
  lemma StaleIsHarmless(s: State, id: nat, h: Hdl)
    requires |s.free| == POOL_CNT && h.at.unit < UNIT_CNT && h.at in s.cells && s.cells[h.at].seqId != h.seqId
    ensures Take(s, id, h) == (s, None) && Give(s, h) == s && Destroy(s, id, h) == (s, Refused)
  {
  }

  /**
    After a handle's cell has been released, the value is stale: every call on it is a no-op, and
    it is not issued again, until the cell has been released another fourteen times.
   */
  lemma ReuseDistance(s: State, a: Table, ops: seq<Op>, h: Hdl)
    requires Inv(s, a) && AllowedRun(s, a, ops) && 1 <= h.seqId < SEQ_CNT
    requires h.at in s.cells && s.cells[h.at].seqId == NextSeq(h.seqId)
    requires FreeCount(s, a, ops, h.at) < SEQ_CNT - 2
    ensures var s' := RunS(s, ops);
      && h.at in s'.cells && s'.cells[h.at].seqId != h.seqId
      && forall op :: Allowed(s', RunA(s, a, ops), op) ==> Issued(s', op) != Some(h)
  {
    hide Inv, NextSeq, Allowed, Issued;
    RunSeq(s, a, ops, h.at);
    NextSeqMeans(h.seqId);
    AdvanceMeans(NextSeq(h.seqId), FreeCount(s, a, ops, h.at));
    RunOk(s, a, ops);
    var s' := RunS(s, ops);
    var a' := RunA(s, a, ops);
    forall op | Allowed(s', a', op)
      ensures Issued(s', op) != Some(h)
    {
      if Issued(s', op) == Some(h) {
        IssuedFresh(s', a', op);
      }
    }
  }

  lemma IssuedFresh(s: State, a: Table, op: Op)
    requires Inv(s, a) && Allowed(s, a, op) && Issued(s, op).Some?
    ensures Fresh(s, a, Issued(s, op).value)
  {
    hide Inv, CellOk, Create, Declare, CanSupply;
    NinePools(s, a);
    match op
    case OpCreate(pool, id, data) =>
      if pool < POOL_CNT { CreateOk(s, a, pool, id, data); } else { BadPool(s, pool, id, data); }
    case OpDeclare(h, id, data) => DeclareIff(s, a, h, id, data);
    case OpTake(_, _) => assert false;
    case OpGive(_) => assert false;
    case OpDestroy(_, _) => assert false;
    case OpResume(_) => assert false;
  }

  // ---------- a run that brings the value back ----------

  /** Cell l is free, next in line in its pool, and carries number q. */
  ghost predicate Ready(s: State, a: Table, l: Loc, q: nat) {
    && Inv(s, a) && l in s.cells && l !in a && s.cells[l].seqId == q
    && |s.free| == POOL_CNT && PoolOf(l.unit) < POOL_CNT && s.free[PoolOf(l.unit)] != []
      && s.free[PoolOf(l.unit)][0] == l
  }

  /** The handle printed on the cell its pool hands out next. */
  function NextOut(s: State, pool: nat): Option<Hdl> {
    if pool < |s.free| && s.free[pool] != [] && s.free[pool][0] in s.cells then Some(HdlOf(s.cells[s.free[pool][0]]))
      else None
  }

  lemma ReleasedIsNext(s: State, h: Hdl)
    requires |s.free| == POOL_CNT && ValidHdl(h)
    ensures NextOut(FreeCell(s, h), PoolOf(h.at.unit)) == Some(Hdl(NextSeq(h.seqId), h.at))
  {
    PoolMapIff(h.at.unit, 0);
    NextSeqRange(h.seqId);
    OverlayRoundTrip(Hdl(NextSeq(h.seqId), h.at));
  }

  /** And that is what a create returns. */
  lemma CreateReturnsNext(s: State, pool: nat, id: nat, data: int)
    requires |s.free| == POOL_CNT && pool < POOL_CNT && NextOut(s, pool).Some?
    ensures Create(s, pool, id, data).1 == NextOut(s, pool)
  {
  }

  /** So the value a released cell will go by is known: the next create in its pool returns it. */
  lemma ReissuedNext(s: State, h: Hdl, id: nat, data: int)
    requires |s.free| == POOL_CNT && ValidHdl(h)
    ensures PoolOf(h.at.unit) < POOL_CNT && CanSupply(FreeCell(s, h), PoolOf(h.at.unit))
    ensures Create(FreeCell(s, h), PoolOf(h.at.unit), id, data).1 == Some(Hdl(NextSeq(h.seqId), h.at))
  {
    PoolMapIff(h.at.unit, 0);
    ReleasedIsNext(s, h);
    CreateReturnsNext(FreeCell(s, h), PoolOf(h.at.unit), id, data);
  }

  /** A destroy that does not block leaves its cell next in line. */
  lemma DestroyReadies(s: State, a: Table, id: nat, h: Hdl)
    requires Inv(s, a) && Bound(a, id, h) && a[h.at].takes == 0
    ensures |s.free| == POOL_CNT && h.at.unit < UNIT_CNT
      && Ready(Destroy(s, id, h).0, a - {h.at}, h.at, NextSeq(h.seqId))
  {
    DestroyAtOnce(s, a, id, h);
    MatchesIff(s, a, id, h);
    PoolMapIff(h.at.unit, 0);
    FreeWordSeq(Hdl(NextSeq(h.seqId), h.at));
    NinePools(s, a);
    hide Inv, CellOk, FreeWord, NextSeq, PoolOf;
    assert h.at in s.cells by { IssuedSeq(s, a, h.at); }
    assert s.cells[h.at].useCt <= 1 by { Idle(s, a, h.at); }
  }

  lemma Idle(s: State, a: Table, l: Loc)
    requires Inv(s, a) && l in a && a[l].takes == 0
    ensures l in s.cells && s.cells[l].useCt == 1
  {
    assert CellOk(s, a, l);
  }

  /** A create takes the cell that is next in line, with the number printed on it. */
  lemma CreateReissues(s: State, a: Table, l: Loc, q: nat, id: nat, data: int)
    requires Ready(s, a, l, q) && id < SVC_CNT
    ensures CanSupply(s, PoolOf(l.unit))
    ensures var (s', r) := Create(s, PoolOf(l.unit), id, data);
      r == Some(Hdl(q, l)) && Inv(s', a[l := Use(q, id, data, 0, false)])
  {
    CreateOk(s, a, PoolOf(l.unit), id, data);
    assert CellOk(s, a, l);
    OverlayRoundTrip(Hdl(q, l));
  }

  /** k times: create from the pool, and destroy what was created. */
  ghost function Rounds(l: Loc, q: nat, id: nat, data: int, k: nat): seq<Op> {
    if k == 0 then []
    else Rounds(l, q, id, data, k - 1) + [OpCreate(PoolOf(l.unit), id, data), OpDestroy(id, Hdl(Advance(q, k - 1), l))]
  }

  lemma OneRound(s: State, a: Table, l: Loc, q: nat, id: nat, data: int)
    requires Ready(s, a, l, q) && id < SVC_CNT
    ensures var create := OpCreate(PoolOf(l.unit), id, data);
      var destroy := OpDestroy(id, Hdl(q, l));
      var s1 := StepS(s, create); var a1 := StepA(s, a, create);
      && Allowed(s, a, create) && !Frees(s, a, create, l)
      && Allowed(s1, a1, destroy) && Frees(s1, a1, destroy, l)
      && StepA(s1, a1, destroy) == a && Ready(StepS(s1, destroy), a, l, NextSeq(q))
  {
    hide NextSeq, PoolOf, CellOk, CanSupply, Create, Destroy;
    CreateReissues(s, a, l, q, id, data);
    InTableOf(s, a, l);
    var a1 := a[l := Use(q, id, data, 0, false)];
    var s1 := Create(s, PoolOf(l.unit), id, data).0;
    assert a1 - {l} == a;
    DestroyReadies(s1, a1, id, Hdl(q, l));
  }

  lemma InTableOf(s: State, a: Table, l: Loc)
    requires Inv(s, a) && l in s.cells
    ensures InTable(l) && 1 <= s.cells[l].seqId < SEQ_CNT
  {
    assert CellOk(s, a, l);
  }

  lemma {:induction false} RoundsRun(s: State, a: Table, l: Loc, q: nat, id: nat, data: int, k: nat)
    requires Ready(s, a, l, q) && id < SVC_CNT
    ensures var ops := Rounds(l, q, id, data, k);
      && AllowedRun(s, a, ops) && RunA(s, a, ops) == a && FreeCount(s, a, ops, l) == k
      && Ready(RunS(s, ops), a, l, Advance(q, k))
  {
    hide Ready, Allowed, StepS, StepA, Frees, NextSeq, PoolOf;
    if k > 0 {
      RoundsRun(s, a, l, q, id, data, k - 1);
      var front := Rounds(l, q, id, data, k - 1);
      var s0 := RunS(s, front);
      OneRound(s0, a, l, Advance(q, k - 1), id, data);
      var create := OpCreate(PoolOf(l.unit), id, data);
      var destroy := OpDestroy(id, Hdl(Advance(q, k - 1), l));
      var mid := front + [create];
      assert mid[..|mid| - 1] == front;
      var all := front + [create, destroy];
      assert all[..|all| - 1] == mid;
      assert all == Rounds(l, q, id, data, k);
    }
  }

  /** Fourteen is exact: after one release and that many more the very same value is issued again. */
  lemma ReuseIsTight(s: State, a: Table, h: Hdl, id: nat, data: int)
    requires Ready(s, a, h.at, NextSeq(h.seqId)) && 1 <= h.seqId < SEQ_CNT && id < SVC_CNT
    ensures var ops := Rounds(h.at, NextSeq(h.seqId), id, data, SEQ_CNT - 2);
      var again := OpCreate(PoolOf(h.at.unit), id, data);
      && AllowedRun(s, a, ops) && FreeCount(s, a, ops, h.at) == SEQ_CNT - 2
      && Allowed(RunS(s, ops), RunA(s, a, ops), again) && Issued(RunS(s, ops), again) == Some(h)
  {
    hide NextSeq, Inv, Create, CanSupply, PoolOf;
    NextSeqMeans(h.seqId);
    AdvanceMeans(NextSeq(h.seqId), SEQ_CNT - 2);
    RoundsRun(s, a, h.at, NextSeq(h.seqId), id, data, SEQ_CNT - 2);
    var ops := Rounds(h.at, NextSeq(h.seqId), id, data, SEQ_CNT - 2);
    CreateReissues(RunS(s, ops), a, h.at, h.seqId, id, data);
  }

  // ---------- the shared word ----------

  /** Taking the value printed on a free cell of such a bank yields the free-list link and corrupts the entry. */
  lemma PhantomTake(s: State, a: Table, id: nat, h: Hdl)
    requires Inv(s, a) && Phantom(s, a, id, h)
    ensures Take(s, id, h).1 == Some(NextFree)
    ensures HdlOf(Take(s, id, h).0.cells[h.at]) != h
    ensures !Inv(Take(s, id, h).0, a)
  {
    MatchesIff(s, a, id, h);
    assert CellOk(s, a, h.at);
    OverlayRoundTrip(h);
    var c := s.cells[h.at];
    var c' := Take(s, id, h).0.cells[h.at];
    assert c' == c.(useCt := (c.useCt + 1) % USE_CNT);
    assert c'.useCt != c.useCt;
    assert h.at in Take(s, id, h).0.cells && !CellOk(Take(s, id, h).0, a, h.at);
  }

  /** Phantoms exist: any free cell whose bank number has bit 4 set is one for its own coordinates. */
  lemma PhantomExists(s: State, a: Table, l: Loc)
    requires Inv(s, a) && l in s.cells && l !in a && (l.bank / 16) % 2 == 1
    ensures Phantom(s, a, l.unit + 0x100 * (l.bank % 16), Hdl(s.cells[l].seqId, l))
  {
  }

  /** A give on the value printed on a free cell is harmless only where the word happens to read as one user. */
  lemma StrayGiveIff(s: State, a: Table, h: Hdl)
    requires Inv(s, a) && h.at in s.cells && h.at !in a && s.cells[h.at].seqId == h.seqId
    ensures Inv(Give(s, h), a) <==> h.at.bank / 32 == 1 && h.at.idx % 0x100 == 0
  {
    hide Inv;
    Printed(s, a, h);
    GiveFree(s, h);
    hide Give;
    if FreeWord(h).useCt != 1 { Misfit(Give(s, h), a, h); }
  }

  lemma Printed(s: State, a: Table, h: Hdl)
    requires Inv(s, a) && h.at in s.cells && h.at !in a && s.cells[h.at].seqId == h.seqId
    ensures Found(s, h) && ValidHdl(h) && s.cells[h.at] == FreeWord(h)
  {
    assert CellOk(s, a, h.at);
    FoundIff(s, a, h);
  }

  lemma GiveFree(s: State, h: Hdl)
    requires Found(s, h) && h.at in s.cells && ValidHdl(h) && s.cells[h.at] == FreeWord(h)
    ensures if FreeWord(h).useCt == 1 then Give(s, h) == s
      else var s' := Give(s, h);
        h.at in s'.cells && s'.cells[h.at].seqId == h.seqId && s'.cells[h.at].useCt != FreeWord(h).useCt
  {
    OverlayRoundTrip(h);
  }

  lemma Misfit(s: State, a: Table, h: Hdl)
    requires h.at in s.cells && h.at !in a && s.cells[h.at].seqId == h.seqId && s.cells[h.at].useCt != FreeWord(h).useCt
    ensures !Inv(s, a)
  {
    assert !CellOk(s, a, h.at);
  }

  // ---------- the eleven-bit count ----------

  /** One take too many wraps the count to zero, and a destroy then frees the cell under all its users. */
  lemma TooManyTakes(s: State, a: Table, id: nat, h: Hdl)
    requires Inv(s, a) && Bound(a, id, h) && a[h.at].takes == USE_CNT - 2
    ensures var s' := Take(s, id, h).0;
      && Take(s, id, h).1.Some? && s'.cells[h.at].useCt == 0
      && |s'.free| == POOL_CNT && h.at.unit < UNIT_CNT
      && Destroy(s', id, h).1 == Done(Client(a[h.at].data))
  {
    MatchesIff(s, a, id, h);
    assert CellOk(s, a, h.at);
  }
}
