/**
  The handle manager as the object the C code keeps in gl_hm, updated in place call by call.  Beside the words it
  keeps a ghost table of what is bound to what; each call says both what it does to the words, for any words, and
  what that means in the table, for calls a client is allowed to make.
 */
module HandleManager {
  import opened HandleModel
  import opened HandleSafety
  import opened HandleRuns
  import opened HandleHistory
  import opened HandleReuse

  class Manager {
    var cells: map<Loc, Cell>
    var free: seq<seq<Loc>>
    var curr: map<nat, nat>
    var waiting: map<Loc, Waiter>
    ghost var table: Table

    function S(): State
      reads this`cells, this`free, this`curr, this`waiting
    {
      State(cells, free, curr, waiting)
    }

    /** Every cell is bound as the table says, being destroyed, or free on one list. */
    ghost predicate Valid()
      reads this
    {
      Inv(S(), table)
    }

    /** ncshm_init. */
    constructor ()
      ensures S() == Init && table == map[] && Valid()
    {
      cells := map[];
      free := [[], [], [], [], [], [], [], [], []];
      curr := map[];
      waiting := map[];
      table := map[];
      new;
      InitOk();
    }

    /** hm_free_cell: the cell is the next its pool hands out, under the following number. */
    method Release(h: Hdl)
      requires |free| == POOL_CNT && h.at.unit < UNIT_CNT
      modifies this`cells, this`free
      ensures S() == FreeCell(old(S()), h)
      ensures ValidHdl(h) ==> NextOut(S(), PoolOf(h.at.unit)) == Some(Hdl(NextSeq(h.seqId), h.at))
    {
      var q := (h.seqId + 1) % SEQ_CNT;
      if q == 0 { q := q + 1; }
      var pool := PoolOf(h.at.unit);
      cells := cells[h.at := FreeWord(Hdl(q, h.at))];
      free := free[pool := [h.at] + free[pool]];
      if ValidHdl(h) { ReleasedIsNext(old(S()), h); }
    }

    /** The loop that carves a new bank into free cells. */
    method MakeBank(unit: nat, bank: nat)
      requires |free| == POOL_CNT && unit < UNIT_CNT
      modifies this`cells, this`free
      ensures S() == Carve(old(S()), unit, bank, CELL_CNT)
    {
      var i := 0;
      while i < CELL_CNT
        invariant 0 <= i <= CELL_CNT && |free| == POOL_CNT
        invariant S() == Carve(old(S()), unit, bank, i)
      {
        Release(Hdl(0, Loc(unit, bank, i)));
        i := i + 1;
      }
    }

    /** hm_make_free_cells: find an unused bank of the pool's first unit and fill it. */
    method MakeFreeCells(pool: nat)
      requires |free| == POOL_CNT && pool < POOL_CNT && free[pool] == [] && CanSupply(S(), pool)
      modifies this`cells, this`free, this`curr
      ensures S() == Supply(old(S()), pool)
    {
      var unit := PoolMin(pool);
      var bank: nat := CurrOf(S(), unit);
      ghost var start, tries := bank, BANK_CNT;
      while Loc(unit, bank, 0) in cells
        invariant S() == old(S()) && 0 <= tries
        invariant FindBank(S(), unit, bank, tries) == FindBank(S(), unit, start, BANK_CNT)
        decreases tries
      {
        bank := (bank + 1) % BANK_CNT;
        tries := tries - 1;
      }
      assert FindBank(S(), unit, bank, tries) == Some(bank);
      curr := curr[unit := (bank + 1) % BANK_CNT];
      MakeBank(unit, bank);
    }

    /** ncshm_create_hdl. */
    method CreateHdl(pool: nat, id: nat, data: int) returns (h: Option<Hdl>)
      requires |free| == POOL_CNT && (pool < POOL_CNT ==> CanSupply(S(), pool))
      modifies this`cells, this`free, this`curr, this`table
      ensures (S(), h) == Create(old(S()), pool, id, data)
      ensures h.Some? ==> table == old(table)[h.value.at := Use(h.value.seqId, id, data, 0, false)]
      ensures h.None? ==> table == old(table)
      ensures old(Valid()) && id < SVC_CNT ==>
        Valid() && (h.Some? <==> pool < POOL_CNT)
          && (h.Some? ==> ValidHdl(h.value) && Pack(h.value) != 0 && Fresh(old(S()), old(table), h.value))
    {
      hide Inv;
      ghost var op := OpCreate(pool, id, data);
      if Valid() && id < SVC_CNT {
        StepOk(S(), table, op);
        if pool < POOL_CNT { CreateOk(S(), table, pool, id, data); }
      }
      table := StepA(S(), table, op);
      if pool >= POOL_CNT { return None; }
      if free[pool] == [] {
        MakeFreeCells(pool);
      }
      if free[pool] == [] || free[pool][0] !in cells { return None; }
      var l := free[pool][0];
      h := Some(HdlOf(cells[l]));
      free := free[pool := free[pool][1..]];
      cells := cells[l := Occupied(cells[l], id, data)];
    }

    /** The walk of hm_target_cell along a free list, to the entry printed with this very handle. */
    method TargetCell(list: seq<Loc>, h: Hdl) returns (k: nat)
      ensures k == Position(S(), list, h)
    {
      k := 0;
      while k < |list| && !(list[k] in cells && HdlOf(cells[list[k]]) == h)
        invariant 0 <= k <= |list|
        invariant Position(S(), list, h) == k + Position(S(), list[k..], h)
      {
        k := k + 1;
      }
    }

    /** ncshm_declare_hdl. */
    method DeclareHdl(h: Hdl, id: nat, data: int) returns (ok: bool)
      requires |free| == POOL_CNT && h.at.unit < UNIT_CNT
      modifies this`cells, this`free, this`table
      ensures (S(), ok) == Declare(old(S()), h, id, data)
      ensures table == if ok then old(table)[h.at := Use(h.seqId, id, data, 0, false)] else old(table)
      ensures old(Valid()) && ValidHdl(h) && id < SVC_CNT ==> Valid() && (ok <==> Fresh(old(S()), old(table), h))
    {
      hide Inv, FreeWord, HdlOf, PoolOf, InTable, Grown, Position, Carve;
      PoolMapIff(h.at.unit, 0);
      if Valid() && ValidHdl(h) && id < SVC_CNT { DeclareIff(S(), table, h, id, data); }
      table := StepA(S(), table, OpDeclare(h, id, data));
      var pool := PoolOf(h.at.unit);
      if Loc(h.at.unit, h.at.bank, 0) !in cells {
        MakeBank(h.at.unit, h.at.bank);
      }
      var list := free[pool];
      var k := TargetCell(list, h);
      if k == |list| { return false; }
      cells := cells[list[k] := Occupied(cells[list[k]], id, data)];
      free := free[pool := list[..k] + list[k + 1..]];
      return true;
    }

    /** ncshm_take_hdl. */
    method TakeHdl(id: nat, h: Hdl) returns (data: Option<Data>)
      modifies this`cells, this`table
      ensures (S(), data) == Take(old(S()), id, h)
      ensures table == if Bound(old(table), id, h) then Taken(old(table), h) else old(table)
      ensures old(Valid() && Allowed(S(), table, OpTake(id, h))) ==>
        Valid() && data == if Bound(old(table), id, h) then Some(Client(old(table)[h.at].data)) else None
    {
      if Valid() && Allowed(S(), table, OpTake(id, h)) {
        StepOk(S(), table, OpTake(id, h));
        TakeSees(S(), table, id, h);
      }
      table := StepA(S(), table, OpTake(id, h));
      data := None;
      if Loc(h.at.unit, h.at.bank, 0) in cells && h.at in cells {
        var c := cells[h.at];
        if c.seqId == h.seqId && c.svcId == id && c.busy {
          cells := cells[h.at := c.(useCt := (c.useCt + 1) % USE_CNT)];
          data := Some(c.data);
        }
      }
    }

    /** ncshm_give_hdl; the last give of a dying handle posts its destroyer. */
    method GiveHdl(h: Hdl)
      modifies this`cells, this`waiting, this`table
      ensures S() == Give(old(S()), h)
      ensures table == if h.at in old(table) && old(table)[h.at].seqId == h.seqId then Given(old(table), h)
        else old(table)
      ensures old(Valid() && Allowed(S(), table, OpGive(h))) ==>
        Valid() && (h.at in waiting ==> h.at in table && waiting[h.at].posts == if table[h.at].takes == 0 then 1 else 0)
    {
      hide Inv, Allowed;
      ghost var op := OpGive(h);
      if Valid() && Allowed(S(), table, op) {
        GiveStep(S(), table, h);
        GiveSees(S(), table, h);
      }
      table := StepA(S(), table, op);
      if Loc(h.at.unit, h.at.bank, 0) in cells && h.at in cells && cells[h.at].seqId == h.seqId {
        var c := cells[h.at];
        var u := (c.useCt + USE_CNT - 1) % USE_CNT;
        if u < 1 {
          u := u + 1;
        } else if !c.busy && u == 1 && h.at in waiting {
          waiting := waiting[h.at := waiting[h.at].(posts := waiting[h.at].posts + 1)];
        }
        cells := cells[h.at := c.(useCt := u)];
      }
    }

    /** ncshm_destroy_hdl until it returns or waits. */
    method DestroyHdl(id: nat, h: Hdl) returns (out: DestroyOut)
      requires |free| == POOL_CNT && h.at.unit < UNIT_CNT
      modifies this`cells, this`free, this`waiting, this`table
      ensures (S(), out) == Destroy(old(S()), id, h)
      ensures table == if !Bound(old(table), id, h) then old(table)
        else if old(table)[h.at].takes > 0 then Dying(old(table), h) else old(table) - {h.at}
      ensures old(Valid() && Allowed(S(), table, OpDestroy(id, h))) ==>
        Valid() && out == if !Bound(old(table), id, h) then Refused
          else if old(table)[h.at].takes > 0 then Blocked else Done(Client(old(table)[h.at].data))
    {
      hide Inv;
      if Valid() && Allowed(S(), table, OpDestroy(id, h)) {
        StepOk(S(), table, OpDestroy(id, h));
        DestroySees(S(), table, id, h);
      }
      table := StepA(S(), table, OpDestroy(id, h));
      out := Refused;
      if Loc(h.at.unit, h.at.bank, 0) in cells && h.at in cells {
        var c := cells[h.at];
        if c.seqId == h.seqId && c.svcId == id && c.busy {
          if c.useCt > 1 {
            cells := cells[h.at := c.(busy := false, data := Semaphore)];
            waiting := waiting[h.at := Waiter(h, c.data, 0)];
            out := Blocked;
          } else {
            Release(h);
            out := Done(c.data);
          }
        }
      }
    }

    /** The part of ncshm_destroy_hdl after sem_wait. */
    method ResumeDestroy(l: Loc) returns (data: Option<Data>)
      requires |free| == POOL_CNT && (l in waiting ==> waiting[l].hdl.at.unit < UNIT_CNT)
      modifies this`cells, this`free, this`waiting, this`table
      ensures (S(), data) == Resume(old(S()), l)
      ensures var idle := l in old(table) && old(table)[l].dying && old(table)[l].takes == 0;
        && table == (if idle then old(table) - {l} else old(table))
        && (old(Valid()) ==> Valid() && data == if idle then Some(Client(old(table)[l].data)) else None)
    {
      hide Inv;
      if Valid() {
        ResumeStep(S(), table, l);
        ResumeSees(S(), table, l);
      }
      table := StepA(S(), table, OpResume(l));
      data := None;
      if l in waiting && waiting[l].posts != 0 {
        data := Some(waiting[l].data);
        Release(waiting[l].hdl);
        waiting := waiting - {l};
      }
    }
  }
}
