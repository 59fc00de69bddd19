/**
  The handle manager: a table of cells reached through three indexes, one free list per
  pool, a sequence number against stale handles and a reference count against early reuse.
  A cell and a free-list entry share one machine word; both views of it are modelled.
 */
module HandleModel {

  datatype Option<+T> = None | Some(value: T)

  // The bit widths of HM_HDL and HM_CELL.
  const SEQ_CNT: nat := 16
  const UNIT_CNT: nat := 256
  const BANK_CNT: nat := 256
  const CELL_CNT: nat := 4096
  const SVC_CNT: nat := 4096
  const USE_CNT: nat := 2048
  const POOL_CNT: nat := 9

  /** Where a cell lives. */
  datatype Loc = Loc(unit: nat, bank: nat, idx: nat)

  /** HM_HDL. */
  datatype Hdl = Hdl(seqId: nat, at: Loc)

  ghost predicate InTable(l: Loc) {
    l.unit < UNIT_CNT && l.bank < BANK_CNT && l.idx < CELL_CNT
  }

  ghost predicate ValidHdl(h: Hdl) {
    h.seqId < SEQ_CNT && InTable(h.at)
  }

  /** The uint32_t a client holds. */
  function Pack(h: Hdl): nat {
    h.seqId + 0x10 * h.at.unit + 0x1000 * h.at.bank + 0x10_0000 * h.at.idx
  }

  /** The pointer-sized word: the client's data, a blocked destroyer's semaphore, or the next free cell. */
  datatype Data = Client(v: int) | Semaphore | NextFree

  /** HM_CELL, with the four bits above use_ct that it does not name. */
  datatype Cell = Cell(data: Data, seqId: nat, svcId: nat, busy: bool, useCt: nat, spare: nat)

  /** HM_FREE written over the same word: the handle's indexes fall on svc_id, busy and use_ct. */
  function FreeWord(h: Hdl): Cell {
    Cell(NextFree, h.seqId, h.at.unit + 0x100 * (h.at.bank % 16), (h.at.bank / 16) % 2 == 1,
         h.at.bank / 32 + 8 * (h.at.idx % 0x100), h.at.idx / 0x100)
  }

  /** The handle read back out of the word. */
  function HdlOf(c: Cell): Hdl {
    Hdl(c.seqId, Loc(c.svcId % 0x100,
                     c.svcId / 0x100 + (if c.busy then 16 else 0) + 32 * (c.useCt % 8),
                     c.useCt / 8 + 0x100 * c.spare))
  }

  /** The two views of the word agree on where a free cell lives. */
  lemma OverlayRoundTrip(h: Hdl)
    requires ValidHdl(h)
    ensures HdlOf(FreeWord(h)) == h
    ensures FreeWord(h).svcId < SVC_CNT && FreeWord(h).useCt < USE_CNT
  {
    var l := h.at;
    var c := FreeWord(h);
    assert c.svcId % 0x100 == l.unit && c.svcId / 0x100 == l.bank % 16;
    assert c.useCt % 8 == l.bank / 32 && c.useCt / 8 == l.idx % 0x100;
    BankBits(l.bank);
  }

  lemma BankBits(b: nat)
    ensures b == b % 16 + 16 * ((b / 16) % 2) + 32 * (b / 32)
  {
  }

  /** m_HM_POOL_ID, and the table it must agree with. */
  function PoolOf(unit: nat): nat {
    if unit < 2 then 0 else (unit - 1) / 32 + 1
  }

  function PoolMin(pool: nat): nat {
    if pool == 0 then 0 else if pool == 1 then 2 else 32 * (pool - 1) + 1
  }

  function PoolMax(pool: nat): nat {
    if pool == 0 then 1 else if pool == 8 then 255 else 32 * pool
  }

  /** The shift-based macro and the range table describe the same partition. */
  lemma PoolMapIff(unit: nat, pool: nat)
    requires unit < UNIT_CNT && pool < POOL_CNT
    ensures PoolOf(unit) < POOL_CNT
    ensures PoolOf(unit) == pool <==> PoolMin(pool) <= unit <= PoolMax(pool)
  {
  }

  /** The sequence number after one more release; zero is skipped. */
  function NextSeq(q: nat): nat {
    if (q + 1) % SEQ_CNT == 0 then 1 else (q + 1) % SEQ_CNT
  }

  /** A destroyer blocked in hm_block_me, with the semaphore posts it has received. */
  datatype Waiter = Waiter(hdl: Hdl, data: Data, posts: nat)

  datatype State = State(cells: map<Loc, Cell>, free: seq<seq<Loc>>, curr: map<nat, nat>, waiting: map<Loc, Waiter>)

  const Init := State(map[], [[], [], [], [], [], [], [], [], []], map[], map[])

  predicate HasBank(s: State, unit: nat, bank: nat) {
    Loc(unit, bank, 0) in s.cells
  }

  /** hm_find_cell. */
  predicate Found(s: State, h: Hdl) {
    HasBank(s, h.at.unit, h.at.bank) && h.at in s.cells
  }

  /** hm_free_cell on a handle whose cell is at l. */
  function FreeCell(s: State, h: Hdl): State
    requires |s.free| == POOL_CNT && h.at.unit < UNIT_CNT
  {
    var pool := PoolOf(h.at.unit);
    s.(cells := s.cells[h.at := FreeWord(Hdl(NextSeq(h.seqId), h.at))],
       free := s.free[pool := [h.at] + s.free[pool]])
  }

  /** The loop that carves the first n cells of a new bank. */
  function Carve(s: State, unit: nat, bank: nat, n: nat): (s': State)
    requires |s.free| == POOL_CNT && unit < UNIT_CNT
    ensures |s'.free| == POOL_CNT
  {
    if n == 0 then s else FreeCell(Carve(s, unit, bank, n - 1), Hdl(0, Loc(unit, bank, n - 1)))
  }

  function CurrOf(s: State, unit: nat): nat {
    if unit in s.curr then s.curr[unit] % BANK_CNT else 0
  }

  /** The scan for an unused bank; None when it would go round for ever. */
  function FindBank(s: State, unit: nat, from: nat, tries: nat): Option<nat>
    decreases tries
  {
    if tries == 0 then None
    else if !HasBank(s, unit, from) then Some(from)
    else FindBank(s, unit, (from + 1) % BANK_CNT, tries - 1)
  }

  predicate CanSupply(s: State, pool: nat)
    requires |s.free| == POOL_CNT && pool < POOL_CNT
  {
    s.free[pool] != [] || FindBank(s, PoolMin(pool), CurrOf(s, PoolMin(pool)), BANK_CNT).Some?
  }

  /** hm_make_free_cells when the pool has run dry. */
  function Supply(s: State, pool: nat): (s': State)
    requires |s.free| == POOL_CNT && pool < POOL_CNT && CanSupply(s, pool)
    ensures |s'.free| == POOL_CNT
  {
    if s.free[pool] != [] then s
    else
      var unit := PoolMin(pool);
      var bank := FindBank(s, unit, CurrOf(s, unit), BANK_CNT).value;
      Carve(s.(curr := s.curr[unit := (bank + 1) % BANK_CNT]), unit, bank, CELL_CNT)
  }

  /** The client part of a cell that has just been handed out. */
  function Occupied(c: Cell, id: nat, data: int): Cell {
    Cell(Client(data), c.seqId, id % SVC_CNT, true, 1, c.spare)
  }

  /** ncshm_create_hdl. */
  function Create(s: State, pool: nat, id: nat, data: int): (State, Option<Hdl>)
    requires |s.free| == POOL_CNT && (pool < POOL_CNT ==> CanSupply(s, pool))
  {
    if pool >= POOL_CNT then (s, None)
    else
      var s1 := Supply(s, pool);
      if s1.free[pool] == [] || s1.free[pool][0] !in s1.cells then (s1, None)
      else
        var l := s1.free[pool][0];
        (s1.(cells := s1.cells[l := Occupied(s1.cells[l], id, data)], free := s1.free[pool := s1.free[pool][1..]]),
         Some(HdlOf(s1.cells[l])))
  }

  /** The position in a free list of the entry carrying exactly this handle, else its length. */
  function Position(s: State, list: seq<Loc>, h: Hdl): (k: nat)
    ensures k <= |list|
    ensures k < |list| ==> list[k] in s.cells && HdlOf(s.cells[list[k]]) == h
    ensures forall i :: 0 <= i < k ==> !(list[i] in s.cells && HdlOf(s.cells[list[i]]) == h)
  {
    if list == [] then 0
    else if list[0] in s.cells && HdlOf(s.cells[list[0]]) == h then 0
    else 1 + Position(s, list[1..], h)
  }

  /** ncshm_declare_hdl on the backup: this very handle. */
  function Declare(s: State, h: Hdl, id: nat, data: int): (State, bool)
    requires |s.free| == POOL_CNT && h.at.unit < UNIT_CNT
  {
    var pool := PoolOf(h.at.unit);
    var s1 := if HasBank(s, h.at.unit, h.at.bank) then s else Carve(s, h.at.unit, h.at.bank, CELL_CNT);
    var k := Position(s1, s1.free[pool], h);
    if k == |s1.free[pool]| then (s1, false)
    else
      var l := s1.free[pool][k];
      (s1.(cells := s1.cells[l := Occupied(s1.cells[l], id, data)],
           free := s1.free[pool := s1.free[pool][..k] + s1.free[pool][k + 1..]]), true)
  }

  /** The test take and destroy make before touching a cell. */
  predicate Matches(s: State, id: nat, h: Hdl) {
    Found(s, h) && s.cells[h.at].seqId == h.seqId && s.cells[h.at].svcId == id && s.cells[h.at].busy
  }

  /** ncshm_take_hdl; use_ct is eleven bits wide. */
  function Take(s: State, id: nat, h: Hdl): (State, Option<Data>) {
    if !Matches(s, id, h) then (s, None)
    else
      var c := s.cells[h.at];
      (s.(cells := s.cells[h.at := c.(useCt := (c.useCt + 1) % USE_CNT)]), Some(c.data))
  }

  /** ncshm_give_hdl. */
  function Give(s: State, h: Hdl): State {
    if !Found(s, h) || s.cells[h.at].seqId != h.seqId then s
    else
      var c := s.cells[h.at];
      var u := (c.useCt + USE_CNT - 1) % USE_CNT;
      if u < 1 then s.(cells := s.cells[h.at := c.(useCt := u + 1)])
      else
        var s1 := s.(cells := s.cells[h.at := c.(useCt := u)]);
        if !c.busy && u == 1 && h.at in s.waiting
        then s1.(waiting := s.waiting[h.at := s.waiting[h.at].(posts := s.waiting[h.at].posts + 1)])
        else s1
  }

  /** NULL at once, blocked until a post, or the saved data. */
  datatype DestroyOut = Refused | Blocked | Done(data: Data)

  /** ncshm_destroy_hdl up to the point where it returns or blocks. */
  function Destroy(s: State, id: nat, h: Hdl): (State, DestroyOut)
    requires |s.free| == POOL_CNT && h.at.unit < UNIT_CNT
  {
    if !Matches(s, id, h) then (s, Refused)
    else
      var c := s.cells[h.at];
      if c.useCt > 1 then
        (s.(cells := s.cells[h.at := c.(busy := false, data := Semaphore)],
          waiting := s.waiting[h.at := Waiter(h, c.data, 0)]),
         Blocked)
      else (FreeCell(s, h), Done(c.data))
  }

  /** The rest of a blocked destroy, once its semaphore has been posted. */
  function Resume(s: State, l: Loc): (State, Option<Data>)
    requires |s.free| == POOL_CNT && (l in s.waiting ==> s.waiting[l].hdl.at.unit < UNIT_CNT)
  {
    if l !in s.waiting || s.waiting[l].posts == 0 then (s, None)
    else (FreeCell(s, s.waiting[l].hdl).(waiting := s.waiting - {l}), Some(s.waiting[l].data))
  }
}
