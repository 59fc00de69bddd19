/**
  Any run of calls by any number of threads.  Each call is one step under its pool's lock;
  a destroy that blocks is two steps with other calls in between.
 */
module HandleHistory {
  import opened HandleModel
  import opened HandleSafety
  import opened HandleRuns

  datatype Op =
    | OpCreate(pool: nat, id: nat, data: int)
    | OpDeclare(h: Hdl, id: nat, data: int)
    | OpTake(id: nat, h: Hdl)
    | OpGive(h: Hdl)
    | OpDestroy(id: nat, h: Hdl)
    | OpResume(at: Loc)

  /**
    What is asked of callers.  Service ids fit twelve bits; handles are 32-bit words; a handle is
    not the value printed on a free cell; fewer than 2047 takes are open; and the pool's first
    unit has a bank left when its list is empty.  Gives too many are allowed for.
   */
  ghost predicate Allowed(s: State, a: Table, op: Op) {
    match op
    case OpCreate(pool, id, _) => id < SVC_CNT && |s.free| == POOL_CNT && (pool < POOL_CNT ==> CanSupply(s, pool))
    case OpDeclare(h, id, _) => id < SVC_CNT && ValidHdl(h)
    case OpTake(id, h) => ValidHdl(h) && !Phantom(s, a, id, h) && (Bound(a, id, h) ==> a[h.at].takes + 2 < USE_CNT)
    case OpGive(h) => ValidHdl(h) && (h.at in s.cells && s.cells[h.at].seqId == h.seqId ==> h.at in a)
    case OpDestroy(id, h) => ValidHdl(h) && !Phantom(s, a, id, h)
    case OpResume(_) => true
  }

  ghost function StepS(s: State, op: Op): State {
    match op
    case OpCreate(pool, id, data) =>
      if |s.free| == POOL_CNT && (pool < POOL_CNT ==> CanSupply(s, pool)) then Create(s, pool, id, data).0 else s
    case OpDeclare(h, id, data) => if |s.free| == POOL_CNT && h.at.unit < UNIT_CNT then Declare(s, h, id, data).0 else s
    case OpTake(id, h) => Take(s, id, h).0
    case OpGive(h) => Give(s, h)
    case OpDestroy(id, h) => if |s.free| == POOL_CNT && h.at.unit < UNIT_CNT then Destroy(s, id, h).0 else s
    case OpResume(l) =>
      if |s.free| == POOL_CNT && (l in s.waiting ==> s.waiting[l].hdl.at.unit < UNIT_CNT) then Resume(s, l).0 else s
  }

  /** The handle a step issues, if any. */
  ghost function Issued(s: State, op: Op): Option<Hdl> {
    match op
    case OpCreate(pool, id, data) =>
      if |s.free| == POOL_CNT && (pool < POOL_CNT ==> CanSupply(s, pool)) then Create(s, pool, id, data).1 else None
    case OpDeclare(h, id, data) =>
      if |s.free| == POOL_CNT && h.at.unit < UNIT_CNT && Declare(s, h, id, data).1 then Some(h) else None
    case _ => None
  }

  /** The same step on the abstract table. */
  ghost function StepA(s: State, a: Table, op: Op): Table {
    match op
    case OpCreate(_, id, data) =>
      var h := Issued(s, op); if h.Some? then a[h.value.at := Use(h.value.seqId, id, data, 0, false)] else a
    case OpDeclare(h, id, data) =>
      if Issued(s, op).Some? then a[h.at := Use(h.seqId, id, data, 0, false)] else a
    case OpTake(id, h) => if Bound(a, id, h) then Taken(a, h) else a
    case OpGive(h) => if h.at in a && a[h.at].seqId == h.seqId then Given(a, h) else a
    case OpDestroy(id, h) =>
      if !Bound(a, id, h) then a else if a[h.at].takes == 0 then a - {h.at} else Dying(a, h)
    case OpResume(l) => if l in a && a[l].dying && a[l].takes == 0 then a - {l} else a
  }

  /** Every allowed step keeps the table and the cells in agreement. */
  lemma StepOk(s: State, a: Table, op: Op)
    requires Inv(s, a) && Allowed(s, a, op)
    ensures Inv(StepS(s, op), StepA(s, a, op))
  {
    hide Inv, CellOk, Create, Declare, FreeCell, CanSupply, Matches, Give;
    NinePools(s, a);
    match op
    case OpCreate(pool, id, data) =>
      if pool < POOL_CNT {
        CreateOk(s, a, pool, id, data);
      } else {
        BadPool(s, pool, id, data);
      }
    case OpDeclare(h, id, data) => DeclareIff(s, a, h, id, data);
    case OpTake(id, h) =>
      MatchesIff(s, a, id, h);
      if Bound(a, id, h) {
        TakeOk(s, a, id, h);
      }
    case OpGive(h) => GiveStep(s, a, h);
    case OpDestroy(id, h) =>
      MatchesIff(s, a, id, h);
      if Bound(a, id, h) {
        if a[h.at].takes == 0 { DestroyAtOnce(s, a, id, h); } else { DestroyBlocks(s, a, id, h); }
      }
    case OpResume(l) => ResumeStep(s, a, l);
  }

  lemma BadPool(s: State, pool: nat, id: nat, data: int)
    requires |s.free| == POOL_CNT && pool >= POOL_CNT
    ensures Create(s, pool, id, data) == (s, None)
  {
  }

  lemma GiveStep(s: State, a: Table, h: Hdl)
    requires Inv(s, a) && Allowed(s, a, OpGive(h))
    ensures Inv(Give(s, h), StepA(s, a, OpGive(h)))
  {
    FoundIff(s, a, h);
    if h.at in a && a[h.at].seqId == h.seqId {
      GiveOk(s, a, h);
    } else if h.at in s.cells {
      assert CellOk(s, a, h.at);
    }
  }

  lemma ResumeStep(s: State, a: Table, l: Loc)
    requires Inv(s, a)
    ensures Inv(StepS(s, OpResume(l)), StepA(s, a, OpResume(l)))
  {
    if l in s.waiting {
      ResumeOk(s, a, l);
    } else if l in a {
      assert CellOk(s, a, l);
    }
  }

  // ---------- runs ----------

  ghost function RunS(s: State, ops: seq<Op>): State {
    if ops == [] then s else StepS(RunS(s, ops[..|ops| - 1]), ops[|ops| - 1])
  }

  ghost function RunA(s: State, a: Table, ops: seq<Op>): Table {
    if ops == [] then a else StepA(RunS(s, ops[..|ops| - 1]), RunA(s, a, ops[..|ops| - 1]), ops[|ops| - 1])
  }

  ghost predicate AllowedRun(s: State, a: Table, ops: seq<Op>) {
    ops != [] ==>
      AllowedRun(s, a, ops[..|ops| - 1])
        && Allowed(RunS(s, ops[..|ops| - 1]), RunA(s, a, ops[..|ops| - 1]), ops[|ops| - 1])
  }

  lemma {:induction false} RunOk(s: State, a: Table, ops: seq<Op>)
    requires Inv(s, a) && AllowedRun(s, a, ops)
    ensures Inv(RunS(s, ops), RunA(s, a, ops))
  {
    hide Inv, Allowed, StepS, StepA;
    if ops != [] {
      RunOk(s, a, ops[..|ops| - 1]);
      StepOk(RunS(s, ops[..|ops| - 1]), RunA(s, a, ops[..|ops| - 1]), ops[|ops| - 1]);
    }
  }

  lemma InitOk()
    ensures Inv(Init, map[])
  {
  }

  /** From the empty manager, every run of allowed calls keeps each cell free once, live, or being destroyed. */
  lemma EveryRun(ops: seq<Op>)
    requires AllowedRun(Init, map[], ops)
    ensures Inv(RunS(Init, ops), RunA(Init, map[], ops))
  {
    InitOk();
    RunOk(Init, map[], ops);
  }

  // ---------- what callers see ----------

  /** Takes return the saved data of a bound handle and nothing else, in particular never a semaphore. */
  lemma TakeSees(s: State, a: Table, id: nat, h: Hdl)
    requires Inv(s, a) && Allowed(s, a, OpTake(id, h))
    ensures Take(s, id, h).1 == if Bound(a, id, h) then Some(Client(a[h.at].data)) else None
  {
    MatchesIff(s, a, id, h);
    if Bound(a, id, h) {
      TakeOk(s, a, id, h);
    }
  }

  /** A destroy is refused unless the handle is bound; it blocks exactly while takes are open. */
  lemma DestroySees(s: State, a: Table, id: nat, h: Hdl)
    requires Inv(s, a) && Allowed(s, a, OpDestroy(id, h))
    ensures |s.free| == POOL_CNT && h.at.unit < UNIT_CNT
    ensures Destroy(s, id, h).1 ==
      if !Bound(a, id, h) then Refused else if a[h.at].takes > 0 then Blocked else Done(Client(a[h.at].data))
  {
    MatchesIff(s, a, id, h);
    if Bound(a, id, h) {
      if a[h.at].takes == 0 { DestroyAtOnce(s, a, id, h); } else { DestroyBlocks(s, a, id, h); }
    }
  }

  /** A waiting destroy goes on exactly when no take is open any more. */
  lemma ResumeSees(s: State, a: Table, l: Loc)
    requires Inv(s, a)
    ensures |s.free| == POOL_CNT && (l in s.waiting ==> s.waiting[l].hdl.at.unit < UNIT_CNT)
    ensures Resume(s, l).1 == if l in a && a[l].dying && a[l].takes == 0 then Some(Client(a[l].data)) else None
  {
    if l in s.waiting {
      ResumeOk(s, a, l);
    }
    if l in a {
      assert CellOk(s, a, l);
    }
  }

  /** A blocked destroyer has been posted once if no take is open, and not at all otherwise. */
  lemma WaiterPosted(s: State, a: Table, l: Loc)
    requires Inv(s, a) && l in s.waiting
    ensures l in a && a[l].dying && s.waiting[l].posts == (if a[l].takes == 0 then 1 else 0)
    ensures s.waiting[l].data == Client(a[l].data)
  {
    assert CellOk(s, a, l);
  }

  /** So the last give on a dying handle posts its destroyer, once, and no other give does. */
  lemma GiveSees(s: State, a: Table, h: Hdl)
    requires Inv(s, a) && Allowed(s, a, OpGive(h))
    ensures var s', a' := Give(s, h), StepA(s, a, OpGive(h));
      h.at in s'.waiting ==> h.at in a' && s'.waiting[h.at].posts == if a'[h.at].takes == 0 then 1 else 0
  {
    hide Inv, Give, StepA;
    GiveStep(s, a, h);
    if h.at in Give(s, h).waiting { WaiterPosted(Give(s, h), StepA(s, a, OpGive(h)), h.at); }
  }

  /** A cell is recycled only by a destroy, and only when no take is open on it. */
  lemma RecycledIdle(s: State, a: Table, op: Op, l: Loc)
    requires Inv(s, a) && Allowed(s, a, op) && l in a && l !in StepA(s, a, op)
    ensures a[l].takes == 0 && (op.OpDestroy? || op.OpResume?)
  {
  }

  /** A binding keeps its owner and data for as long as it lives. */
  lemma StepConstant(s: State, a: Table, op: Op, l: Loc)
    requires Inv(s, a) && Allowed(s, a, op) && l in a && l in StepA(s, a, op)
    ensures var u := StepA(s, a, op)[l];
      u.seqId == a[l].seqId && u.id == a[l].id && u.data == a[l].data && (a[l].dying ==> u.dying)
  {
    hide Inv, CellOk, Create, Declare, CanSupply;
    NinePools(s, a);
    match op
    case OpCreate(pool, id, data) =>
      if pool < POOL_CNT { CreateOk(s, a, pool, id, data); } else { BadPool(s, pool, id, data); }
    case OpDeclare(h, id, data) => DeclareIff(s, a, h, id, data);
    case OpTake(_, _) =>
    case OpGive(_) =>
    case OpDestroy(_, _) =>
    case OpResume(_) =>
  }

  /** Once a handle is being destroyed or gone, it leads nowhere until it is issued again. */
  lemma StepUnbound(s: State, a: Table, op: Op, h: Hdl)
    requires Inv(s, a) && Allowed(s, a, op) && (h.at in a ==> a[h.at].seqId != h.seqId || a[h.at].dying)
    requires Issued(s, op) != Some(h)
    ensures var a' := StepA(s, a, op); h.at in a' ==> a'[h.at].seqId != h.seqId || a'[h.at].dying
  {
    if h.at in a && h.at in StepA(s, a, op) {
      StepConstant(s, a, op, h.at);
    }
  }

  ghost predicate NeverIssued(s: State, ops: seq<Op>, h: Hdl) {
    ops != [] ==> NeverIssued(s, ops[..|ops| - 1], h) && Issued(RunS(s, ops[..|ops| - 1]), ops[|ops| - 1]) != Some(h)
  }

  /** So over any run, at most one destroy of a binding succeeds: all later ones are refused until reissue. */
  lemma {:induction false} DestroyedOnce(s: State, a: Table, ops: seq<Op>, id: nat, h: Hdl)
    requires Inv(s, a) && AllowedRun(s, a, ops) && NeverIssued(s, ops, h)
    requires h.at in a ==> a[h.at].seqId != h.seqId || a[h.at].dying
    ensures var a' := RunA(s, a, ops);
      && !Bound(a', id, h) && (h.at in a' ==> a'[h.at].seqId != h.seqId || a'[h.at].dying)
      && (!Phantom(RunS(s, ops), a', id, h) && ValidHdl(h) ==>
        && Take(RunS(s, ops), id, h) == (RunS(s, ops), None)
        && |RunS(s, ops).free| == POOL_CNT && Destroy(RunS(s, ops), id, h) == (RunS(s, ops), Refused))
  {
    if ops != [] {
      DestroyedOnce(s, a, ops[..|ops| - 1], id, h);
      RunOk(s, a, ops[..|ops| - 1]);
      hide Inv;
      StepUnbound(RunS(s, ops[..|ops| - 1]), RunA(s, a, ops[..|ops| - 1]), ops[|ops| - 1], h);
    }
    RunOk(s, a, ops);
    MatchesIff(RunS(s, ops), RunA(s, a, ops), id, h);
  }
}
