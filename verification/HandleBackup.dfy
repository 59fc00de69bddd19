/**
  Primary and backup: the backup declares every handle the primary creates and destroys
  every handle the primary has finished destroying, in the same order.
 */
module HandleBackup {
  import opened HandleModel
  import opened HandleSafety
  import opened HandleRuns
  import opened HandleHistory
  import opened HandleReuse

  /** The handles in circulation and what they lead to, without the primary's open takes. */
  ghost predicate SameBindings(ap: Table, ab: Table) {
    && ap.Keys == ab.Keys
    && forall l :: l in ap ==>
      ab[l].seqId == ap[l].seqId && ab[l].id == ap[l].id && ab[l].data == ap[l].data && ab[l].takes == 0 && !ab[l].dying
  }

  /** Cells the backup has made agree with the primary's; the primary's other cells have never been used. */
  ghost predicate SameSeqs(p: State, b: State) {
    && (forall l :: l in b.cells ==> l in p.cells && p.cells[l].seqId == b.cells[l].seqId)
    && (forall l :: l in p.cells && l !in b.cells ==> p.cells[l].seqId == 1)
  }

  ghost predicate Mirror(p: State, ap: Table, b: State, ab: Table) {
    Inv(p, ap) && Inv(b, ab) && SameBindings(ap, ab) && SameSeqs(p, b)
  }

  /** What the backup is told after a step of the primary. */
  ghost function Replay(p: State, ap: Table, op: Op): Option<Op> {
    match op
    case OpCreate(_, id, data) =>
      var h := Issued(p, op); if h.Some? then Some(OpDeclare(h.value, id, data)) else None
    case OpDestroy(id, h) => if Frees(p, ap, op, h.at) then Some(OpDestroy(id, h)) else None
    case OpResume(l) => if Frees(p, ap, op, l) then Some(OpDestroy(ap[l].id, Hdl(ap[l].seqId, l))) else None
    case _ => None
  }

  ghost function BackupS(p: State, ap: Table, b: State, op: Op): State {
    var r := Replay(p, ap, op); if r.Some? then StepS(b, r.value) else b
  }

  ghost function BackupA(p: State, ap: Table, b: State, ab: Table, op: Op): Table {
    var r := Replay(p, ap, op); if r.Some? then StepA(b, ab, r.value) else ab
  }

  /** A primary only creates; its takes, gives and blocked destroys are no business of the backup. */
  ghost predicate PrimaryOp(p: State, ap: Table, op: Op) {
    Allowed(p, ap, op) && !op.OpDeclare?
  }

  /** One step of the primary and its replay: the declare succeeds and the two sides stay alike. */
  lemma MirrorStep(p: State, ap: Table, b: State, ab: Table, op: Op)
    requires Mirror(p, ap, b, ab) && PrimaryOp(p, ap, op)
    ensures var r := Replay(p, ap, op);
      r.Some? ==> Allowed(b, ab, r.value) && (r.value.OpDeclare? ==> Issued(b, r.value) == Issued(p, op))
    ensures Mirror(StepS(p, op), StepA(p, ap, op), BackupS(p, ap, b, op), BackupA(p, ap, b, ab, op))
  {
    hide Inv, CellOk, StepS, FreeWord, SameSeqs;
    StepOk(p, ap, op);
    match op
    case OpCreate(pool, id, data) => MirrorCreate(p, ap, b, ab, pool, id, data);
    case OpTake(_, _) => QuietStep(p, ap, b, ab, op);
    case OpGive(_) => QuietStep(p, ap, b, ab, op);
    case OpDestroy(id, h) =>
      if Frees(p, ap, op, h.at) {
        MirrorFree(p, ap, b, ab, op, h.at);
      } else {
        QuietStep(p, ap, b, ab, op);
      }
    case OpResume(l) =>
      if Frees(p, ap, op, l) {
        MirrorFree(p, ap, b, ab, op, l);
      } else {
        QuietStep(p, ap, b, ab, op);
      }
  }

  /** Steps that neither issue nor release leave every cell where it is. */
  lemma QuietStep(p: State, ap: Table, b: State, ab: Table, op: Op)
    requires Mirror(p, ap, b, ab) && PrimaryOp(p, ap, op) && Inv(StepS(p, op), StepA(p, ap, op))
    requires !op.OpCreate? && StepA(p, ap, op).Keys == ap.Keys
    ensures SameSeqs(StepS(p, op), b) && SameBindings(StepA(p, ap, op), ab)
  {
    hide Inv, CellOk, StepS, StepA, Allowed, SameBindings, SameSeqs;
    SameCells(p, ap, op);
    forall l | l in p.cells
      ensures StepS(p, op).cells[l].seqId == p.cells[l].seqId
    {
      assert l in ap <==> l in ap.Keys;
      assert l in StepA(p, ap, op) <==> l in StepA(p, ap, op).Keys;
      StepSeq(p, ap, op, l);
    }
    SeqsKept(p, StepS(p, op), b);
    forall l | l in ap
      ensures l in StepA(p, ap, op) && SameObject(ap[l], StepA(p, ap, op)[l])
    {
      assert l in ap.Keys;
      assert l in StepA(p, ap, op).Keys;
      StepConstant(p, ap, op, l);
    }
    BindingsKept(ap, StepA(p, ap, op), ab);
  }

  ghost predicate SameObject(u: Use, v: Use) {
    v.seqId == u.seqId && v.id == u.id && v.data == u.data
  }

  lemma SeqsKept(p: State, p': State, b: State)
    requires SameSeqs(p, b) && p'.cells.Keys == p.cells.Keys
    requires forall l :: l in p.cells ==> l in p'.cells && p'.cells[l].seqId == p.cells[l].seqId
    ensures SameSeqs(p', b)
  {
    assert forall l :: l in p'.cells <==> l in p'.cells.Keys;
  }

  lemma BindingsKept(ap: Table, ap': Table, ab: Table)
    requires SameBindings(ap, ab) && ap'.Keys == ap.Keys
    requires forall l :: l in ap ==> l in ap' && SameObject(ap[l], ap'[l])
    ensures SameBindings(ap', ab)
  {
    forall l | l in ap'
      ensures l in ap && l in ab
    {
      assert l in ap.Keys && l in ab.Keys;
    }
  }

  lemma SameCells(s: State, a: Table, op: Op)
    requires Inv(s, a) && !op.OpCreate? && !op.OpDeclare?
    ensures StepS(s, op).cells.Keys == s.cells.Keys
  {
    if op.OpResume? && op.at in s.waiting {
      assert CellOk(s, a, op.at);
    }
  }

  /** The primary finishes a destroy; the backup's own destroy of the same handle goes through at once. */
  lemma MirrorFree(p: State, ap: Table, b: State, ab: Table, op: Op, l: Loc)
    requires Mirror(p, ap, b, ab) && PrimaryOp(p, ap, op) && Frees(p, ap, op, l)
    requires Replay(p, ap, op) == Some(OpDestroy(ap[l].id, Hdl(ap[l].seqId, l)))
    requires Inv(StepS(p, op), StepA(p, ap, op)) && StepA(p, ap, op) == ap - {l} && !op.OpCreate?
    ensures var r := OpDestroy(ap[l].id, Hdl(ap[l].seqId, l));
      && Allowed(b, ab, r) && StepA(b, ab, r) == ab - {l} && Inv(StepS(b, r), ab - {l})
      && SameSeqs(StepS(p, op), StepS(b, r)) && SameBindings(ap - {l}, ab - {l})
  {
    hide Inv, CellOk, StepS, Allowed, FreeWord, SameSeqs;
    var r := OpDestroy(ap[l].id, Hdl(ap[l].seqId, l));
    assert l in ap.Keys;
    BackupReady(b, ab, l);
    StepOk(b, ab, r);
    SameCells(p, ap, op);
    SameCells(b, ab, r);
    forall x | x in p.cells
      ensures x in StepS(p, op).cells
      ensures StepS(p, op).cells[x].seqId == if x == l then NextSeq(p.cells[x].seqId) else p.cells[x].seqId
    {
      StepSeq(p, ap, op, x);
    }
    forall x | x in b.cells
      ensures x in StepS(b, r).cells
      ensures StepS(b, r).cells[x].seqId == if x == l then NextSeq(b.cells[x].seqId) else b.cells[x].seqId
    {
      StepSeq(b, ab, r, x);
    }
    SeqsAdvanced(p, StepS(p, op), b, StepS(b, r), l);
  }

  lemma BackupReady(b: State, ab: Table, l: Loc)
    requires Inv(b, ab) && l in ab && ab[l].takes == 0 && !ab[l].dying
    ensures var r := OpDestroy(ab[l].id, Hdl(ab[l].seqId, l));
      l in b.cells && Allowed(b, ab, r) && StepA(b, ab, r) == ab - {l}
  {
    assert CellOk(b, ab, l);
  }

  lemma SeqsAdvanced(p: State, p': State, b: State, b': State, l: Loc)
    requires SameSeqs(p, b) && p'.cells.Keys == p.cells.Keys && b'.cells.Keys == b.cells.Keys && l in b.cells
    requires forall x :: x in p.cells ==>
      x in p'.cells && p'.cells[x].seqId == if x == l then NextSeq(p.cells[x].seqId) else p.cells[x].seqId
    requires forall x :: x in b.cells ==>
      x in b'.cells && b'.cells[x].seqId == if x == l then NextSeq(b.cells[x].seqId) else b.cells[x].seqId
    ensures SameSeqs(p', b')
  {
    hide NextSeq;
    assert forall x :: x in p'.cells <==> x in p'.cells.Keys;
    assert forall x :: x in b'.cells <==> x in b'.cells.Keys;
  }

  lemma WholeBank(s: State, a: Table, l: Loc, x: Loc)
    requires Inv(s, a) && l in s.cells && x.unit == l.unit && x.bank == l.bank && x.idx < CELL_CNT
    ensures x in s.cells
  {
    assert Loc(l.unit, l.bank, x.idx) in s.cells;
  }

  /** The primary creates; the backup finds exactly that handle fresh, whatever banks either side has made. */
  lemma MirrorCreate(p: State, ap: Table, b: State, ab: Table, pool: nat, id: nat, data: int)
    requires Mirror(p, ap, b, ab) && PrimaryOp(p, ap, OpCreate(pool, id, data))
    ensures var op := OpCreate(pool, id, data); var r := Replay(p, ap, op);
      && (r.Some? ==> Allowed(b, ab, r.value) && Issued(b, r.value) == Issued(p, op))
      && Mirror(StepS(p, op), StepA(p, ap, op), BackupS(p, ap, b, op), BackupA(p, ap, b, ab, op))
  {
    hide Inv, CellOk, FreeWord, Create, Declare, CanSupply, SameSeqs;
    NinePools(p, ap);
    NinePools(b, ab);
    if pool >= POOL_CNT {
      BadPool(p, pool, id, data);
    } else {
      CreateOk(p, ap, pool, id, data);
      var h := Create(p, pool, id, data).1.value;
      FreshOnBoth(p, ap, b, ab, h);
      DeclareIff(b, ab, h, id, data);
      MirrorSeqs(p, ap, b, ab, h, id, data, Create(p, pool, id, data).0, Declare(b, h, id, data).0);
    }
  }

  lemma FreshOnBoth(p: State, ap: Table, b: State, ab: Table, h: Hdl)
    requires Mirror(p, ap, b, ab) && Fresh(p, ap, h)
    ensures Fresh(b, ab, h)
  {
    hide Inv;
    assert h.at in ab <==> h.at in ab.Keys;
  }

  lemma MirrorSeqs(p: State, ap: Table, b: State, ab: Table, h: Hdl, id: nat, data: int, p': State, b': State)
    requires Mirror(p, ap, b, ab) && Fresh(p, ap, h) && Fresh(b, ab, h)
    requires var u := Use(h.seqId, id, data, 0, false); Inv(p', ap[h.at := u]) && Inv(b', ab[h.at := u])
    requires Grown(p, p', h.at) && Grown(b, b', h.at)
    requires forall x :: x in b'.cells ==> x in b.cells || (x.unit == h.at.unit && x.bank == h.at.bank)
    ensures SameSeqs(p', b')
      && SameBindings(ap[h.at := Use(h.seqId, id, data, 0, false)], ab[h.at := Use(h.seqId, id, data, 0, false)])
  {
    hide Inv, CellOk, FreeWord;
    var u := Use(h.seqId, id, data, 0, false);
    IssuedSeq(p', ap[h.at := u], h.at);
    IssuedSeq(b', ab[h.at := u], h.at);
    forall x | x in b'.cells
      ensures x in p'.cells && p'.cells[x].seqId == b'.cells[x].seqId
    {
      InTableOf(b', ab[h.at := u], x);
      FreeWordSeq(Hdl(1, x));
      if x !in b.cells {
        WholeBank(p', ap[h.at := u], h.at, x);
      }
    }
    forall x | x in p'.cells && x !in b'.cells
      ensures p'.cells[x].seqId == 1
    {
      FreeWordSeq(Hdl(1, x));
    }
  }

  // ---------- any run length ----------

  ghost function RunBackupS(ops: seq<Op>): State {
    if ops == [] then Init
    else BackupS(RunS(Init, ops[..|ops| - 1]), RunA(Init, map[], ops[..|ops| - 1]), RunBackupS(ops[..|ops| - 1]),
      ops[|ops| - 1])
  }

  ghost function RunBackupA(ops: seq<Op>): Table {
    if ops == [] then map[]
    else
      BackupA(RunS(Init, ops[..|ops| - 1]), RunA(Init, map[], ops[..|ops| - 1]),
              RunBackupS(ops[..|ops| - 1]), RunBackupA(ops[..|ops| - 1]), ops[|ops| - 1])
  }

  ghost predicate PrimaryRun(ops: seq<Op>) {
    ops != [] ==>
      PrimaryRun(ops[..|ops| - 1])
        && PrimaryOp(RunS(Init, ops[..|ops| - 1]), RunA(Init, map[], ops[..|ops| - 1]), ops[|ops| - 1])
  }

  /** Both sides start empty; after any run of the primary they hold the same handles for the same data. */
  lemma {:induction false} ReplayKeepsUp(ops: seq<Op>)
    requires PrimaryRun(ops)
    ensures Mirror(RunS(Init, ops), RunA(Init, map[], ops), RunBackupS(ops), RunBackupA(ops))
  {
    hide Inv, SameSeqs, PrimaryOp, StepS, StepA, BackupS, BackupA;
    if ops == [] {
      BothEmpty();
    } else {
      var front := ops[..|ops| - 1];
      ReplayKeepsUp(front);
      MirrorStep(RunS(Init, front), RunA(Init, map[], front), RunBackupS(front), RunBackupA(front), ops[|ops| - 1]);
    }
  }

  lemma BothEmpty()
    ensures Mirror(Init, map[], Init, map[])
  {
    InitOk();
  }
}
