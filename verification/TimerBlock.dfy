/** The timer control block: a doubly linked list of timers driving a single OS timer. */
module TimerBlock {
  import opened TimerSpec
  import opened TimerRuns

  /** NCS_RP_TMR_INFO. */
  class TmrInfo {
    var pnext: TmrInfo?
    var pprev: TmrInfo?
    var tmrValue: int
    var trigAt: int

    /** ncs_rp_tmr_create: all fields zero. */
    constructor ()
      ensures pnext == null && pprev == null && tmrValue == 0
    {
      pnext, pprev, tmrValue, trigAt := null, null, 0, 0;
    }
  }

  /** The entry a queued timer contributes to the list. */
  function EntryOf(t: TmrInfo): Entry<TmrInfo>
    reads t
  {
    Entry(t, t.trigAt, t.tmrValue)
  }

  ghost function EntriesOf(s: seq<TmrInfo>): (r: seq<Entry<TmrInfo>>)
    reads s
    ensures |r| == |s| && forall i :: 0 <= i < |s| ==> r[i] == EntryOf(s[i])
  {
    seq(|s|, i requires 0 <= i < |s| reads s => EntryOf(s[i]))
  }

  ghost function NextOf(s: seq<TmrInfo>, i: nat): TmrInfo? {
    if i + 1 < |s| then s[i + 1] else null
  }

  ghost function PrevOf(s: seq<TmrInfo>, i: nat): TmrInfo?
    requires i < |s|
  {
    if i > 0 then s[i - 1] else null
  }

  ghost predicate Injective(s: seq<TmrInfo>) {
    forall i, j :: 0 <= i < j < |s| ==> s[i] != s[j]
  }

  /** s' is s with t put in at position k. */
  ghost predicate PutIn(s: seq<TmrInfo>, s': seq<TmrInfo>, t: TmrInfo, k: nat) {
    && k <= |s| && |s'| == |s| + 1 && s'[k] == t
    && (forall i :: 0 <= i < k ==> s'[i] == s[i])
    && (forall i :: k < i < |s'| ==> s'[i] == s[i - 1])
    && (forall x :: x in s' ==> x in s || x == t) && (forall x :: x in s ==> x in s' && x != t)
    && Injective(s')
  }

  lemma PutInSlices(s: seq<TmrInfo>, t: TmrInfo, k: nat)
    requires Injective(s) && t !in s && k <= |s|
    ensures PutIn(s, s[..k] + [t] + s[k..], t, k)
  {
    var s' := s[..k] + [t] + s[k..];
    forall x | x in s ensures x in s' {
      var j :| 0 <= j < |s| && s[j] == x;
      assert s'[if j < k then j else j + 1] == x;
    }
    assert s'[k] == t;
  }

  lemma HeadOff<X>(s: seq<X>)
    requires s != []
    ensures s == [s[0]] + (s[..0] + s[1..])
  {
  }

  lemma AtFront<X>(t: X, s: seq<X>)
    ensures [t] + s == s[..0] + [t] + s[0..]
  {
  }

  /** s' is s without its element k. */
  ghost predicate TakenOut(s: seq<TmrInfo>, s': seq<TmrInfo>, k: nat) {
    && k < |s| && |s'| == |s| - 1
    && (forall i :: 0 <= i < k ==> s'[i] == s[i])
    && (forall i :: k <= i < |s'| ==> s'[i] == s[i + 1])
    && (forall x :: x in s' ==> x in s && x != s[k]) && (forall x :: x in s && x != s[k] ==> x in s')
    && Injective(s')
  }

  lemma TakenOutSlices(s: seq<TmrInfo>, k: nat)
    requires Injective(s) && k < |s|
    ensures TakenOut(s, s[..k] + s[k + 1..], k)
  {
    var s' := s[..k] + s[k + 1..];
    forall x | x in s && x != s[k] ensures x in s' {
      var j :| 0 <= j < |s| && s[j] == x;
      assert s'[if j < k then j else j - 1] == x;
    }
  }

  /** NCS_RP_TMR_CB; osWhen is the moment the OS timer is set for, armedAt the clock when it was set. */
  class TmrCb {
    var startList: TmrInfo?
    var active: bool
    var osWhen: int
    ghost var armedAt: int
    ghost var nodes: seq<TmrInfo>
    ghost var all: set<TmrInfo>

    /** The list is well formed in both directions, and timers outside it carry no links. */
    ghost predicate Linked()
      reads this`startList, this`nodes, this`all, all
    {
      && (forall i :: 0 <= i < |nodes| ==> nodes[i] in all)
      && Injective(nodes)
      && startList == (if nodes == [] then null else nodes[0])
      && (forall i {:trigger nodes[i].pnext} :: 0 <= i < |nodes| ==> nodes[i].pnext == NextOf(nodes, i))
      && (forall i {:trigger nodes[i].pprev} :: 0 <= i < |nodes| ==> nodes[i].pprev == PrevOf(nodes, i))
      && (forall t :: t in all && t !in nodes ==> t.pnext == null && t.pprev == null)
    }

    /** A timer is queued exactly when its value is non-zero. */
    ghost predicate Marked()
      reads this`nodes, this`all, all
    {
      forall t :: t in all ==> (t in nodes <==> t.tmrValue != 0)
    }

    /**
      Between calls the OS timer runs exactly when the list is non-empty, set for the head's deadline or, if that had
      passed, at once.
     */
    ghost predicate Armed()
      reads this, all
    {
      && (active <==> nodes != [])
      && (nodes != [] && nodes[0] in all ==>
        var deadline := nodes[0].trigAt + nodes[0].tmrValue;
          osWhen == deadline || (deadline < armedAt && osWhen == armedAt))
    }

    ghost predicate Valid()
      reads this, all
    {
      Linked() && Marked() && Armed()
    }

    ghost function View(): seq<Entry<TmrInfo>>
      reads this`nodes, nodes
    {
      EntriesOf(nodes)
    }

    /** ncs_rp_tmr_init. */
    constructor ()
      ensures Valid() && View() == [] && all == {}
    {
      startList, active, osWhen := null, false, 0;
      armedAt, nodes, all := 0, [], {};
    }

    /** Make a new timer known to this block. */
    method Adopt(t: TmrInfo)
      requires Valid() && t !in all && t.pnext == null && t.pprev == null && t.tmrValue == 0
      modifies this`all
      ensures Valid() && all == old(all) + {t} && View() == old(View())
    {
      all := all + {t};
    }

    /** Put t in front of the list. */
    method LinkFirst(t: TmrInfo)
      requires Linked() && t in all && t !in nodes
      modifies this`startList, this`nodes, all`pnext, all`pprev
      ensures Linked() && nodes == [t] + old(nodes)
    {
      if startList != null {
        t.pnext := startList;
        startList.pprev := t;
      }
      startList := t;
      nodes := [t] + nodes;
    }

    /** Put t behind p. */
    method LinkAfter(p: TmrInfo, t: TmrInfo, ghost k: nat)
      requires Linked() && t in all && t !in nodes && k < |nodes| && nodes[k] == p
      modifies this`nodes, all`pnext, all`pprev
      ensures Linked() && nodes == old(nodes[..k + 1]) + [t] + old(nodes[k + 1..])
    {
      hide PutIn;
      ghost var s := nodes;
      assert p.pnext == NextOf(s, k) && t.pnext == null && t.pprev == null;
      if p.pnext != null {
        assert p.pnext == s[k + 1] && s[k + 1] in all;
        p.pnext.pprev := t;
        t.pnext := p.pnext;
      }
      p.pnext := t;
      t.pprev := p;
      nodes := nodes[..k + 1] + [t] + nodes[k + 1..];
      assert t.pnext == NextOf(s, k);
      forall j | 0 <= j < |s|
        ensures s[j].pnext == if j == k then t else NextOf(s, j)
        ensures s[j].pprev == if j == k + 1 then t else PrevOf(s, j)
      {
        assert old(s[j].pnext) == NextOf(s, j) && old(s[j].pprev) == PrevOf(s, j);
      }
      PutInSlices(s, t, k + 1);
      AfterShape(s, t, k);
    }

    lemma AfterShape(s: seq<TmrInfo>, t: TmrInfo, k: nat)
      requires k < |s| && t in all && PutIn(s, nodes, t, k + 1) && startList == s[0]
      requires forall i :: 0 <= i < |s| ==> s[i] in all
      requires forall j {:trigger s[j].pnext} :: 0 <= j < |s| ==> s[j].pnext == if j == k then t else NextOf(s, j)
      requires forall j {:trigger s[j].pprev} :: 0 <= j < |s| ==> s[j].pprev == if j == k + 1 then t else PrevOf(s, j)
      requires t.pnext == NextOf(s, k) && t.pprev == s[k]
      requires forall x :: x in all && x !in s && x != t ==> x.pnext == null && x.pprev == null
      ensures Linked()
    {
      forall i | 0 <= i < |nodes|
        ensures nodes[i].pnext == NextOf(nodes, i) && nodes[i].pprev == PrevOf(nodes, i)
      {
        if i <= k { assert nodes[i] == s[i]; } else if i > k + 1 { assert nodes[i] == s[i - 1]; }
      }
    }

    /** The pointer part of taking a timer out. */
    method Detach(t: TmrInfo, ghost k: nat)
      requires Linked() && k < |nodes| && nodes[k] == t
      modifies this`startList, all`pnext, all`pprev
      ensures startList == if k == 0 then NextOf(nodes, 0) else old(startList)
      ensures forall j {:trigger nodes[j].pnext} :: 0 <= j < |nodes| && j != k ==>
        nodes[j].pnext == if j == k - 1 then NextOf(nodes, k) else NextOf(nodes, j)
      ensures forall j {:trigger nodes[j].pprev} :: 0 <= j < |nodes| && j != k ==>
        nodes[j].pprev == if j == k + 1 then PrevOf(nodes, k) else PrevOf(nodes, j)
      ensures t.pnext == null && t.pprev == null
      ensures forall x :: x in all && x !in nodes ==> x.pnext == null && x.pprev == null
    {
      assert t.pnext == NextOf(nodes, k) && t.pprev == PrevOf(nodes, k);
      if t.pprev == null {
        startList := t.pnext;
      } else {
        assert t.pprev == nodes[k - 1] && nodes[k - 1] in all;
        t.pprev.pnext := t.pnext;
      }
      if t.pnext != null {
        assert t.pnext == nodes[k + 1] && nodes[k + 1] in all;
        t.pnext.pprev := t.pprev;
      }
      t.pnext := null;
      t.pprev := null;
    }

    /** Take the timer at position k out of the list. */
    method Unlink(t: TmrInfo, ghost k: nat)
      requires Linked() && k < |nodes| && nodes[k] == t
      modifies this`startList, this`nodes, all`pnext, all`pprev
      ensures Linked() && nodes == old(nodes[..k] + nodes[k + 1..])
    {
      ghost var s := nodes;
      Detach(t, k);
      nodes := s[..k] + s[k + 1..];
      TakenOutSlices(s, k);
      WithoutShape(s, t, k);
    }

    lemma WithoutShape(s: seq<TmrInfo>, t: TmrInfo, k: nat)
      requires TakenOut(s, nodes, k) && s[k] == t
      requires startList == if k == 0 then NextOf(s, 0) else s[0]
      requires forall i :: 0 <= i < |s| ==> s[i] in all
      requires forall j {:trigger s[j].pnext} :: 0 <= j < |s| && j != k ==>
        s[j].pnext == if j == k - 1 then NextOf(s, k) else NextOf(s, j)
      requires forall j {:trigger s[j].pprev} :: 0 <= j < |s| && j != k ==>
        s[j].pprev == if j == k + 1 then PrevOf(s, k) else PrevOf(s, j)
      requires t.pnext == null && t.pprev == null
      requires forall x :: x in all && x !in s ==> x.pnext == null && x.pprev == null
      ensures Linked()
    {
      forall i | 0 <= i < |nodes|
        ensures nodes[i].pnext == NextOf(nodes, i) && nodes[i].pprev == PrevOf(nodes, i)
      {
        if i < k { assert nodes[i] == s[i]; } else { assert nodes[i] == s[i + 1]; }
      }
    }

    lemma QueuedIff(t: TmrInfo)
      ensures Queued(View(), t) <==> t in nodes
    {
      if t in nodes {
        var i :| 0 <= i < |nodes| && nodes[i] == t;
        assert View()[i].tmr == t;
      }
    }

    /** m_NCS_TMR_START. */
    method Arm(now: int, left: int)
      modifies this`active, this`osWhen, this`armedAt
      ensures active && osWhen == now + left && armedAt == now
    {
      active, osWhen := true, now + left;
      armedAt := now;
    }

    /** Stop the OS timer and, if a timer is left, set it for the time that one has left. */
    method Rearm(now: int)
      requires Linked()
      modifies this`active, this`osWhen, this`armedAt
      ensures Armed()
    {
      active := false;
      if startList != null {
        LeftMeans(EntryOf(startList), now);
        Arm(now, Left(EntryOf(startList), now));
      }
    }

    /** The walk along the list for a timer that does not go first. */
    method FindPlace(now: int, period: int) returns (p: TmrInfo, ghost k: nat)
      requires Linked() && nodes != []
      ensures k < |nodes| && nodes[k] == p
      ensures k == var f := FirstLonger(View(), now, period); if f < |nodes| then f else f - 1
    {
      var cur := startList;
      p := startList;
      k := 0;
      while cur != null && Left(EntryOf(cur), now) < period
        invariant k <= |nodes| && cur == (if k < |nodes| then nodes[k] else null)
        invariant p == if k > 0 then nodes[k - 1] else nodes[0]
        invariant forall i :: 0 <= i < k ==> Left(View()[i], now) < period
        decreases |nodes| - k
      {
        p := cur;
        assert nodes[k].pnext == NextOf(nodes, k) && View()[k] == EntryOf(cur);
        cur := cur.pnext;
        k := k + 1;
      }
      ghost var f := FirstLonger(View(), now, period);
      if cur != null {
        p := cur;
        assert View()[k] == EntryOf(cur);
        assert f == k;
      } else {
        assert f == |nodes|;
        k := k - 1;
      }
    }

    method EnqueueFirst(t: TmrInfo, now: int, period: int)
      requires Linked() && t in all && t !in nodes && EntryOf(t) == Entry(t, now, period)
      modifies this`startList, this`nodes, this`active, this`osWhen, this`armedAt, all`pnext, all`pprev
      ensures Linked() && Armed() && nodes == [t] + old(nodes)
    {
      hide Linked;
      LinkFirst(t);
      Arm(now, period);
    }

    method EnqueueBehind(t: TmrInfo, now: int, period: int)
      requires Linked() && Armed() && t in all && t !in nodes && nodes != []
      modifies this`nodes, all`pnext, all`pprev
      ensures Linked() && Armed()
      ensures var f := FirstLonger(old(View()), now, period); var m := if f < |old(nodes)| then f + 1 else f;
        nodes == old(nodes)[..m] + [t] + old(nodes)[m..]
    {
      hide Linked, View;
      var p, k := FindPlace(now, period);
      LinkAfter(p, t, k);
    }

    /** The three places ncs_rp_tmr_start can put a timer. */
    method Enqueue(t: TmrInfo, now: int, period: int)
      requires Linked() && Armed() && t in all && t !in nodes && EntryOf(t) == Entry(t, now, period)
      modifies this`startList, this`nodes, this`active, this`osWhen, this`armedAt, all`pnext, all`pprev
      ensures Linked() && Armed()
      ensures var m := InsertAt(old(View()), now, period); nodes == old(nodes)[..m] + [t] + old(nodes)[m..]
    {
      hide Linked, Armed;
      StartsAt();
      AtFront(t, nodes);
      if startList == null {
        EnqueueFirst(t, now, period);
      } else {
        assert View()[0] == EntryOf(startList);
        if Left(EntryOf(startList), now) > period {
          EnqueueFirst(t, now, period);
        } else {
          EnqueueBehind(t, now, period);
        }
      }
    }

    /** Give t its period and queue it. */
    method Queue(t: TmrInfo, now: int, period: int)
      requires Valid() && t in all && t !in nodes && period != 0
      modifies this`startList, this`nodes, this`active, this`osWhen, this`armedAt, all
      ensures Valid() && View() == Started(old(View()), t, now, period)
    {
      ghost var before, list := nodes, View();
      t.tmrValue := period;
      t.trigAt := now;
      assert View() == list;
      Enqueue(t, now, period);
      hide Linked, Armed;
      PutInSlices(before, t, InsertAt(list, now, period));
      StartedView(before, list, t, now, period);
    }

    lemma StartedView(before: seq<TmrInfo>, list: seq<Entry<TmrInfo>>, t: TmrInfo, now: int, period: int)
      requires |list| == |before| && (forall i :: 0 <= i < |before| ==> list[i] == EntryOf(before[i]))
      requires PutIn(before, nodes, t, InsertAt(list, now, period))
      requires EntryOf(t) == Entry(t, now, period)
      ensures View() == Started(list, t, now, period)
    {
    }

    /** The test both start and stop make on the timer itself. */
    lemma StartedIff(t: TmrInfo)
      requires Valid() && t in all
      ensures Queued(View(), t) <==> t.pnext != null || t.pprev != null || t.tmrValue != 0
    {
      QueuedIff(t);
    }

    /** ncs_rp_tmr_start; fired tells that a zero period ran the callback on the spot. */
    method Start(t: TmrInfo?, now: int, period: int, hasCallback: bool) returns (fired: bool)
      requires Valid() && (t != null ==> t in all)
      modifies this`startList, this`nodes, this`active, this`osWhen, this`armedAt, all
      ensures Valid()
      ensures fired <==> t != null && period == 0 && hasCallback
      ensures View() == if t == null then old(View()) else Apply(old(View()), TimerRuns.Start(t, now, period))
    {
      hide Valid;
      fired := false;
      if t == null { return; }
      StartedIff(t);
      if period == 0 { return hasCallback; }
      if t.pnext != null || t.pprev != null || t.tmrValue != 0 { return; }
      QueuedIff(t);
      Queue(t, now, period);
    }

    lemma ViewWithout(before: seq<TmrInfo>, list: seq<Entry<TmrInfo>>, k: nat)
      requires |list| == |before| && TakenOut(before, nodes, k)
      requires forall i :: 0 <= i < |before| && i != k ==> list[i] == EntryOf(before[i])
      ensures View() == list[..k] + list[k + 1..]
    {
    }

    /** Take the timer at position k out and mark it idle. */
    method Dequeue(t: TmrInfo, ghost k: nat)
      requires Linked() && Marked() && k < |nodes| && nodes[k] == t
      modifies this`startList, this`nodes, all
      ensures Linked() && Marked() && nodes == old(nodes[..k] + nodes[k + 1..])
      ensures View() == old(View())[..k] + old(View())[k + 1..]
      ensures k > 0 ==> nodes[0] == old(nodes)[0] && EntryOf(nodes[0]) == old(EntryOf(nodes[0]))
    {
      ghost var before, list := nodes, View();
      Known(k);
      hide Linked;
      TakenOutSlices(before, k);
      Unlink(t, k);
      MarkIdle(t);
      ViewWithout(before, list, k);
    }

    lemma Known(k: nat)
      requires Linked() && k < |nodes|
      ensures nodes[k] in all && Injective(nodes)
    {
    }

    method MarkIdle(t: TmrInfo)
      requires Linked() && t in all
      modifies t`tmrValue
      ensures Linked() && t.tmrValue == 0
    {
      t.tmrValue := 0;
    }

    /** Taking the first timer out sets the OS timer for the next one. */
    method TakeOut(t: TmrInfo, now: int, ghost k: nat)
      requires Valid() && k < |nodes| && nodes[k] == t
      modifies this`startList, this`nodes, this`active, this`osWhen, this`armedAt, all
      ensures Valid() && View() == old(View())[..k] + old(View())[k + 1..]
    {
      Before(k);
      hide Linked, Marked, View;
      var first := t.pprev == null;
      Dequeue(t, k);
      if first { Rearm(now); }
    }

    lemma Before(k: nat)
      requires Linked() && k < |nodes|
      ensures nodes[k].pprev == PrevOf(nodes, k)
    {
    }

    lemma Place(t: TmrInfo)
      requires t in nodes
      ensures var k := IndexOf(View(), t); k < |nodes| && nodes[k] == t
    {
      QueuedIff(t);
      var k := IndexOf(View(), t);
      assert View()[k] == EntryOf(nodes[k]);
    }

    /** ncs_rp_tmr_stop: refused for a timer that is not queued. */
    method Stop(t: TmrInfo?, now: int) returns (ok: bool)
      requires Valid() && (t != null ==> t in all)
      modifies this`startList, this`nodes, this`active, this`osWhen, this`armedAt, all
      ensures Valid()
      ensures ok <==> t != null && old(Queued(View(), t))
      ensures View() == if t == null then old(View()) else Apply(old(View()), TimerRuns.Stop(t))
    {
      hide Valid, View;
      if t == null { return false; }
      StartedIff(t);
      if t.pnext == null && t.pprev == null && t.tmrValue == 0 { return false; }
      QueuedIff(t);
      Place(t);
      TakeOut(t, now, IndexOf(View(), t));
      return true;
    }

    lemma StartsAt()
      requires Linked()
      ensures startList == if nodes == [] then null else nodes[0]
    {
    }

    /** One turn of the expiry loop. */
    method Pop(t: TmrInfo)
      requires Linked() && Marked() && startList == t
      modifies this`startList, this`nodes, all
      ensures Linked() && Marked() && old(nodes) == [t] + nodes && old(View()) == [old(EntryOf(t))] + View()
    {
      hide Linked, Marked;
      StartsAt();
      assert View()[0] == EntryOf(t);
      HeadOff(nodes);
      HeadOff(View());
      Dequeue(t, 0);
    }

    /** The expiry loop. */
    method FireDue(now: int) returns (fired: seq<TmrInfo>)
      requires Linked() && Marked()
      modifies this`startList, this`nodes, all
      ensures Linked() && Marked()
      ensures var d := Due(old(View()), now); View() == old(View())[d..] && fired == old(nodes)[..d]
    {
      hide Linked, Marked, View;
      fired := [];
      ghost var before, list := nodes, View();
      ghost var gone: seq<Entry<TmrInfo>> := [];
      StartsAt();
      while startList != null && Left(EntryOf(startList), now) == 0
        invariant Linked() && Marked()
        invariant before == fired + nodes && list == gone + View() && |gone| == |fired|
        invariant forall e :: e in gone ==> Left(e, now) == 0
        decreases |nodes|
      {
        gone := gone + [EntryOf(startList)];
        fired := fired + [startList];
        Pop(startList);
      }
      StartsAt();
      FrontGone(list, gone, now);
    }

    lemma FrontGone(list: seq<Entry<TmrInfo>>, gone: seq<Entry<TmrInfo>>, now: int)
      requires Linked() && list == gone + View() && (forall e :: e in gone ==> Left(e, now) == 0)
      requires startList != null ==> Left(EntryOf(startList), now) != 0
      ensures Due(list, now) == |gone| && View() == list[|gone|..]
    {
      var d := Due(list, now);
      if nodes != [] { assert list[|gone|] == EntryOf(startList); }
    }

    /** ncs_rp_tmr_exp: take off the front every timer with no time left and set the OS timer for the next one. */
    method Exp(now: int) returns (ok: bool, fired: seq<TmrInfo>)
      requires Valid()
      modifies this`startList, this`nodes, this`active, this`osWhen, this`armedAt, all
      ensures Valid()
      ensures ok <==> old(View()) != []
      ensures View() == Apply(old(View()), Expire(now))
      ensures fired == old(nodes)[..Due(old(View()), now)]
    {
      if startList == null { return false, []; }
      hide Linked, Marked;
      StartsAt();
      fired := FireDue(now);
      Rearm(now);
      return true, fired;
    }
  }
}
