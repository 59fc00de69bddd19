/**
  The expiry loop with its callbacks.  The lock is released around each callback, so a callback may
  start and stop timers while the loop holds on to the next node.
 */
module TimerCallbacks {
  import opened TimerSpec
  import opened TimerRuns

  datatype Option<T> = None | Some(value: T)

  /** One callback call: for a timer taken off the list, or for one that was no longer on it. */
  datatype Fire<T> = Real(entry: Entry<T>) | Stray(tmr: T)

  function After<T>(list: seq<Entry<T>>, i: nat): Option<T> {
    if i + 1 < |list| then Some(list[i + 1].tmr) else None
  }

  /** The list once its node i has been taken off and the first callback has run. */
  function Settled<T(==)>(list: seq<Entry<T>>, i: nat, cbs: seq<seq<Event<T>>>): seq<Entry<T>>
    requires i < |list|
  {
    var rest := list[..i] + list[i + 1..];
    if cbs == [] then rest else Run(rest, cbs[0])
  }

  function Tail<X>(s: seq<X>): seq<X> {
    if s == [] then [] else s[1..]
  }

  /**
    The loop from the saved node.  An unqueued timer has null links and value 0: it counts as having no
    time left, and taking it off sets the list head to null.  Each callback's effect is one element of cbs.
   */
  function Expiry<T(==)>(list: seq<Entry<T>>, cur: Option<T>, now: int,
          cbs: seq<seq<Event<T>>>): (r: (seq<Fire<T>>, seq<Entry<T>>))
    decreases |cbs|, |list|, cur
  {
    if cur.None? then ([], list)
    else
      var i := IndexOf(list, cur.value);
      if i == |list| then ([Stray(cur.value)], if cbs == [] then [] else Run([], cbs[0]))
      else if Left(list[i], now) != 0 then ([], list)
      else
        var r := Expiry(Settled(list, i, cbs), After(list, i), now, Tail(cbs));
        ([Real(list[i])] + r.0, r.1)
  }

  function Front<T>(list: seq<Entry<T>>): Option<T> {
    if list == [] then None else Some(list[0].tmr)
  }

  function Reals<T>(list: seq<Entry<T>>): (r: seq<Fire<T>>)
    ensures |r| == |list| && forall i :: 0 <= i < |list| ==> r[i] == Real(list[i])
  {
    if list == [] then [] else [Real(list[0])] + Reals(list[1..])
  }

  lemma Turn<T>(list: seq<Entry<T>>, t: T, now: int, cbs: seq<seq<Event<T>>>, i: nat)
    requires i < |list| && IndexOf(list, t) == i && Left(list[i], now) == 0
    ensures var r := Expiry(Settled(list, i, cbs), After(list, i), now, Tail(cbs));
      Expiry(list, Some(t), now, cbs) == ([Real(list[i])] + r.0, r.1)
  {
  }

  lemma NoTurn<T>(list: seq<Entry<T>>, now: int)
    requires Due(list, now) == 0
    ensures Expiry(list, Front(list), now, []) == ([], list)
  {
  }

  lemma DueSplit<T>(list: seq<Entry<T>>, now: int)
    requires list != [] && Left(list[0], now) == 0
    ensures var d := Due(list[1..], now);
      Due(list, now) == 1 + d && list[1 + d..] == list[1..][d..]
        && Reals(list[..1 + d]) == [Real(list[0])] + Reals(list[1..][..d])
  {
    hide Reals;
  }

  /** With callbacks that leave the block alone, the loop fires exactly the due prefix, in order. */
  lemma {:induction false} PlainExpiry<T>(list: seq<Entry<T>>, now: int)
    requires Distinct(list)
    ensures Expiry(list, Front(list), now, []) == (Reals(list[..Due(list, now)]), list[Due(list, now)..])
  {
    hide Expiry, Reals, Due;
    if list != [] && Left(list[0], now) == 0 {
      var rest := list[1..];
      assert Settled(list, 0, []) == rest && After(list, 0) == Front(rest);
      Turn(list, list[0].tmr, now, [], 0);
      PlainExpiry(rest, now);
      DueSplit(list, now);
    } else {
      assert Due(list, now) == 0 && list[0..] == list && Reals(list[..0]) == [];
      NoTurn(list, now);
    }
  }

  /** No event stops u or runs a nested expiry. */
  ghost predicate Spares<T>(es: seq<Event<T>>, u: T) {
    forall i :: 0 <= i < |es| ==> !es[i].Expire? && es[i] != Stop(u)
  }

  lemma StillQueued<T>(list: seq<Entry<T>>, e: Event<T>, u: T)
    requires Queued(list, u) && !e.Expire? && e != Stop(u)
    ensures Queued(Apply(list, e), u)
  {
    var i, list' := IndexOf(list, u), Apply(list, e);
    match e
    case Start(t, now, period) =>
      if !Queued(list, t) && period != 0 { assert list'[Shifted(list, now, period, i)] == list[i]; }
    case Stop(t) =>
      var k := IndexOf(list, t);
      if k < |list| { assert list'[if i < k then i else i - 1] == list[i]; }
  }

  lemma {:induction false} RunSpares<T>(list: seq<Entry<T>>, es: seq<Event<T>>, u: T)
    requires Queued(list, u) && Spares(es, u)
    ensures Queued(Run(list, es), u)
  {
    if es != [] {
      RunSpares(list, es[..|es| - 1], u);
      StillQueued(Run(list, es[..|es| - 1]), es[|es| - 1], u);
    }
  }

  lemma RemovedSpares<T>(list: seq<Entry<T>>, i: nat, u: T)
    requires i < |list| && Queued(list, u) && list[i].tmr != u
    ensures Queued(list[..i] + list[i + 1..], u)
  {
    var j := IndexOf(list, u);
    assert (list[..i] + list[i + 1..])[if j < i then j else j - 1] == list[j];
  }

  ghost predicate AllSpare<T>(cbs: seq<seq<Event<T>>>, u: T) {
    forall k :: 0 <= k < |cbs| ==> Spares(cbs[k], u)
  }

  ghost predicate OnlyStarts<T>(cbs: seq<seq<Event<T>>>) {
    forall k :: 0 <= k < |cbs| ==> forall i :: 0 <= i < |cbs[k]| ==> cbs[k][i].Start?
  }

  lemma {:induction false} DistinctRun<T>(list: seq<Entry<T>>, es: seq<Event<T>>)
    requires Distinct(list)
    ensures Distinct(Run(list, es))
  {
    if es != [] {
      DistinctRun(list, es[..|es| - 1]);
      DistinctKept(Run(list, es[..|es| - 1]), es[|es| - 1]);
    }
  }

  /** Taking node i off and running a callback that spares u keeps u queued. */
  lemma SettledKeeps<T>(list: seq<Entry<T>>, i: nat, cbs: seq<seq<Event<T>>>, u: T)
    requires i < |list| && AllSpare(cbs, u) && Queued(list, u) && list[i].tmr != u
    ensures Queued(Settled(list, i, cbs), u)
  {
    RemovedSpares(list, i, u);
    if cbs != [] { RunSpares(list[..i] + list[i + 1..], cbs[0], u); }
  }

  lemma SettledDistinct<T>(list: seq<Entry<T>>, i: nat, cbs: seq<seq<Event<T>>>)
    requires i < |list| && Distinct(list)
    ensures Distinct(Settled(list, i, cbs))
  {
    if cbs != [] { DistinctRun(list[..i] + list[i + 1..], cbs[0]); }
  }

  /** Each callback leaves the timer behind the one it was called for in the list. */
  ghost predicate Steady<T>(list: seq<Entry<T>>, cur: Option<T>, now: int, cbs: seq<seq<Event<T>>>)
    decreases |cbs|, |list|, cur
  {
    cur.None? || (var i := IndexOf(list, cur.value);
                  i < |list| && (Left(list[i], now) != 0
                    || Steady(Settled(list, i, cbs), After(list, i), now, Tail(cbs))))
  }

  lemma {:induction false} StartsAreSteady<T>(list: seq<Entry<T>>, cur: Option<T>, now: int, cbs: seq<seq<Event<T>>>)
    requires Distinct(list) && OnlyStarts(cbs) && (cur.Some? ==> Queued(list, cur.value))
    ensures Steady(list, cur, now, cbs)
    decreases |cbs|, |list|
  {
    if cur.Some? && Left(list[IndexOf(list, cur.value)], now) == 0 {
      var i, next := IndexOf(list, cur.value), After(list, IndexOf(list, cur.value));
      SettledDistinct(list, i, cbs);
      if next.Some? {
        AtIndex(list, next.value, i + 1);
        SettledKeeps(list, i, cbs, next.value);
      }
      StartsAreSteady(Settled(list, i, cbs), next, now, Tail(cbs));
    }
  }

  /** Exactly then is every call for a timer on the list whose deadline has passed. */
  lemma {:induction false} NoneEarlyIff<T>(list: seq<Entry<T>>, cur: Option<T>, now: int, cbs: seq<seq<Event<T>>>)
    ensures Steady(list, cur, now, cbs) <==>
      forall f :: f in Expiry(list, cur, now, cbs).0 ==> f.Real? && f.entry.Deadline() <= now
    decreases |cbs|, |list|, cur
  {
    if cur.Some? {
      var i := IndexOf(list, cur.value);
      if i == |list| {
        assert Stray(cur.value) in Expiry(list, cur, now, cbs).0;
      } else if Left(list[i], now) == 0 {
        LeftMeans(list[i], now);
        Turn(list, cur.value, now, cbs, i);
        var next := After(list, i);
        NoneEarlyIff(Settled(list, i, cbs), next, now, Tail(cbs));
        OneMore(Real(list[i]), Expiry(Settled(list, i, cbs), next, now, Tail(cbs)).0, now);
      }
    }
  }

  lemma OneMore<T>(f: Fire<T>, fs: seq<Fire<T>>, now: int)
    requires f.Real? && f.entry.Deadline() <= now
    ensures (forall g :: g in [f] + fs ==> g.Real? && g.entry.Deadline() <= now) <==>
      (forall g :: g in fs ==> g.Real? && g.entry.Deadline() <= now)
  {
    forall g | g in fs ensures g in [f] + fs { }
  }

  ghost predicate Fired<T>(fs: seq<Fire<T>>, u: T) {
    exists k :: 0 <= k < |fs| && fs[k].Real? && fs[k].entry.tmr == u
  }

  /** And then no timer is lost: one that was queued and not stopped has been fired or is still queued. */
  lemma {:induction false} NoneLost<T>(list: seq<Entry<T>>, cur: Option<T>, now: int, cbs: seq<seq<Event<T>>>, u: T)
    requires Steady(list, cur, now, cbs) && AllSpare(cbs, u) && Queued(list, u)
    ensures Queued(Expiry(list, cur, now, cbs).1, u) || Fired(Expiry(list, cur, now, cbs).0, u)
    decreases |cbs|, |list|
  {
    if cur.Some? && Left(list[IndexOf(list, cur.value)], now) == 0 {
      var i, next := IndexOf(list, cur.value), After(list, IndexOf(list, cur.value));
      Turn(list, cur.value, now, cbs, i);
      hide Expiry;
      var fs := Expiry(list, cur, now, cbs).0;
      assert fs[0] == Real(list[i]);
      if list[i].tmr != u {
        SettledKeeps(list, i, cbs, u);
        var fs' := Expiry(Settled(list, i, cbs), next, now, Tail(cbs)).0;
        NoneLost(Settled(list, i, cbs), next, now, Tail(cbs), u);
        if k :| 0 <= k < |fs'| && fs'[k].Real? && fs'[k].entry.tmr == u { assert fs[k + 1] == fs'[k]; }
      }
    }
  }

  // ---------- callbacks that leave the loop its nodes ----------

  /** Timers are started at or after now and are among those kept, or stopped and are not; nothing else happens. */
  ghost predicate Gentle<T>(es: seq<Event<T>>, now: int, keep: set<T>) {
    forall i :: 0 <= i < |es| ==> match es[i]
      case Start(t, at, period) => at >= now && period >= 0 && t in keep
      case Stop(t) => t !in keep
      case Expire(_) => false
  }

  ghost predicate AllGentle<T>(cbs: seq<seq<Event<T>>>, now: int, keep: set<T>) {
    forall k :: 0 <= k < |cbs| ==> Gentle(cbs[k], now, keep)
  }

  /** The timers still to be fired come first, then one that is kept and not due. */
  ghost predicate Lined<T>(list: seq<Entry<T>>, due: seq<Entry<T>>, now: int, keep: set<T>) {
    && Distinct(list) && due <= list
    && (forall i :: 0 <= i < |due| ==> due[i].tmr in keep && due[i].Deadline() <= now)
    && (|due| < |list| ==> list[|due|].tmr in keep && list[|due|].Deadline() > now)
  }

  lemma StartBehindDue<T>(list: seq<Entry<T>>, due: seq<Entry<T>>, now: int, keep: set<T>, t: T, at: int, period: int)
    requires Lined(list, due, now, keep) && due != [] && at >= now && period > 0 && t in keep && !Queued(list, t)
    ensures Lined(Started(list, t, at, period), due, now, keep)
  {
    var k := InsertAt(list, at, period);
    InsertDistinct(list, k, Entry(t, at, period));
    forall i | 0 <= i < |due| ensures Left(list[i], at) == 0 { LeftMeans(due[i], at); }
    assert k >= |due| && (k == |due| ==> |list| == |due|);
    var list' := Started(list, t, at, period);
    assert list'[..|due|] == list[..|due|];
    assert list'[|due|] == if |due| < k then list[|due|] else Entry(t, at, period);
  }

  lemma StopBehindDue<T>(list: seq<Entry<T>>, due: seq<Entry<T>>, now: int, keep: set<T>, t: T)
    requires Lined(list, due, now, keep) && t !in keep
    ensures Lined(Apply(list, Stop(t)), due, now, keep)
  {
    var i := IndexOf(list, t);
    DistinctKept(list, Stop(t));
    if i < |list| {
      assert i > |due|;
      var list' := list[..i] + list[i + 1..];
      assert list'[..|due|] == list[..|due|] && list'[|due|] == list[|due|];
    }
  }

  lemma {:induction false} RunLined<T>(list: seq<Entry<T>>, due: seq<Entry<T>>, now: int, keep: set<T>,
          es: seq<Event<T>>)
    requires Lined(list, due, now, keep) && due != [] && Gentle(es, now, keep)
    ensures Lined(Run(list, es), due, now, keep)
  {
    hide Lined, Started;
    if es != [] {
      var front, e := es[..|es| - 1], es[|es| - 1];
      RunLined(list, due, now, keep, front);
      var mid := Run(list, front);
      match e
      case Start(t, at, period) => if !Queued(mid, t)
        && period != 0 { StartBehindDue(mid, due, now, keep, t, at, period); }
      case Stop(t) => StopBehindDue(mid, due, now, keep, t);
    }
  }

  /** A kept timer keeps its node, whatever a gentle callback does around it. */
  lemma {:induction false} RunKeepsNode<T>(list: seq<Entry<T>>, u: T, now: int, keep: set<T>, es: seq<Event<T>>)
    requires Distinct(list) && Queued(list, u) && u in keep && Gentle(es, now, keep)
    ensures Distinct(Run(list, es)) && Queued(Run(list, es), u)
      && Run(list, es)[IndexOf(Run(list, es), u)] == list[IndexOf(list, u)]
  {
    if es != [] {
      var front := es[..|es| - 1];
      RunKeepsNode(list, u, now, keep, front);
      NodeKept(Run(list, front), es[|es| - 1], u);
    }
  }

  lemma NodeKept<T>(list: seq<Entry<T>>, e: Event<T>, u: T)
    requires Distinct(list) && Queued(list, u) && !e.Expire? && e != Stop(u)
    ensures var list' := Apply(list, e);
      Distinct(list') && Queued(list', u) && list'[IndexOf(list', u)] == list[IndexOf(list, u)]
  {
    DistinctKept(list, e);
    var i, list' := IndexOf(list, u), Apply(list, e);
    match e
    case Start(t, now, period) =>
      if !Queued(list, t) && period != 0 {
        var j := Shifted(list, now, period, i);
        assert list'[j] == list[i];
        AtIndex(list', u, j);
      }
    case Stop(t) =>
      var k := IndexOf(list, t);
      if k < |list| {
        var j := if i < k then i else i - 1;
        assert list'[j] == list[i];
        AtIndex(list', u, j);
      }
  }

  lemma Stops<T>(list: seq<Entry<T>>, u: T, now: int, cbs: seq<seq<Event<T>>>)
    requires Queued(list, u) && list[IndexOf(list, u)].Deadline() > now
    ensures Expiry(list, Some(u), now, cbs) == ([], list)
  {
    LeftMeans(list[IndexOf(list, u)], now);
  }

  /** The last due timer: behind it the loop finds the node it saved, not due, or nothing. */
  lemma LastTurn<T>(list: seq<Entry<T>>, now: int, cbs: seq<seq<Event<T>>>, keep: set<T>)
    requires list != [] && Lined(list, list[..1], now, keep) && AllGentle(cbs, now, keep)
    ensures Expiry(list, Some(list[0].tmr), now, cbs).0 == [Real(list[0])]
  {
    hide Expiry;
    LeftMeans(list[..1][0], now);
    assert IndexOf(list, list[0].tmr) == 0;
    Turn(list, list[0].tmr, now, cbs, 0);
    var rest := list[1..];
    assert list[..0] + rest == rest;
    var next := After(list, 0);
    if next.Some? {
      var u := next.value;
      AtIndex(rest, u, 0);
      if cbs != [] { RunKeepsNode(rest, u, now, keep, cbs[0]); }
      Stops(Settled(list, 0, cbs), u, now, Tail(cbs));
    } else {
      Ended(Settled(list, 0, cbs), now, Tail(cbs));
    }
  }

  lemma Ended<T>(list: seq<Entry<T>>, now: int, cbs: seq<seq<Event<T>>>)
    ensures Expiry(list, None, now, cbs) == ([], list)
  {
  }

  lemma {:induction false} LinedExpiry<T>(list: seq<Entry<T>>, due: seq<Entry<T>>, now: int, cbs: seq<seq<Event<T>>>,
          keep: set<T>)
    requires Lined(list, due, now, keep) && due != [] && AllGentle(cbs, now, keep)
    ensures Expiry(list, Some(list[0].tmr), now, cbs).0 == Reals(due)
    decreases |due|
  {
    hide Expiry, Gentle;
    var rest, due' := list[1..], due[1..];
    assert list[0] == due[0];
    if due' == [] {
      assert due == list[..1];
      LastTurn(list, now, cbs, keep);
      assert Reals(due') == [];
    } else {
      LeftMeans(due[0], now);
      assert IndexOf(list, list[0].tmr) == 0;
      Turn(list, list[0].tmr, now, cbs, 0);
      assert list[..0] + rest == rest;
      assert Lined(rest, due', now, keep) by { TailLined(list, due, now, keep); }
      if cbs != [] { RunLined(rest, due', now, keep, cbs[0]); }
      var settled := Settled(list, 0, cbs);
      assert settled[0] == due'[0] && After(list, 0) == Some(due'[0].tmr);
      LinedExpiry(settled, due', now, Tail(cbs), keep);
    }
  }

  lemma TailLined<T>(list: seq<Entry<T>>, due: seq<Entry<T>>, now: int, keep: set<T>)
    requires Lined(list, due, now, keep) && due != []
    ensures Lined(list[1..], due[1..], now, keep)
  {
    assert list == due + list[|due|..];
    assert list[1..] == due[1..] + list[|due|..];
  }

  /**
    A condition on the list and the callbacks alone.  Let the due timers, the one behind them and whatever the
    callbacks start be kept from being stopped: then the loop is steady and fires exactly the due prefix, in order.
   */
  lemma GentleExpiry<T>(list: seq<Entry<T>>, now: int, cbs: seq<seq<Event<T>>>, keep: set<T>)
    requires Distinct(list) && AllGentle(cbs, now, keep)
    requires forall i :: 0 <= i <= Due(list, now) && i < |list| ==> list[i].tmr in keep
    ensures Expiry(list, Front(list), now, cbs).0 == Reals(list[..Due(list, now)])
    ensures Steady(list, Front(list), now, cbs)
  {
    hide Expiry, Steady, Gentle;
    var d := Due(list, now);
    DueIsLongestPrefix(list, now, d);
    if d > 0 {
      LinedExpiry(list, list[..d], now, cbs, keep);
    } else if list != [] {
      Stops(list, list[0].tmr, now, cbs);
      assert Reals(list[..d]) == [];
    } else {
      Ended(list, now, cbs);
    }
    NoneEarlyIff(list, Front(list), now, cbs);
  }

  /** The saved node must still be queued: otherwise its callback runs all the same and the list is dropped. */
  lemma NextMustStayQueued<T>(list: seq<Entry<T>>, t: T, now: int, u: T)
    requires !Queued(list, t)
    ensures Expiry(list, Some(t), now, []) == ([Stray(t)], [])
    ensures Queued(list, u) ==> !Queued(Expiry(list, Some(t), now, []).1, u)
  {
  }

  /** A callback that stops the next timer: that timer fires early and the one behind it is lost. */
  lemma StopInCallbackLoses<T>(a: T, b: T, c: T)
    requires a != b && b != c && a != c
    ensures var list := [Entry(a, 0, 1), Entry(b, 0, 5), Entry(c, 0, 9)];
      Expiry(list, Some(a), 1, [[Stop(b)]]) == ([Real(Entry(a, 0, 1)), Stray(b)], [])
  {
    var list := [Entry(a, 0, 1), Entry(b, 0, 5), Entry(c, 0, 9)];
    var rest := [Entry(b, 0, 5), Entry(c, 0, 9)];
    assert list[..0] + list[1..] == rest && IndexOf(rest, b) == 0 && rest[..0] + rest[1..] == [Entry(c, 0, 9)];
    var es: seq<Event<T>> := [Stop(b)];
    assert es[..0] == [] && Run(rest, es[..0]) == rest;
    assert Run(rest, es) == [Entry(c, 0, 9)];
    assert Settled(list, 0, [es]) == [Entry(c, 0, 9)];
    Turn(list, a, 1, [es], 0);
    assert Tail([es]) == [] && After(list, 0) == Some(b);
    NextMustStayQueued([Entry(c, 0, 9)], b, 1, c);
    assert Expiry(list, Some(a), 1, [es]).0 == [Real(Entry(a, 0, 1)), Stray(b)];
  }
}
