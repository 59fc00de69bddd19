/** Any sequence of starts, stops and expiries of one timer control block. */
module TimerRuns {
  import opened TimerSpec

  datatype Event<T> = Start(tmr: T, now: int, period: int) | Stop(tmr: T) | Expire(now: int)

  /** The position of a timer, else the length of the list. */
  function IndexOf<T(==)>(list: seq<Entry<T>>, t: T): (i: nat)
    ensures i <= |list|
    ensures i < |list| ==> list[i].tmr == t
    ensures forall j :: 0 <= j < i ==> list[j].tmr != t
  {
    if list == [] then 0 else if list[0].tmr == t then 0 else 1 + IndexOf(list[1..], t)
  }

  predicate Queued<T(==)>(list: seq<Entry<T>>, t: T) {
    IndexOf(list, t) < |list|
  }

  ghost predicate Distinct<T>(list: seq<Entry<T>>) {
    forall i, j :: 0 <= i < j < |list| ==> list[i].tmr != list[j].tmr
  }

  /** A timer that is already queued, or has no period, is not queued again. */
  function Apply<T(==)>(list: seq<Entry<T>>, e: Event<T>): seq<Entry<T>> {
    match e
    case Start(t, now, period) => if Queued(list, t) || period == 0 then list else Started(list, t, now, period)
    case Stop(t) => var i := IndexOf(list, t); if i < |list| then list[..i] + list[i + 1..] else list
    case Expire(now) => list[Due(list, now)..]
  }

  lemma AtIndex<T>(list: seq<Entry<T>>, t: T, i: nat)
    requires Distinct(list) && i < |list| && list[i].tmr == t
    ensures IndexOf(list, t) == i
  {
  }

  lemma DistinctKept<T>(list: seq<Entry<T>>, e: Event<T>)
    requires Distinct(list)
    ensures Distinct(Apply(list, e))
  {
    match e
    case Start(t, now, period) =>
      if !Queued(list, t) && period != 0 {
        InsertDistinct(list, InsertAt(list, now, period), Entry(t, now, period));
      }
    case Stop(t) =>
    case Expire(now) =>
  }

  lemma InsertDistinct<T>(list: seq<Entry<T>>, k: nat, e: Entry<T>)
    requires Distinct(list) && k <= |list| && !Queued(list, e.tmr)
    ensures Distinct(list[..k] + [e] + list[k..])
  {
    var list' := list[..k] + [e] + list[k..];
    assert forall i :: 0 <= i < |list'| ==> list'[i] == if i < k then list[i] else if i == k then e else list[i - 1];
  }

  /** The latest moment at which a queued timer can fire. */
  function LatestOf<T(==)>(list: seq<Entry<T>>, t: T): int
    requires Queued(list, t)
  {
    Latest(list, IndexOf(list, t) + 1)
  }

  /** No event ever puts that moment off. */
  lemma NeverDelayed<T>(list: seq<Entry<T>>, e: Event<T>, t: T)
    requires Distinct(list) && Queued(list, t) && (e.Start? ==> e.period >= 0)
    ensures Queued(Apply(list, e), t) ==> LatestOf(Apply(list, e), t) <= LatestOf(list, t)
    ensures !Queued(Apply(list, e), t) ==> e == Stop(t) || (e.Expire? && e.now >= list[IndexOf(list, t)].Deadline())
  {
    DistinctKept(list, e);
    match e
    case Start(u, now, period) => StartCase(list, u, now, period, t);
    case Stop(u) => if u != t { StopCase(list, u, t); }
    case Expire(now) => ExpireCase(list, now, t);
  }

  lemma StartCase<T>(list: seq<Entry<T>>, u: T, now: int, period: int, t: T)
    requires Distinct(list) && Queued(list, t) && period >= 0 && Distinct(Apply(list, Start(u, now, period)))
    ensures var list' := Apply(list, Start(u, now, period)); Queued(list', t) && LatestOf(list', t) == LatestOf(list, t)
  {
    if !Queued(list, u) && period != 0 {
      var i := IndexOf(list, t);
      StartNeverDelays(list, u, now, period, i);
      hide Started;
      AtIndex(Started(list, u, now, period), t, Shifted(list, now, period, i));
    }
  }

  lemma StopCase<T>(list: seq<Entry<T>>, u: T, t: T)
    requires Distinct(list) && Queued(list, t) && Distinct(Apply(list, Stop(u))) && u != t
    ensures var list' := Apply(list, Stop(u)); Queued(list', t) && LatestOf(list', t) <= LatestOf(list, t)
  {
    var i, k := IndexOf(list, t), IndexOf(list, u);
    if k < |list| {
      StopNeverDelays(list, k, i);
      AtIndex(list[..k] + list[k + 1..], t, if i < k then i else i - 1);
    }
  }

  lemma ExpireCase<T>(list: seq<Entry<T>>, now: int, t: T)
    requires Distinct(list) && Queued(list, t) && Distinct(list[Due(list, now)..])
    ensures var list' := list[Due(list, now)..];
      if Queued(list', t) then LatestOf(list', t) <= LatestOf(list, t) else now >= list[IndexOf(list, t)].Deadline()
  {
    var i, d := IndexOf(list, t), Due(list, now);
    if d <= i {
      ExpiryNeverDelays(list, now, i);
      AtIndex(list[d..], t, i - d);
    } else {
      GoneFromFront(list, d, t);
      LeftMeans(list[i], now);
    }
  }

  function Run<T(==)>(list: seq<Entry<T>>, es: seq<Event<T>>): seq<Entry<T>> {
    if es == [] then list else Apply(Run(list, es[..|es| - 1]), es[|es| - 1])
  }

  ghost predicate Proper<T>(es: seq<Event<T>>, t: T) {
    forall i :: 0 <= i < |es| ==> es[i] != Stop(t) && (es[i].Start? ==> es[i].period >= 0 && es[i].tmr != t)
  }

  /** Over any run that does not stop it, a queued timer's latest moment only comes closer. */
  lemma {:induction false} BoundHolds<T>(list: seq<Entry<T>>, es: seq<Event<T>>, t: T)
    requires Distinct(list) && Queued(list, t) && Proper(es, t)
    ensures Distinct(Run(list, es))
    ensures Queued(Run(list, es), t) ==> LatestOf(Run(list, es), t) <= LatestOf(list, t)
  {
    if es != [] {
      var front := es[..|es| - 1];
      var last := es[|es| - 1];
      BoundHolds(list, front, t);
      var mid := Run(list, front);
      DistinctKept(mid, last);
      if Queued(mid, t) {
        NeverDelayed(mid, last, t);
      } else {
        StaysOut(mid, last, t);
      }
    }
  }

  lemma GoneFromFront<T>(list: seq<Entry<T>>, d: nat, t: T)
    requires Distinct(list) && d <= |list| && (Queued(list, t) ==> IndexOf(list, t) < d)
    ensures !Queued(list[d..], t)
  {
    var j := IndexOf(list[d..], t);
    if j < |list[d..]| {
      AtIndex(list, t, j + d);
    }
  }

  lemma StaysOut<T>(list: seq<Entry<T>>, e: Event<T>, t: T)
    requires !Queued(list, t) && (e.Start? ==> e.tmr != t)
    ensures !Queued(Apply(list, e), t)
  {
    var list' := Apply(list, e);
    if e.Start? && !Queued(list, e.tmr) && e.period != 0 {
      var k := InsertAt(list, e.now, e.period);
      assert forall i :: 0 <= i < |list'| ==>
        list'[i] == if i < k then list[i] else if i == k then Entry(e.tmr, e.now, e.period) else list[i - 1];
    }
  }

  /**
    Whatever else is started, stopped or expires meanwhile, a queued timer that nobody stops has
    fired once an expiry comes at or after the latest moment it had when the run began.
   */
  lemma FiresInTime<T>(list: seq<Entry<T>>, es: seq<Event<T>>, t: T, now: int)
    requires Distinct(list) && Queued(list, t) && Proper(es, t) && now >= LatestOf(list, t)
    ensures !Queued(Run(list, es + [Expire(now)]), t)
  {
    var all := es + [Expire(now)];
    assert all[..|all| - 1] == es;
    BoundHolds(list, es, t);
    var mid := Run(list, es);
    if Queued(mid, t) {
      FiredByLatest(mid, now, IndexOf(mid, t));
    }
    GoneFromFront(mid, Due(mid, now), t);
  }
}
