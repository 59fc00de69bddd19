/**
  The RP timer list as a value: queued timers in list order, and what starting, stopping and
  expiring do to it.  The list is not sorted by deadline; what holds instead is proved here.
 */
module TimerSpec {

  datatype Entry<T> = Entry(tmr: T, trigAt: int, value: int) {
    function Deadline(): int { trigAt + value }
  }

  /** rp_tmr_time_left_in_sec. */
  function Left<T>(e: Entry<T>, now: int): int {
    if now - e.trigAt < e.value then e.value - (now - e.trigAt) else 0
  }

  lemma LeftMeans<T>(e: Entry<T>, now: int)
    ensures Left(e, now) == if e.Deadline() > now then e.Deadline() - now else 0
  {
  }

  /** The first node with at least this much time left, else the length of the list. */
  function FirstLonger<T>(list: seq<Entry<T>>, now: int, period: int): (k: nat)
    ensures k <= |list|
    ensures k < |list| ==> Left(list[k], now) >= period
    ensures forall i :: 0 <= i < k ==> Left(list[i], now) < period
  {
    if list == [] then 0
    else if Left(list[0], now) >= period then 0
    else 1 + FirstLonger(list[1..], now, period)
  }

  /** Where ncs_rp_tmr_start puts a timer: at the head, after the first longer node, or last. */
  function InsertAt<T>(list: seq<Entry<T>>, now: int, period: int): (k: nat)
    ensures k <= |list|
  {
    if list == [] || Left(list[0], now) > period then 0
    else
      var k := FirstLonger(list, now, period);
      if k < |list| then k + 1 else k
  }

  function Started<T>(list: seq<Entry<T>>, t: T, now: int, period: int): seq<Entry<T>> {
    var k := InsertAt(list, now, period);
    list[..k] + [Entry(t, now, period)] + list[k..]
  }

  /** How many nodes ncs_rp_tmr_exp takes off the front. */
  function Due<T>(list: seq<Entry<T>>, now: int): (k: nat)
    ensures k <= |list|
    ensures forall i :: 0 <= i < k ==> Left(list[i], now) == 0
    ensures k < |list| ==> Left(list[k], now) != 0
  {
    if list == [] || Left(list[0], now) != 0 then 0 else 1 + Due(list[1..], now)
  }

  /** The timers expiry fires are the longest prefix whose deadlines have passed, none of them early. */
  lemma DueIsLongestPrefix<T>(list: seq<Entry<T>>, now: int, k: nat)
    requires k <= |list|
    ensures k == Due(list, now) <==>
      (forall i :: 0 <= i < k ==> list[i].Deadline() <= now) && (k < |list| ==> list[k].Deadline() > now)
  {
    var d := Due(list, now);
    if d < |list| { LeftMeans(list[d], now); }
    forall i | 0 <= i < |list| ensures Left(list[i], now) == 0 <==>
      list[i].Deadline() <= now { LeftMeans(list[i], now); }
  }

  // ---------- how late a timer can be ----------

  /** The latest deadline among the first n nodes. */
  function Latest<T>(list: seq<Entry<T>>, n: nat): int
    requires 0 < n <= |list|
  {
    if n == 1 then list[0].Deadline()
    else if list[n - 1].Deadline() > Latest(list, n - 1) then list[n - 1].Deadline() else Latest(list, n - 1)
  }

  /** Latest is the least upper bound of those deadlines. */
  lemma {:induction false} LatestIff<T>(list: seq<Entry<T>>, n: nat, bound: int)
    requires 0 < n <= |list|
    ensures Latest(list, n) <= bound <==> forall i :: 0 <= i < n ==> list[i].Deadline() <= bound
  {
    if n > 1 {
      LatestIff(list, n - 1, bound);
    }
  }

  /** Where the timer at position i stands after another has been started. */
  function Shifted<T>(list: seq<Entry<T>>, now: int, period: int, i: nat): nat {
    if i < InsertAt(list, now, period) then i else i + 1
  }

  /** A node put in behind one with a later deadline does not count. */
  lemma InsertKeepsLatest<T>(list: seq<Entry<T>>, k: nat, e: Entry<T>, i: nat, z: nat)
    requires k <= |list| && i < |list| && z <= i && (i >= k ==> e.Deadline() <= list[z].Deadline())
    ensures var list' := list[..k] + [e] + list[k..]; var i' := if i < k then i else i + 1;
      list'[i'] == list[i] && Latest(list', i' + 1) == Latest(list, i + 1)
  {
    var list' := list[..k] + [e] + list[k..];
    var i' := if i < k then i else i + 1;
    var before, after := Latest(list, i + 1), Latest(list', i' + 1);
    LatestIff(list, i + 1, before);
    forall j | 0 <= j < i' + 1
      ensures list'[j].Deadline() <= before
    {
      assert list'[j] == if j < k then list[j] else if j == k then e else list[j - 1];
    }
    LatestIff(list', i' + 1, before);
    LatestIff(list', i' + 1, after);
    forall j | 0 <= j < i + 1
      ensures list[j].Deadline() <= after
    {
      assert list[j] == list'[if j < k then j else j + 1];
    }
    LatestIff(list, i + 1, after);
  }

  /** Starting another timer never moves a queued one's latest possible moment. */
  lemma StartNeverDelays<T>(list: seq<Entry<T>>, t: T, now: int, period: int, i: nat)
    requires i < |list| && period > 0
    ensures var list' := Started(list, t, now, period); var i' := Shifted(list, now, period, i);
      i' < |list'| && list'[i'] == list[i] && Latest(list', i' + 1) == Latest(list, i + 1)
  {
    var k := InsertAt(list, now, period);
    var z := if i < k || k == 0 then 0 else k - 1;
    LeftMeans(list[z], now);
    InsertKeepsLatest(list, k, Entry(t, now, period), i, z);
  }

  /** Taking any node out, wherever it stands, can only bring the others forward. */
  lemma StopNeverDelays<T>(list: seq<Entry<T>>, k: nat, i: nat)
    requires k < |list| && i < |list| && i != k
    ensures var list' := list[..k] + list[k + 1..]; var i' := if i < k then i else i - 1;
      list'[i'] == list[i] && Latest(list', i' + 1) <= Latest(list, i + 1)
  {
    var list' := list[..k] + list[k + 1..];
    var i' := if i < k then i else i - 1;
    LatestIff(list, i + 1, Latest(list, i + 1));
    forall j | 0 <= j < i' + 1
      ensures list'[j].Deadline() <= Latest(list, i + 1)
    {
      assert list'[j] == list[if j < k then j else j + 1];
    }
    LatestIff(list', i' + 1, Latest(list, i + 1));
  }

  /** An expiry at or after a timer's latest moment fires it. */
  lemma FiredByLatest<T>(list: seq<Entry<T>>, now: int, i: nat)
    requires i < |list| && now >= Latest(list, i + 1)
    ensures i < Due(list, now)
  {
    LatestIff(list, i + 1, now);
    var d := Due(list, now);
    if d <= i {
      LeftMeans(list[d], now);
    }
  }

  /** An expiry fires the prefix and brings the rest forward. */
  lemma ExpiryNeverDelays<T>(list: seq<Entry<T>>, now: int, i: nat)
    requires Due(list, now) <= i < |list|
    ensures var d := Due(list, now); list[d..][i - d] == list[i] && Latest(list[d..], i - d + 1) <= Latest(list, i + 1)
  {
    var d := Due(list, now);
    LatestIff(list, i + 1, Latest(list, i + 1));
    LatestIff(list[d..], i - d + 1, Latest(list, i + 1));
  }

  /** A new timer is due exactly at its deadline unless it lands behind a longer one. */
  lemma OnTimeIff<T>(list: seq<Entry<T>>, t: T, now: int, period: int)
    requires period > 0
    ensures var k := InsertAt(list, now, period); var list' := Started(list, t, now, period);
      Latest(list', k + 1) == now + period <==>
        (list == [] || Left(list[0], now) > period
         || var f := FirstLonger(list, now, period); f < |list| ==> Left(list[f], now) == period)
  {
    var k := InsertAt(list, now, period);
    var list' := Started(list, t, now, period);
    LatestIff(list', k + 1, now + period);
    LatestIff(list', k + 1, Latest(list', k + 1));
    assert list'[k] == Entry(t, now, period);
    assert forall j :: 0 <= j < k ==> list'[j] == list[j];
    forall j | 0 <= j < |list| ensures Left(list[j], now) == if list[j].Deadline() > now then list[j].Deadline() - now
      else 0 {
      LeftMeans(list[j], now);
    }
    if k > 0 {
      var f := FirstLonger(list, now, period);
      if f < |list| {
        assert list'[f] == list[f];
      }
    }
  }

  /** So the list is not in deadline order: 10, 20 and then 15 seconds leave 15 behind 20. */
  lemma NotSorted<T>(a: T, b: T, c: T)
    ensures var l := Started(Started(Started([], a, 0, 10), b, 0, 20), c, 0, 15);
      l == [Entry(a, 0, 10), Entry(b, 0, 20), Entry(c, 0, 15)]
  {
    var l1 := Started([], a, 0, 10);
    assert l1 == [Entry(a, 0, 10)];
    assert l1[1..] == [];
    assert FirstLonger(l1, 0, 20) == 1;
    var l2 := Started(l1, b, 0, 20);
    assert l2 == [Entry(a, 0, 10), Entry(b, 0, 20)];
    assert l2[1..] == [Entry(b, 0, 20)];
    assert FirstLonger(l2[1..], 0, 15) == 0;
    assert FirstLonger(l2, 0, 15) == 1;
  }
}
