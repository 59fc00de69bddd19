/** The intrusive queue: the link lives in the queued object. */
module Queue {

  class QElem<T> {
    var next: QElem?<T>
    const item: T

    constructor (item: T)
      ensures this.item == item && next == null
    {
      this.item := item;
      next := null;
    }
  }

  ghost predicate Injective<T>(s: seq<QElem<T>>) {
    forall i, j :: 0 <= i < j < |s| ==> s[i] != s[j]
  }

  ghost function NextOf<T>(s: seq<QElem<T>>, i: nat): QElem?<T> {
    if i + 1 < |s| then s[i + 1] else null
  }

  /** The first element that matches, else the length. */
  ghost function FirstMatch<T>(s: seq<QElem<T>>, match_: T -> bool): (k: nat)
    ensures k <= |s| && (k < |s| ==> match_(s[k].item))
    ensures forall i :: 0 <= i < k ==> !match_(s[i].item)
  {
    if s == [] || match_(s[0].item) then 0 else 1 + FirstMatch(s[1..], match_)
  }

  /** elems is the queue from its head to its tail. */
  class NcsQueue<T> {
    var count: nat
    var head: QElem?<T>
    var tail: QElem?<T>
    ghost var elems: seq<QElem<T>>

    ghost predicate Valid()
      reads this, elems
    {
      && count == |elems| && Injective(elems)
      && head == (if elems == [] then null else elems[0])
      && tail == (if elems == [] then null else elems[|elems| - 1])
      && forall i {:trigger elems[i].next} :: 0 <= i < |elems| ==> elems[i].next == NextOf(elems, i)
    }

    constructor ()
      ensures Valid() && elems == []
    {
      count, head, tail, elems := 0, null, null, [];
    }

    method Enqueue(q: QElem<T>)
      requires Valid() && q !in elems
      modifies this, elems, q
      ensures Valid() && elems == old(elems) + [q]
    {
      if tail != null {
        tail.next := q;
      } else {
        head := q;
      }
      count := count + 1;
      tail := q;
      q.next := null;
      elems := elems + [q];
    }

    method EnqueueHead(q: QElem<T>)
      requires Valid() && q !in elems
      modifies this, q
      ensures Valid() && elems == [q] + old(elems)
    {
      q.next := head;
      head := q;
      if tail == null { tail := q; }
      count := count + 1;
      elems := [q] + elems;
    }

    method Dequeue() returns (q: QElem?<T>)
      requires Valid()
      modifies this, elems
      ensures Valid()
      ensures
        if old(elems) == [] then q == null && elems == []
        else q == old(elems)[0] && elems == old(elems)[1..] && q.next == null
    {
      q := null;
      if count != 0 {
        count := count - 1;
        q := head;
        assert q.next == NextOf(elems, 0);
        head := q.next;
        if head == null { tail := null; }
        q.next := null;
        elems := elems[1..];
      }
    }

    /** The walk both searches make: the first match and the element before it. */
    method Walk(match_: T -> bool) returns (behind: QElem?<T>, front: QElem?<T>)
      requires Valid()
      ensures var k := FirstMatch(elems, match_);
        && front == (if k < |elems| then elems[k] else null)
        && (k < |elems| ==> behind == if k == 0 then null else elems[k - 1])
    {
      front, behind := head, null;
      ghost var k := 0;
      while front != null && !match_(front.item)
        invariant k <= |elems| && front == (if k < |elems| then elems[k] else null)
        invariant behind == if k == 0 then null else elems[k - 1]
        invariant forall i :: 0 <= i < k ==> !match_(elems[i].item)
        decreases |elems| - k
      {
        assert elems[k].next == NextOf(elems, k);
        behind := front;
        front := front.next;
        k := k + 1;
      }
    }

    method FindItem(match_: T -> bool) returns (q: QElem?<T>)
      requires Valid()
      ensures var k := FirstMatch(elems, match_); q == if k < |elems| then elems[k] else null
    {
      var behind;
      behind, q := Walk(match_);
    }

    /** Take the element at position k out behind its predecessor; a null predecessor is the queue head itself. */
    method Unlink(behind: QElem?<T>, front: QElem<T>, ghost k: nat)
      requires Valid() && k < |elems| && elems[k] == front && behind == if k == 0 then null else elems[k - 1]
      modifies this, elems
      ensures Valid() && elems == old(elems)[..k] + old(elems)[k + 1..]
      ensures front.next == NextOf(old(elems), k)
    {
      ghost var s := elems;
      assert front.next == NextOf(s, k);
      if behind == null { head := front.next; } else { behind.next := front.next; }
      count := count - 1;
      if count == 0 {
        tail := null;
      } else if front.next == null {
        tail := behind;
      }
      elems := s[..k] + s[k + 1..];
      forall i | 0 <= i < |elems|
        ensures elems[i].next == NextOf(elems, i)
      {
        if i < k { assert elems[i] == s[i]; } else { assert elems[i] == s[i + 1]; }
      }
    }

    /** Exactly the first match goes; the rest stay in order. */
    method RemoveItem(match_: T -> bool) returns (q: QElem?<T>)
      requires Valid()
      modifies this, elems
      ensures Valid()
      ensures var k := FirstMatch(old(elems), match_);
        if k < |old(elems)| then q == old(elems)[k] && elems == old(elems)[..k] + old(elems)[k + 1..]
        else q == null && elems == old(elems)
    {
      var behind;
      behind, q := Walk(match_);
      if q != null { Unlink(behind, q, FirstMatch(elems, match_)); }
    }
  }
}
