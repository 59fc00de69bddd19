/** The set of structured elements: ordered by identifier, one element for each. */
module LogElements {
  import opened LogText

  /** The order of std::string. */
  predicate Less(a: string, b: string) {
    b != "" && (a == "" || a[0] < b[0] || (a[0] == b[0] && Less(a[1..], b[1..])))
  }

  lemma {:induction false} LessTotal(a: string, b: string)
    ensures Less(a, b) || Less(b, a) || a == b
    ensures !(Less(a, b) && Less(b, a)) && !Less(a, a)
  {
    if a != "" && b != "" {
      LessTotal(a[1..], b[1..]);
      if a[0] == b[0] && a[1..] == b[1..] { assert a == [a[0]] + a[1..] && b == [b[0]] + b[1..]; }
    }
    if a != "" { LessTotal(a[1..], a[1..]); }
  }

  lemma {:induction false} LessTransitive(a: string, b: string, c: string)
    requires Less(a, b) && Less(b, c)
    ensures Less(a, c)
  {
    if a != "" && a[0] == b[0] == c[0] { LessTransitive(a[1..], b[1..], c[1..]); }
  }

  ghost predicate Ordered(es: seq<Element>) {
    forall i, j :: 0 <= i < j < |es| ==> Less(es[i].id, es[j].id)
  }

  ghost predicate HasId(es: seq<Element>, id: string) {
    exists i :: 0 <= i < |es| && es[i].id == id
  }

  /** std::set::insert: an identifier already there keeps its element. */
  function Insert(es: seq<Element>, e: Element): seq<Element> {
    if es == [] then [e]
    else if Less(e.id, es[0].id) then [e] + es
    else if Less(es[0].id, e.id) then [es[0]] + Insert(es[1..], e)
    else es
  }

  /** Insertion keeps the order, adds the element exactly when its identifier is new, and keeps all others. */
  lemma {:induction false} InsertOrdered(es: seq<Element>, e: Element)
    requires Ordered(es)
    ensures Ordered(Insert(es, e))
    ensures forall x :: x in Insert(es, e) <==> x in es || (x == e && !HasId(es, e.id))
  {
    if es != [] {
      var first, rest := es[0], es[1..];
      LessTotal(e.id, first.id);
      assert es == [first] + rest;
      if Less(e.id, first.id) {
        forall i | 0 <= i < |es| ensures Less(e.id, es[i].id) && es[i].id != e.id {
          if i > 0 { LessTransitive(e.id, first.id, es[i].id); }
          LessTotal(e.id, es[i].id);
        }
      } else if Less(first.id, e.id) {
        InsertOrdered(rest, e);
        IdsAfter(es, e);
        forall i | 0 <= i < |Insert(rest, e)| ensures Less(first.id, Insert(rest, e)[i].id) {
          var x := Insert(rest, e)[i];
          assert x in Insert(rest, e);
          if x in rest { var j :| 0 <= j < |rest| && rest[j] == x; assert es[j + 1] == x; }
        }
      } else {
        assert es[0].id == e.id;
      }
    } else {
      assert forall x :: x in Insert(es, e) <==> x == e;
    }
  }

  lemma IdsAfter(es: seq<Element>, e: Element)
    requires es != [] && es[0].id != e.id
    ensures HasId(es, e.id) <==> HasId(es[1..], e.id)
  {
    if HasId(es, e.id) {
      var i :| 0 <= i < |es| && es[i].id == e.id;
      assert es[1..][i - 1].id == e.id;
    }
    if HasId(es[1..], e.id) {
      var i :| 0 <= i < |es[1..]| && es[1..][i].id == e.id;
      assert es[i + 1].id == e.id;
    }
  }

  function SetOf(list: seq<Element>): seq<Element> {
    if list == [] then [] else Insert(SetOf(list[..|list| - 1]), list[|list| - 1])
  }

  /** Whatever is put in, the identifiers of a record are pairwise distinct, and each is that of some element put in. */
  lemma {:induction false} DistinctIds(list: seq<Element>)
    ensures Ordered(SetOf(list))
    ensures forall i, j :: 0 <= i < j < |SetOf(list)| ==> SetOf(list)[i].id != SetOf(list)[j].id
    ensures forall x :: x in SetOf(list) ==> x in list
    ensures forall x :: x in list ==> HasId(SetOf(list), x.id)
  {
    if list != [] {
      var front, e := list[..|list| - 1], list[|list| - 1];
      DistinctIds(front);
      InsertOrdered(SetOf(front), e);
      assert list == front + [e];
      forall x | x in list ensures HasId(SetOf(list), x.id) {
        IdKept(SetOf(front), e, x.id);
      }
    }
    forall i, j | 0 <= i < j < |SetOf(list)| ensures SetOf(list)[i].id != SetOf(list)[j].id {
      LessTotal(SetOf(list)[i].id, SetOf(list)[j].id);
    }
  }

  lemma IdKept(es: seq<Element>, e: Element, id: string)
    requires Ordered(es) && (HasId(es, id) || e.id == id)
    ensures HasId(Insert(es, e), id)
  {
    InsertOrdered(es, e);
    var es' := Insert(es, e);
    var x := e;
    if i :| 0 <= i < |es| && es[i].id == id { x := es[i]; }
    assert x in es';
    var k :| 0 <= k < |es'| && es'[k] == x;
    assert es'[k].id == id;
  }
}
