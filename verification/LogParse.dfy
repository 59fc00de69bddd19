/** A reader for RFC 5424 records, and the proof that what is written reads back. */
module LogParse {
  import opened SeqFacts
  import opened LogText

  /** The first position of a character that stops, else the length. */
  function Find(s: string, stop: string): (k: nat)
    ensures k <= |s|
    ensures forall i :: 0 <= i < k ==> s[i] !in stop
    ensures k < |s| ==> s[k] in stop
  {
    if s == "" || s[0] in stop then 0 else 1 + Find(s[1..], stop)
  }

  lemma FindEnd(a: string, c: char, b: string, stop: string)
    requires c in stop && forall i :: 0 <= i < |a| ==> a[i] !in stop
    ensures Find(a + [c] + b, stop) == |a|
  {
    var s := a + [c] + b;
    assert s[|a|] == c;
    assert forall i :: 0 <= i < |a| ==> s[i] == a[i];
  }

  function From(s: string, k: nat): (r: string)
    ensures |r| <= |s|
  {
    if k <= |s| then s[k..] else ""
  }

  /** The word up to the next space, and what follows that space. */
  function Word(s: string): (string, string) {
    var k := Find(s, " ");
    (s[..k], From(s, k + 1))
  }

  lemma WordBack(a: string, b: string)
    requires ' ' !in a
    ensures Word(a + " " + b) == (a, b)
  {
    var s := a + " " + b;
    assert s == a + [' '] + b;
    FindEnd(a, ' ', b, " ");
    assert s[..|a|] == a && s[|a| + 1..] == b;
  }

  // ---------- structured data ----------

  /** A parameter value up to its closing quote. */
  function ReadValue(s: string): (r: (string, string))
    ensures |r.1| <= |s|
  {
    if s == "" then ("", "")
    else if s[0] == '"' then ("", s[1..])
    else if s[0] == '\\' && |s| > 1 then var r := ReadValue(s[2..]); ([s[1]] + r.0, r.1)
    else var r := ReadValue(s[1..]); ([s[0]] + r.0, r.1)
  }

  lemma ReadLead(c: char, t: string)
    ensures var r := ReadValue(t);
      ReadValue((if c in "\"\\]" then ['\\', c] else [c]) + t) == ([c] + r.0, r.1)
  {
    if c in "\"\\]" {
      var s := ['\\', c] + t;
      assert s[0] == '\\' && s[1] == c && s[2..] == t;
    } else {
      var s := [c] + t;
      assert s[0] == c && s[1..] == t;
    }
  }

  /** Escaping is undone by reading, whatever follows. */
  lemma {:induction false} ValueBack(v: string, rest: string)
    ensures ReadValue(Escape(v) + "\"" + rest) == (v, rest)
  {
    var q := "\"" + rest;
    Assoc(Escape(v), "\"", rest);
    if v == "" {
      assert Escape(v) + q == q && q[0] == '"' && q[1..] == rest;
    } else {
      var t := Escape(v[1..]);
      var lead := if v[0] in "\"\\]" then ['\\', v[0]] else [v[0]];
      ValueBack(v[1..], rest);
      ReadLead(v[0], t + q);
      hide ReadValue;
      Assoc(t, "\"", rest);
      Assoc(lead, t, q);
      assert v == [v[0]] + v[1..];
    }
  }

  function ReadParams(s: string): (r: (seq<Param>, string))
    ensures |r.1| <= |s|
    decreases |s|
  {
    if s == "" || s[0] != ' ' then ([], s)
    else
      var k := Find(s, "=");
      var v := ReadValue(From(s, k + 2));
      if |v.1| >= |s| then ([], "")
      else
        var r := ReadParams(v.1);
        ([Param(From(s[..k], 1), v.0)] + r.0, r.1)
  }

  ghost predicate NameOk(s: string) {
    Legal(s, SD_NAME_MAX, SdChar)
  }

  /** One parameter, read from text that goes on with rest. */
  lemma ParamBack(p: Param, rest: string)
    requires NameOk(p.name)
    ensures var s := " " + ParamText(p) + rest; var k := Find(s, "=");
      s[0] == ' ' && k == |p.name| + 1 && From(s[..k], 1) == p.name && ReadValue(From(s, k + 2)) == (p.value, rest)
  {
    var s := " " + ParamText(p) + rest;
    var a := " " + p.name;
    var e := Escape(p.value) + "\"" + rest;
    ParamParts(p.name, Escape(p.value), rest);
    FindEnd(a, '=', "\"" + e, "=");
    ValueBack(p.value, rest);
    hide Escape, ReadValue, Find;
    assert (a + ['='] + ("\"" + e))[|a| + 2..] == e;
    assert s[..|a|] == a && a[1..] == p.name;
  }

  /** The text of a parameter, regrouped around its equal sign. */
  lemma ParamParts(n: string, e: string, rest: string)
    ensures " " + (n + "=\"" + e + "\"") + rest == " " + n + ['='] + ("\"" + (e + "\"" + rest))
  {
    var q := "\"";
    Assoc(" ", n + "=\"" + e + q, rest);
    Assoc(n + "=\"" + e, q, rest);
    Assoc(n + "=\"", e, q + rest);
    Assoc(e, q, rest);
    var t := e + (q + rest);
    assert "=\"" == "=" + q;
    Assoc(n, "=", q);
    Assoc(n + "=", q, t);
    Assoc(" ", n + "=", q + t);
    Assoc(" ", n, "=");
  }

  lemma ParamStep(p: Param, rest: string)
    requires NameOk(p.name)
    ensures ReadParams(" " + ParamText(p) + rest) == ([p] + ReadParams(rest).0, ReadParams(rest).1)
  {
    hide ReadValue, Escape, Find;
    ParamBack(p, rest);
  }

  lemma ParamsEnd(rest: string)
    requires rest != "" ==> rest[0] != ' '
    ensures ReadParams(rest) == ([], rest)
  {
  }

  lemma {:induction false} ParamsBack(ps: seq<Param>, rest: string)
    requires (forall i :: 0 <= i < |ps| ==> NameOk(ps[i].name)) && (rest != "" ==> rest[0] != ' ')
    ensures ReadParams(ParamsText(ps) + rest) == (ps, rest)
  {
    hide NameOk, ParamText, ReadParams;
    if ps == [] {
      assert ParamsText(ps) + rest == rest;
      ParamsEnd(rest);
    } else {
      var rest' := ParamsText(ps[1..]) + rest;
      Assoc(" " + ParamText(ps[0]), ParamsText(ps[1..]), rest);
      ParamStep(ps[0], rest');
      ParamsBack(ps[1..], rest);
      assert ps == [ps[0]] + ps[1..];
    }
  }

  function ReadElements(s: string): (r: (seq<Element>, string))
    ensures |r.1| <= |s|
    decreases |s|
  {
    if s == "" || s[0] != '[' then ([], s)
    else
      var k := Find(s, " ]");
      var p := ReadParams(From(s, k));
      var rest := From(p.1, 1);
      if |rest| >= |s| then ([], "")
      else
        var r := ReadElements(rest);
        ([Element(From(s[..k], 1), p.0)] + r.0, r.1)
  }

  lemma ElementBack(e: Element, rest: string)
    requires ElementOk(e)
    ensures var s := ElementText(e) + rest; var k := Find(s, " ]");
      s[0] == '[' && From(s[..k], 1) == e.id && ReadParams(From(s, k)) == (e.params, "]" + rest)
  {
    var s := ElementText(e) + rest;
    var a := "[" + e.id;
    var b := ParamsText(e.params) + ("]" + rest);
    assert s == a + b;
    assert b[0] in " ]" by {
      if e.params == [] { assert b == "]" + rest; } else { assert b[0] == ' '; }
    }
    assert b == [b[0]] + b[1..] && s == a + [b[0]] + b[1..];
    FindEnd(a, b[0], b[1..], " ]");
    assert From(s, |a|) == b;
    ParamsBack(e.params, "]" + rest);
  }

  lemma ElementStep(e: Element, rest: string)
    requires ElementOk(e)
    ensures ReadElements(ElementText(e) + rest) == ([e] + ReadElements(rest).0, ReadElements(rest).1)
  {
    hide ReadParams, ParamsText, Find;
    ElementBack(e, rest);
    assert From("]" + rest, 1) == rest;
  }

  lemma {:induction false} ElementsBack(es: seq<Element>, rest: string)
    requires (forall i :: 0 <= i < |es| ==> ElementOk(es[i])) && (rest != "" ==> rest[0] != '[')
    ensures ReadElements(ElementsText(es) + rest) == (es, rest)
  {
    hide ElementOk, ElementText;
    if es == [] {
      assert ElementsText(es) + rest == rest;
    } else {
      hide ReadElements;
      var rest' := ElementsText(es[1..]) + rest;
      Assoc(ElementText(es[0]), ElementsText(es[1..]), rest);
      ElementStep(es[0], rest');
      ElementsBack(es[1..], rest);
      assert es == [es[0]] + es[1..];
    }
  }

  function ReadSd(s: string): (seq<Element>, string) {
    if s != "" && s[0] == '-' then ([], s[1..]) else ReadElements(s)
  }

  function ReadMsg(s: string): string {
    From(s, 1)
  }

  lemma SdMsgBack(es: seq<Element>, msg: string)
    requires forall i :: 0 <= i < |es| ==> ElementOk(es[i])
    ensures var r := ReadSd(SdText(es) + MsgText(msg)); r.0 == es && ReadMsg(r.1) == msg
  {
    var s := SdText(es) + MsgText(msg);
    if es == [] {
      assert s[1..] == MsgText(msg);
    } else {
      ElementsBack(es, MsgText(msg));
      assert s[0] == '[';
    }
  }
}
