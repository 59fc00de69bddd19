/** Log records and their RFC 5424 text, as it would be in a buffer without limit. */
module LogText {
  import opened LogBuffer

  datatype Option<T> = None | Some(value: T)

  // ---------- names ----------

  /** Printable US-ASCII without the space. */
  predicate Printable(c: char) {
    '!' <= c <= '~'
  }

  predicate SdChar(c: char) {
    Printable(c) && c != '=' && c != ']' && c != '"'
  }

  /** Truncated to the limit, with a dash for the empty string. */
  function Given(s: string, max: nat): string {
    if s == "" then "-" else if |s| <= max then s else s[..max]
  }

  ghost predicate Legal(s: string, max: nat, ok: char -> bool) {
    0 < |s| <= max && forall i :: 0 <= i < |s| ==> ok(s[i])
  }

  function Replaced(s: string, ok: char -> bool): (r: string)
    ensures |r| == |s| && forall i :: 0 <= i < |s| ==> r[i] == if ok(s[i]) then s[i] else '_'
  {
    if s == "" then "" else [if ok(s[0]) then s[0] else '_'] + Replaced(s[1..], ok)
  }

  /** Every name comes out legal, and only the legal ones come out as they went in. */
  lemma NameIff(s: string, max: nat, ok: char -> bool)
    requires max > 0 && ok('_') && ok('-')
    ensures Legal(Replaced(Given(s, max), ok), max, ok)
    ensures Replaced(Given(s, max), ok) == s <==> Legal(s, max, ok)
  {
    var r := Replaced(Given(s, max), ok);
    if r == s {
      assert forall i :: 0 <= i < |s| ==> r[i] == s[i];
    }
  }

  /** The constructors of PrintableAscii and SdName. */
  method MakeName(s: string, max: nat, ok: char -> bool) returns (r: string)
    requires max > 0
    ensures r == Replaced(Given(s, max), ok)
  {
    r := Given(s, max);
    ghost var given := r;
    var i := 0;
    while i < |r|
      invariant i <= |r| == |given|
      invariant forall j :: 0 <= j < i ==> r[j] == if ok(given[j]) then given[j] else '_'
      invariant forall j :: i <= j < |r| ==> r[j] == given[j]
    {
      if !ok(r[i]) { r := r[i := '_']; }
      i := i + 1;
    }
  }

  const SD_NAME_MAX := 32
  const HOST_MAX := 255
  const APP_MAX := 48
  const PROC_MAX := 128
  const MSG_ID_MAX := 32

  // ---------- records ----------

  datatype Param = Param(name: string, value: string)
  datatype Element = Element(id: string, params: seq<Param>)

  /** Broken-down local time; year is the full year, zone what strftime makes of %z. */
  datatype Tm = Tm(year: int, mon: nat, day: nat, hour: nat, min: nat, sec: nat, zone: string)

  datatype Record = Record(facility: nat, severity: nat, local: Option<Tm>, nsec: int, host: string, app: string,
                           procId: string, msgId: string, elems: seq<Element>, msg: string)

  ghost predicate ZoneOk(zone: string) {
    |zone| == 5 ==> zone[0] in "+-" && AllDigits(zone[1..])
  }

  ghost predicate TmOk(t: Tm) {
    t.mon < 12 && 1 <= t.day <= 31 && t.hour < 24 && t.min < 60 && t.sec <= 60 && ZoneOk(t.zone)
  }

  ghost predicate ElementOk(e: Element) {
    && Legal(e.id, SD_NAME_MAX, SdChar)
    && forall i :: 0 <= i < |e.params| ==> Legal(e.params[i].name, SD_NAME_MAX, SdChar)
  }

  /** What the types of the arguments of LogMessage::Write promise. */
  ghost predicate RecordOk(r: Record) {
    && r.facility < 24 && r.severity < 8 && (r.local.Some? ==> TmOk(r.local.value))
    && Legal(r.host, HOST_MAX, Printable) && Legal(r.app, APP_MAX, Printable)
    && Legal(r.procId, PROC_MAX, Printable) && Legal(r.msgId, MSG_ID_MAX, Printable)
    && forall i :: 0 <= i < |r.elems| ==> ElementOk(r.elems[i])
  }

  // ---------- text ----------

  function PriText(r: Record): string
    requires r.facility < 24 && r.severity < 8
  {
    assert Pow10(3) == 1000;
    "<" + Number(r.facility * 8 + r.severity, 2) + ">1 "
  }

  predicate Shown(r: Record) {
    r.local.Some? && 0 <= r.local.value.year <= 9999 && 0 <= r.nsec < 1000000000
  }

  function Two(n: nat): (r: string)
    requires n < 100
    ensures |r| == 2 && AllDigits(r)
  {
    assert Pow10(2) == 100;
    Fixed(n, 1)
  }

  function ClockText(t: Tm): (r: string)
    requires TmOk(t) && 0 <= t.year <= 9999
    ensures |r| == 19
  {
    assert Pow10(4) == 10000;
    Fixed(t.year, 3) + "-" + Two(t.mon + 1) + "-" + Two(t.day) + "T" + Two(t.hour) + ":" + Two(t.min) + ":" + Two(t.sec)
  }

  function FractionDigits(d: nat, k: nat): (r: string)
    requires 0 < d < Pow10(k + 1)
    ensures 0 < |r| <= k + 1 && AllDigits(r)
  {
    if d % 10 == 0 && k > 0 then FractionDigits(d / 10, k - 1) else Fixed(d, k)
  }

  function FractionText(micros: nat): (r: string)
    requires micros < 1000000
    ensures |r| <= 7
  {
    assert Pow10(6) == 1000000;
    if micros == 0 then "" else "." + FractionDigits(micros, 5)
  }

  function ZoneText(zone: string): (r: string)
    ensures |r| <= 6 && (r != "" <==> |zone| == 5)
  {
    if |zone| != 5 then "" else if zone[1..] == "0000" then "Z" else zone[..3] + ":" + zone[3..]
  }

  function StampText(r: Record): string
    requires RecordOk(r)
  {
    if Shown(r) then ClockText(r.local.value) + FractionText(r.nsec / 1000) else "-"
  }

  /** Everything before the time zone. */
  function HeadText(r: Record): string
    requires RecordOk(r)
  {
    PriText(r) + StampText(r)
  }

  function Escape(v: string): string {
    if v == "" then ""
    else (if v[0] in "\"\\]" then ['\\', v[0]] else [v[0]]) + Escape(v[1..])
  }

  function ParamText(p: Param): string {
    p.name + "=\"" + Escape(p.value) + "\""
  }

  function ParamsText(ps: seq<Param>): string {
    if ps == [] then "" else " " + ParamText(ps[0]) + ParamsText(ps[1..])
  }

  function ElementText(e: Element): string {
    "[" + e.id + ParamsText(e.params) + "]"
  }

  function ElementsText(es: seq<Element>): string {
    if es == [] then "" else ElementText(es[0]) + ElementsText(es[1..])
  }

  function SdText(es: seq<Element>): string {
    if es == [] then "-" else ElementsText(es)
  }

  function MsgText(msg: string): string {
    if msg == "" then "" else " " + msg
  }

  /** Everything after the time zone. */
  function TailText(r: Record): string {
    " " + r.host + " " + r.app + " " + r.procId + " " + r.msgId + " " + SdText(r.elems) + MsgText(r.msg)
  }

  function ZoneOf(r: Record): string {
    if Shown(r) then ZoneText(r.local.value.zone) else ""
  }

  /** The whole record. */
  function Render(r: Record): string
    requires RecordOk(r)
  {
    HeadText(r) + ZoneOf(r) + TailText(r)
  }

  // ---------- the fraction ----------

  /** The fraction has one to six digits, does not end in zero, and denotes exactly the microseconds. */
  lemma {:induction false} FractionMeans(d: nat, k: nat)
    requires 0 < d < Pow10(k + 1)
    ensures var f := FractionDigits(d, k);
      f[|f| - 1] != '0' && Value(f) * Pow10(k + 1 - |f|) == d
  {
    if d % 10 == 0 && k > 0 {
      FractionMeans(d / 10, k - 1);
      var f := FractionDigits(d / 10, k - 1);
      Scale(Value(f), Pow10(k - |f|), d);
    } else {
      FixedValue(d, k);
      LastDigit(d, k);
    }
  }

  lemma Scale(v: nat, p: nat, d: nat)
    requires v * p == d / 10 && d % 10 == 0
    ensures v * (10 * p) == d
  {
    assert v * (10 * p) == 10 * (v * p);
  }

  lemma LastDigit(d: nat, k: nat)
    requires 0 < d < Pow10(k + 1) && (d % 10 != 0 || k == 0)
    ensures Fixed(d, k)[k] != '0'
  {
    var f := Fixed(d, k);
    FixedValue(d, k);
    assert Value(f) == 10 * Value(f[..k]) + DigitValue(f[k]);
  }
}
