/** Reading a whole record back, and so the RFC 5424 text is unambiguous. */
module LogRoundTrip {
  import opened SeqFacts
  import opened LogBuffer
  import opened LogText
  import opened LogParse

  // ---------- the time stamp ----------

  function DigitRun(s: string): (k: nat)
    ensures k <= |s|
    ensures forall i :: 0 <= i < k ==> IsDigit(s[i])
    ensures k < |s| ==> !IsDigit(s[k])
  {
    if s == "" || !IsDigit(s[0]) then 0 else 1 + DigitRun(s[1..])
  }

  lemma DigitRunEnd(a: string, b: string)
    requires AllDigits(a) && (b != "" ==> !IsDigit(b[0]))
    ensures DigitRun(a + b) == |a|
  {
    var s := a + b;
    assert forall i :: 0 <= i < |a| ==> s[i] == a[i];
    if b != "" { assert s[|a|] == b[0]; }
  }

  /** The microseconds a time stamp's fraction denotes, and what follows it. */
  function ReadFraction(s: string): (nat, string) {
    if s == "" || s[0] != '.' then (0, s)
    else
      var t := s[1..];
      var k := DigitRun(t);
      (if k <= 6 then Value(t[..k]) * Pow10(6 - k) else 0, t[k..])
  }

  function ReadZone(z: string): string {
    if z == "Z" then "+0000" else if |z| == 6 then z[..3] + z[4..] else ""
  }

  function NumberAt(s: string, k: nat): nat
    requires k + 2 <= |s|
  {
    Value(s[k..k + 2])
  }

  function ReadTime(w: string): Option<(Tm, nat)> {
    if |w| < 19 then None
    else
      var f := ReadFraction(w[19..]);
      var month := NumberAt(w, 5);
      Some((Tm(Value(w[..4]), if month == 0 then 0 else month - 1, NumberAt(w, 8), NumberAt(w, 11), NumberAt(w, 14),
               NumberAt(w, 17), ReadZone(f.1)), f.0))
  }

  /** Both signs of a zero offset are written as Z. */
  function NormalZone(zone: string): string {
    if |zone| != 5 then "" else if zone[1..] == "0000" then "+0000" else zone
  }

  lemma ZoneBack(zone: string)
    ensures ReadZone(ZoneText(zone)) == NormalZone(zone)
  {
    var z := ZoneText(zone);
    if |zone| == 5 && zone[1..] != "0000" {
      assert z[..3] == zone[..3] && z[4..] == zone[3..];
    }
  }

  lemma ZoneStarts(zone: string)
    requires ZoneOk(zone) && ZoneText(zone) != ""
    ensures ZoneText(zone)[0] in "Z+-"
  {
  }

  lemma FractionBack(micros: nat, zone: string)
    requires micros < 1000000 && ZoneOk(zone)
    ensures ReadFraction(FractionText(micros) + ZoneText(zone)) == (micros, ZoneText(zone))
  {
    var z := ZoneText(zone);
    if z != "" { ZoneStarts(zone); }
    hide ZoneText;
    if micros == 0 {
      assert FractionText(micros) + z == z;
    } else {
      assert Pow10(6) == 1000000;
      FractionMeans(micros, 5);
      hide FractionDigits;
      DottedBack(FractionDigits(micros, 5), z);
    }
  }

  lemma DottedBack(f: string, z: string)
    requires AllDigits(f) && |f| <= 6 && (z != "" ==> !IsDigit(z[0]))
    ensures ReadFraction("." + f + z) == (Value(f) * Pow10(6 - |f|), z)
  {
    hide Value, Pow10, DigitRun, ReadFraction;
    Assoc(".", f, z);
    Drop(".", f + z);
    Drop(f, z);
    DigitRunEnd(f, z);
    FractionOf("." + f + z, f + z, |f|);
  }

  lemma FractionOf(s: string, t: string, k: nat)
    requires s != "" && s[0] == '.' && s[1..] == t && DigitRun(t) == k && k <= 6
    ensures ReadFraction(s) == (Value(t[..k]) * Pow10(6 - k), t[k..])
  {
  }

  lemma Slices(y: string, m: string, d: string, h: string, n: string, s: string)
    requires |y| == 4 && |m| == |d| == |h| == |n| == |s| == 2
    ensures var c := y + "-" + m + "-" + d + "T" + h + ":" + n + ":" + s;
      |c| == 19 && c[..4] == y && c[5..7] == m && c[8..10] == d && c[11..13] == h && c[14..16] == n && c[17..19] == s
  {
  }

  /** The fields of the clock text, each in its place. */
  lemma ClockFields(t: Tm)
    requires TmOk(t) && 0 <= t.year <= 9999
    ensures var c := ClockText(t);
      && Value(c[..4]) == t.year && NumberAt(c, 5) == t.mon + 1 && NumberAt(c, 8) == t.day
      && NumberAt(c, 11) == t.hour && NumberAt(c, 14) == t.min && NumberAt(c, 17) == t.sec
  {
    assert Pow10(4) == 10000 && Pow10(2) == 100;
    hide Fixed, Value;
    Slices(Fixed(t.year, 3), Two(t.mon + 1), Two(t.day), Two(t.hour), Two(t.min), Two(t.sec));
    FixedValue(t.year, 3);
    FixedValue(t.mon + 1, 1);
    FixedValue(t.day, 1);
    FixedValue(t.hour, 1);
    FixedValue(t.min, 1);
    FixedValue(t.sec, 1);
  }

  function TimeText(r: Record): string
    requires RecordOk(r)
  {
    StampText(r) + ZoneOf(r)
  }

  function SeenTime(r: Record): Option<(Tm, nat)> {
    if Shown(r) then Some((r.local.value.(zone := NormalZone(r.local.value.zone)), r.nsec / 1000)) else None
  }

  lemma TimeBack(r: Record)
    requires RecordOk(r)
    ensures ReadTime(TimeText(r)) == SeenTime(r)
  {
    if Shown(r) {
      var t, micros := r.local.value, r.nsec / 1000;
      var c, rest := ClockText(t), FractionText(micros) + ZoneText(t.zone);
      var w := c + rest;
      Assoc(c, FractionText(micros), ZoneText(t.zone));
      hide ClockText, FractionText, ZoneText, ReadFraction, ReadZone;
      ClockFields(t);
      FractionBack(micros, t.zone);
      ZoneBack(t.zone);
      Within(c, rest);
    }
  }

  lemma Within(c: string, rest: string)
    requires |c| == 19
    ensures var w := c + rest;
      w[19..] == rest && w[..4] == c[..4] && forall k :: 0 <= k <= 17 ==> NumberAt(w, k) == NumberAt(c, k)
  {
    var w := c + rest;
    forall k: nat | k <= 17 ensures NumberAt(w, k) == NumberAt(c, k) { assert w[k..k + 2] == c[k..k + 2]; }
  }

  // ---------- the record ----------

  datatype Reading = Reading(facility: nat, severity: nat, time: Option<(Tm, nat)>, host: string, app: string,
                             procId: string, msgId: string, elems: seq<Element>, msg: string)

  function ReadTail(pri: nat, time: string, s: string): Reading {
    var h := Word(s);
    var a := Word(h.1);
    var p := Word(a.1);
    var m := Word(p.1);
    var sd := ReadSd(m.1);
    Reading(pri / 8, pri % 8, ReadTime(time), h.0, a.0, p.0, m.0, sd.0, ReadMsg(sd.1))
  }

  function Read(s: string): Reading {
    var k := Find(s, ">");
    var t := Word(From(s, k + 3));
    ReadTail(Value(From(s[..k], 1)), t.0, t.1)
  }

  /** What a record tells its reader: everything but nanoseconds below the microsecond and the sign of a zero offset. */
  function Seen(r: Record): Reading {
    Reading(r.facility, r.severity, SeenTime(r), r.host, r.app, r.procId, r.msgId, r.elems, r.msg)
  }

  lemma NoSpace(s: string, max: nat)
    requires Legal(s, max, Printable)
    ensures ' ' !in s
  {
  }

  lemma TailBack(r: Record, pri: nat, time: string)
    requires RecordOk(r) && pri == r.facility * 8 + r.severity && ReadTime(time) == SeenTime(r)
    ensures ReadTail(pri, time, TailText(r)[1..]) == Seen(r)
  {
    hide TailText, Word, ReadSd, ReadMsg, ReadTime, SeenTime, SdText, MsgText, RecordOk;
    TailParts(r);
    TailWords(r);
    PriSplit(r);
  }

  lemma PriSplit(r: Record)
    requires RecordOk(r)
    ensures (r.facility * 8 + r.severity) / 8 == r.facility && (r.facility * 8 + r.severity) % 8 == r.severity
  {
  }

  lemma WordsBack(h: string, a: string, p: string, m: string, s: string)
    requires ' ' !in h && ' ' !in a && ' ' !in p && ' ' !in m
    ensures var h' := Word(h + " " + (a + " " + (p + " " + (m + " " + s))));
      var a' := Word(h'.1); var p' := Word(a'.1); var m' := Word(p'.1);
      h'.0 == h && a'.0 == a && p'.0 == p && m' == (m, s)
  {
    hide Word;
    WordBack(h, a + " " + (p + " " + (m + " " + s)));
    WordBack(a, p + " " + (m + " " + s));
    WordBack(p, m + " " + s);
    WordBack(m, s);
  }

  lemma TailParts(r: Record)
    ensures TailText(r)[1..] ==
      r.host + " " + (r.app + " " + (r.procId + " " + (r.msgId + " " + (SdText(r.elems) + MsgText(r.msg)))))
  {
    hide SdText, MsgText;
  }

  lemma TailWords(r: Record)
    requires RecordOk(r)
    ensures var s := SdText(r.elems) + MsgText(r.msg);
      var h := Word(r.host + " " + (r.app + " " + (r.procId + " " + (r.msgId + " " + s))));
      var a := Word(h.1); var p := Word(a.1); var m := Word(p.1); var sd := ReadSd(m.1);
      h.0 == r.host && a.0 == r.app && p.0 == r.procId && m.0 == r.msgId && sd.0 == r.elems && ReadMsg(sd.1) == r.msg
  {
    NoSpace(r.host, HOST_MAX);
    NoSpace(r.app, APP_MAX);
    NoSpace(r.procId, PROC_MAX);
    NoSpace(r.msgId, MSG_ID_MAX);
    SdMsgBack(r.elems, r.msg);
    hide Word, SdText, MsgText, ReadSd, ReadMsg, ElementOk, Legal;
    WordsBack(r.host, r.app, r.procId, r.msgId, SdText(r.elems) + MsgText(r.msg));
  }

  lemma TimeNoSpace(r: Record)
    requires RecordOk(r)
    ensures ' ' !in TimeText(r)
  {
    if Shown(r) {
      var t, micros := r.local.value, r.nsec / 1000;
      ClockNoSpace(t);
      if micros != 0 {
        assert Pow10(6) == 1000000;
        assert ' ' !in FractionDigits(micros, 5);
      }
      assert ' ' !in ZoneText(t.zone);
    }
  }

  lemma ClockNoSpace(t: Tm)
    requires TmOk(t) && 0 <= t.year <= 9999
    ensures ' ' !in ClockText(t)
  {
    assert Pow10(4) == 10000;
    hide Fixed;
    assert ' ' !in Fixed(t.year, 3) && ' ' !in Two(t.mon + 1) && ' ' !in Two(t.day);
    assert ' ' !in Two(t.hour) && ' ' !in Two(t.min) && ' ' !in Two(t.sec);
  }

  lemma RenderParts(r: Record)
    requires RecordOk(r)
    ensures Render(r) == PriText(r) + (TimeText(r) + " " + TailText(r)[1..])
  {
    var tail := TailText(r);
    hide TailText, PriText, ClockText, FractionText, ZoneText;
    assert tail[0] == ' ' by { assert tail == TailText(r); TailStarts(r); }
    assert tail == " " + tail[1..];
  }

  lemma TailStarts(r: Record)
    ensures TailText(r) != "" && TailText(r)[0] == ' '
  {
  }

  /** PRI is written without needless zeros and read back. */
  lemma PriBack(r: Record, rest: string)
    requires RecordOk(r)
    ensures var s := PriText(r) + rest; var k := Find(s, ">");
      Value(From(s[..k], 1)) == r.facility * 8 + r.severity && From(s, k + 3) == rest
  {
    assert Pow10(3) == 1000;
    var n := Number(r.facility * 8 + r.severity, 2);
    NumberValue(r.facility * 8 + r.severity, 2);
    hide Number;
    var s := PriText(r) + rest;
    assert s == ("<" + n) + ['>'] + ("1 " + rest);
    FindEnd("<" + n, '>', "1 " + rest, ">");
    assert From(s[..|n| + 1], 1) == n;
  }

  /** Every record, whatever its values hold, reads back. */
  lemma ReadBack(r: Record)
    requires RecordOk(r)
    ensures Read(Render(r)) == Seen(r)
  {
    var tail := TailText(r)[1..];
    RenderParts(r);
    PriBack(r, TimeText(r) + " " + tail);
    TimeNoSpace(r);
    TimeBack(r);
    TailBack(r, r.facility * 8 + r.severity, TimeText(r));
    hide Render, PriText, TimeText, TailText, ReadTail, Seen, Word;
    WordBack(TimeText(r), tail);
  }

  /** So two records with the same text tell the same. */
  lemma Unambiguous(a: Record, b: Record)
    requires RecordOk(a) && RecordOk(b) && Render(a) == Render(b)
    ensures Seen(a) == Seen(b)
  {
    ReadBack(a);
    ReadBack(b);
  }
}
