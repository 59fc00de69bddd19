/** LogMessage::Write over a bounded buffer, and exactly when it truncates cleanly. */
module LogWrite {
  import opened SeqFacts
  import opened LogBuffer
  import opened LogText
  import opened LogRoundTrip

  // ---------- writing ----------

  // Appending step by step: text is what has been written since the buffer held was.

  method PutChar(c: char, b: Buffer, ghost was: string, ghost text: string) returns (ghost more: string)
    requires b.Valid() && b.written == was + text
    modifies b`size, b`written, b.data
    ensures b.Valid() && more == text + [c] && b.written == was + more
  {
    b.AppendChar(c);
    Assoc(was, text, [c]);
    more := text + [c];
  }

  method PutString(s: string, b: Buffer, ghost was: string, ghost text: string) returns (ghost more: string)
    requires b.Valid() && b.written == was + text
    modifies b`size, b`written, b.data
    ensures b.Valid() && more == text + s && b.written == was + more
  {
    b.AppendString(s);
    Assoc(was, text, s);
    more := text + s;
  }

  method PutTwo(n: nat, b: Buffer, ghost was: string, ghost text: string) returns (ghost more: string)
    requires b.Valid() && b.written == was + text && n < 100
    modifies b`size, b`written, b.data
    ensures b.Valid() && more == text + Two(n) && b.written == was + more
  {
    assert Pow10(1) == 10 && Pow10(2) == 100;
    b.AppendFixedWidthNumber(n, 10, 1);
    Assoc(was, text, Two(n));
    more := text + Two(n);
  }

  /** The fraction with its trailing zeros taken off. */
  method Stripped(micros: nat) returns (decimals: nat, power: nat, ghost k: nat)
    requires 0 < micros < 1000000
    ensures decimals < Pow10(k + 1) && power == Pow10(k) && FractionText(micros) == "." + Fixed(decimals, k)
  {
    assert Pow10(6) == 1000000 && Pow10(5) == 100000;
    decimals, power, k := micros, 100000, 5;
    while decimals % 10 == 0
      invariant 0 < decimals < Pow10(k + 1) && power == Pow10(k)
      invariant FractionDigits(micros, 5) == FractionDigits(decimals, k)
      decreases decimals
    {
      hide Fixed;
      decimals := decimals / 10;
      power := power / 10;
      k := k - 1;
    }
  }

  method WriteFraction(micros: nat, b: Buffer)
    requires b.Valid() && micros < 1000000
    modifies b`size, b`written, b.data
    ensures b.Valid() && b.written == old(b.written) + FractionText(micros)
  {
    if micros != 0 {
      hide FractionText, Fixed, Cut;
      var decimals, power, k := Stripped(micros);
      b.AppendChar('.');
      b.AppendFixedWidthNumber(decimals, power, k);
      Assoc(old(b.written), ".", Fixed(decimals, k));
    }
  }

  method WriteClock(t: Tm, b: Buffer)
    requires b.Valid() && TmOk(t) && 0 <= t.year <= 9999
    modifies b`size, b`written, b.data
    ensures b.Valid() && b.written == old(b.written) + ClockText(t)
  {
    assert Pow10(3) == 1000 && Pow10(4) == 10000;
    hide Fixed, Two, Cut;
    ghost var was := b.written;
    b.AppendFixedWidthNumber(t.year, 1000, 3);
    ghost var x := Fixed(t.year, 3);
    x := PutChar('-', b, was, x);
    x := PutTwo(t.mon + 1, b, was, x);
    x := PutChar('-', b, was, x);
    x := PutTwo(t.day, b, was, x);
    x := PutChar('T', b, was, x);
    x := PutTwo(t.hour, b, was, x);
    x := PutChar(':', b, was, x);
    x := PutTwo(t.min, b, was, x);
    x := PutChar(':', b, was, x);
    x := PutTwo(t.sec, b, was, x);
  }

  /** The zone goes in only if six characters are free, even where one would do. */
  method WriteZone(zone: string, b: Buffer)
    requires b.Valid()
    modifies b`size, b`written, b.data
    ensures b.Valid()
    ensures b.written == old(b.written) + if |old(b.written)| + 6 <= b.capacity then ZoneText(zone) else ""
  {
    assert b.size == |b.data[..b.size]|;
    if b.capacity - b.size >= 6 && |zone| == 5 {
      if zone[1] != '0' || zone[2] != '0' || zone[3] != '0' || zone[4] != '0' {
        assert zone[1..] != "0000" by { assert forall i :: 0 <= i < 4 ==> zone[1..][i] == zone[1 + i]; }
        b.AppendZone(zone);
      } else {
        assert zone[1..] == "0000";
        b.AppendChar('Z');
      }
    }
  }

  /** The text WriteTime appends behind n characters in a buffer of this capacity. */
  function FittingZone(r: Record, n: nat, capacity: nat): string {
    if n + 6 <= capacity then ZoneOf(r) else ""
  }

  method WriteTime(r: Record, b: Buffer)
    requires b.Valid() && RecordOk(r)
    modifies b`size, b`written, b.data
    ensures b.Valid()
    ensures b.written == old(b.written) + StampText(r) + FittingZone(r, |old(b.written)| + |StampText(r)|, b.capacity)
  {
    hide ClockText, FractionText, ZoneText;
    if Shown(r) {
      Assoc(b.written, ClockText(r.local.value), FractionText(r.nsec / 1000));
      WriteClock(r.local.value, b);
      WriteFraction(r.nsec / 1000, b);
      WriteZone(r.local.value.zone, b);
    } else {
      b.AppendChar('-');
    }
  }

  method WriteEscaped(v: string, b: Buffer)
    requires b.Valid()
    modifies b`size, b`written, b.data
    ensures b.Valid() && b.written == old(b.written) + Escape(v)
  {
    var i := 0;
    assert v[0..] == v;
    while i < |v|
      invariant i <= |v| && b.Valid()
      invariant old(b.written) + Escape(v) == b.written + Escape(v[i..])
    {
      hide Cut;
      var c := v[i];
      ghost var was, rest := b.written, Escape(v[i + 1..]);
      assert v[i..][1..] == v[i + 1..];
      if c == '"' || c == '\\' || c == ']' {
        b.AppendChar('\\');
        b.AppendChar(c);
        assert was + ['\\'] + [c] == was + ['\\', c];
        Assoc(was, ['\\', c], rest);
      } else {
        b.AppendChar(c);
        Assoc(was, [c], rest);
      }
      i := i + 1;
    }
  }

  method WriteParam(p: Param, b: Buffer)
    requires b.Valid()
    modifies b`size, b`written, b.data
    ensures b.Valid() && b.written == old(b.written) + ParamText(p)
  {
    hide Cut, Escape;
    ghost var was := b.written;
    b.AppendString(p.name);
    ghost var x := PutString("=\"", b, was, p.name);
    WriteEscaped(p.value, b);
    Assoc(was, x, Escape(p.value));
    x := PutChar('"', b, was, x + Escape(p.value));
  }

  method WriteParams(ps: seq<Param>, b: Buffer)
    requires b.Valid()
    modifies b`size, b`written, b.data
    ensures b.Valid() && b.written == old(b.written) + ParamsText(ps)
  {
    hide ParamText, Cut;
    var i := 0;
    assert ps[0..] == ps;
    while i < |ps|
      invariant i <= |ps| && b.Valid()
      invariant old(b.written) + ParamsText(ps) == b.written + ParamsText(ps[i..])
    {
      ghost var was, rest := b.written, ParamsText(ps[i + 1..]);
      assert ps[i..][1..] == ps[i + 1..];
      b.AppendChar(' ');
      WriteParam(ps[i], b);
      Assoc(was, " ", ParamText(ps[i]));
      Assoc(was, " " + ParamText(ps[i]), rest);
      i := i + 1;
    }
  }

  method WriteElement(e: Element, b: Buffer)
    requires b.Valid()
    modifies b`size, b`written, b.data
    ensures b.Valid() && b.written == old(b.written) + ElementText(e)
  {
    hide ParamsText, Cut;
    ghost var was := b.written;
    b.AppendChar('[');
    ghost var x := PutString(e.id, b, was, "[");
    WriteParams(e.params, b);
    Assoc(was, x, ParamsText(e.params));
    x := PutChar(']', b, was, x + ParamsText(e.params));
  }

  method WriteElements(es: seq<Element>, b: Buffer)
    requires b.Valid()
    modifies b`size, b`written, b.data
    ensures b.Valid() && b.written == old(b.written) + ElementsText(es)
  {
    hide ElementText, Cut;
    var i := 0;
    assert es[0..] == es;
    while i < |es|
      invariant i <= |es| && b.Valid()
      invariant old(b.written) + ElementsText(es) == b.written + ElementsText(es[i..])
    {
      assert es[i..][1..] == es[i + 1..];
      Assoc(b.written, ElementText(es[i]), ElementsText(es[i + 1..]));
      WriteElement(es[i], b);
      i := i + 1;
    }
  }

  method WriteSd(es: seq<Element>, b: Buffer)
    requires b.Valid()
    modifies b`size, b`written, b.data
    ensures b.Valid() && b.written == old(b.written) + SdText(es)
  {
    if es == [] { b.AppendChar('-'); } else { WriteElements(es, b); }
  }

  method WriteMsg(msg: string, b: Buffer)
    requires b.Valid()
    modifies b`size, b`written, b.data
    ensures b.Valid() && b.written == old(b.written) + MsgText(msg)
  {
    if msg != "" {
      b.AppendChar(' ');
      b.AppendString(msg);
      Assoc(old(b.written), " ", msg);
    }
  }

  method WriteTail(r: Record, b: Buffer)
    requires b.Valid()
    modifies b`size, b`written, b.data
    ensures b.Valid() && b.written == old(b.written) + TailText(r)
  {
    hide SdText, MsgText, Cut;
    ghost var was := b.written;
    b.AppendChar(' ');
    ghost var x := " ";
    x := PutString(r.host, b, was, x);
    x := PutChar(' ', b, was, x);
    x := PutString(r.app, b, was, x);
    x := PutChar(' ', b, was, x);
    x := PutString(r.procId, b, was, x);
    x := PutChar(' ', b, was, x);
    x := PutString(r.msgId, b, was, x);
    x := PutChar(' ', b, was, x);
    WriteSd(r.elems, b);
    Assoc(was, x, SdText(r.elems));
    x := x + SdText(r.elems);
    WriteMsg(r.msg, b);
    Assoc(was, x, MsgText(r.msg));
  }

  method WritePri(r: Record, b: Buffer)
    requires b.Valid() && r.facility < 24 && r.severity < 8
    modifies b`size, b`written, b.data
    ensures b.Valid() && b.written == old(b.written) + PriText(r)
  {
    assert Pow10(2) == 100 && Pow10(3) == 1000;
    hide Number, Cut;
    ghost var was := b.written;
    b.AppendChar('<');
    b.AppendNumber(r.facility * 8 + r.severity, 100, 2);
    Assoc(was, "<", Number(r.facility * 8 + r.severity, 2));
    ghost var x := PutString(">1 ", b, was, "<" + Number(r.facility * 8 + r.severity, 2));
  }

  /** The text a record leaves behind n characters in a buffer of this capacity, before cutting. */
  function Output(r: Record, n: nat, capacity: nat): string
    requires RecordOk(r)
  {
    HeadText(r) + FittingZone(r, n + |HeadText(r)|, capacity) + TailText(r)
  }

  /** LogMessage::Write. */
  method Write(r: Record, b: Buffer)
    requires b.Valid() && RecordOk(r)
    modifies b`size, b`written, b.data
    ensures b.Valid() && b.written == old(b.written) + Output(r, |old(b.written)|, b.capacity)
  {
    hide PriText, StampText, TailText, FittingZone, Cut;
    ghost var was, pri := b.written, PriText(r);
    WritePri(r, b);
    WriteTime(r, b);
    ghost var time := StampText(r);
    ghost var zone := FittingZone(r, |was| + |pri| + |time|, b.capacity);
    Assoc(was, pri, time);
    Assoc(was, pri + time, zone);
    WriteTail(r, b);
    Assoc(was, pri + time + zone, TailText(r));
  }

  // ---------- truncation ----------

  /** What an empty buffer of this capacity holds afterwards. */
  function Kept(r: Record, capacity: nat): string
    requires RecordOk(r)
  {
    Cut(Output(r, 0, capacity), capacity)
  }

  /** Writing into an empty buffer leaves the first bytes of the full text, unless the zone falls on its last five. */
  lemma CleanIff(r: Record, capacity: nat)
    requires RecordOk(r)
    ensures Kept(r, capacity) == Cut(Render(r), capacity) <==>
      !(ZoneOf(r) != "" && |HeadText(r)| < capacity < |HeadText(r)| + 6)
  {
    var h, z, t := HeadText(r), ZoneOf(r), TailText(r);
    TailStarts(r);
    if z != "" { ZoneStarts(r.local.value.zone); }
    hide HeadText, ZoneOf, TailText;
    if z != "" && |h| < capacity < |h| + 6 {
      assert Kept(r, capacity)[|h|] == (h + "" + t)[|h|] == ' ';
      assert Render(r)[|h|] == z[0];
    } else if |h| >= capacity {
      assert Cut(h + z + t, capacity) == h[..capacity] == Cut(h + "" + t, capacity);
    }
  }

  ghost predicate Clean(capacity: nat) {
    forall r | RecordOk(r) :: Kept(r, capacity) == Cut(Render(r), capacity)
  }

  lemma HeadLength(r: Record)
    requires RecordOk(r) && Shown(r)
    ensures var n := r.facility * 8 + r.severity;
      |HeadText(r)| == 23 + (if n < 10 then 1 else if n < 100 then 2 else 3) + |FractionText(r.nsec / 1000)|
  {
    var n := r.facility * 8 + r.severity;
    assert Pow10(1) == 10 && Pow10(2) == 100 && Pow10(3) == 1000;
    hide ClockText, FractionText, Fixed;
    if n < 10 {
      assert Number(n, 2) == Number(n, 1) == Number(n, 0);
    } else if n < 100 {
      assert Number(n, 2) == Number(n, 1);
    }
  }

  /** A record whose head is this long. */
  function Sample(n: nat): Record
    requires n in {24, 29, 33}
  {
    Record(if n == 33 then 23 else 0, 0, Some(Tm(2000, 0, 1, 0, 0, 0, "+0100")),
           if n == 24 then 0 else if n == 29 then 123400000 else 123456000, "h", "a", "p", "m", [], "")
  }

  lemma SampleFraction()
    ensures |FractionText(0)| == 0 && |FractionText(123400)| == 5 && |FractionText(123456)| == 7
  {
    assert Pow10(4) == 10000 && Pow10(5) == 100000 && Pow10(6) == 1000000;
    hide Fixed;
    assert FractionDigits(123400, 5) == FractionDigits(12340, 4) == FractionDigits(1234, 3);
  }

  lemma SampleOk(n: nat)
    requires n in {24, 29, 33}
    ensures RecordOk(Sample(n)) && Shown(Sample(n))
    ensures Sample(n).nsec / 1000 == if n == 24 then 0 else if n == 29 then 123400 else 123456
  {
    assert ZoneOk("+0100");
  }

  lemma SampleLength(n: nat)
    requires n in {24, 29, 33}
    ensures RecordOk(Sample(n)) && |HeadText(Sample(n))| == n && ZoneOf(Sample(n)) != ""
  {
    hide FractionText, HeadText;
    SampleOk(n);
    SampleFraction();
    HeadLength(Sample(n));
  }

  /** Every record is truncated cleanly exactly for capacities up to 24 and from 39 on. */
  lemma CleanForAllIff(capacity: nat)
    ensures Clean(capacity) <==> capacity <= 24 || capacity >= 39
  {
    if capacity <= 24 || capacity >= 39 {
      forall r | RecordOk(r) ensures Kept(r, capacity) == Cut(Render(r), capacity) {
        CleanIff(r, capacity);
        if Shown(r) { HeadLength(r); }
      }
    } else {
      var n := if capacity < 30 then 24 else if capacity < 35 then 29 else 33;
      SampleLength(n);
      CleanIff(Sample(n), capacity);
    }
  }
}
