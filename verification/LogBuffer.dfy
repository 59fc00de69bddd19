/** Decimal text and the bounded buffer log records are written to. */
module LogBuffer {
  import opened SeqFacts

  // ---------- decimal numbers ----------

  function Pow10(k: nat): (p: nat)
    ensures p > 0
  {
    if k == 0 then 1 else 10 * Pow10(k - 1)
  }

  predicate IsDigit(c: char) {
    '0' <= c <= '9'
  }

  ghost predicate AllDigits(s: string) {
    forall i :: 0 <= i < |s| ==> IsDigit(s[i])
  }

  function DigitChar(d: nat): (c: char)
    requires d < 10
    ensures IsDigit(c) && DigitValue(c) == d
  {
    (('0' as int) + d) as char
  }

  function DigitValue(c: char): nat {
    if IsDigit(c) then c as int - '0' as int else 0
  }

  /** n in k + 1 decimal digits. */
  function Fixed(n: nat, k: nat): (r: string)
    requires n < Pow10(k + 1)
    ensures |r| == k + 1 && AllDigits(r)
  {
    if k == 0 then
      assert Pow10(1) == 10;
      [DigitChar(n)]
    else Fixed(n / 10, k - 1) + [DigitChar(n % 10)]
  }

  /** n without needless leading zeros, in at most k + 1 digits. */
  function Number(n: nat, k: nat): (r: string)
    requires n < Pow10(k + 1)
    ensures r != "" && |r| <= k + 1 && AllDigits(r)
  {
    if k != 0 && Pow10(k) > n then Number(n, k - 1) else Fixed(n, k)
  }

  /** The number a string of digits denotes. */
  function Value(s: string): nat {
    if s == "" then 0 else 10 * Value(s[..|s| - 1]) + DigitValue(s[|s| - 1])
  }

  lemma {:induction false} ValueCons(c: char, s: string)
    requires IsDigit(c) && AllDigits(s)
    ensures AllDigits([c] + s) && Value([c] + s) == DigitValue(c) * Pow10(|s|) + Value(s)
  {
    var t := [c] + s;
    if s == "" {
      assert t[..0] == "";
    } else {
      assert t[..|t| - 1] == [c] + s[..|s| - 1];
      ValueCons(c, s[..|s| - 1]);
      Shift(DigitValue(c), Pow10(|s| - 1));
    }
  }

  lemma Shift(d: nat, p: nat)
    ensures 10 * (d * p) == d * (10 * p)
  {
  }

  /** Fixed(n, k) is the one string of k + 1 digits that denotes n. */
  lemma {:induction false} FixedIff(n: nat, k: nat, s: string)
    requires n < Pow10(k + 1) && |s| == k + 1 && AllDigits(s)
    ensures s == Fixed(n, k) <==> Value(s) == n
  {
    var front, c := s[..k], s[k];
    assert s == front + [c];
    if k == 0 {
      assert front == "" && Pow10(1) == 10;
    } else {
      FixedIff(n / 10, k - 1, front);
      assert s == Fixed(n, k) <==> front == Fixed(n / 10, k - 1) && c == DigitChar(n % 10);
    }
  }

  lemma FixedValue(n: nat, k: nat)
    requires n < Pow10(k + 1)
    ensures Value(Fixed(n, k)) == n
  {
    FixedIff(n, k, Fixed(n, k));
  }

  /** Number denotes n, and starts with a zero only when it is "0". */
  lemma {:induction false} NumberValue(n: nat, k: nat)
    requires n < Pow10(k + 1)
    ensures Value(Number(n, k)) == n && (Number(n, k)[0] == '0' ==> Number(n, k) == "0")
  {
    if k != 0 && Pow10(k) > n {
      NumberValue(n, k - 1);
    } else {
      FixedValue(n, k);
      if k != 0 { FirstDigit(n, k); }
    }
  }

  lemma {:induction false} FirstDigit(n: nat, k: nat)
    requires Pow10(k) <= n < Pow10(k + 1)
    ensures Fixed(n, k)[0] != '0'
  {
    if k > 0 { FirstDigit(n / 10, k - 1); }
  }

  lemma TopDigit(n: nat, p: nat)
    requires p > 0 && n < 10 * p
    ensures n / p < 10 && n % p < p
  {
  }

  lemma Remainder(n: nat, p: nat)
    requires p > 0
    ensures n == (n / p) * p + n % p && n - (n / p) * p == n % p
  {
  }

  /** The digits can as well be taken from the front, with a power of ten that shrinks. */
  lemma FixedFront(n: nat, k: nat, d: nat, m: nat)
    requires k > 0 && n < Pow10(k + 1) && d < 10 && m < Pow10(k) && n == d * Pow10(k) + m
    ensures Fixed(n, k) == [DigitChar(d)] + Fixed(m, k - 1)
  {
    FixedValue(m, k - 1);
    ValueCons(DigitChar(d), Fixed(m, k - 1));
    FixedIff(n, k, [DigitChar(d)] + Fixed(m, k - 1));
  }

  // ---------- the buffer ----------

  /** The first n characters. */
  function Cut(s: string, n: nat): (r: string)
    ensures |r| <= n && r <= s && (|s| <= n ==> r == s) && (|s| >= n ==> |r| == n)
  {
    if |s| <= n then s else s[..n]
  }

  lemma CutAppend(a: string, b: string, n: nat)
    ensures Cut(Cut(a, n) + b, n) == Cut(a + b, n)
  {
  }

  lemma OneDigit(n: nat, j: nat)
    requires n < Pow10(j + 1) && Pow10(j) == 1
    ensures j == 0 && n < 10 && Fixed(n, j) == [DigitChar(n)]
  {
    assert Pow10(1) == 10;
  }

  /** written is everything appended so far, as if there were no limit. */
  class Buffer {
    const capacity: nat
    const data: array<char>
    var size: nat
    ghost var written: string

    ghost predicate Valid()
      reads this, data
    {
      data.Length == capacity && size <= capacity && data[..size] == Cut(written, capacity)
    }

    constructor (capacity: nat)
      ensures Valid() && written == "" && this.capacity == capacity && fresh(data)
    {
      this.capacity := capacity;
      data := new char[capacity];
      size, written := 0, "";
    }

    method AppendChar(c: char)
      requires Valid()
      modifies this`size, this`written, data
      ensures Valid() && written == old(written) + [c]
    {
      ghost var was := data[..size];
      if size != capacity {
        data[size] := c;
        size := size + 1;
        assert data[..size] == was + [c];
      }
      written := written + [c];
      CutAppend(old(written), [c], capacity);
    }

    method AppendFixedWidthNumber(number: nat, power: nat, ghost k: nat)
      requires Valid() && power == Pow10(k) && number < Pow10(k + 1)
      modifies this`size, this`written, data
      ensures Valid() && written == old(written) + Fixed(number, k)
    {
      hide Cut, Fixed;
      var n: nat, p: nat := number, power;
      ghost var j: nat := k;
      while p != 1
        invariant p == Pow10(j) && n < Pow10(j + 1) && Valid()
        invariant written + Fixed(n, j) == old(written) + Fixed(number, k)
        decreases j
      {
        var digit: nat := n / p;
        assert j > 0 && p == 10 * Pow10(j - 1);
        TopDigit(n, p);
        Remainder(n, p);
        FixedFront(n, j, digit, n - digit * p);
        Assoc(written, [DigitChar(digit)], Fixed(n - digit * p, j - 1));
        AppendChar(DigitChar(digit));
        n := n - digit * p;
        p := p / 10;
        j := j - 1;
      }
      OneDigit(n, j);
      AppendChar(DigitChar(n / p));
    }

    method AppendNumber(number: nat, power: nat, ghost k: nat)
      requires Valid() && power == Pow10(k) && number < Pow10(k + 1)
      modifies this`size, this`written, data
      ensures Valid() && written == old(written) + Number(number, k)
    {
      var p := power;
      ghost var j := k;
      while p != 1 && p > number
        invariant p == Pow10(j) && number < Pow10(j + 1) && Number(number, k) == Number(number, j)
        decreases j
      {
        p := p / 10;
        j := j - 1;
      }
      AppendFixedWidthNumber(number, p, j);
    }

    method AppendString(s: string)
      requires Valid()
      modifies this`size, this`written, data
      ensures Valid() && written == old(written) + s
    {
      ghost var was := data[..size];
      var n := capacity - size;
      if |s| < n { n := |s|; }
      forall i | 0 <= i < n { data[size + i] := s[i]; }
      size := size + n;
      assert data[..size] == was + s[..n];
      written := written + s;
      CutAppend(old(written), s, capacity);
    }

    /** The zone text is put at the end of the buffer and a colon worked into it there. */
    method AppendZone(zone: string)
      requires Valid() && |zone| == 5 && capacity - size >= 6
      modifies this`size, this`written, data
      ensures Valid() && written == old(written) + zone[..3] + ":" + zone[3..]
    {
      ghost var was := data[..size];
      forall i | 0 <= i < 5 { data[size + i] := zone[i]; }
      data[size + 5] := data[size + 4];
      data[size + 4] := data[size + 3];
      data[size + 3] := ':';
      size := size + 6;
      ghost var text := zone[..3] + ":" + zone[3..];
      assert data[..size] == was + text;
      written := written + text;
    }
  }
}
