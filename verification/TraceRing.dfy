/** The circular trace buffer as a value: its slots from the next one to be overwritten round to the newest. */
module TraceRing {

  const PREFIX := "1qaz2wsx"
  const MAX_TRACE: nat := 248

  /** What is stored for a trace line: its last character makes way for a newline it lacks. */
  function Entry(trace: string): (r: string)
    requires trace != ""
    ensures |r| > |PREFIX|
  {
    var kept := PREFIX + if |trace| > MAX_TRACE then trace[..MAX_TRACE] else trace;
    if trace[|trace| - 1] != '\n' then kept[..|kept| - 1] + "\n" else kept
  }

  /** A stored line ends in a newline unless the trace was cut off before its own. */
  lemma NewlineIff(trace: string)
    requires trace != ""
    ensures Entry(trace)[|Entry(trace)| - 1] == '\n' <==>
      trace[|trace| - 1] != '\n' || |trace| <= MAX_TRACE || trace[MAX_TRACE - 1] == '\n'
  {
  }

  /** And it holds the whole trace exactly when that ends in a newline and was short enough. */
  lemma WholeIff(trace: string)
    requires trace != ""
    ensures Entry(trace) == PREFIX + trace <==> trace[|trace| - 1] == '\n' && |trace| <= MAX_TRACE
  {
    var r := Entry(trace);
    if |trace| <= MAX_TRACE && trace[|trace| - 1] != '\n' {
      assert (PREFIX + trace)[|PREFIX| + |trace| - 1] == trace[|trace| - 1];
    } else if |trace| > MAX_TRACE {
      assert |r| < |PREFIX + trace|;
    }
  }

  datatype Event = Put(trace: string) | Flush

  function Blanks(n: nat): (r: seq<string>)
    ensures |r| == n && forall i :: 0 <= i < n ==> r[i] == ""
  {
    if n == 0 then [] else [""] + Blanks(n - 1)
  }

  function Concat(s: seq<string>): string {
    if s == [] then "" else s[0] + Concat(s[1..])
  }

  /** An empty trace is refused after its slot, the oldest, has been overwritten. */
  function Stored(ring: seq<string>, trace: string): (r: seq<string>)
    requires ring != []
    ensures |r| == |ring|
  {
    if trace == "" then ring[0 := PREFIX] else ring[1..] + [Entry(trace)]
  }

  /** The slots after a run that began with all of them empty. */
  function Ring(n: nat, es: seq<Event>): (r: seq<string>)
    requires n > 0
    ensures |r| == n
  {
    if es == [] then Blanks(n)
    else match es[|es| - 1]
      case Put(trace) => Stored(Ring(n, es[..|es| - 1]), trace)
      case Flush => Blanks(n)
  }

  /** Everything handed to the writer during a run. */
  function Handed(n: nat, es: seq<Event>): string
    requires n > 0
  {
    if es == [] then ""
    else
      var front := es[..|es| - 1];
      Handed(n, front) + if es[|es| - 1].Flush? then Concat(Ring(n, front)) else ""
  }

  /** The lines stored since the last flush; empty traces store none. */
  function Since(es: seq<Event>): (r: seq<string>)
    ensures forall i :: 0 <= i < |r| ==> |r[i]| > |PREFIX|
  {
    if es == [] || es[|es| - 1].Flush? then []
    else Since(es[..|es| - 1]) + if es[|es| - 1].trace == "" then [] else [Entry(es[|es| - 1].trace)]
  }

  /** The last thing that happened was a refused write. */
  predicate Refused(es: seq<Event>) {
    es != [] && es[|es| - 1] == Put("")
  }

  function Last(s: seq<string>, n: nat): (r: seq<string>)
    ensures |r| <= n && |r| <= |s|
  {
    if |s| <= n then s else s[|s| - n..]
  }

  function Tidy(n: nat, lines: seq<string>): (r: seq<string>)
    ensures |r| == n
  {
    Blanks(n - |Last(lines, n)|) + Last(lines, n)
  }

  /**
    After any run the slots are the last n lines since the previous flush, in order, behind empty ones;
    a refused write shows only while it is the last event, as a bare prefix in the slot that was to go next.
   */
  lemma {:induction false} RingIsLast(n: nat, es: seq<Event>)
    requires n > 0
    ensures Ring(n, es) == if Refused(es) then Tidy(n, Since(es))[0 := PREFIX] else Tidy(n, Since(es))
  {
    if es == [] || es[|es| - 1].Flush? {
      assert Blanks(n) == Blanks(n) + [];
    } else {
      var front := es[..|es| - 1];
      var trace := es[|es| - 1].trace;
      RingIsLast(n, front);
      Unfold(n, es);
      if trace == "" {
        assert Since(es) == Since(front);
      } else {
        var e := Entry(trace);
        hide Entry, Ring, Blanks;
        Push(n, Since(front), e);
        assert Ring(n, front)[1..] == Tidy(n, Since(front))[1..];
      }
    }
  }

  lemma Unfold(n: nat, es: seq<Event>)
    requires n > 0 && es != [] && es[|es| - 1].Put?
    ensures Ring(n, es) == Stored(Ring(n, es[..|es| - 1]), es[|es| - 1].trace)
  {
  }

  /** What one more event does to a run. */
  lemma OneMore(n: nat, es: seq<Event>, e: Event)
    requires n > 0
    ensures Ring(n, es + [e]) == if e.Put? then Stored(Ring(n, es), e.trace) else Blanks(n)
    ensures Handed(n, es + [e]) == Handed(n, es) + if e.Flush? then Concat(Ring(n, es)) else ""
  {
    assert (es + [e])[..|es|] == es;
  }

  lemma Push(n: nat, s: seq<string>, e: string)
    requires n > 0
    ensures Tidy(n, s)[1..] + [e] == Tidy(n, s + [e])
  {
    var ring := Blanks(n - |Last(s, n)|) + Last(s, n);
    if |s| < n {
      assert s == Last(s, n) && s + [e] == Last(s + [e], n);
      assert ring[1..] + [e] == Blanks(n - |s| - 1) + (s + [e]);
    } else {
      assert Last(s + [e], n) == Last(s, n)[1..] + [e];
    }
  }

  lemma {:induction false} ConcatBlanks(k: nat, s: seq<string>)
    ensures Concat(Blanks(k) + s) == Concat(s)
  {
    if k == 0 {
      assert Blanks(k) + s == s;
    } else {
      ConcatBlanks(k - 1, s);
      assert (Blanks(k) + s)[1..] == Blanks(k - 1) + s;
    }
  }

  lemma TidyTail(n: nat, lines: seq<string>)
    requires n > 0
    ensures Tidy(n, lines)[1..] == if |lines| < n then Blanks(n - |lines| - 1) + lines else Last(lines, n)[1..]
  {
    if |lines| >= n {
      assert Tidy(n, lines) == Last(lines, n);
    }
  }

  lemma TidyText(n: nat, lines: seq<string>)
    requires n > 0
    ensures Concat(Tidy(n, lines)) == Concat(Last(lines, n))
    ensures Concat(Tidy(n, lines)[1..]) == Concat(if |lines| < n then lines else Last(lines, n)[1..])
  {
    hide Concat, Tidy, Blanks;
    TidyTail(n, lines);
    if |lines| < n {
      ConcatBlanks(n - |lines| - 1, lines);
    }
    assert Concat(Tidy(n, lines)) == Concat(Last(lines, n)) by { Whole(n, lines); }
  }

  lemma Whole(n: nat, lines: seq<string>)
    requires n > 0
    ensures Concat(Tidy(n, lines)) == Concat(Last(lines, n))
  {
    ConcatBlanks(n - |Last(lines, n)|, Last(lines, n));
  }

  lemma Spoil(ring: seq<string>)
    requires ring != []
    ensures Concat(ring[0 := PREFIX]) == PREFIX + Concat(ring[1..])
  {
    assert ring[0 := PREFIX][1..] == ring[1..];
  }

  /** What a flush hands over, whatever the run before it. */
  lemma FlushHands(n: nat, es: seq<Event>)
    requires n > 0
    ensures var lines := Since(es);
      Handed(n, es + [Flush]) == Handed(n, es) +
        if Refused(es) then PREFIX + Concat(if |lines| < n then lines else Last(lines, n)[1..])
          else Concat(Last(lines, n))
    ensures Since(es + [Flush]) == []
  {
    OneMore(n, es, Flush);
    RingIsLast(n, es);
    TidyText(n, Since(es));
    Spoil(Tidy(n, Since(es)));
    assert (es + [Flush])[|es|] == Flush;
  }

  /**
    A flush hands the writer exactly the last n lines stored since the flush before it if and only if no refused write
    came just before.
   */
  lemma FlushHandsIff(n: nat, es: seq<Event>)
    requires n > 0
    ensures Handed(n, es + [Flush]) == Handed(n, es) + Concat(Last(Since(es), n)) <==> !Refused(es)
  {
    FlushHands(n, es);
    hide Since, Ring, Handed;
    var lines := Since(es);
    if Refused(es) {
      var was := Handed(n, es);
      var good := Concat(Last(lines, n));
      var got := PREFIX + Concat(if |lines| < n then lines else Last(lines, n)[1..]);
      if |lines| >= n {
        assert good == Last(lines, n)[0] + Concat(Last(lines, n)[1..]);
      }
      assert |good| != |got|;
      assert |was + good| != |was + got|;
    }
  }

  /** A refused write leaves no trace once another line has been stored. */
  lemma NextWriteHeals(n: nat, es: seq<Event>, trace: string)
    requires n > 0 && trace != ""
    ensures Ring(n, es + [Put(""), Put(trace)]) == Ring(n, es + [Put(trace)])
  {
    hide Ring, Handed, Entry;
    OneMore(n, es, Put(""));
    OneMore(n, es, Put(trace));
    OneMore(n, es + [Put("")], Put(trace));
    assert es + [Put("")] + [Put(trace)] == es + [Put(""), Put(trace)];
    assert Ring(n, es)[0 := PREFIX][1..] == Ring(n, es)[1..];
  }
}
