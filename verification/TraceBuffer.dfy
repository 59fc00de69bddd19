/** LogTraceBuffer: the circular buffer in front of a LogWriter. */
module TraceBuffer {
  import opened SeqFacts
  import opened TraceRing
  import opened LogWriter

  class Buffer {
    const slots: array<string>
    const writer: Writer
    var index: nat
    var flushRequired: bool
    ghost const base: string
    ghost var history: seq<Event>

    ghost predicate Valid()
      reads this, slots, writer, writer.buffer
    {
      slots.Length > 0 && index < slots.Length && writer.Valid()
    }

    /** Slots and writer are what the run so far makes of them. */
    ghost predicate Tracked()
      requires Valid()
      reads this, slots, writer, writer.buffer
    {
      Slots() == Ring(slots.Length, history) && writer.Taken() == base + Handed(slots.Length, history)
    }

    /** The slots, oldest first. */
    ghost function Slots(): (r: seq<string>)
      requires index < slots.Length
      reads this`index, slots
      ensures |r| == slots.Length
    {
      slots[index..] + slots[..index]
    }

    constructor (size: nat, writer: Writer)
      requires size > 0 && writer.Valid()
      ensures Valid() && this.writer == writer && slots.Length == size && fresh(slots) && !flushRequired
      ensures Tracked() && history == [] && base == writer.Taken()
    {
      this.writer := writer;
      slots := new string[size](_ => "");
      index, flushRequired := 0, false;
      base, history := writer.Taken(), [];
    }

    /** Hand slot i to the writer, if there is anything in it, and empty it. */
    method Hand(i: nat)
      requires Valid() && i < slots.Length
      modifies slots, writer, writer.buffer
      ensures Valid() && slots[..] == old(slots[..])[i := ""] && writer.Taken() == old(writer.Taken() + slots[i])
    {
      if |slots[i]| > 0 {
        writer.Write(slots[i]);
        slots[i] := "";
      }
    }

    /** Hand slots lo to hi to the writer and empty them. */
    method FlushRange(lo: nat, hi: nat)
      requires Valid() && lo <= hi <= slots.Length
      modifies slots, writer, writer.buffer
      ensures Valid()
      ensures slots[..lo] == old(slots[..lo]) && slots[hi..] == old(slots[hi..]) && forall i :: lo <= i < hi ==>
        slots[i] == ""
      ensures writer.Taken() == old(writer.Taken()) + Concat(old(slots[lo..hi]))
    {
      hide Writer.Valid, Writer.Taken;
      var i := lo;
      ghost var start, todo := writer.Taken(), slots[lo..hi];
      while i < hi
        invariant lo <= i <= hi && Valid()
        invariant slots[..lo] == old(slots[..lo]) && slots[i..] == old(slots[i..]) && forall j :: lo <= j < i ==>
          slots[j] == ""
        invariant start + Concat(todo) == writer.Taken() + Concat(slots[i..hi])
      {
        ghost var was, rest := writer.Taken(), slots[i + 1..hi];
        assert slots[i..hi][1..] == rest;
        Assoc(was, slots[i], Concat(rest));
        Hand(i);
        i := i + 1;
        assert slots[i..hi] == rest;
      }
      assert slots[hi..hi] == [];
    }

    /** The right half first, then the left. */
    method HandAll()
      requires Valid()
      modifies slots, writer, writer.buffer
      ensures Valid() && Slots() == Blanks(slots.Length)
      ensures writer.Taken() == old(writer.Taken()) + Concat(old(Slots()))
    {
      hide Writer.Valid, Writer.Taken, Concat, Blanks;
      ghost var right, left := slots[index..], slots[..index];
      ghost var start := writer.Taken();
      assert slots[index..slots.Length] == right;
      FlushRange(index, slots.Length);
      assert slots[0..index] == left;
      ghost var mid := slots[index..];
      FlushRange(0, index);
      assert slots[index..] == mid && slots[..index] == slots[0..index];
      ConcatAppend(right, left);
      Assoc(start, Concat(right), Concat(left));
      assert Slots() == Blanks(slots.Length) by { assert forall i :: 0 <= i < |mid| ==> mid[i] == ""; }
    }

    /** Everything stored goes to the file, oldest first, and the slots are empty. */
    method FlushBuffer()
      requires Valid() && Tracked()
      modifies this`flushRequired, this`history, slots, writer, writer.buffer
      ensures Valid() && !flushRequired && Slots() == Blanks(slots.Length)
      ensures writer.Pending() == "" && writer.flushed == old(writer.Taken()) + Concat(old(Slots()))
      ensures Tracked() && history == old(history) + [Flush]
    {
      hide Slots, Concat, Ring, Handed, Blanks, Writer.Disk;
      HandAll();
      writer.Flush();
      flushRequired := false;
      OneMore(slots.Length, history, Flush);
      Assoc(base, Handed(slots.Length, history), Concat(Ring(slots.Length, history)));
      history := history + [Flush];
    }

    /** Put the trace into the next slot; an empty one raises an exception half way. */
    method Store(trace: string) returns (ok: bool)
      requires index < slots.Length
      modifies this`index, slots
      ensures index < slots.Length && ok == (trace != "") && Slots() == Stored(old(Slots()), trace)
    {
      hide Entry;
      ghost var before := Slots();
      var length := |trace|;
      if length > MAX_TRACE { length := MAX_TRACE; }
      slots[index] := PREFIX + trace[..length];
      if trace == "" {
        assert slots[index] == PREFIX;
        assert Slots() == before[0 := PREFIX];
        return false;
      }
      length := |slots[index]|;
      if trace[|trace| - 1] != '\n' { slots[index] := slots[index][..length - 1] + "\n"; }
      assert slots[index] == Entry(trace) by { EntryIs(trace); }
      index := index + 1;
      if index == slots.Length { index := 0; }
      assert Slots() == before[1..] + [Entry(trace)];
      return true;
    }

    /** WriteToBuffer; ok is false for the exception.  A requested flush follows at once. */
    method WriteToBuffer(trace: string) returns (ok: bool)
      requires Valid() && Tracked()
      modifies this`index, this`flushRequired, this`history, slots, writer, writer.buffer
      ensures Valid() && ok == (trace != "")
      ensures Tracked() && history == old(history) + if ok && old(flushRequired) then [Put(trace), Flush]
        else [Put(trace)]
      ensures flushRequired == (!ok && old(flushRequired))
    {
      hide Stored, Slots, Ring, Handed;
      ok := Store(trace);
      OneMore(slots.Length, history, Put(trace));
      history := history + [Put(trace)];
      assert Handed(slots.Length, history) == Handed(slots.Length, old(history)) + "" ==
        Handed(slots.Length, old(history));
      if ok && flushRequired { FlushBuffer(); }
    }

    method SetFlush(flush: bool)
      requires Valid() && Tracked()
      modifies this`flushRequired
      ensures Valid() && Tracked() && flushRequired == flush
    {
      flushRequired := flush;
    }
  }

  lemma EntryIs(trace: string)
    requires trace != ""
    ensures var kept := PREFIX + trace[..if |trace| > MAX_TRACE then MAX_TRACE else |trace|];
      Entry(trace) == if trace[|trace| - 1] != '\n' then kept[..|kept| - 1] + "\n" else kept
  {
    if |trace| <= MAX_TRACE { assert trace[..|trace|] == trace; }
  }

  lemma {:induction false} ConcatAppend(a: seq<string>, b: seq<string>)
    ensures Concat(a + b) == Concat(a) + Concat(b)
  {
    if a == [] {
      assert a + b == b;
    } else {
      ConcatAppend(a[1..], b);
      assert (a + b)[1..] == a[1..] + b;
      Assoc(a[0], Concat(a[1..]), Concat(b));
    }
  }
}
