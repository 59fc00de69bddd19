/** A USRBUF chain and the NCS_UBAID that encodes into it and decodes from it. */
module UsrBuf {
  import opened SeqFacts
  import opened EduModel

  const PAYLOAD_BUF_SIZE: nat := 8000

  /** One link: where its data starts in the payload, the data, and whether the payload has other users. */
  datatype Link = Link(start: nat, bytes: seq<byte>, shared: bool)

  /** The octets of a chain. */
  function Flat(links: seq<Link>): seq<byte> {
    if links == [] then [] else Flat(links[..|links| - 1]) + links[|links| - 1].bytes
  }

  lemma FlatLast(links: seq<Link>, last: Link)
    ensures Flat(links + [last]) == Flat(links) + last.bytes
  {
    assert (links + [last])[..|links|] == links;
  }

  lemma {:induction false} FlatFirst(first: Link, links: seq<Link>)
    ensures Flat([first] + links) == first.bytes + Flat(links)
  {
    var all := [first] + links;
    if links == [] {
      assert all[..0] == [];
    } else {
      assert all[..|all| - 1] == [first] + links[..|links| - 1];
      FlatFirst(first, links[..|links| - 1]);
      Assoc(first.bytes, Flat(links[..|links| - 1]), links[|links| - 1].bytes);
    }
  }

  /** Every front part of a chain holds a front part of its octets. */
  lemma {:induction false} FlatPrefix(links: seq<Link>, i: nat)
    requires i <= |links|
    ensures Flat(links[..i]) <= Flat(links)
    decreases |links| - i
  {
    if i < |links| {
      FlatPrefix(links, i + 1);
      OneLink(links, i);
    } else {
      assert links[..i] == links;
    }
  }

  lemma OneLink(links: seq<Link>, i: nat)
    requires i < |links|
    ensures Flat(links[..i + 1]) == Flat(links[..i]) + links[i].bytes
  {
    assert links[..i + 1] == links[..i] + [links[i]];
    FlatLast(links[..i], links[i]);
  }

  function Zeros(n: nat): (z: seq<byte>)
    ensures |z| == n && forall i :: 0 <= i < n ==> z[i] == 0
  {
    if n == 0 then [] else [0] + Zeros(n - 1)
  }

  /** A null source stands for zeros. */
  function Source(os: Option<seq<byte>>, count: nat): (s: seq<byte>)
    requires os.Some? ==> count <= |os.value|
    ensures |s| == count
  {
    if os.Some? then os.value[..count] else Zeros(count)
  }

  lemma SourcePart(os: Option<seq<byte>>, count: nat, k: nat, n: nat)
    requires (os.Some? ==> count <= |os.value|) && k + n <= count
    ensures Source(os, count)[k..k + n] == if os.Some? then os.value[k..k + n] else Zeros(n)
  {
  }

  /** header and trailer are what the pool keeps free in each payload. */
  class Uba {
    const header: nat
    const trailer: nat
    var links: seq<Link>
    var ttl: int

    /** Space in a link just allocated. */
    function Fresh(): int {
      PAYLOAD_BUF_SIZE - (trailer + header)
    }

    function SpaceLeft(l: Link): int {
      PAYLOAD_BUF_SIZE - (trailer + l.start + |l.bytes|)
    }

    ghost predicate Valid()
      reads this
    {
      links != [] && forall i :: 0 <= i < |links| ==> links[i].start >= header
    }

    ghost function Data(): seq<byte>
      reads this
    {
      Flat(links)
    }

    constructor (header: nat, trailer: nat)
      ensures Valid() && Data() == [] && ttl == 0 && this.header == header && this.trailer == trailer
    {
      this.header, this.trailer := header, trailer;
      links, ttl := [Link(header, [], false)], 0;
      new;
      assert links == [] + [links[0]];
      FlatLast([], links[0]);
    }

    /** The pair sysf_reserve_at_end_amap and memcpy: take room for as much of data as fits, or for all of it. */
    method Append(data: seq<byte>, total: bool) returns (got: nat)
      requires Valid() && Fresh() >= if total then |data| else 1
      modifies this`links
      ensures Valid() && got <= |data| && (total ==> got == |data|) && (data != [] ==> got > 0)
      ensures Data() == old(Data()) + data[..got]
    {
      var last := links[|links| - 1];
      var least := if total then |data| else 1;
      var front := links[..|links| - 1];
      assert links == front + [last];
      FlatLast(front, last);
      if last.shared || SpaceLeft(last) < least {
        front, last := links, Link(header, [], false);
      }
      var space := SpaceLeft(last);
      got := if space < |data| then space else |data|;
      links := front + [last.(bytes := last.bytes + data[..got])];
      FlatLast(front, last.(bytes := last.bytes + data[..got]));
    }

    /** ncs_encode_n_octets_in_uba: exactly the source goes in, however the chain splits it up. */
    method EncodeOctets(os: Option<seq<byte>>, count: nat)
      requires Valid() && Fresh() >= 1 && (os.Some? ==> count <= |os.value|)
      modifies this`links, this`ttl
      ensures Valid() && Data() == old(Data()) + Source(os, count) && ttl == old(ttl) + count
    {
      hide Flat;
      ghost var source := Source(os, count);
      var remaining: nat := count;
      assert source[..0] == [];
      while remaining > 0
        invariant remaining <= count && Valid() && ttl == old(ttl)
        invariant Data() == old(Data()) + source[..count - remaining]
      {
        ghost var done := count - remaining;
        var rest := if os.Some? then os.value[count - remaining..count] else Zeros(remaining);
        SourcePart(os, count, done, remaining);
        var put := Append(rest, false);
        remaining := remaining - put;
        assert rest[..put] == source[done..done + put];
        Whole(source, done, put);
        Assoc(old(Data()), source[..done], rest[..put]);
      }
      assert source[..count] == source;
      ttl := ttl + count;
    }

    /** ncs_encode_n_octets: whole payloads at a time; false stands for the assertion that a reservation fits. */
    method EncodeInPayloads(os: Option<seq<byte>>, count: nat) returns (ok: bool)
      requires Valid() && (os.Some? ==> count <= |os.value|)
      modifies this`links
      ensures Valid() && ok == (Fresh() >= if count > PAYLOAD_BUF_SIZE then PAYLOAD_BUF_SIZE else count)
      ensures Data() == if ok then old(Data()) + Source(os, count) else old(Data())
    {
      hide Flat;
      ghost var source := Source(os, count);
      var remaining: nat, offset: nat := count, 0;
      var n := if remaining > PAYLOAD_BUF_SIZE then PAYLOAD_BUF_SIZE else remaining;
      var first := true;
      assert source[..0] == [];
      while first || remaining > 0
        invariant remaining + offset == count && Valid() && (first ==> offset == 0)
        invariant n == if remaining > PAYLOAD_BUF_SIZE then PAYLOAD_BUF_SIZE else remaining
        invariant !first ==> Fresh() >= if count > PAYLOAD_BUF_SIZE then PAYLOAD_BUF_SIZE else count
        invariant Data() == old(Data()) + source[..offset]
        decreases first, remaining
      {
        if Fresh() < n { return false; }
        var part := if os.Some? then os.value[offset..offset + n] else Zeros(n);
        SourcePart(os, count, offset, n);
        assert part[..|part|] == part;
        Whole(source, offset, n);
        var put := Append(part, true);
        Assoc(old(Data()), source[..offset], part);
        remaining, offset, first := remaining - n, offset + n, false;
        n := if remaining > PAYLOAD_BUF_SIZE then PAYLOAD_BUF_SIZE else remaining;
      }
      assert source[..count] == source;
      return true;
    }

    /** Reserve, write and claim: the whole of data, which must fit one payload. */
    method Put(data: seq<byte>)
      requires Valid() && Fresh() >= |data|
      modifies this`links, this`ttl
      ensures Valid() && Data() == old(Data()) + data && ttl == old(ttl) + |data|
    {
      var got := Append(data, true);
      assert data[..got] == data;
      ttl := ttl + got;
    }

    /** sysf_remove_from_start: the octets are consumed across links. */
    method Skip(count: nat)
      requires count <= |Data()|
      modifies this`links, this`ttl
      ensures Data() == old(Data())[count..] && ttl == old(ttl) + count
    {
      var n: nat := count;
      ghost var gone: seq<byte> := [];
      while links != [] && n > 0
        invariant ttl == old(ttl) && |gone| + n == count && old(Data()) == gone + Data()
        decreases |links|, n
      {
        var first, rest := links[0], links[1..];
        assert links == [first] + rest;
        FlatFirst(first, rest);
        if |first.bytes| > n {
          var first' := Link(first.start + n, first.bytes[n..], first.shared);
          FlatFirst(first', rest);
          assert first.bytes == first.bytes[..n] + first.bytes[n..];
          Regroup(gone, first.bytes[..n], first.bytes[n..], Flat(rest));
          gone := gone + first.bytes[..n];
          links, n := [first'] + rest, 0;
        } else {
          Assoc(gone, first.bytes, Flat(rest));
          gone := gone + first.bytes;
          links, n := rest, n - |first.bytes|;
        }
      }
      ttl := ttl + count;
    }

    /** sysf_data_at_start: what is wanted may be spread over several links. */
    method Flatten(count: nat) returns (os: seq<byte>)
      requires count <= |Data()|
      ensures os == Data()[..count]
    {
      hide Flat;
      var i := 0;
      assert Flat(links[..0]) == [] by { NoLinks(links); }
      while i < |links| && links[i].bytes == []
        invariant i <= |links| && Flat(links[..i]) == []
      {
        OneLink(links, i);
        i := i + 1;
      }
      os := [];
      var size: nat := count;
      while i < |links| && |links[i].bytes| < size
        invariant i <= |links| && os == Flat(links[..i]) && |os| + size == count && os <= Data()
      {
        OneLink(links, i);
        FlatPrefix(links, i + 1);
        os, size := os + links[i].bytes, size - |links[i].bytes|;
        i := i + 1;
      }
      if i < |links| {
        OneLink(links, i);
        FlatPrefix(links, i + 1);
        os := os + links[i].bytes[..size];
      } else {
        assert links[..i] == links;
      }
    }

    /** ncs_decode_n_octets_from_uba. */
    method DecodeOctets(count: nat) returns (os: seq<byte>)
      requires count <= |Data()|
      modifies this`links, this`ttl
      ensures os == old(Data())[..count] && Data() == old(Data())[count..] && ttl == old(ttl) + count
    {
      os := Flatten(count);
      Skip(count);
    }
  }

  lemma NoLinks(links: seq<Link>)
    ensures Flat(links[..0]) == []
  {
  }

  lemma Whole(s: seq<byte>, k: nat, n: nat)
    requires k + n <= |s|
    ensures s[..k] + s[k..k + n] == s[..k + n]
  {
  }

  lemma Regroup(a: seq<byte>, b: seq<byte>, c: seq<byte>, d: seq<byte>)
    ensures a + ((b + c) + d) == (a + b) + (c + d)
  {
  }
}
