/** SaNameT on the wire: a fixed block of 256 octets for short names, a counted string for long ones. */
module SaName {
  import opened SeqFacts
  import opened EduModel
  import opened UsrBuf

  const SA_MAX_UNEXTENDED_NAME_LENGTH: nat := 256

  /** A short name lives in the structure, a long one behind a pointer. */
  datatype Name = Inline(length: nat, value: seq<byte>) | Extended(str: seq<byte>)

  /** strlen, or the length if there is no NUL. */
  function StrLen(s: seq<byte>): (k: nat)
    ensures k <= |s| && (k < |s| ==> s[k] == 0)
    ensures forall i :: 0 <= i < k ==> s[i] != 0
  {
    if s == [] || s[0] == 0 then 0 else 1 + StrLen(s[1..])
  }

  lemma StrLenEnd(a: seq<byte>, b: seq<byte>)
    requires 0 !in a && (b != [] ==> b[0] == 0)
    ensures StrLen(a + b) == |a| && (a + b)[..|a|] == a
  {
    var s := a + b;
    assert forall i :: 0 <= i < |a| ==> s[i] == a[i];
    if b != [] { assert s[|a|] == 0; }
  }

  ghost predicate NameOk(n: Name) {
    match n
    case Inline(length, value) => length < SA_MAX_UNEXTENDED_NAME_LENGTH && |value| == SA_MAX_UNEXTENDED_NAME_LENGTH
    case Extended(str) => |str| >= SA_MAX_UNEXTENDED_NAME_LENGTH && 0 !in str
  }

  /** The string a name stands for (osaf_extended_name_borrow and osaf_extended_name_length). */
  function TextOf(n: Name): (t: seq<byte>)
    requires NameOk(n)
    ensures 0 !in t && (|t| < SA_MAX_UNEXTENDED_NAME_LENGTH <==> n.Inline?)
  {
    match n
    case Inline(length, value) => value[..StrLen(value[..length])]
    case Extended(str) => str
  }

  /** osaf_extended_name_alloc. */
  function Alloc(str: seq<byte>): (n: Name)
    requires 0 !in str
    ensures NameOk(n) && TextOf(n) == str
  {
    if |str| < SA_MAX_UNEXTENDED_NAME_LENGTH then
      var value := str + Zeros(SA_MAX_UNEXTENDED_NAME_LENGTH - |str|);
      assert value[..|str|] == str;
      StrLenEnd(str, []);
      assert str + [] == str;
      Inline(|str|, value)
    else Extended(str)
  }

  function Wire(text: seq<byte>): seq<byte> {
    ToWire(2, |text|) + text
    + if |text| < SA_MAX_UNEXTENDED_NAME_LENGTH then Zeros(SA_MAX_UNEXTENDED_NAME_LENGTH - |text|) else []
  }

  /** osaf_decode_sanamet; the count of a short name only tells that it is short. */
  function Read(b: seq<byte>): Option<(Name, seq<byte>)> {
    if |b| < 2 then None
    else
      var len, rest := FromWire(b[..2]), b[2..];
      var block := if len < SA_MAX_UNEXTENDED_NAME_LENGTH then SA_MAX_UNEXTENDED_NAME_LENGTH else len;
      if len >= 65535 || |rest| < block then None
      else
        var k := StrLen(rest[..block]);
        if len < SA_MAX_UNEXTENDED_NAME_LENGTH && k == block then None
        else Some((Alloc(rest[..k]), rest[block..]))
  }

  lemma Counted(len: nat, body: seq<byte>)
    requires len < 65536
    ensures var b := ToWire(2, len) + body; b[2..] == body && FromWire(b[..2]) == len
  {
    assert Pow256(2) == 65536;
    WireInverse(2, len);
    assert (ToWire(2, len) + body)[..2] == ToWire(2, len);
  }

  /** Both forms read back as the same name and leave exactly what followed. */
  lemma NameRoundTrip(n: Name, rest: seq<byte>)
    requires NameOk(n) && |TextOf(n)| < 65535
    ensures var r := Read(Wire(TextOf(n)) + rest); r.Some? && r.value.1 == rest && TextOf(r.value.0) == TextOf(n)
  {
    var text := TextOf(n);
    var pad := if |text| < SA_MAX_UNEXTENDED_NAME_LENGTH then Zeros(SA_MAX_UNEXTENDED_NAME_LENGTH - |text|) else [];
    var block := text + pad;
    Assoc(ToWire(2, |text|), text, pad);
    Assoc(ToWire(2, |text|), block, rest);
    hide ToWire, FromWire, StrLen;
    Counted(|text|, block + rest);
    Drop(block, rest);
    StrLenEnd(text, pad);
    Assoc(text, pad, rest);
    Drop(text, pad + rest);
  }

  /** osaf_encode_saconststring; false stands for a failed assertion or a copy larger than the reservation. */
  method EncodeString(u: Uba, str: seq<byte>) returns (ok: bool)
    requires u.Valid() && u.Fresh() >= 2
    modifies u`links, u`ttl
    ensures u.Valid() && ok == (|str| <= u.Fresh())
    ensures ok ==> u.Data() == old(u.Data()) + (ToWire(2, |str|) + str) && u.ttl == old(u.ttl) + 2 + |str|
  {
    if |str| >= 65535 { return false; }
    u.Put(ToWire(2, |str|));
    if |str| > u.Fresh() { return false; }
    u.Put(str);
    Assoc(old(u.Data()), ToWire(2, |str|), str);
    return true;
  }

  /** osaf_encode_sanamet_helper: octet by octet for a short name, in one reservation for a long one. */
  method EncodeName(u: Uba, text: seq<byte>) returns (ok: bool)
    requires u.Valid() && u.Fresh() >= 2
    modifies u`links, u`ttl
    ensures u.Valid() && ok == (|text| < SA_MAX_UNEXTENDED_NAME_LENGTH || |text| <= u.Fresh())
    ensures ok ==> u.Data() == old(u.Data()) + Wire(text) && u.ttl == old(u.ttl) + |Wire(text)|
  {
    if |text| >= SA_MAX_UNEXTENDED_NAME_LENGTH {
      ok := EncodeString(u, text);
      assert Wire(text) == ToWire(2, |text|) + text;
      return;
    }
    ghost var start, wire := u.Data(), Wire(text);
    u.Put(ToWire(2, |text|));
    assert wire[..2] == ToWire(2, |text|);
    var i := 0;
    while i < SA_MAX_UNEXTENDED_NAME_LENGTH
      invariant i <= SA_MAX_UNEXTENDED_NAME_LENGTH && u.Valid() && u.ttl == old(u.ttl) + 2 + i
      invariant u.Data() == start + wire[..2 + i]
    {
      var octet := if i < |text| then text[i] else 0;
      assert wire[2 + i] == octet;
      u.Put([octet]);
      assert wire[..2 + i] + [octet] == wire[..2 + i + 1];
      Assoc(start, wire[..2 + i], [octet]);
      i := i + 1;
    }
    assert wire[..258] == wire;
    return true;
  }

  /** osaf_decode_sanamet consumes exactly what Read does. */
  method DecodeName(u: Uba) returns (name: Name)
    requires Read(u.Data()).Some?
    modifies u`links, u`ttl
    ensures (name, u.Data()) == old(Read(u.Data()).value)
    ensures u.ttl == old(u.ttl) + old(|u.Data()|) - |u.Data()|
  {
    var head := u.DecodeOctets(2);
    var len := FromWire(head);
    var block := if len < SA_MAX_UNEXTENDED_NAME_LENGTH then SA_MAX_UNEXTENDED_NAME_LENGTH else len;
    ghost var rest := u.Data();
    var str := u.DecodeOctets(block);
    assert str[..StrLen(str)] == rest[..StrLen(str)];
    name := Alloc(str[..StrLen(str)]);
  }
}
