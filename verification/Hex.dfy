/** Hex text and back, as libzeth does it on character and byte buffers. */
module Hex {
  import opened Bytes
  import opened Outcomes

  // ----- Single digits

  function NibbleHex(n: nat): (c: char)
    requires n < 16
  {
    if n > 9 then ((('a' as int) + n - 10) as char) else ((('0' as int) + n) as char)
  }

  function ToLower(c: char): (r: char)
  {
    if 'A' <= c <= 'Z' then ((c as int - 'A' as int + 'a' as int) as char) else c
  }

  /** None is the invalid_argument exception. */
  function CharToNibble(c: char): (r: Option<nat>)
    ensures r.Some? ==> r.value < 16
  {
    var cc := ToLower(c);
    if cc < '0' then None
    else if cc <= '9' then Some(cc as int - '0' as int)
    else if cc < 'a' then None
    else if cc <= 'f' then Some(cc as int - 'a' as int + 10)
    else None
  }

  /** Exactly the hex digits are accepted; reading inverts writing, up to letter case. */
  lemma NibbleRoundTrip(n: nat, c: char)
    requires n < 16
    ensures CharToNibble(c).Some? <==> '0' <= c <= '9' || 'a' <= c <= 'f' || 'A' <= c <= 'F'
    ensures CharToNibble(NibbleHex(n)) == Some(n)
    ensures CharToNibble(c) == Some(n) ==> NibbleHex(n) == ToLower(c)
  {}

  // ----- Reference codec on whole strings

  function Encode(bs: Bytes): (s: string)
    ensures |s| == 2 * |bs|
  {
    if bs == [] then "" else [NibbleHex(bs[0] as nat / 16), NibbleHex(bs[0] as nat % 16)] + Encode(bs[1..])
  }

  /** Two lower-case digits for each byte in order, the higher one first. */
  lemma {:induction false} EncodeAt(bs: Bytes, i: nat)
    requires i < |bs|
    ensures Encode(bs)[2 * i] == "0123456789abcdef"[bs[i] as nat / 16]
    ensures Encode(bs)[2 * i + 1] == "0123456789abcdef"[bs[i] as nat % 16]
  {
    if i == 0 {
      NibbleDigit(bs[0] as nat / 16);
      NibbleDigit(bs[0] as nat % 16);
    } else {
      EncodeAt(bs[1..], i - 1);
    }
  }

  lemma NibbleDigit(n: nat)
    requires n < 16
    ensures NibbleHex(n) == "0123456789abcdef"[n]
  {}

  function CharsToByte(hi: char, lo: char): (r: Option<byte>)
  {
    var h, l := CharToNibble(hi), CharToNibble(lo);
    if h.None? || l.None? then None else Some((h.value * 16 + l.value) as byte)
  }

  function Decode(s: string): (r: Option<Bytes>)
    ensures r.Some? ==> |s| == 2 * |r.value|
  {
    if s == "" then Some([])
    else if |s| == 1 then None
    else
      var b, rest := CharsToByte(s[0], s[1]), Decode(s[2..]);
      if b.None? || rest.None? then None else Some([b.value] + rest.value)
  }

  function Lower(s: string): (r: string)
    ensures |r| == |s|
  {
    seq(|s|, i requires 0 <= i < |s| => ToLower(s[i]))
  }

  /** Decoding inverts encoding, and encoding inverts decoding up to letter case. */
  lemma {:induction false} DecodeEncode(bs: Bytes)
    ensures Decode(Encode(bs)) == Some(bs)
  {
    if bs != [] {
      DecodeEncode(bs[1..]);
      var s := Encode(bs);
      NibbleRoundTrip(bs[0] as nat / 16, s[0]);
      NibbleRoundTrip(bs[0] as nat % 16, s[1]);
      assert s[2..] == Encode(bs[1..]);
      assert CharsToByte(s[0], s[1]) == Some(bs[0]);
      assert [bs[0]] + bs[1..] == bs;
    }
  }

  lemma {:induction false} EncodeDecode(s: string)
    requires Decode(s).Some?
    ensures Encode(Decode(s).value) == Lower(s)
  {
    if s != "" {
      EncodeDecode(s[2..]);
      var h, l := CharToNibble(s[0]).value, CharToNibble(s[1]).value;
      NibbleRoundTrip(h, s[0]);
      NibbleRoundTrip(l, s[1]);
      var bs := Decode(s).value;
      assert bs[0] as nat / 16 == h && bs[0] as nat % 16 == l;
      assert bs[1..] == Decode(s[2..]).value;
      assert Lower(s) == [ToLower(s[0]), ToLower(s[1])] + Lower(s[2..]);
    }
  }

  lemma EncodeInjective(a: Bytes, b: Bytes)
    requires Encode(a) == Encode(b)
    ensures a == b
  {
    DecodeEncode(a);
    DecodeEncode(b);
  }

  lemma {:induction false} EncodeAppend(a: Bytes, b: Bytes)
    ensures Encode(a + b) == Encode(a) + Encode(b)
  {
    if a == [] {
      assert a + b == b;
    } else {
      EncodeAppend(a[1..], b);
      assert (a + b)[1..] == a[1..] + b;
    }
  }

  /** Bytes already decoded, followed by what is left to decode. */
  function Joined(done: Bytes, rest: string): Option<Bytes>
  {
    if Decode(rest).None? then None else Some(done + Decode(rest).value)
  }

  lemma JoinedStart(s: string)
    ensures Joined([], s) == Decode(s)
  {
    if Decode(s).Some? {
      assert [] + Decode(s).value == Decode(s).value;
    }
  }

  lemma JoinedStep(done: Bytes, rest: string)
    requires |rest| >= 2
    ensures
      var b := CharsToByte(rest[0], rest[1]);
      Joined(done, rest) == if b.None? then None else Joined(done + [b.value], rest[2..])
  {
    var b := CharsToByte(rest[0], rest[1]);
    if b.Some? && Decode(rest[2..]).Some? {
      assert done + ([b.value] + Decode(rest[2..]).value) == (done + [b.value]) + Decode(rest[2..]).value;
    }
  }

  function Reverse<T>(s: seq<T>): (r: seq<T>)
    ensures |r| == |s|
  {
    if s == [] then [] else Reverse(s[1..]) + [s[0]]
  }

  lemma {:induction false} ReverseAt<T>(s: seq<T>, i: nat)
    requires i < |s|
    ensures Reverse(s)[i] == s[|s| - 1 - i]
  {
    if i < |s| - 1 {
      ReverseAt(s[1..], i);
    }
  }

  lemma ReverseCons<T>(x: T, s: seq<T>)
    ensures Reverse([x] + s) == Reverse(s) + [x]
  {
    assert ([x] + s)[1..] == s;
  }

  lemma ReverseTwice<T>(s: seq<T>)
    ensures Reverse(Reverse(s)) == s
  {
    forall i | 0 <= i < |s|
      ensures Reverse(Reverse(s))[i] == s[i]
    {
      ReverseAt(Reverse(s), i);
      ReverseAt(s, |s| - 1 - i);
    }
  }

  // ----- Loop steps

  lemma ForwardStep(done: Bytes, cur: string, j: nat)
    requires 2 * j + 2 <= |cur|
    ensures
      var b := CharsToByte(cur[2 * j], cur[2 * j + 1]);
      Joined(done, cur[2 * j..]) == if b.None? then None else Joined(done + [b.value], cur[2 * (j + 1)..])
  {
    JoinedStep(done, cur[2 * j..]);
    assert cur[2 * j..][2..] == cur[2 * (j + 1)..];
  }

  lemma ReversedStep(before: Bytes, cur: string, j: nat)
    requires 2 * j + 2 <= |cur|
    ensures
      var b := CharsToByte(cur[2 * j], cur[2 * j + 1]);
      Joined(Reverse(before), cur[2 * j..]) ==
        if b.None? then None else Joined(Reverse([b.value] + before), cur[2 * (j + 1)..])
  {
    ForwardStep(Reverse(before), cur, j);
    var b := CharsToByte(cur[2 * j], cur[2 * j + 1]);
    if b.Some? {
      ReverseCons(b.value, before);
    }
  }

  lemma JoinedEnd(done: Bytes)
    ensures Joined(done, "") == Some(done)
  {
    assert done + [] == done;
  }

  lemma EncodeSnoc(bs: Bytes, i: nat, s: string)
    requires i < |bs|
    ensures s + Encode(bs[..i + 1]) ==
      (s + Encode(bs[..i])) + [NibbleHex(bs[i] as nat / 16)] + [NibbleHex(bs[i] as nat % 16)]
  {
    EncodeAppend(bs[..i], [bs[i]]);
    assert bs[..i + 1] == bs[..i] + [bs[i]];
    assert Encode([bs[i]]) == [NibbleHex(bs[i] as nat / 16), NibbleHex(bs[i] as nat % 16)];
  }

  // ----- The library's functions

  function Prefix(prefix: bool): string
  {
    if prefix then "0x" else ""
  }

  method BytesToHex(bytes: Bytes, prefix: bool) returns (out: string)
    ensures out == (if prefix then "0x" else "") + Encode(bytes)
  {
    out := "";
    if prefix {
      out := out + ['0'];
      out := out + ['x'];
    }
    for i := 0 to |bytes|
      invariant out == Prefix(prefix) + Encode(bytes[..i])
    {
      var byte := bytes[i] as nat;
      EncodeSnoc(bytes, i, Prefix(prefix));
      out := out + [NibbleHex(byte / 16)];
      out := out + [NibbleHex(byte % 16)];
    }
    assert bytes[..|bytes|] == bytes;
  }

  /** Reads the bytes from the last to the first. The empty input gives "" even with a prefix. */
  method BytesToHexReversed(bytes: Bytes, prefix: bool) returns (out: string)
    ensures out == (if bytes == [] then "" else Prefix(prefix) + Encode(Reverse(bytes)))
  {
    if |bytes| == 0 {
      return "";
    }
    out := "";
    if prefix {
      out := out + ['0'];
      out := out + ['x'];
    }
    ghost var rev := Reverse(bytes);
    var i := |bytes|;
    while i > 0
      invariant 0 <= i <= |bytes|
      invariant out == Prefix(prefix) + Encode(rev[..|bytes| - i])
    {
      i := i - 1;
      var byte := bytes[i] as nat;
      ghost var j := |bytes| - 1 - i;
      ReverseAt(bytes, j);
      EncodeSnoc(rev, j, Prefix(prefix));
      out := out + [NibbleHex(byte / 16)];
      out := out + [NibbleHex(byte % 16)];
    }
    assert rev[..|bytes|] == rev;
  }

  predicate HasPrefix(hex: string)
  {
    |hex| >= 2 && hex[0] == '0' && hex[1] == 'x'
  }

  /** Hex digits without the prefix, if their number is as expected. */
  function FindHexString(hex: string, bytes: nat): (r: Option<string>)
    ensures r.Some? ==> |r.value| == 2 * bytes && hex == Prefix(HasPrefix(hex)) + r.value
  {
    if HasPrefix(hex) then (if |hex| != 2 + bytes * 2 then None else Some(hex[2..]))
    else if |hex| != bytes * 2 then None else Some(hex)
  }

  /** What a buffer of n bytes must get from `hex`; None if an exception is thrown. */
  function Parsed(hex: string, n: nat): (r: Option<Bytes>)
  {
    var digits := FindHexString(hex, n);
    if digits.None? then None else Decode(digits.value)
  }

  method HexToBytes(hex: string, dest: array<byte>) returns (ok: bool)
    modifies dest
    ensures ok <==> Parsed(hex, dest.Length).Some?
    ensures ok ==> dest[..] == Parsed(hex, dest.Length).value
  {
    var found := FindHexString(hex, dest.Length);
    if found.None? {
      return false;
    }
    ok := Fill(found.value, dest);
  }

  method Fill(cur: string, dest: array<byte>) returns (ok: bool)
    requires |cur| == 2 * dest.Length
    modifies dest
    ensures ok <==> Decode(cur).Some?
    ensures ok ==> dest[..] == Decode(cur).value
  {
    JoinedStart(cur);
    assert dest[..0] == [] && cur[2 * 0..] == cur;
    for i := 0 to dest.Length
      invariant Decode(cur) == Joined(dest[..i], cur[2 * i..])
    {
      var b := CharsToByte(cur[2 * i], cur[2 * i + 1]);
      ghost var done := dest[..i];
      ForwardStep(done, cur, i);
      if b.None? {
        return false;
      }
      dest[i] := b.value;
      assert dest[..i + 1] == done + [b.value];
    }
    assert dest[..dest.Length] == dest[..];
    JoinedEnd(dest[..]);
    return true;
  }

  /** Fills the buffer from its last byte to its first. An empty buffer accepts any text. */
  method HexToBytesReversed(hex: string, dest: array<byte>) returns (ok: bool)
    modifies dest
    ensures ok <==> dest.Length == 0 || Parsed(hex, dest.Length).Some?
    ensures ok && dest.Length != 0 ==> dest[..] == Reverse(Parsed(hex, dest.Length).value)
  {
    if dest.Length == 0 {
      return true;
    }
    var found := FindHexString(hex, dest.Length);
    if found.None? {
      return false;
    }
    ok := FillReversed(found.value, dest);
  }

  method FillReversed(cur: string, dest: array<byte>) returns (ok: bool)
    requires |cur| == 2 * dest.Length
    modifies dest
    ensures ok <==> Decode(cur).Some?
    ensures ok ==> dest[..] == Reverse(Decode(cur).value)
  {
    JoinedStart(cur);
    assert Reverse(dest[dest.Length..]) == [] && cur[2 * 0..] == cur;
    var i, j := dest.Length, 0;
    while i > 0
      invariant 0 <= i <= dest.Length && j == dest.Length - i
      invariant Decode(cur) == Joined(Reverse(dest[i..]), cur[2 * j..])
    {
      i := i - 1;
      var b := CharsToByte(cur[2 * j], cur[2 * j + 1]);
      ghost var before := dest[i + 1..];
      ReversedStep(before, cur, j);
      if b.None? {
        return false;
      }
      dest[i] := b.value;
      assert dest[i..] == [b.value] + before;
      j := j + 1;
    }
    assert dest[0..] == dest[..];
    JoinedEnd(Reverse(dest[..]));
    ReverseTwice(dest[..]);
    return true;
  }

  /** The one-argument form, which sizes its buffer by half the text length. */
  method HexToBytesString(s: string) returns (r: Option<Bytes>)
    ensures r == if |s| % 2 == 0 then Parsed(s, |s| / 2) else None
  {
    if |s| % 2 != 0 {
      return None;
    }
    var out := new byte[|s| / 2];
    var ok := HexToBytes(s, out);
    if !ok {
      return None;
    }
    return Some(out[..]);
  }

  // ----- Round trips

  /** The buffer form inverts BytesToHex, with or without the prefix. */
  lemma ParsedRoundTrip(bytes: Bytes, prefix: bool)
    ensures Parsed(Prefix(prefix) + Encode(bytes), |bytes|) == Some(bytes)
  {
    DecodeEncode(bytes);
    var hex := Prefix(prefix) + Encode(bytes);
    if prefix {
      assert hex[2..] == Encode(bytes);
    } else {
      assert hex == Encode(bytes);
      EncodedHasNoPrefix(bytes);
    }
  }

  lemma EncodedHasNoPrefix(bytes: Bytes)
    ensures !HasPrefix(Encode(bytes))
  {
    if bytes != [] {
      assert CharToNibble(Encode(bytes)[1]).Some?;
    }
  }

  /** The one-argument form inverts BytesToHex exactly when there is no prefix. */
  lemma StringFormRoundTrip(bytes: Bytes, prefix: bool)
    ensures
      var hex := Prefix(prefix) + Encode(bytes);
      Parsed(hex, |hex| / 2) == Some(bytes) <==> !prefix
  {
    var hex := Prefix(prefix) + Encode(bytes);
    if prefix {
      assert HasPrefix(hex) && |hex| == 2 + 2 * |bytes| && |hex| / 2 == |bytes| + 1;
    } else {
      ParsedRoundTrip(bytes, prefix);
      assert |hex| / 2 == |bytes|;
    }
  }

  /** Reversed writing then reversed reading restores every byte string. */
  lemma ReversedRoundTrip(bytes: Bytes, prefix: bool)
    ensures bytes != [] ==>
      var parsed := Parsed(Prefix(prefix) + Encode(Reverse(bytes)), |bytes|);
      parsed.Some? && Reverse(parsed.value) == bytes
  {
    ParsedRoundTrip(Reverse(bytes), prefix);
    ReverseTwice(bytes);
  }
}
