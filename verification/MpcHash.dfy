/** Text form of a 64-byte MPC hash: sixteen 4-byte words in hex, four to a line. */
module MpcHash {
  import opened Bytes
  import opened Outcomes
  import opened Hex

  const WORD_SIZE := 4
  const HASH_SIZE := 64

  function Separator(i: nat): char
  {
    if i % 4 == 3 then '\n' else ' '
  }

  /** Text of the words of `bs`, the first of which is word number i of the hash. */
  function Text(bs: Bytes, i: nat): string
    requires |bs| % WORD_SIZE == 0
    decreases |bs|
  {
    if bs == [] then "" else Encode(bs[..WORD_SIZE]) + [Separator(i)] + Text(bs[WORD_SIZE..], i + 1)
  }

  method Write(hash: array<byte>) returns (out: string)
    requires hash.Length == HASH_SIZE
    ensures out == Text(hash[..], 0)
  {
    out := "";
    var words := hash.Length / WORD_SIZE;
    ghost var all := hash[..];
    assert all[0 * WORD_SIZE..] == all;
    for i := 0 to words
      invariant out + Text(all[i * WORD_SIZE..], i) == Text(all, 0)
    {
      var sep := if i % 4 == 3 then '\n' else ' ';
      var word := BytesToHex(hash[i * WORD_SIZE..(i + 1) * WORD_SIZE], false);
      TextStep(all, i, out);
      out := out + word + [sep];
    }
    assert out + "" == out;
  }

  /** Nine characters for each word: its eight digits, then a line feed after every fourth word of
      the hash and a space after the others. */
  lemma {:induction false} TextLayout(bs: Bytes, i: nat, w: nat)
    requires |bs| % 4 == 0 && 4 * w + 4 <= |bs|
    ensures |Text(bs, i)| == 9 * (|bs| / 4)
    ensures Text(bs, i)[9 * w..9 * w + 8] == Encode(bs[4 * w..4 * w + 4])
    ensures Text(bs, i)[9 * w + 8] == if (i + w) % 4 == 3 then '\n' else ' '
    decreases |bs|
  {
    var rest := bs[4..];
    TextLength(rest, i + 1);
    var head := Encode(bs[..4]) + [Separator(i)];
    assert |head| == 9 && Text(bs, i) == head + Text(rest, i + 1);
    if w > 0 {
      TextLayout(rest, i + 1, w - 1);
      assert rest[4 * (w - 1)..4 * w] == bs[4 * w..4 * w + 4];
      assert Text(bs, i)[9 * w..9 * w + 8] == Text(rest, i + 1)[9 * (w - 1)..9 * (w - 1) + 8];
    } else {
      assert head[..8] == Encode(bs[..4]);
      assert Text(bs, i)[..8] == head[..8];
    }
  }

  lemma {:induction false} TextLength(bs: Bytes, i: nat)
    requires |bs| % 4 == 0
    ensures |Text(bs, i)| == 9 * (|bs| / 4)
    decreases |bs|
  {
    if bs != [] {
      TextLength(bs[4..], i + 1);
    }
  }

  lemma TextStep(all: Bytes, i: nat, out: string)
    requires |all| % WORD_SIZE == 0 && (i + 1) * WORD_SIZE <= |all|
    ensures out + Text(all[i * WORD_SIZE..], i)
         == out + (Prefix(false) + Encode(all[i * WORD_SIZE..(i + 1) * WORD_SIZE])) + [Separator(i)]
            + Text(all[(i + 1) * WORD_SIZE..], i + 1)
  {
    var rest := all[i * WORD_SIZE..];
    assert rest[..WORD_SIZE] == all[i * WORD_SIZE..(i + 1) * WORD_SIZE];
    assert rest[WORD_SIZE..] == all[(i + 1) * WORD_SIZE..];
  }

  // ----- Reading

  predicate IsSpace(c: char)
  {
    c == ' ' || '\t' <= c <= '\r'
  }

  function SkipSpaces(s: string): (r: string)
    ensures |r| <= |s|
  {
    if s != "" && IsSpace(s[0]) then SkipSpaces(s[1..]) else s
  }

  function WordLength(s: string): (n: nat)
    ensures n <= |s|
  {
    if s == "" || IsSpace(s[0]) then 0 else 1 + WordLength(s[1..])
  }

  /** Formatted extraction of one word: skip spaces, take up to the next one; None at the end. */
  function Extract(s: string): (r: Option<(string, string)>)
  {
    var t := SkipSpaces(s);
    if t == "" then None else Some((t[..WordLength(t)], t[WordLength(t)..]))
  }

  /** Bytes of the next `count` words, and the text left over. */
  function ReadWords(s: string, count: nat): (r: Option<(Bytes, string)>)
    ensures r.Some? ==> |r.value.0| == WORD_SIZE * count
    decreases count
  {
    if count == 0 then Some(([], s))
    else
      var w := Extract(s);
      if w.None? then None
      else
        var bin := if |w.value.0| % 2 == 0 then Parsed(w.value.0, |w.value.0| / 2) else None;
        if bin.None? || |bin.value| != WORD_SIZE then None
        else
          var rest := ReadWords(w.value.1, count - 1);
          if rest.None? then None else Some((bin.value + rest.value.0, rest.value.1))
  }

  /** False if the text ends early, a word is not hex or a word is not four bytes. */
  method Read(outHash: array<byte>, text: string) returns (ok: bool, rest: string)
    requires outHash.Length == HASH_SIZE
    modifies outHash
    ensures ok <==> ReadWords(text, outHash.Length / WORD_SIZE).Some?
    ensures ok ==> ReadWords(text, outHash.Length / WORD_SIZE) == Some((outHash[..], rest))
  {
    rest := text;
    var words := outHash.Length / WORD_SIZE;
    assert outHash[..0] == [];
    JoinedWordsStart(text, words);
    for i := 0 to words
      invariant ReadWords(text, words) == JoinedWords(outHash[..i * WORD_SIZE], rest, words - i)
    {
      JoinedWordsStep(outHash[..i * WORD_SIZE], rest, words - i);
      var w := Extract(rest);
      if w.None? {
        return false, rest;
      }
      var bin := HexToBytesString(w.value.0);
      if bin.None? || |bin.value| != WORD_SIZE {
        return false, rest;
      }
      CopyWord(outHash, i, bin.value);
      rest := w.value.1;
    }
    assert outHash[..words * WORD_SIZE] + [] == outHash[..];
    return true, rest;
  }

  /** memcpy of one word into the buffer. */
  method CopyWord(buffer: array<byte>, i: nat, word: Bytes)
    requires (i + 1) * WORD_SIZE <= buffer.Length && |word| == WORD_SIZE
    modifies buffer
    ensures buffer[..(i + 1) * WORD_SIZE] == old(buffer[..i * WORD_SIZE]) + word
  {
    var at := i * WORD_SIZE;
    ghost var before := buffer[..at];
    buffer[at], buffer[at + 1], buffer[at + 2], buffer[at + 3] := word[0], word[1], word[2], word[3];
    assert buffer[..at] == before;
    assert buffer[..at + 4] == buffer[..at] + word;
  }

  function JoinedWords(done: Bytes, s: string, count: nat): Option<(Bytes, string)>
  {
    var rest := ReadWords(s, count);
    if rest.None? then None else Some((done + rest.value.0, rest.value.1))
  }

  lemma JoinedWordsStart(s: string, count: nat)
    ensures JoinedWords([], s, count) == ReadWords(s, count)
  {
    var rest := ReadWords(s, count);
    if rest.Some? {
      assert [] + rest.value.0 == rest.value.0;
    }
  }

  lemma JoinedWordsStep(done: Bytes, s: string, count: nat)
    requires count > 0
    ensures
      var w := Extract(s);
      w.None? ==> JoinedWords(done, s, count).None?
    ensures
      var w := Extract(s);
      w.Some? ==>
        var bin := if |w.value.0| % 2 == 0 then Parsed(w.value.0, |w.value.0| / 2) else None;
        JoinedWords(done, s, count) ==
          if bin.None? || |bin.value| != WORD_SIZE then None else JoinedWords(done + bin.value, w.value.1, count - 1)
  {
    var w := Extract(s);
    if w.Some? {
      var bin := if |w.value.0| % 2 == 0 then Parsed(w.value.0, |w.value.0| / 2) else None;
      var rest := ReadWords(w.value.1, count - 1);
      if bin.Some? && rest.Some? {
        assert done + (bin.value + rest.value.0) == (done + bin.value) + rest.value.0;
      }
    }
  }

  // ----- Round trip

  lemma {:induction false} WordLengthOfHex(bs: Bytes, sep: char, rest: string)
    requires IsSpace(sep)
    ensures WordLength(Encode(bs) + [sep] + rest) == |Encode(bs)|
  {
    var s := Encode(bs) + [sep] + rest;
    if bs != [] {
      assert !IsSpace(s[0]) && !IsSpace(s[1]);
      assert s[1..][1..] == Encode(bs[1..]) + [sep] + rest;
      WordLengthOfHex(bs[1..], sep, rest);
      assert WordLength(s[1..]) == 1 + WordLength(s[1..][1..]);
    }
  }

  /** The white space of the C locale separates words. */
  lemma WhiteSpace(c: char)
    ensures IsSpace(c) <==> c in {' ', '\t', '\n', '\U{000b}', '\U{000c}', '\r'}
  {}

  /** A leading space makes no difference to the next extraction. */
  lemma SkipSpace(c: char, s: string, count: nat)
    requires IsSpace(c) && count > 0
    ensures ReadWords([c] + s, count) == ReadWords(s, count)
  {
    assert ([c] + s)[1..] == s;
    assert SkipSpaces([c] + s) == SkipSpaces(s);
  }

  lemma Regroup(w: string, s: string, m: string, r: string)
    ensures (w + s + m) + r == w + (s + (m + r))
  {}

  lemma ExtractHead(bs: Bytes, i: nat, rest: string)
    requires |bs| % WORD_SIZE == 0 && bs != []
    ensures Extract(Text(bs, i) + rest)
         == Some((Encode(bs[..WORD_SIZE]), [Separator(i)] + (Text(bs[WORD_SIZE..], i + 1) + rest)))
  {
    var w, m := bs[..WORD_SIZE], Text(bs[WORD_SIZE..], i + 1);
    Regroup(Encode(w), [Separator(i)], m, rest);
    ExtractWord(w, Separator(i), m + rest);
  }

  lemma ExtractWord(w: Bytes, sep: char, rest: string)
    requires w != [] && IsSpace(sep)
    ensures Extract(Encode(w) + ([sep] + rest)) == Some((Encode(w), [sep] + rest))
  {
    var line := Encode(w) + ([sep] + rest);
    assert line == Encode(w) + [sep] + rest;
    assert !IsSpace(line[0]);
    WordLengthOfHex(w, sep, rest);
    assert line[..|Encode(w)|] == Encode(w) && line[|Encode(w)|..] == [sep] + rest;
  }

  lemma ReadWordsCons(text: string, w: Bytes, t: string, count: nat)
    requires |w| == WORD_SIZE && Extract(text) == Some((Encode(w), t))
    ensures ReadWords(text, count + 1) == JoinedWords(w, t, count)
  {
    StringFormRoundTrip(w, false);
    assert Prefix(false) + Encode(w) == Encode(w);
  }

  /** One word is read back in front of text that continues as expected. */
  lemma HeadReadBack(bs: Bytes, i: nat, rest: string, count: nat)
    requires |bs| % WORD_SIZE == 0 && bs != []
    ensures ReadWords(Text(bs, i) + rest, count + 1)
         == JoinedWords(bs[..WORD_SIZE], [Separator(i)] + (Text(bs[WORD_SIZE..], i + 1) + rest), count)
  {
    ExtractHead(bs, i, rest);
    ReadWordsCons(Text(bs, i) + rest, bs[..WORD_SIZE], [Separator(i)] + (Text(bs[WORD_SIZE..], i + 1) + rest), count);
  }

  lemma JoinedSkip(w: Bytes, c: char, s: string, count: nat, more: Bytes, left: string)
    requires IsSpace(c) && count > 0 && ReadWords(s, count) == Some((more, left))
    ensures JoinedWords(w, [c] + s, count) == Some((w + more, left))
  {
    SkipSpace(c, s, count);
  }

  lemma TailReadBack(bs: Bytes, i: nat, count: nat, last: nat, rest: string)
    requires |bs| == WORD_SIZE * (count + 1) && |bs| % WORD_SIZE == 0 && last == i + count
    requires count > 0 ==>
      ReadWords(Text(bs[WORD_SIZE..], i + 1) + rest, count) == Some((bs[WORD_SIZE..], [Separator(last)] + rest))
    ensures JoinedWords(bs[..WORD_SIZE], [Separator(i)] + (Text(bs[WORD_SIZE..], i + 1) + rest), count)
         == Some((bs, [Separator(last)] + rest))
  {
    var w, more := bs[..WORD_SIZE], bs[WORD_SIZE..];
    assert bs == w + more && |more| % WORD_SIZE == 0;
    if count == 0 {
      assert more == [] && Text(more, i + 1) + rest == rest;
    } else {
      JoinedSkip(w, Separator(i), Text(more, i + 1) + rest, count, more, [Separator(last)] + rest);
    }
  }

  /** Reading back the text of words number i to `last` gives exactly their bytes, whatever
      follows; only the last separator and what follows it stay unread. The whole hash is the
      case of 16 words from number 0. */
  lemma {:induction false} HashTextRoundTrip(bs: Bytes, count: nat, i: nat, last: nat, rest: string)
    requires |bs| == WORD_SIZE * count && count > 0 && last == i + count - 1
    ensures ReadWords(Text(bs, i) + rest, count) == Some((bs, [Separator(last)] + rest))
    decreases count
  {
    HeadReadBack(bs, i, rest, count - 1);
    if count > 1 {
      HashTextRoundTrip(bs[WORD_SIZE..], count - 1, i + 1, last, rest);
    }
    TailReadBack(bs, i, count - 1, last, rest);
  }
}
