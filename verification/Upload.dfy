/** Receiving a contribution as a single-part multipart upload, from a stream that may return
    fewer bytes than asked for. */
module Upload {
  import opened Bytes
  import opened Outcomes

  const LF: byte := 10
  const CR: byte := 13
  const DASH: byte := 45
  const READ_CHUNK_SIZE := 4096

  /** Which exception ends a request. */
  datatype UploadError = Undecodable | NoBlankLine | TooShort | DigestMismatch | BadTail

  /** A request body. How much a read returns is up to the network. */
  class Stream {
    const data: Bytes
    var pos: nat

    predicate Valid()
      reads this
    {
      pos <= |data|
    }

    /** What has not been read yet. */
    ghost function Rest(): Bytes
      requires Valid()
      reads this
    {
      data[pos..]
    }

    /** Between 1 and n bytes, or none at the end of the stream. */
    method Read(n: nat) returns (chunk: Bytes)
      requires Valid()
      modifies this
      ensures Valid() && old(Rest()) == chunk + Rest() && |chunk| <= n
      ensures chunk == [] <==> n == 0 || old(Rest()) == []
    {
      var k: nat :| k <= n && pos + k <= |data| && (k == 0 <==> n == 0 || pos == |data|);
      chunk := data[pos..pos + k];
      pos := pos + k;
    }

    /** Up to and including the next line feed, or what is left. */
    method ReadLine() returns (line: Bytes)
      requires Valid()
      modifies this
      ensures Valid() && old(Rest()) == line + Rest()
      ensures forall i :: 0 <= i < |line| - 1 ==> line[i] != LF
      ensures line == [] || line[|line| - 1] == LF || Rest() == []
      ensures line == [] ==> Rest() == []
    {
      var start := pos;
      while pos < |data| && data[pos] != LF
        invariant start <= pos <= |data|
        invariant forall i :: start <= i < pos ==> data[i] != LF
      {
        pos := pos + 1;
      }
      if pos < |data| {
        pos := pos + 1;
      }
      line := data[start..pos];
    }
  }

  // ----- Headers

  /** A line that is blank (bare LF or CR LF) ends at offset k. */
  predicate BlankLineEndsAt(s: Bytes, k: nat)
  {
    && 1 <= k <= |s| && s[k - 1] == LF
    && (k == 1 || s[k - 2] == LF || (s[k - 2] == CR && (k == 2 || s[k - 3] == LF)))
  }

  ghost predicate NoBlankLineUpTo(s: Bytes, k: nat)
  {
    forall j :: 0 <= j <= k ==> !BlankLineEndsAt(s, j)
  }

  /** The part headers are s[..k]: they end with the first blank line. */
  ghost predicate HeadersEndAt(s: Bytes, k: nat)
  {
    BlankLineEndsAt(s, k) && NoBlankLineUpTo(s, k - 1)
  }

  /** One call of readline at offset `from` returns s[from..end]. */
  predicate LineAt(s: Bytes, from: nat, end: nat)
  {
    && from <= end <= |s|
    && (from == 0 || from == |s| || s[from - 1] == LF)
    && (forall i :: from <= i < end - 1 ==> s[i] != LF)
    && (end == |s| || (from < end && s[end - 1] == LF))
  }

  /** A line that does not decode, not after the first blank line. At the end of the stream, an
      empty line counts. */
  ghost predicate BadHeaderLine(s: Bytes, decodable: Bytes -> bool, from: nat, end: nat)
  {
    LineAt(s, from, end) && NoBlankLineUpTo(s, from) && !decodable(s[from..end])
  }

  ghost predicate HeadersDecode(s: Bytes, decodable: Bytes -> bool)
  {
    forall from: nat, end: nat :: !BadHeaderLine(s, decodable, from, end)
  }

  /** Consume the part headers; the result is their length. */
  method ReadPartHeaders(stream: Stream, decodable: Bytes -> bool) returns (r: Result<nat, UploadError>)
    requires stream.Valid()
    modifies stream
    ensures stream.Valid()
    ensures r.Ok? ==> HeadersEndAt(old(stream.Rest()), r.value) && stream.Rest() == old(stream.Rest())[r.value..]
    ensures r == Err(Undecodable) <==> !HeadersDecode(old(stream.Rest()), decodable)
    ensures r == Err(NoBlankLine) <==>
      HeadersDecode(old(stream.Rest()), decodable) && NoBlankLineUpTo(old(stream.Rest()), |old(stream.Rest())|)
    ensures r.Err? ==> r.error == NoBlankLine || r.error == Undecodable
  {
    ghost var s := stream.Rest();
    var totalBytes := 0;
    while true
      invariant stream.Valid() && totalBytes <= |s| && stream.Rest() == s[totalBytes..]
      invariant totalBytes == 0 || totalBytes == |s| || s[totalBytes - 1] == LF
      invariant NoBlankLineUpTo(s, totalBytes)
      invariant forall from: nat, end: nat :: from < totalBytes ==> !BadHeaderLine(s, decodable, from, end)
      decreases |s| - totalBytes
    {
      ghost var from := totalBytes;
      var line := stream.ReadLine();
      totalBytes := totalBytes + |line|;
      assert line == s[from..totalBytes] && stream.Rest() == s[totalBytes..] by {
        assert s[from..] == line + stream.Rest();
      }
      assert LineAt(s, from, totalBytes);
      if !decodable(line) {
        assert BadHeaderLine(s, decodable, from, totalBytes);
        return Err(Undecodable);
      }
      LineRead(s, decodable, from, totalBytes);
      if line != [] {
        LineIsBlank(s, from, totalBytes);
      }
      if |line| < 3 {
        if line == [CR, LF] || line == [LF] {
          assert HeadersDecode(s, decodable);
          return Ok(totalBytes);
        }
        if |line| == 0 {
          assert HeadersDecode(s, decodable);
          return Err(NoBlankLine);
        }
      }
    }
  }

  /** Only one line starts in s[from..end]. */
  lemma LineRead(s: Bytes, decodable: Bytes -> bool, from: nat, end: nat)
    requires LineAt(s, from, end) && decodable(s[from..end])
    ensures forall f: nat, e: nat :: from <= f < end ==> !BadHeaderLine(s, decodable, f, e)
  {
    forall f: nat, e: nat | from <= f < end && LineAt(s, f, e)
      ensures decodable(s[f..e])
    {
      assert f == from;
      assert e == end;
    }
  }

  /** Among the offsets a line spans, only its end can close a blank line, and it does exactly
      when the line is LF or CR LF. */
  lemma LineIsBlank(s: Bytes, from: nat, end: nat)
    requires from < end <= |s|
    requires from == 0 || s[from - 1] == LF
    requires forall i :: from <= i < end - 1 ==> s[i] != LF
    requires NoBlankLineUpTo(s, from)
    ensures NoBlankLineUpTo(s, end - 1)
    ensures BlankLineEndsAt(s, end) <==> s[from..end] == [LF] || s[from..end] == [CR, LF]
    ensures !BlankLineEndsAt(s, end) ==> NoBlankLineUpTo(s, end)
  {
    var line := s[from..end];
    if BlankLineEndsAt(s, end) {
      assert end - from <= 2;
      if end - from == 1 {
        assert line == [LF];
      } else {
        assert line == [CR, LF];
      }
    }
    if line == [LF] {
      assert s[end - 1] == line[0];
    }
    if line == [CR, LF] {
      assert s[end - 1] == line[1] && s[end - 2] == line[0];
    }
  }

  // ----- Content and tail

  /** Copy `bytesToRead` bytes to the file, hashing as they come. None if the stream ends first. */
  method ReadToFile(stream: Stream, bytesToRead: int, sha: Bytes -> Bytes) returns (digest: Option<Bytes>, file: Bytes)
    requires stream.Valid()
    modifies stream
    ensures stream.Valid() && old(stream.Rest()) == file + stream.Rest()
    ensures digest.Some? <==> bytesToRead <= |old(stream.Rest())|
    ensures digest.Some? ==> |file| == Amount(bytesToRead) && digest.value == sha(file)
  {
    ghost var s := stream.Rest();
    var remaining := bytesToRead;
    file := [];
    while remaining > 0
      invariant stream.Valid() && s == file + stream.Rest()
      invariant remaining == bytesToRead || remaining >= 0
      invariant |file| == bytesToRead - remaining
      decreases remaining
    {
      var readSize := if remaining < READ_CHUNK_SIZE then remaining else READ_CHUNK_SIZE;
      var chunk := stream.Read(readSize);
      if |chunk| == 0 {
        return None, file;
      }
      file := file + chunk;
      remaining := remaining - |chunk|;
    }
    return Some(sha(file)), file;
  }

  function Amount(n: int): nat
  {
    if n < 0 then 0 else n
  }

  method ReadToMemory(stream: Stream, bytesToRead: int) returns (r: Option<Bytes>)
    requires stream.Valid()
    modifies stream
    ensures stream.Valid()
    ensures r.Some? <==> bytesToRead <= |old(stream.Rest())|
    ensures r.Some? ==> |r.value| == Amount(bytesToRead) && old(stream.Rest()) == r.value + stream.Rest()
  {
    ghost var s := stream.Rest();
    var remaining := bytesToRead;
    var data: Bytes := [];
    while remaining > 0
      invariant stream.Valid() && s == data + stream.Rest()
      invariant remaining == bytesToRead || remaining >= 0
      invariant |data| == bytesToRead - remaining
      decreases remaining
    {
      var chunk := stream.Read(remaining);
      if |chunk| == 0 {
        return None;
      }
      data := data + chunk;
      remaining := remaining - |chunk|;
    }
    return Some(data);
  }

  // ----- Whole request

  function FinalBoundary(boundary: Bytes): Bytes
  {
    [CR, LF, DASH, DASH] + boundary + [DASH, DASH, CR, LF]
  }

  /** Length of the content, as computed from the request's Content-Length. */
  function ContentSize(contentLength: int, boundary: Bytes, headers: nat): int
  {
    contentLength - |FinalBoundary(boundary)| - headers
  }

  /** The body is headers ++ content ++ final boundary ++ unread, and the content has the digest. */
  ghost predicate SplitsAs(body: Bytes, contentLength: int, boundary: Bytes, digest: Bytes, sha: Bytes -> Bytes,
                           h: nat, content: Bytes, unread: Bytes)
  {
    && HeadersEndAt(body, h)
    && body == body[..h] + content + FinalBoundary(boundary) + unread
    && |content| == Amount(ContentSize(contentLength, boundary, h))
    && sha(content) == digest
  }

  ghost predicate NoSplit(body: Bytes, contentLength: int, boundary: Bytes, digest: Bytes, sha: Bytes -> Bytes)
  {
    forall h, content, unread :: !SplitsAs(body, contentLength, boundary, digest, sha, h, content, unread)
  }

  /** What is compared with the final boundary, if the headers end at `headers`. */
  function Tail(body: Bytes, contentLength: int, boundary: Bytes, headers: nat): Bytes
    requires headers + Amount(ContentSize(contentLength, boundary, headers)) + |FinalBoundary(boundary)| <= |body|
  {
    var from := headers + Amount(ContentSize(contentLength, boundary, headers));
    body[from..from + |FinalBoundary(boundary)|]
  }

  /** The content is as announced, and followed by enough bytes that do not decode. */
  predicate BadTailText(body: Bytes, contentLength: int, boundary: Bytes, digest: Bytes, sha: Bytes -> Bytes,
                        decodable: Bytes -> bool, headers: nat)
  {
    var n := Amount(ContentSize(contentLength, boundary, headers));
    && headers + n + |FinalBoundary(boundary)| <= |body|
    && sha(body[headers..headers + n]) == digest
    && !decodable(Tail(body, contentLength, boundary, headers))
  }

  /** All the texts that the request decodes do decode. */
  ghost predicate TextsDecode(body: Bytes, contentLength: int, boundary: Bytes, digest: Bytes, sha: Bytes -> Bytes,
                              decodable: Bytes -> bool)
  {
    && HeadersDecode(body, decodable)
    && forall h: nat :: HeadersEndAt(body, h) ==> !BadTailText(body, contentLength, boundary, digest, sha, decodable, h)
  }

  /** Returns normally if and only if all texts decode and the body has the expected form; then
      the file holds exactly the content, and exactly Content-Length bytes have been read unless
      that length is too small to cover headers and boundary. Every failure names its cause. */
  method HandleUploadRequest(contentLength: int, boundary: Bytes, expectDigest: Bytes, stream: Stream,
                             sha: Bytes -> Bytes, decodable: Bytes -> bool)
    returns (r: Option<UploadError>, file: Bytes, ghost headers: nat)
    requires stream.Valid()
    modifies stream
    ensures stream.Valid()
    ensures r.None? ==>
      SplitsAs(old(stream.Rest()), contentLength, boundary, expectDigest, sha, headers, file, stream.Rest())
    ensures r.None? ==>
      (|old(stream.Rest())| - |stream.Rest()| == contentLength <==> ContentSize(contentLength, boundary, headers) >= 0)
    ensures
      var body := old(stream.Rest());
      && (r == Some(Undecodable) <==> !TextsDecode(body, contentLength, boundary, expectDigest, sha, decodable))
      && (r.None? <==>
            && TextsDecode(body, contentLength, boundary, expectDigest, sha, decodable)
            && !NoSplit(body, contentLength, boundary, expectDigest, sha))
    ensures
      var body := old(stream.Rest());
      && (r == Some(NoBlankLine) <==> HeadersDecode(body, decodable) && NoBlankLineUpTo(body, |body|))
      && (r == Some(TooShort) || r == Some(DigestMismatch) || r == Some(BadTail) ==>
            && HeadersEndAt(body, headers)
            && Fault(body[headers..], contentLength, boundary, expectDigest, sha, headers, r.value))
  {
    ghost var body := stream.Rest();
    file, headers := [], 0;
    var finalBoundary := FinalBoundary(boundary);
    var remainingBytes := contentLength - |finalBoundary|;
    var headerBytes := ReadPartHeaders(stream, decodable);
    if headerBytes.Err? {
      if headerBytes.error == NoBlankLine {
        NoHeaders(body, contentLength, boundary, expectDigest, sha);
      }
      return Some(headerBytes.error), file, headers;
    }
    headers := headerBytes.value;
    remainingBytes := remainingBytes - headerBytes.value;
    r, file := ReadContentAndTail(stream, remainingBytes, finalBoundary, expectDigest, sha, decodable,
                                  body, headers, contentLength, boundary);
    assert forall h: nat :: HeadersEndAt(body, h) ==> h == headers;
  }

  /** What is wrong with the bytes after the headers. */
  predicate Fault(s: Bytes, contentLength: int, boundary: Bytes, digest: Bytes, sha: Bytes -> Bytes, headers: nat,
                  e: UploadError)
  {
    var size, b := ContentSize(contentLength, boundary, headers), FinalBoundary(boundary);
    if size > |s| then e == TooShort
    else if sha(s[..Amount(size)]) != digest then e == DigestMismatch
    else e == BadTail && (|s| < Amount(size) + |b| || s[Amount(size)..][..|b|] != b)
  }

  /** The part of handle_upload_request after the headers. */
  method ReadContentAndTail(stream: Stream, size: int, finalBoundary: Bytes, expectDigest: Bytes, sha: Bytes -> Bytes,
                            decodable: Bytes -> bool,
                            ghost body: Bytes, ghost headers: nat, ghost contentLength: int, ghost boundary: Bytes)
    returns (r: Option<UploadError>, file: Bytes)
    requires stream.Valid() && HeadersEndAt(body, headers) && stream.Rest() == body[headers..]
    requires finalBoundary == FinalBoundary(boundary) && size == ContentSize(contentLength, boundary, headers)
    modifies stream
    ensures stream.Valid()
    ensures r.None? ==> SplitsAs(body, contentLength, boundary, expectDigest, sha, headers, file, stream.Rest())
    ensures r.None? ==> (|body| - |stream.Rest()| == contentLength <==> size >= 0)
    ensures r.Some? && r.value != Undecodable ==>
      && NoSplit(body, contentLength, boundary, expectDigest, sha)
      && Fault(body[headers..], contentLength, boundary, expectDigest, sha, headers, r.value)
    ensures r == Some(Undecodable) <==>
      BadTailText(body, contentLength, boundary, expectDigest, sha, decodable, headers)
  {
    ghost var s := stream.Rest();
    var digest;
    digest, file := ReadToFile(stream, size, sha);
    PlacedOrNoSplit(body, contentLength, boundary, expectDigest, sha, headers);
    if digest.None? {
      return Some(TooShort), file;
    }
    assert file == s[..|file|] && stream.Rest() == s[|file|..];
    assert file == body[headers..headers + |file|];
    if digest.value != expectDigest {
      return Some(DigestMismatch), file;
    }
    assert |finalBoundary| <= |stream.Rest()| ==>
      stream.Rest()[..|finalBoundary|] == Tail(body, contentLength, boundary, headers);
    r := ReadTail(stream, finalBoundary, decodable);
    if r.None? {
      Succeeds(body, contentLength, boundary, expectDigest, sha, headers, file, stream.Rest());
    }
  }

  /** Read the final boundary and compare. */
  method ReadTail(stream: Stream, finalBoundary: Bytes, decodable: Bytes -> bool) returns (r: Option<UploadError>)
    requires stream.Valid()
    modifies stream
    ensures stream.Valid()
    ensures
      var t, n := old(stream.Rest()), |finalBoundary|;
      && (r == Some(Undecodable) <==> n <= |t| && !decodable(t[..n]))
      && (r.None? <==> n <= |t| && decodable(t[..n]) && t[..n] == finalBoundary)
      && (r.None? ==> t == finalBoundary + stream.Rest())
      && (r.Some? ==> r.value == Undecodable || r.value == BadTail)
  {
    ghost var t := stream.Rest();
    var tail := ReadToMemory(stream, |finalBoundary|);
    if tail.None? {
      return Some(BadTail);
    }
    assert tail.value == t[..|finalBoundary|];
    if !decodable(tail.value) {
      return Some(Undecodable);
    }
    if tail.value != finalBoundary {
      return Some(BadTail);
    }
    return None;
  }

  lemma NoHeaders(body: Bytes, contentLength: int, boundary: Bytes, digest: Bytes, sha: Bytes -> Bytes)
    requires NoBlankLineUpTo(body, |body|)
    ensures NoSplit(body, contentLength, boundary, digest, sha)
  {}

  lemma Succeeds(body: Bytes, contentLength: int, boundary: Bytes, digest: Bytes, sha: Bytes -> Bytes, headers: nat,
                 content: Bytes, unread: Bytes)
    requires HeadersEndAt(body, headers) && sha(content) == digest
    requires |content| == Amount(ContentSize(contentLength, boundary, headers))
    requires body[headers..] == content + (FinalBoundary(boundary) + unread)
    ensures SplitsAs(body, contentLength, boundary, digest, sha, headers, content, unread)
    ensures |body| - |unread| == contentLength <==> ContentSize(contentLength, boundary, headers) >= 0
  {
    assert body == body[..headers] + body[headers..];
    assert body == body[..headers] + content + FinalBoundary(boundary) + unread;
  }

  /** Content and boundary are where they must be if the headers end at `headers`. */
  predicate Placed(body: Bytes, contentLength: int, boundary: Bytes, digest: Bytes, sha: Bytes -> Bytes, headers: nat)
    requires headers <= |body|
  {
    var n, b, s := Amount(ContentSize(contentLength, boundary, headers)), FinalBoundary(boundary), body[headers..];
    n + |b| <= |s| && sha(s[..n]) == digest && s[n..][..|b|] == b
  }

  lemma SplitIsPlaced(body: Bytes, contentLength: int, boundary: Bytes, digest: Bytes, sha: Bytes -> Bytes,
                      headers: nat, h: nat, content: Bytes, unread: Bytes)
    requires HeadersEndAt(body, headers) && SplitsAs(body, contentLength, boundary, digest, sha, h, content, unread)
    ensures Placed(body, contentLength, boundary, digest, sha, headers)
  {
    var n, b, s := Amount(ContentSize(contentLength, boundary, headers)), FinalBoundary(boundary), body[headers..];
    assert h == headers;
    assert s == content + b + unread;
    assert s[..n] == content;
    assert s[n..][..|b|] == b;
  }

  /** With the headers ending where they do, the other pieces can only lie in one place; if one
      of them is wrong there, the body does not have the expected form at all. */
  lemma PlacedOrNoSplit(body: Bytes, contentLength: int, boundary: Bytes, digest: Bytes, sha: Bytes -> Bytes,
                        headers: nat)
    requires HeadersEndAt(body, headers)
    ensures Placed(body, contentLength, boundary, digest, sha, headers) ||
      NoSplit(body, contentLength, boundary, digest, sha)
  {
    if !NoSplit(body, contentLength, boundary, digest, sha) {
      var h, content, unread :| SplitsAs(body, contentLength, boundary, digest, sha, h, content, unread);
      SplitIsPlaced(body, contentLength, boundary, digest, sha, headers, h, content, unread);
    }
  }

  // ----- The body that clients send, in plain bytes

  /** A line that ends with its only line feed and is not blank. */
  predicate HeaderLine(line: Bytes)
  {
    && line != [] && line[|line| - 1] == 10
    && (forall i :: 0 <= i < |line| - 1 ==> line[i] != 10)
    && line != [10] && line != [13, 10]
  }

  function Joined(lines: seq<Bytes>): Bytes
  {
    if lines == [] then [] else Joined(lines[..|lines| - 1]) + lines[|lines| - 1]
  }

  ghost predicate HeaderLines(lines: seq<Bytes>)
  {
    forall k :: 0 <= k < |lines| ==> HeaderLine(lines[k])
  }

  /** Where the text of header lines is followed by anything, no blank line ends in it, and each
      line in it is read as it is. */
  lemma {:induction false} HeaderTextRead(lines: seq<Bytes>, rest: Bytes, decodable: Bytes -> bool)
    requires HeaderLines(lines) && forall k :: 0 <= k < |lines| ==> decodable(lines[k])
    ensures
      var s, n := Joined(lines) + rest, |Joined(lines)|;
      && (n == 0 || s[n - 1] == 10)
      && NoBlankLineUpTo(s, n)
      && forall f: nat, e: nat :: f < n ==> !BadHeaderLine(s, decodable, f, e)
    decreases |lines|
  {
    if lines != [] {
      var init, line := lines[..|lines| - 1], lines[|lines| - 1];
      var s, m, n := Joined(lines) + rest, |Joined(init)|, |Joined(lines)|;
      assert s == Joined(init) + (line + rest);
      assert forall k :: 0 <= k < |init| ==> init[k] == lines[k];
      HeaderTextRead(init, line + rest, decodable);
      assert s[m..n] == line;
      assert LineAt(s, m, n) by {
        assert s[n - 1] == line[|line| - 1];
        assert forall i :: m <= i < n - 1 ==> s[i] == line[i - m];
      }
      LineIsBlank(s, m, n);
      LineRead(s, decodable, m, n);
    }
  }

  /** The body: header lines, a blank line, the content and the closing boundary. */
  function OrdinaryBody(lines: seq<Bytes>, blank: Bytes, content: Bytes, boundary: Bytes): Bytes
  {
    Joined(lines) + blank + content + ([13, 10, 45, 45] + boundary + [45, 45, 13, 10])
  }

  lemma OrdinaryHeaders(lines: seq<Bytes>, blank: Bytes, rest: Bytes, decodable: Bytes -> bool)
    requires HeaderLines(lines) && (blank == [10] || blank == [13, 10])
    requires decodable(blank) && forall k :: 0 <= k < |lines| ==> decodable(lines[k])
    ensures
      var s := Joined(lines) + blank + rest;
      HeadersEndAt(s, |Joined(lines)| + |blank|) && HeadersDecode(s, decodable)
  {
    var s, m := Joined(lines) + blank + rest, |Joined(lines)|;
    var n := m + |blank|;
    assert s == Joined(lines) + (blank + rest);
    HeaderTextRead(lines, blank + rest, decodable);
    assert s[m..n] == blank;
    assert s[n - 1] == blank[|blank| - 1];
    assert LineAt(s, m, n);
    LineIsBlank(s, m, n);
    LineRead(s, decodable, m, n);
  }

  /** Every such body, with its own length as Content-Length and the digest of its content, is
      accepted; the file then holds exactly the content and nothing is left unread. */
  method AcceptOrdinaryUpload(lines: seq<Bytes>, blank: Bytes, content: Bytes, boundary: Bytes, stream: Stream,
                              sha: Bytes -> Bytes, decodable: Bytes -> bool)
    returns (r: Option<UploadError>, file: Bytes)
    requires HeaderLines(lines) && (blank == [10] || blank == [13, 10])
    requires decodable(blank) && forall k :: 0 <= k < |lines| ==> decodable(lines[k])
    requires decodable([13, 10, 45, 45] + boundary + [45, 45, 13, 10])
    requires stream.Valid() && stream.Rest() == OrdinaryBody(lines, blank, content, boundary)
    modifies stream
    ensures r.None? && file == content && stream.Valid() && stream.Rest() == []
  {
    ghost var body, h := stream.Rest(), |Joined(lines)| + |blank|;
    ghost var tail := [13, 10, 45, 45] + boundary + [45, 45, 13, 10];
    var length := |Joined(lines)| + |blank| + |content| + |boundary| + 8;
    assert length == |body|;
    OrdinaryHeaders(lines, blank, content + tail, decodable);
    assert body == Joined(lines) + blank + (content + tail);
    OrdinarySplit(body, h, content, tail, boundary, sha, decodable);
    ghost var headers;
    r, file, headers := HandleUploadRequest(length, boundary, sha(content), stream, sha, decodable);
    OneSplit(body, length, boundary, sha(content), sha, h, content, [], headers, file, stream.Rest());
  }

  lemma OrdinarySplit(body: Bytes, h: nat, content: Bytes, tail: Bytes, boundary: Bytes, sha: Bytes -> Bytes,
                      decodable: Bytes -> bool)
    requires HeadersEndAt(body, h) && HeadersDecode(body, decodable) && decodable(tail)
    requires tail == [13, 10, 45, 45] + boundary + [45, 45, 13, 10]
    requires body[h..] == content + tail
    ensures SplitsAs(body, |body|, boundary, sha(content), sha, h, content, [])
    ensures TextsDecode(body, |body|, boundary, sha(content), sha, decodable)
    ensures !NoSplit(body, |body|, boundary, sha(content), sha)
  {
    assert FinalBoundary(boundary) == tail;
    assert body == body[..h] + content + tail + [];
    assert Tail(body, |body|, boundary, h) == tail;
    assert forall g: nat :: HeadersEndAt(body, g) ==> g == h;
    assert SplitsAs(body, |body|, boundary, sha(content), sha, h, content, []);
  }

  /** A body splits in one way only. */
  lemma OneSplit(body: Bytes, contentLength: int, boundary: Bytes, digest: Bytes, sha: Bytes -> Bytes,
                 h: nat, content: Bytes, unread: Bytes, h': nat, content': Bytes, unread': Bytes)
    requires SplitsAs(body, contentLength, boundary, digest, sha, h, content, unread)
    requires SplitsAs(body, contentLength, boundary, digest, sha, h', content', unread')
    ensures h == h' && content == content' && unread == unread'
  {
    var b := FinalBoundary(boundary);
    assert h == h';
    assert body[h..] == content + b + unread == content' + b + unread';
    assert content == body[h..][..|content|] && content' == body[h..][..|content'|];
    assert unread == body[h..][|content| + |b|..] && unread' == body[h..][|content'| + |b|..];
  }
}
