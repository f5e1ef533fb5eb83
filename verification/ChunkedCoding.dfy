/**
 The response body that the credential proxy relays to the container
 (app/services/proxy/credential_proxy.py, `_handle_bedrock_reverse_proxy`), and a decoder written
 after section 7.1 of RFC 9112.
 */
module ChunkedCoding {
  import opened Bytes
  import opened Wrappers
  import opened Sequences

  const CR: byte := 13
  const LF: byte := 10
  const ZERO: byte := 48
  const SEMICOLON: byte := 59
  const CRLF: bytes := [CR, LF]
  const LAST_CHUNK: bytes := ([ZERO] + CRLF) + CRLF

  // ---- hexadecimal ----

  function HexDigit(d: nat): (c: byte)
    requires d < 16
    ensures IsHex(c) && HexDigitValue(c) == d
  {
    if d < 10 then ZERO + d else 97 + d - 10
  }

  predicate IsHex(c: byte) {
    48 <= c <= 57 || 65 <= c <= 70 || 97 <= c <= 102
  }

  function HexDigitValue(c: byte): nat
    requires IsHex(c)
  {
    if c <= 57 then c - 48 else if c <= 70 then c - 65 + 10 else c - 97 + 10
  }

  predicate AllHex(s: bytes) {
    forall i :: 0 <= i < |s| ==> IsHex(s[i])
  }

  function HexValue(s: bytes): nat
    requires AllHex(s)
  {
    if s == [] then 0 else 16 * HexValue(s[..|s| - 1]) + HexDigitValue(s[|s| - 1])
  }

  /** `{n:x}`: lower case, no leading zeros. */
  function Hex(n: nat): (s: bytes)
    ensures s != [] && AllHex(s) && HexValue(s) == n
  {
    if n < 16 then [HexDigit(n)]
    else
      var s := Hex(n / 16) + [HexDigit(n % 16)];
      assert s[..|s| - 1] == Hex(n / 16);
      s
  }

  // ---- the encoder ----

  /** The bytes of the chunks from number `n` on. */
  function Concat(chunks: seq<bytes>, n: nat := 0): bytes
    decreases |chunks| - n
  {
    if n >= |chunks| then [] else chunks[n] + Concat(chunks, n + 1)
  }

  function ChunkFrame(chunk: bytes): bytes {
    if chunk == [] then [] else Hex(|chunk|) + (CRLF + (chunk + CRLF))
  }

  /** The chunked coding of the chunks from number `n` on. */
  function Encode(chunks: seq<bytes>, n: nat := 0): bytes
    decreases |chunks| - n
  {
    if n >= |chunks| then LAST_CHUNK else ChunkFrame(chunks[n]) + Encode(chunks, n + 1)
  }

  // ---- the decoder of RFC 9112 ----

  function HexPrefix(s: bytes, k: nat): (n: nat)
    requires k <= |s|
    ensures k <= n <= |s| && (n < |s| ==> !IsHex(s[n]))
    ensures forall i :: k <= i < n ==> IsHex(s[i])
    decreases |s| - k
  {
    if k < |s| && IsHex(s[k]) then HexPrefix(s, k + 1) else k
  }

  predicate CrlfAt(s: bytes, k: nat) {
    k + 1 < |s| && s[k] == CR && s[k + 1] == LF
  }

  /** The index of the first CRLF at or after `k`, or |s|. */
  function FindCrlf(s: bytes, k: nat): (n: nat)
    requires k <= |s|
    ensures k <= n <= |s| && (n < |s| ==> CrlfAt(s, n))
    decreases |s| - k
  {
    if k == |s| || CrlfAt(s, k) then k else FindCrlf(s, k + 1)
  }

  /** What follows the trailer section: field lines up to an empty line. */
  function AfterTrailers(s: bytes): Option<bytes>
    decreases |s|
  {
    var n := FindCrlf(s, 0);
    if n == |s| then None
    else if n == 0 then Some(s[2..])
    else AfterTrailers(s[n + 2..])
  }

  /** A chunk-size line with an optional chunk extension: the size and what follows the line. */
  function ChunkSizeLine(s: bytes): (r: Option<(nat, bytes)>)
    ensures r.Some? ==> |r.value.1| < |s|
  {
    var k := HexPrefix(s, 0);
    if k == 0 then None
    else
      var size := HexValue(s[..k]);
      if CrlfAt(s, k) then Some((size, s[k + 2..]))
      else if k < |s| && s[k] == SEMICOLON then
        var n := FindCrlf(s, k);
        if n == |s| then None else Some((size, s[n + 2..]))
      else None
  }

  /** The decoded body and the bytes after it; None for a malformed or truncated body. */
  function Decode(s: bytes): Option<(bytes, bytes)>
    decreases |s|
  {
    var line := ChunkSizeLine(s);
    if line.None? then None
    else
      var (size, t) := line.value;
      if size == 0 then
        var rest := AfterTrailers(t);
        if rest.None? then None else Some(([], rest.value))
      else if CrlfAt(t, size) then
        var more := Decode(t[size + 2..]);
        if more.None? then None else Some((t[..size] + more.value.0, more.value.1))
      else None
  }

  // ---- what is written and read, in characters ----

  lemma HexDigitsAre(d: nat, c: byte)
    requires d < 16
    ensures HexDigit(d) as char == "0123456789abcdef"[d]
    ensures IsHex(c) <==> c as char in "0123456789abcdefABCDEF"
    ensures IsHex(c) ==> HexDigitValue(c) < 16
                         && (c as char == "0123456789abcdef"[HexDigitValue(c)]
                             || c as char == "0123456789ABCDEF"[HexDigitValue(c)])
  {
  }

  /** The digits are lower case, without a leading zero. */
  lemma {:induction false} HexIsShortest(n: nat)
    ensures forall c :: c in Hex(n) ==> c as char in "0123456789abcdef"
    ensures n > 0 ==> Hex(n)[0] as char != '0'
  {
    HexDigitsAre(n % 16, 48);
    if n >= 16 {
      HexIsShortest(n / 16);
    }
  }

  /** The octets of ASCII text. */
  ghost predicate Spells(b: bytes, s: string) {
    |b| == |s| && forall i :: 0 <= i < |b| ==> b[i] as char == s[i]
  }

  lemma LineEndsAre()
    ensures Spells(CRLF, "\r\n") && Spells(LAST_CHUNK, "0\r\n\r\n")
  {
    assert CRLF == [13, 10];
    assert [ZERO] + CRLF == [48, 13, 10];
    assert LAST_CHUNK == [48, 13, 10, 13, 10];
  }

  lemma {:induction false} ConcatOfMore(chunks: seq<bytes>, more: bytes, n: nat)
    requires n <= |chunks|
    ensures Concat(chunks + [more], n) == Concat(chunks, n) + more
    decreases |chunks| - n
  {
    if n < |chunks| {
      ConcatOfMore(chunks, more, n + 1);
      Assoc(chunks[n], Concat(chunks, n + 1), more);
    } else {
      EmptyUnit(more);
    }
  }

  /** A line that does not start with a digit is no chunk. */
  lemma NoDigitNoChunk(s: bytes)
    requires s == [] || s[0] as char !in "0123456789abcdefABCDEF"
    ensures Decode(s).None?
  {
    if s != [] {
      HexDigitsAre(0, s[0]);
    }
  }

  // ---- round trip ----

  /** A size line made of the digits `h`. */
  lemma SizeLineIsRead(h: bytes, rest: bytes)
    requires h != [] && AllHex(h)
    ensures ChunkSizeLine(h + (CRLF + rest)) == Some((HexValue(h), rest))
  {
    var s := h + (CRLF + rest);
    Seam(h, CRLF + rest);
    Seam(h + CRLF, rest);
    Assoc(h, CRLF, rest);
    var k := HexPrefix(s, 0);
    assert s[|h|] == CR && s[|h| + 1] == LF;
    forall j | 0 <= j < |h| ensures IsHex(s[j]) {
      assert s[j] == h[j];
    }
    assert k == |h|;
  }

  lemma {:induction false} FirstCrlfIs(s: bytes, k: nat, n: nat)
    requires k <= n < |s| && CrlfAt(s, n) && forall j :: k <= j < n ==> s[j] != 13
    ensures FindCrlf(s, k) == n
    decreases n - k
  {
    if k < n {
      FirstCrlfIs(s, k + 1, n);
    }
  }

  /** Between the digits and the line end there can only be an extension, which starts with a semicolon. */
  lemma ExtendedSizeLine(s: bytes, k: nat, n: nat)
    requires 0 < k <= n < |s| && CrlfAt(s, n) && (forall j :: k <= j < n ==> s[j] != 13)
    requires AllHex(s[..k]) && !IsHex(s[k])
    ensures ChunkSizeLine(s) == if k == n || s[k] == ';' as int then Some((HexValue(s[..k]), s[n + 2..])) else None
  {
    forall j | 0 <= j < k ensures IsHex(s[j]) {
      assert s[..k][j] == s[j];
    }
    assert HexPrefix(s, 0) == k;
    FirstCrlfIs(s, k, n);
  }

  /** Trailer lines are skipped up to the empty one. */
  lemma TrailerIsSkipped(s: bytes, n: nat)
    requires n < |s| && CrlfAt(s, n) && forall j :: 0 <= j < n ==> s[j] != 13
    ensures AfterTrailers(s) == if n == 0 then Some(s[2..]) else AfterTrailers(s[n + 2..])
  {
    FirstCrlfIs(s, 0, n);
  }

  /** A frame with size digits `h` and data `chunk`. */
  lemma FrameIsRead(h: bytes, chunk: bytes, rest: bytes)
    requires h != [] && AllHex(h) && HexValue(h) == |chunk| && chunk != []
    ensures Decode(h + (CRLF + (chunk + (CRLF + rest)))) ==
            (var more := Decode(rest); if more.None? then None else Some((chunk + more.value.0, more.value.1)))
  {
    var t := chunk + (CRLF + rest);
    SizeLineIsRead(h, t);
    Seam(chunk, CRLF + rest);
    Seam(CRLF, rest);
    Assoc(chunk, CRLF, rest);
    Seam(chunk + CRLF, rest);
    assert t[|chunk|] == CR && t[|chunk| + 1] == LF;
  }

  lemma ChunkIsRead(chunk: bytes, rest: bytes)
    requires chunk != []
    ensures Decode(ChunkFrame(chunk) + rest) ==
            (var more := Decode(rest); if more.None? then None else Some((chunk + more.value.0, more.value.1)))
  {
    var h := Hex(|chunk|);
    FrameIsRead(h, chunk, rest);
    Assoc(h, CRLF + (chunk + CRLF), rest);
    Assoc(CRLF, chunk + CRLF, rest);
    Assoc(chunk, CRLF, rest);
  }

  lemma LastChunkIsRead(trailing: bytes)
    ensures Decode(LAST_CHUNK + trailing) == Some(([], trailing))
  {
    var h: bytes := [ZERO];
    var t := CRLF + trailing;
    SizeLineIsRead(h, t);
    assert h[..0] == [] && HexValue(h) == 0;
    Seam(CRLF, trailing);
    assert CrlfAt(t, 0);
    Assoc(h + CRLF, CRLF, trailing);
    Assoc(h, CRLF, t);
  }

  lemma {:induction false} DecodeEncodeFrom(chunks: seq<bytes>, n: nat, trailing: bytes)
    ensures Decode(Encode(chunks, n) + trailing) == Some((Concat(chunks, n), trailing))
    decreases |chunks| - n
  {
    if n >= |chunks| {
      LastChunkIsRead(trailing);
    } else {
      var rest := Encode(chunks, n + 1);
      DecodeEncodeFrom(chunks, n + 1, trailing);
      Assoc(ChunkFrame(chunks[n]), rest, trailing);
      if chunks[n] == [] {
        EmptyUnit(rest + trailing);
        EmptyUnit(Concat(chunks, n + 1));
      } else {
        ChunkIsRead(chunks[n], rest + trailing);
      }
    }
  }

  /**
   Round trip, for every list of upstream chunks, empty ones included, and whatever bytes follow:
   the decoder returns the concatenation of the chunks and exactly the bytes that follow.
   */
  lemma DecodeEncode(chunks: seq<bytes>, trailing: bytes)
    ensures Decode(Encode(chunks) + trailing) == Some((Concat(chunks), trailing))
  {
    DecodeEncodeFrom(chunks, 0, trailing);
  }

  /** Relaying an empty chunk as a frame of its own would end the body there, whatever follows. */
  lemma EmptyFrameEndsBody(rest: bytes)
    ensures Decode(((Hex(0) + CRLF) + CRLF) + rest) == Some(([], rest))
  {
    LastChunkIsRead(rest);
    assert Hex(0) == [ZERO];
  }

  // ---- the relay loop ----

  /** The container side of the proxy connection. */
  class Writer {
    var sent: bytes

    constructor ()
      ensures sent == []
    {
      sent := [];
    }

    method Write(data: bytes)
      modifies this
      ensures sent == old(sent) + data
    {
      sent := sent + data;
    }
  }

  /** The writes of one turn of the chunked loop. */
  lemma FrameWritten(sent: bytes, chunk: bytes, rest: bytes)
    ensures chunk == [] ==> sent + rest == sent + (ChunkFrame(chunk) + rest)
    ensures chunk != [] ==>
              (((sent + (Hex(|chunk|) + CRLF)) + chunk) + CRLF) + rest == sent + (ChunkFrame(chunk) + rest)
  {
    EmptyUnit(rest);
    if chunk != [] {
      var h := Hex(|chunk|);
      Assoc(sent, h, CRLF);
      Assoc4(sent + h, CRLF, chunk, CRLF);
      Assoc(sent, h, CRLF + (chunk + CRLF));
      Assoc(sent, ChunkFrame(chunk), rest);
    }
  }

  method RelayRaw(writer: Writer, chunks: seq<bytes>)
    modifies writer
    ensures writer.sent == old(writer.sent) + Concat(chunks)
  {
    var n := 0;
    while n < |chunks|
      invariant n <= |chunks|
      invariant writer.sent + Concat(chunks, n) == old(writer.sent) + Concat(chunks)
    {
      Assoc(writer.sent, chunks[n], Concat(chunks, n + 1));
      writer.Write(chunks[n]);
      n := n + 1;
    }
    EmptyUnit(writer.sent);
  }

  method RelayChunked(writer: Writer, chunks: seq<bytes>)
    modifies writer
    ensures writer.sent == old(writer.sent) + Encode(chunks)
  {
    var n := 0;
    while n < |chunks|
      invariant n <= |chunks|
      invariant writer.sent + Encode(chunks, n) == old(writer.sent) + Encode(chunks)
    {
      FrameWritten(writer.sent, chunks[n], Encode(chunks, n + 1));
      if chunks[n] != [] {
        writer.Write(Hex(|chunks[n]|) + CRLF);
        writer.Write(chunks[n]);
        writer.Write(CRLF);
      }
      n := n + 1;
    }
    writer.Write(LAST_CHUNK);
  }

  /** The body of the response: as it is when its length was announced, chunked otherwise. */
  method RelayBody(writer: Writer, chunks: seq<bytes>, hasContentLength: bool)
    modifies writer
    ensures writer.sent == old(writer.sent) + (if hasContentLength then Concat(chunks) else Encode(chunks))
  {
    if hasContentLength {
      RelayRaw(writer, chunks);
    } else {
      RelayChunked(writer, chunks);
    }
  }
}
