/** Percent-encoding of octets (sections 2.1 and 2.3 of RFC 3986). */
module PercentEncoding {
  import opened Bytes
  import opened Wrappers

  /** The unreserved characters of section 2.3 of RFC 3986. */
  predicate Unreserved(b: byte) {
    48 <= b <= 57 || 65 <= b <= 90 || 97 <= b <= 122 || b == 45 || b == 46 || b == 95 || b == 126
  }

  function HexChar(d: nat): (c: char)
    requires d < 16
    ensures c != '/' && c != '{' && c != '}' && c != '%'
    ensures HexCharValue(c) == Some(d)
  {
    if d < 10 then '0' + d as char else 'A' + (d - 10) as char
  }

  function HexCharValue(c: char): Option<nat> {
    if '0' <= c <= '9' then Some((c - '0') as nat)
    else if 'A' <= c <= 'F' then Some((c - 'A') as nat + 10)
    else if 'a' <= c <= 'f' then Some((c - 'a') as nat + 10)
    else None
  }

  /** The octets of a character in UTF-8. */
  function Utf8(c: char): (b: bytes)
    ensures b != []
  {
    var n := c as int;
    if n < 0x80 then [n]
    else if n < 0x800 then [0xC0 + n / 64, 0x80 + n % 64]
    else if n < 0x10000 then [0xE0 + n / 4096, 0x80 + n / 64 % 64, 0x80 + n % 64]
    else [0xF0 + n / 262144, 0x80 + n / 4096 % 64, 0x80 + n / 64 % 64, 0x80 + n % 64]
  }

  function PercentEncode(b: bytes): string {
    if b == [] then "" else ['%', HexChar(b[0] / 16), HexChar(b[0] % 16)] + PercentEncode(b[1..])
  }

  /** quote(value, safe="") */
  function Quote(v: bytes): string {
    if v == [] then ""
    else if Unreserved(v[0]) then [v[0] as char] + Quote(v[1..])
    else ['%', HexChar(v[0] / 16), HexChar(v[0] % 16)] + Quote(v[1..])
  }

  /** Percent-decoding after section 2.1 of RFC 3986; None for malformed text. */
  function Unquote(s: string): Option<bytes>
    decreases |s|
  {
    if s == "" then Some([])
    else if s[0] == '%' then
      if |s| < 3 || HexCharValue(s[1]).None? || HexCharValue(s[2]).None? then None
      else
        var rest := Unquote(s[3..]);
        if rest.None? then None
        else Some([16 * HexCharValue(s[1]).value + HexCharValue(s[2]).value] + rest.value)
    else if s[0] as int >= 256 then None
    else
      var rest := Unquote(s[1..]);
      if rest.None? then None else Some([s[0] as int] + rest.value)
  }

  lemma {:induction false} QuoteIsReversible(v: bytes)
    ensures Unquote(Quote(v)) == Some(v)
  {
    if v != [] {
      QuoteIsReversible(v[1..]);
      assert v == [v[0]] + v[1..];
      if Unreserved(v[0]) {
        assert Quote(v)[1..] == Quote(v[1..]);
      } else {
        assert Quote(v)[3..] == Quote(v[1..]);
      }
    }
  }

  /** The characters that stay are letters, digits, "-", ".", "_" and "~"; hexadecimal digits are upper case. */
  lemma CharactersAre(b: byte, d: nat)
    requires d < 16
    ensures Unreserved(b) <==> var c := b as char;
              'A' <= c <= 'Z' || 'a' <= c <= 'z' || '0' <= c <= '9' || c in "-._~"
    ensures HexChar(d) == "0123456789ABCDEF"[d] && HexCharValue("0123456789abcdef"[d]) == Some(d)
  {
  }

  /** What section 3 of RFC 3629 makes of the octets of a character. */
  function Utf8Value(b: seq<int>): int
    requires 1 <= |b| <= 4
  {
    if |b| == 1 then b[0]
    else if |b| == 2 then 64 * (b[0] - 0xC0) + (b[1] - 0x80)
    else if |b| == 3 then 4096 * (b[0] - 0xE0) + 64 * (b[1] - 0x80) + (b[2] - 0x80)
    else 262144 * (b[0] - 0xF0) + 4096 * (b[1] - 0x80) + 64 * (b[2] - 0x80) + (b[3] - 0x80)
  }

  lemma DigitsOf64(n: int)
    requires 0 <= n
    ensures n == 64 * (n / 64) + n % 64 && n / 64 == 64 * (n / 4096) + n / 64 % 64
    ensures n / 4096 == 64 * (n / 262144) + n / 4096 % 64
  {
  }

  /** As few octets as possible, the first one telling how many, and the others in their range. */
  lemma Utf8Is(c: char)
    ensures var n, b := c as int, Utf8(c);
            && |b| == (if n < 0x80 then 1 else if n < 0x800 then 2 else if n < 0x10000 then 3 else 4)
            && (|b| == 2 ==> 0xC0 <= b[0] < 0xE0) && (|b| == 3 ==> 0xE0 <= b[0] < 0xF0) && (|b| == 4 ==> 0xF0 <= b[0])
            && (forall i :: 1 <= i < |b| ==> 0x80 <= b[i] < 0xC0)
            && Utf8Value(b) == n
  {
    DigitsOf64(c as int);
  }

  lemma {:induction false} PercentEncodeIsReversible(b: bytes)
    ensures Unquote(PercentEncode(b)) == Some(b) && |PercentEncode(b)| == 3 * |b|
  {
    if b != [] {
      PercentEncodeIsReversible(b[1..]);
      assert b == [b[0]] + b[1..];
      assert PercentEncode(b)[3..] == PercentEncode(b[1..]);
    }
  }
}
