/** Base64 with padding (section 4 of RFC 4648), as octets of ASCII text. */
module Base64 {
  import opened Bytes
  import opened Wrappers

  const PAD: byte := 61

  type sextet = x: int | 0 <= x < 64

  function Letter(v: sextet): (c: byte)
    ensures IsLetter(c) && Value(c) == v
  {
    if v < 26 then 65 + v
    else if v < 52 then 97 + v - 26
    else if v < 62 then 48 + v - 52
    else if v == 62 then 43
    else 47
  }

  predicate IsLetter(c: byte) {
    65 <= c <= 90 || 97 <= c <= 122 || 48 <= c <= 57 || c == 43 || c == 47
  }

  function Value(c: byte): sextet
    requires IsLetter(c)
  {
    if 65 <= c <= 90 then c - 65
    else if 97 <= c <= 122 then c - 97 + 26
    else if 48 <= c <= 57 then c - 48 + 52
    else if c == 43 then 62
    else 63
  }

  function Group3(a: byte, b: byte, c: byte): (byte, byte, byte, byte) {
    (Letter(a / 4), Letter(a % 4 * 16 + b / 16), Letter(b % 16 * 4 + c / 64), Letter(c % 64))
  }

  function Encode(d: bytes): bytes {
    if d == [] then []
    else if |d| == 1 then
      var g := Group3(d[0], 0, 0);
      [g.0, g.1, PAD, PAD]
    else if |d| == 2 then
      var g := Group3(d[0], d[1], 0);
      [g.0, g.1, g.2, PAD]
    else
      var g := Group3(d[0], d[1], d[2]);
      [g.0, g.1, g.2, g.3] + Encode(d[3..])
  }

  function Octets(p: sextet, q: sextet, r: sextet, s: sextet): (byte, byte, byte) {
    (p * 4 + q / 16, q % 16 * 16 + r / 4, r % 4 * 64 + s)
  }

  function Decode(t: bytes): Option<bytes> {
    if t == [] then Some([])
    else if |t| < 4 || !IsLetter(t[0]) || !IsLetter(t[1]) then None
    else if |t| == 4 && t[2] == PAD && t[3] == PAD then
      Some([Octets(Value(t[0]), Value(t[1]), 0, 0).0])
    else if !IsLetter(t[2]) then None
    else if |t| == 4 && t[3] == PAD then
      var o := Octets(Value(t[0]), Value(t[1]), Value(t[2]), 0);
      Some([o.0, o.1])
    else if !IsLetter(t[3]) then None
    else
      var o := Octets(Value(t[0]), Value(t[1]), Value(t[2]), Value(t[3]));
      var rest := Decode(t[4..]);
      if rest.None? then None else Some([o.0, o.1, o.2] + rest.value)
  }

  lemma OctetsOfSextets(a: byte, b: byte, c: byte)
    ensures Octets(a / 4, a % 4 * 16 + b / 16, b % 16 * 4 + c / 64, c % 64) == (a, b, c)
    ensures b == 0 ==> Octets(a / 4, a % 4 * 16 + b / 16, 0, 0).0 == a
  {
  }

  lemma GroupValues(a: byte, b: byte, c: byte)
    ensures var g := Group3(a, b, c);
            && Value(g.0) == a / 4 && Value(g.1) == a % 4 * 16 + b / 16
            && Value(g.2) == b % 16 * 4 + c / 64 && Value(g.3) == c % 64
  {
  }

  lemma GroupInverts(a: byte, b: byte, c: byte)
    ensures var g := Group3(a, b, c);
            Octets(Value(g.0), Value(g.1), Value(g.2), Value(g.3)) == (a, b, c)
  {
    GroupValues(a, b, c);
    OctetsOfSextets(a, b, c);
  }

  lemma SingleInverts(a: byte, b: byte, c: byte)
    requires b == 0 && c == 0
    ensures Octets(Value(Group3(a, b, c).0), Value(Group3(a, b, c).1), 0, 0).0 == a
  {
    GroupValues(a, b, c);
    OctetsOfSextets(a, b, c);
  }

  lemma FullGroupIsRead(a: byte, b: byte, c: byte, rest: bytes)
    ensures var g := Group3(a, b, c);
            Decode([g.0, g.1, g.2, g.3] + rest) ==
            (var more := Decode(rest); if more.None? then None else Some([a, b, c] + more.value))
  {
    var g := Group3(a, b, c);
    var t := [g.0, g.1, g.2, g.3] + rest;
    GroupInverts(a, b, c);
    assert t[4..] == rest;
    assert t[0] == g.0 && t[1] == g.1 && t[2] == g.2 && t[3] == g.3;
  }

  lemma SingleIsRead(a: byte)
    ensures Decode(Encode([a])) == Some([a])
  {
    var g := Group3(a, 0, 0);
    SingleInverts(a, 0, 0);
    assert Encode([a]) == [g.0, g.1, PAD, PAD];
  }

  lemma PairIsRead(a: byte, b: byte)
    ensures Decode(Encode([a, b])) == Some([a, b])
  {
    var g := Group3(a, b, 0);
    GroupInverts(a, b, 0);
    assert Encode([a, b]) == [g.0, g.1, g.2, PAD];
  }

  lemma EncodeLonger(a: byte, b: byte, c: byte, rest: bytes)
    ensures var g := Group3(a, b, c);
            Encode([a, b, c] + rest) == [g.0, g.1, g.2, g.3] + Encode(rest)
  {
    var d := [a, b, c] + rest;
    assert d[3..] == rest && d[0] == a && d[1] == b && d[2] == c;
  }

  lemma LongerIsRead(a: byte, b: byte, c: byte, rest: bytes)
    requires Decode(Encode(rest)) == Some(rest)
    ensures Decode(Encode([a, b, c] + rest)) == Some([a, b, c] + rest)
  {
    var text := Encode(rest);
    EncodeLonger(a, b, c, rest);
    FullGroupIsRead(a, b, c, text);
  }

  lemma {:induction false} DecodeEncode(d: bytes)
    ensures Decode(Encode(d)) == Some(d)
  {
    if d == [] {
    } else if |d| == 1 {
      assert d == [d[0]];
      SingleIsRead(d[0]);
    } else if |d| == 2 {
      assert d == [d[0], d[1]];
      PairIsRead(d[0], d[1]);
    } else {
      assert d == [d[0], d[1], d[2]] + d[3..];
      DecodeEncode(d[3..]);
      LongerIsRead(d[0], d[1], d[2], d[3..]);
    }
  }

  /** The letters of table 1 of RFC 4648, in its order. */
  lemma LettersAre(v: sextet, c: byte)
    ensures var l := Letter(v) as char;
            if v < 26 then 'A' <= l <= 'Z' && l - 'A' == v as char
            else if v < 52 then 'a' <= l <= 'z' && l - 'a' == (v - 26) as char
            else if v < 62 then '0' <= l <= '9' && l - '0' == (v - 52) as char
            else l == "+/"[v - 62]
    ensures IsLetter(c) <==> var l := c as char;
              'A' <= l <= 'Z' || 'a' <= l <= 'z' || '0' <= l <= '9' || l == '+' || l == '/'
    ensures IsLetter(c) ==> Letter(Value(c)) == c
  {
  }

  function OctetAt(d: seq<int>, i: nat): int {
    if i < |d| then d[i] else 0
  }

  /** The 24 bits of the group of octets that starts at i, with zeros behind the end of the data. */
  function Bits(d: seq<int>, i: nat): int {
    65536 * OctetAt(d, i) + 256 * OctetAt(d, i + 1) + OctetAt(d, i + 2)
  }

  /** Number q of the four sextets of 24 bits. */
  function Sextet(n: int, q: nat): sextet
    requires q < 4
  {
    (if q == 0 then n / 262144 else if q == 1 then n / 4096 else if q == 2 then n / 64 else n) % 64
  }

  lemma SextetsOfSum(p: int, q: int, r: int, s: int)
    requires 0 <= p < 64 && 0 <= q < 64 && 0 <= r < 64 && 0 <= s < 64
    ensures var n := 64 * (64 * (64 * p + q) + r) + s;
            Sextet(n, 0) == p && Sextet(n, 1) == q && Sextet(n, 2) == r && Sextet(n, 3) == s
  {
    var high := 64 * p + q;
    var mid := 64 * high + r;
    var n := 64 * mid + s;
    assert n / 64 == mid && n % 64 == s;
    assert n / 4096 == mid / 64 == high && mid % 64 == r;
    assert n / 262144 == high / 64 == p && high % 64 == q;
  }

  lemma BitsAreSextets(a: int, b: int, c: int)
    requires 0 <= a < 256 && 0 <= b < 256 && 0 <= c < 256
    ensures 65536 * a + 256 * b + c
         == 64 * (64 * (64 * (a / 4) + (a % 4 * 16 + b / 16)) + (b % 16 * 4 + c / 64)) + c % 64
  {
  }

  lemma GroupSextets(a: byte, b: byte, c: byte, q: nat)
    requires q < 4
    ensures var g := Group3(a, b, c);
            Letter(Sextet(65536 * a as int + 256 * b as int + c as int, q)) ==
            (if q == 0 then g.0 else if q == 1 then g.1 else if q == 2 then g.2 else g.3)
  {
    BitsAreSextets(a, b, c);
    SextetsOfSum(a / 4, a % 4 * 16 + b / 16, b % 16 * 4 + c / 64, c % 64);
  }

  lemma {:induction false} EncodedLength(d: bytes)
    ensures |Encode(d)| == (|d| + 2) / 3 * 4
  {
    if |d| >= 3 {
      EncodedLength(d[3..]);
    }
  }

  lemma FirstGroup(d: bytes, a: byte, b: byte, c: byte)
    requires d != [] && a == d[0] && b == OctetAt(d, 1) && c == OctetAt(d, 2)
    ensures var t, g := Encode(d), Group3(a, b, c);
            && |t| >= 4 && t[0] == g.0 && t[1] == g.1
            && t[2] == (if |d| > 1 then g.2 else 61) && t[3] == (if |d| > 2 then g.3 else 61)
  {
  }

  lemma FirstGroupIs(d: bytes, q: nat)
    requires d != [] && q < 4
    ensures |Encode(d)| >= 4
    ensures Encode(d)[q] == if q > |d| then '=' as int else Letter(Sextet(Bits(d, 0), q))
  {
    FirstGroup(d, d[0], OctetAt(d, 1), OctetAt(d, 2));
    GroupSextets(d[0], OctetAt(d, 1), OctetAt(d, 2), q);
  }

  lemma BitsOfRest(d: bytes, i: nat)
    requires |d| >= 3
    ensures Bits(d[3..], i) == Bits(d, i + 3)
  {
  }

  /** Each group of four characters stands for the bits of three octets; "=" stands for what is missing. */
  lemma {:induction false} EncodedAre(d: bytes, k: nat, q: nat)
    requires 3 * k < |d| && q < 4
    ensures 4 * k + q < |Encode(d)| == (|d| + 2) / 3 * 4
    ensures Encode(d)[4 * k + q] == if 3 * k + q > |d| then '=' as int else Letter(Sextet(Bits(d, 3 * k), q))
    decreases k
  {
    EncodedLength(d);
    if k == 0 {
      FirstGroupIs(d, q);
    } else {
      EncodedAre(d[3..], k - 1, q);
      BitsOfRest(d, 3 * k - 3);
      assert Encode(d)[4 * k + q] == Encode(d[3..])[4 * (k - 1) + q];
    }
  }

  /** The text contains no single quote, so the shell passes it through `'...'` unchanged. */
  lemma {:induction false} EncodedTextIsShellSafe(d: bytes)
    ensures '\'' as int !in Encode(d)
    ensures Encode(d) == [] <==> d == []
  {
    if |d| >= 3 {
      EncodedTextIsShellSafe(d[3..]);
    }
  }
}
