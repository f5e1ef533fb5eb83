/**
 What an HTTP client makes of a URL text before it sends a request: it drops the fragment, replaces the
 query by the request's parameters, removes dot segments (section 5.2.4 of RFC 3986) and percent-encodes
 the path (the path percent-encode set of the WHATWG URL Standard, over the octets of UTF-8).  Clients
 differ in one point: after a dot segment at the end of a path the RFC keeps a slash, and httpx drops it.
 */
module ClientUrl {
  import opened Bytes
  import opened PercentEncoding
  import opened Sequences
  import opened Text
  import opened Wrappers

  // ---- percent-encoding of paths ----

  /** Characters that a client refuses in a URL. */
  predicate Control(c: char) {
    (c as int) < 0x20 || c as int == 0x7F
  }

  predicate Printable(s: string) {
    forall c :: c in s ==> !Control(c)
  }

  /** Characters that stay as they are in a path; existing percent-encodings stay too. */
  predicate Kept(c: char) {
    0x21 <= c as int <= 0x7E && c !in {'"', '#', '<', '>', '?', '`', '{', '}'}
  }

  /** Kept are letters, digits and most signs; refused are those below 128 that are neither kept nor encoded. */
  lemma KeptAre(c: char)
    ensures Kept(c) <==> 'a' <= c <= 'z' || 'A' <= c <= 'Z' || '0' <= c <= '9' || c in "!$%&'()*+,-./:;=@[\\]^_|~"
    ensures Control(c) <==> c < 128 as char && !Kept(c) && c !in " \"#<>?`{}"
  {
  }

  predicate AllKept(s: string) {
    forall c :: c in s ==> Kept(c)
  }

  function EncodeChar(c: char): string {
    if Kept(c) then [c] else PercentEncode(Utf8(c))
  }

  function Encode(s: string): string {
    FlatMap(EncodeChar, s)
  }

  lemma EncodeAdd(a: string, b: string)
    ensures Encode(a + b) == Encode(a) + Encode(b)
  {
    FlatMapAdd(EncodeChar, a, b);
  }

  lemma {:induction false} EncodeKept(s: string)
    requires AllKept(s)
    ensures Encode(s) == s
  {
    if s != "" {
      assert s[0] in s && forall c :: c in s[1..] ==> c in s;
      EncodeKept(s[1..]);
      assert s == [s[0]] + s[1..];
    }
  }

  lemma HexCharIsKept(d: nat)
    requires d < 16
    ensures Kept(HexChar(d))
  {
  }

  lemma {:induction false} PercentEncodeIsKept(b: bytes)
    ensures AllKept(PercentEncode(b)) && '/' !in PercentEncode(b)
    ensures b != [] ==> '%' in PercentEncode(b)
  {
    if b != [] {
      HexCharIsKept(b[0] / 16);
      HexCharIsKept(b[0] % 16);
      PercentEncodeIsKept(b[1..]);
      assert PercentEncode(b)[0] == '%';
    }
  }

  /** Encoded text is made of kept characters, and it is the text itself if nothing had to be encoded. */
  lemma {:induction false} EncodeIsKept(s: string)
    ensures AllKept(Encode(s))
    ensures '/' !in s ==> '/' !in Encode(s)
    ensures '%' !in Encode(s) ==> AllKept(s)
  {
    if s != "" {
      PercentEncodeIsKept(Utf8(s[0]));
      EncodeIsKept(s[1..]);
      assert s[0] in s && forall c :: c in s[1..] ==> c in s;
      assert forall c :: c in s ==> c == s[0] || c in s[1..];
    }
  }

  /** Encoding leaves exactly the texts of kept characters as they are. */
  lemma EncodeUnchangedIff(s: string)
    ensures Encode(s) == s <==> AllKept(s)
  {
    EncodeIsKept(s);
    if AllKept(s) {
      EncodeKept(s);
    }
  }

  function EncodeAll(segments: seq<string>): (r: seq<string>)
    ensures |r| == |segments|
  {
    if segments == [] then [] else [Encode(segments[0])] + EncodeAll(segments[1..])
  }

  lemma {:induction false} EncodeAllAdd(a: seq<string>, b: seq<string>)
    ensures EncodeAll(a + b) == EncodeAll(a) + EncodeAll(b)
  {
    if a == [] {
      EmptyUnit(b);
      EmptyUnit(EncodeAll(b));
    } else {
      EncodeAllAdd(a[1..], b);
      assert (a + b)[1..] == a[1..] + b;
      Assoc([Encode(a[0])], EncodeAll(a[1..]), EncodeAll(b));
    }
  }

  // ---- segments ----

  predicate SlashFree(segments: seq<string>) {
    forall s :: s in segments ==> '/' !in s
  }

  /** Each segment with its slash in front. */
  function Join(segments: seq<string>): string {
    if segments == [] then "" else ['/'] + (segments[0] + Join(segments[1..]))
  }

  /** The segments of a path that is empty or begins with a slash. */
  function Segments(path: string): (segments: seq<string>)
    ensures SlashFree(segments)
  {
    if path == "" then [] else Split(path[1..], '/')
  }

  predicate Rooted(path: string) {
    path == "" || path[0] == '/'
  }

  lemma {:induction false} JoinAdd(a: seq<string>, b: seq<string>)
    ensures Join(a + b) == Join(a) + Join(b)
  {
    if a == [] {
      EmptyUnit(b);
      EmptyUnit(Join(b));
    } else {
      JoinAdd(a[1..], b);
      assert (a + b)[1..] == a[1..] + b;
      Assoc(a[0], Join(a[1..]), Join(b));
      Assoc(['/'], a[0] + Join(a[1..]), Join(b));
    }
  }

  lemma SplitBeforeSlash(segment: string, rest: string)
    requires '/' !in segment && rest != "" && rest[0] == '/'
    ensures Split(segment + rest, '/') == [segment] + Split(rest[1..], '/')
  {
    assert rest == ['/'] + rest[1..];
    Assoc(segment, ['/'], rest[1..]);
    SplitAtSeparator(segment, '/', rest[1..]);
  }

  lemma {:induction false} SplitOfJoin(segments: seq<string>)
    requires segments != [] && SlashFree(segments)
    ensures Split(Join(segments)[1..], '/') == segments
  {
    var rest := Join(segments[1..]);
    assert Join(segments)[1..] == segments[0] + rest;
    assert segments[0] in segments && forall s :: s in segments[1..] ==> s in segments;
    if segments[1..] == [] {
      EmptyUnit(segments[0]);
      SplitAtSeparator(segments[0], '/', "");
    } else {
      SplitOfJoin(segments[1..]);
      SplitBeforeSlash(segments[0], rest);
      assert segments == [segments[0]] + segments[1..];
    }
  }

  lemma SegmentsOfJoin(segments: seq<string>)
    requires SlashFree(segments)
    ensures Segments(Join(segments)) == segments
  {
    if segments != [] {
      SplitOfJoin(segments);
    }
  }

  lemma JoinCons(a: string, segments: seq<string>)
    ensures Join([a] + segments) == ['/'] + (a + Join(segments))
  {
    assert ([a] + segments)[1..] == segments;
  }

  lemma {:induction false} JoinOfSplit(s: string)
    ensures Join(Split(s, '/')) == ['/'] + s
    decreases |s|
  {
    var i := IndexOf(s, '/');
    if i == |s| {
      JoinCons(s, []);
      EmptyUnit(s);
      EmptyUnit([s]);
    } else {
      JoinOfSplit(s[i + 1..]);
      JoinCons(s[..i], Split(s[i + 1..], '/'));
      assert s[..i] + (['/'] + s[i + 1..]) == s;
    }
  }

  lemma JoinOfSegments(path: string)
    requires Rooted(path)
    ensures Join(Segments(path)) == path
  {
    if path != "" {
      JoinOfSplit(path[1..]);
    }
  }

  lemma SegmentsAdd(a: string, b: string)
    requires Rooted(a) && Rooted(b)
    ensures Segments(a + b) == Segments(a) + Segments(b)
  {
    JoinOfSegments(a);
    JoinOfSegments(b);
    JoinAdd(Segments(a), Segments(b));
    SegmentsOfJoin(Segments(a) + Segments(b));
  }

  lemma {:induction false} EncodeJoin(segments: seq<string>)
    ensures Encode(Join(segments)) == Join(EncodeAll(segments))
  {
    if segments != [] {
      EncodeJoin(segments[1..]);
      EncodeAdd(segments[0], Join(segments[1..]));
      EncodeAdd(['/'], segments[0] + Join(segments[1..]));
      EncodeKept(['/']);
      assert EncodeAll(segments)[1..] == EncodeAll(segments[1..]);
    }
  }

  lemma {:induction false} EncodeAllIsKept(segments: seq<string>)
    requires SlashFree(segments)
    ensures SlashFree(EncodeAll(segments)) && AllKept(Join(EncodeAll(segments)))
    ensures EncodeAll(EncodeAll(segments)) == EncodeAll(segments)
  {
    if segments != [] {
      var rest := EncodeAll(segments[1..]);
      assert segments[0] in segments && forall s :: s in segments[1..] ==> s in segments;
      EncodeIsKept(segments[0]);
      EncodeKept(Encode(segments[0]));
      EncodeAllIsKept(segments[1..]);
      assert EncodeAll(segments)[1..] == rest;
    }
  }

  // ---- dot segments ----

  predicate IsDot(segment: string) {
    segment == "." || segment == ".."
  }

  function Push(out: seq<string>, segment: string): seq<string> {
    if segment == "." then out
    else if segment == ".." then (if out == [] then [] else out[..|out| - 1])
    else out + [segment]
  }

  function PushAll(out: seq<string>, segments: seq<string>): seq<string>
    decreases |segments|
  {
    if segments == [] then out else PushAll(Push(out, segments[0]), segments[1..])
  }

  /** What a dot segment at the end leaves behind it: an empty segment if the client keeps the slash. */
  function DotTail(keeps: bool, segments: seq<string>): seq<string> {
    if keeps && segments != [] && IsDot(segments[|segments| - 1]) then [""] else []
  }

  function RemoveDots(keeps: bool, segments: seq<string>): seq<string> {
    PushAll([], segments) + DotTail(keeps, segments)
  }

  /** How often ".." finds nothing of the path itself to take back, when `depth` segments stand before it. */
  function Climb(depth: nat, segments: seq<string>): nat
    decreases |segments|
  {
    if segments == [] then 0
    else if segments[0] == "." then Climb(depth, segments[1..])
    else if segments[0] == ".." then
      if depth == 0 then 1 + Climb(0, segments[1..]) else Climb(depth - 1, segments[1..])
    else Climb(depth + 1, segments[1..])
  }

  /** The first segments, without the last `d` of them. */
  function Shortened(base: seq<string>, d: nat): (r: seq<string>)
    ensures |r| == (if d < |base| then |base| - d else 0)
  {
    if d < |base| then base[..|base| - d] else []
  }

  lemma PushOnBase(base: seq<string>, out: seq<string>, segment: string)
    ensures Push(base + out, segment) ==
            if segment == ".." && out == [] then Shortened(base, 1) else base + Push(out, segment)
  {
    if segment == ".." {
      if out == [] {
        EmptyUnit(base);
      } else {
        assert (base + out)[..|base + out| - 1] == base + out[..|out| - 1];
      }
    } else if segment != "." {
      Assoc(base, out, [segment]);
    }
  }

  lemma ShortenedTwice(base: seq<string>, d: nat)
    ensures Shortened(Shortened(base, 1), d) == Shortened(base, d + 1)
  {
  }

  /** A step that takes away a segment of the base, and one that does not. */
  lemma ClimbStep(out: seq<string>, segments: seq<string>)
    requires segments != []
    ensures var (segment, rest) := (segments[0], segments[1..]);
            Climb(|out|, segments) ==
            if segment == ".." && out == [] then 1 + Climb(0, rest) else Climb(|Push(out, segment)|, rest)
  {
  }

  lemma PushStep(out: seq<string>, segments: seq<string>)
    requires segments != []
    ensures PushAll(out, segments) == PushAll(Push(out, segments[0]), segments[1..])
  {
  }

  lemma ClimbOnBase(base: seq<string>, rest: seq<string>)
    requires PushAll(Shortened(base, 1) + [], rest) ==
             Shortened(Shortened(base, 1), Climb(0, rest)) + PushAll([], rest)
    ensures PushAll(Shortened(base, 1), rest) == Shortened(base, 1 + Climb(0, rest)) + PushAll([], rest)
  {
    EmptyUnit(Shortened(base, 1));
    ShortenedTwice(base, Climb(0, rest));
  }

  lemma {:induction false} PushAllOnBase(base: seq<string>, out: seq<string>, segments: seq<string>)
    ensures PushAll(base + out, segments) ==
            Shortened(base, Climb(|out|, segments)) + PushAll(out, segments)
    decreases |segments|
  {
    if segments != [] {
      PushOnBase(base, out, segments[0]);
      ClimbStep(out, segments);
      PushStep(out, segments);
      PushStep(base + out, segments);
      if segments[0] == ".." && out == [] {
        PushAllOnBase(Shortened(base, 1), [], segments[1..]);
        ClimbOnBase(base, segments[1..]);
      } else {
        PushAllOnBase(base, Push(out, segments[0]), segments[1..]);
      }
    }
  }

  lemma {:induction false} PushAllAdd(out: seq<string>, a: seq<string>, b: seq<string>)
    ensures PushAll(out, a + b) == PushAll(PushAll(out, a), b)
    decreases |a|
  {
    if a == [] {
      EmptyUnit(b);
    } else {
      assert (a + b)[0] == a[0] && (a + b)[1..] == a[1..] + b;
      PushAllAdd(Push(out, a[0]), a[1..], b);
    }
  }

  /**
   Behind a base, a path gives what it gives alone, and each climb takes away a segment of what the base
   itself comes to.
   */
  lemma DotsOnBase(keeps: bool, base: seq<string>, segments: seq<string>)
    requires segments != []
    ensures RemoveDots(keeps, base + segments) ==
            Shortened(PushAll([], base), Climb(0, segments)) + RemoveDots(keeps, segments)
  {
    var front := PushAll([], base);
    PushAllAdd([], base, segments);
    EmptyUnit(front);
    PushAllOnBase(front, [], segments);
    assert DotTail(keeps, base + segments) == DotTail(keeps, segments);
    Assoc(Shortened(front, Climb(0, segments)), PushAll([], segments), DotTail(keeps, segments));
  }

  ghost predicate DotFree(segments: seq<string>) {
    forall s :: s in segments ==> !IsDot(s)
  }

  lemma {:induction false} PushedIsDotFree(out: seq<string>, segments: seq<string>)
    requires DotFree(out) && SlashFree(out) && SlashFree(segments)
    ensures DotFree(PushAll(out, segments)) && SlashFree(PushAll(out, segments))
    decreases |segments|
  {
    if segments != [] {
      assert segments[0] in segments && forall s :: s in segments[1..] ==> s in segments;
      PushedIsDotFree(Push(out, segments[0]), segments[1..]);
    }
  }

  lemma DotsAreRemoved(keeps: bool, segments: seq<string>)
    requires SlashFree(segments)
    ensures DotFree(RemoveDots(keeps, segments)) && SlashFree(RemoveDots(keeps, segments))
    ensures keeps && segments != [] ==> RemoveDots(keeps, segments) != []
  {
    PushedIsDotFree([], segments);
    if segments != [] {
      var n := |segments| - 1;
      assert segments == segments[..n] + [segments[n]];
      PushAllAdd([], segments[..n], [segments[n]]);
      assert [segments[n]][1..] == [];
    }
  }

  lemma {:induction false} NoDotsToRemove(out: seq<string>, segments: seq<string>)
    requires DotFree(segments)
    ensures PushAll(out, segments) == out + segments
    decreases |segments|
  {
    if segments == [] {
      EmptyUnit(out);
    } else {
      assert segments[0] in segments && forall s :: s in segments[1..] ==> s in segments;
      NoDotsToRemove(out + [segments[0]], segments[1..]);
      Assoc(out, [segments[0]], segments[1..]);
      assert segments == [segments[0]] + segments[1..];
    }
  }

  // ---- the parts of a URL ----

  predicate Delimiter(c: char) {
    c == '/' || c == '?' || c == '#'
  }

  /** The index of the first delimiter, or |s|. */
  function FirstDelimiter(s: string): (i: nat)
    ensures i <= |s| && (i < |s| ==> Delimiter(s[i]))
    ensures forall j: nat :: j < i ==> !Delimiter(s[j])
  {
    if s == "" || Delimiter(s[0]) then 0 else 1 + FirstDelimiter(s[1..])
  }

  lemma {:induction false} NoDelimiter(s: string)
    requires forall c :: c in s ==> !Delimiter(c)
    ensures FirstDelimiter(s) == |s|
  {
    if s != "" {
      assert s[0] in s && forall c :: c in s[1..] ==> c in s;
      NoDelimiter(s[1..]);
    }
  }

  function SchemeLength(url: string): (k: nat)
    ensures k <= |url|
  {
    if "http://" <= url then 7 else if "https://" <= url then 8 else 0
  }

  /** The length of scheme and authority. */
  function OriginLength(url: string): (k: nat)
    ensures SchemeLength(url) <= k <= |url|
  {
    SchemeLength(url) + FirstDelimiter(url[SchemeLength(url)..])
  }

  function Authority(url: string): string {
    url[SchemeLength(url)..OriginLength(url)]
  }

  /** The index of the first '?' or '#', or |s|. */
  function PathEnd(s: string): (i: nat)
    ensures i <= |s| && (i < |s| ==> s[i] == '?' || s[i] == '#')
    ensures forall j: nat :: j < i ==> s[j] != '?' && s[j] != '#'
  {
    if s == "" || s[0] == '?' || s[0] == '#' then 0 else 1 + PathEnd(s[1..])
  }

  function PathOf(s: string): string {
    s[..PathEnd(s)]
  }

  lemma PathEndIsUnique(s: string, i: nat)
    requires i <= |s| && (i < |s| ==> s[i] == '?' || s[i] == '#')
    requires forall j: nat :: j < i ==> s[j] != '?' && s[j] != '#'
    ensures PathEnd(s) == i
  {
  }

  /** A path without '?' and '#' in front. */
  lemma PathOfSum(a: string, b: string)
    requires '?' !in a && '#' !in a
    ensures PathOf(a + b) == a + PathOf(b) && PathEnd(a + b) == |a| + PathEnd(b)
  {
    var k := |a| + PathEnd(b);
    assert forall j: nat :: j < |a| ==> (a + b)[j] == a[j] && a[j] in a;
    assert forall j: nat :: |a| <= j < k ==> (a + b)[j] == b[j - |a|];
    PathEndIsUnique(a + b, k);
  }

  lemma {:induction false} PathEndOfRest(a: string, b: string)
    requires PathEnd(a) < |a|
    ensures PathEnd(a + b) == PathEnd(a)
  {
    assert (a + b)[0] == a[0] && (a + b)[1..] == a[1..] + b;
    if a[0] != '?' && a[0] != '#' {
      PathEndOfRest(a[1..], b);
    }
  }

  lemma PathOfRest(a: string, b: string)
    requires PathEnd(a) < |a|
    ensures PathOf(a + b) == PathOf(a)
  {
    PathEndOfRest(a, b);
    assert (a + b)[..PathEnd(a)] == a[..PathEnd(a)];
  }

  // ---- the request ----

  /** A path as the client keeps it in a URL. */
  function PathText(keeps: bool, path: string): string {
    Encode(Join(RemoveDots(keeps, Segments(path))))
  }

  /** The path that a client requests. */
  function ClientPath(keeps: bool, path: string): string {
    var text := PathText(keeps, path);
    if text == "" then "/" else text
  }

  function QuerySuffix(query: string): string {
    if query == "" then "" else ['?'] + query
  }

  /** The form of encoded parameters: kept characters, with slashes encoded. */
  predicate UrlEncoded(query: string) {
    AllKept(query) && '/' !in query
  }

  function BeforeHash(s: string): string {
    s[..IndexOf(s, '#')]
  }

  /** The query that a URL text has itself, for requests without parameters. */
  function OwnQuery(s: string): string {
    var i := PathEnd(s);
    if i == |s| || s[i] == '#' then "" else BeforeHash(s[i + 1..])
  }

  /**
   The origin and the request target; None when the client refuses the URL.  With `parameters` they
   replace the query of the text; a query of the text itself stays, here for kept characters.
   */
  function Request(keeps: bool, url: string, parameters: Option<string>): Option<(string, string)> {
    if !Printable(url) then None
    else
      var k := OriginLength(url);
      var query := if parameters.Some? then parameters.value else Encode(OwnQuery(url[k..]));
      Some((url[..k], ClientPath(keeps, PathOf(url[k..])) + QuerySuffix(query)))
  }
}
