/**
 A tool call from the container to an MCP server's API: the client builds and sends the request
 (workspace_agent/openapi_mcp.py `execute_tool`), the credential proxy reads its request line
 (app/services/proxy/credential_proxy.py `_handle_connection`) and forwards it.
 */
module McpCall {
  import opened ClientUrl
  import opened McpHeaders
  import opened McpRouting
  import opened Sequences
  import opened Text
  import opened Wrappers

  // ---- the request line ----

  function RequestLine(verb: string, target: string): string {
    verb + [' '] + (target + [' '] + "HTTP/1.1")
  }

  /** The first two words of a line of at least three; None closes the connection. */
  function ParseRequestLine(line: string): Option<(string, string)> {
    var parts := Split(line, ' ');
    if |parts| < 3 then None else Some((parts[0], parts[1]))
  }

  lemma LineIsParsed(verb: string, target: string)
    requires ' ' !in verb && ' ' !in target
    ensures ParseRequestLine(RequestLine(verb, target)) == Some((verb, target))
  {
    SplitAtSeparator(verb, ' ', target + [' '] + "HTTP/1.1");
    SplitAtSeparator(target, ' ', "HTTP/1.1");
  }

  // ---- the call ----

  /**
   What becomes of a call: it may go to another origin than the proxy's; `Elsewhere` is another handler of
   the proxy, `NotFound` its 404 answer.
   */
  datatype Answer =
    | NotSent
    | Outside(origin: string, target: string)
    | Malformed
    | Elsewhere
    | NotFound
    | Forwarded(name: string, rule: Rule, url: string)

  function ServerName(target: string): string
    requires MCP_PREFIX <= target
  {
    var mcpPath := target[|MCP_PREFIX|..];
    mcpPath[..IndexOf(mcpPath, '/')]
  }

  function Handle(rules: map<string, Rule>, target: string): Answer {
    if !(MCP_PREFIX <= target) then Elsewhere
    else
      var routed := Route(rules, target);
      if routed.None? then NotFound else Forwarded(ServerName(target), routed.value.0, routed.value.1)
  }

  function Receive(rules: map<string, Rule>, line: string): Answer {
    var parsed := ParseRequestLine(line);
    if parsed.None? then Malformed else Handle(rules, parsed.value.1)
  }

  /** A call by a container whose server configuration has the given base URL. */
  function Call(keeps: bool, rules: map<string, Rule>, baseUrl: string, specServer: string, path: string,
                query: string, verb: string): Answer {
    var url := RequestUrl(baseUrl, specServer, path);
    if url.None? then NotSent
    else
      var request := Request(keeps, url.value, Some(query));
      if request.None? then NotSent
      else if request.value.0 != PROXY_ORIGIN then Outside(request.value.0, request.value.1)
      else Receive(rules, RequestLine(verb, request.value.1))
  }

  /** The call as it should be: under the server's own name, with its rule, to its own base URL. */
  function Own(keeps: bool, c: ServerConfig, path: string, query: string): Answer {
    Forwarded(c.name, Rule(c.baseUrl, c.headers),
              TrimSlashes(c.baseUrl) + (PathText(keeps, PathOf(path)) + QuerySuffix(query)))
  }

  /** A name that a client leaves alone: one segment of characters that are not encoded, and no dot segment. */
  predicate GoodName(name: string) {
    name != "" && !IsDot(name) && AllKept(name) && '/' !in name
  }

  /**
   A path that a client sends and that does not climb above its own beginning; if nothing of it is left,
   which needs a client that drops the slash, there must be no query, or it would end up in the name.
   */
  predicate GoodPath(keeps: bool, path: string, query: string) {
    && Printable(path) && Climb(0, Segments(PathOf(path))) == 0
    && (query == "" || PathText(keeps, PathOf(path)) != "")
  }

  // ---- routing of joined segments ----

  /** The segment behind which the proxy expects the server's name. */
  const ROOT := "mcp"

  lemma PrefixIsRoot()
    ensures MCP_PREFIX == ['/'] + (ROOT + ['/']) && '/' !in ROOT
  {
  }

  lemma JoinUncons(segments: seq<string>, suffix: string)
    requires segments != []
    ensures Join(segments) + suffix == ['/'] + (segments[0] + (Join(segments[1..]) + suffix))
  {
    Assoc(segments[0], Join(segments[1..]), suffix);
    Assoc(['/'], segments[0] + Join(segments[1..]), suffix);
  }

  /** The first slash after a segment is where the rest begins, if the rest has one at all. */
  lemma FirstSlashAfter(segment: string, rest: string)
    requires '/' !in segment
    ensures rest != "" && rest[0] == '/' ==> IndexOf(segment + rest, '/') == |segment|
    ensures '/' !in rest ==> IndexOf(segment + rest, '/') == |segment + rest|
  {
    var s := segment + rest;
    assert forall j: nat :: j < |segment| ==> s[j] == segment[j];
    if rest != "" && rest[0] == '/' {
      FirstIndexIsUnique(s, '/', |segment|);
    }
    if '/' !in rest {
      FirstIndexIsUnique(s, '/', |s|);
    }
  }

  lemma FirstSlashOfRest(segments: seq<string>, suffix: string)
    requires segments != [] && '/' !in suffix
    ensures var rest := Join(segments[1..]) + suffix;
            if |segments| == 1 then rest == suffix else rest != "" && rest[0] == '/'
  {
    if |segments| == 1 {
      EmptyUnit(suffix);
    }
  }

  lemma RootOfJoin(root: string, segment: string, rest: string)
    requires '/' !in root && '/' !in segment && root + ['/'] <= segment + rest
    requires '/' !in rest || (rest != "" && rest[0] == '/')
    ensures '/' in rest && segment == root
  {
    var u := segment + rest;
    assert u[|root|] == '/' && u[..|root|] == root;
    assert forall j: nat :: j < |root| ==> u[j] == root[j];
    FirstIndexIsUnique(u, '/', |root|);
    FirstSlashAfter(segment, rest);
    assert u[..|segment|] == segment;
  }

  lemma PrefixOfJoin(segments: seq<string>, suffix: string)
    requires SlashFree(segments) && '/' !in suffix && MCP_PREFIX <= Join(segments) + suffix
    ensures |segments| >= 2 && segments[0] == ROOT
  {
    var t := Join(segments) + suffix;
    PrefixIsRoot();
    assert t[0] == '/' && (suffix != "" ==> suffix[0] in suffix);
    if segments == [] {
      EmptyUnit(suffix);
    } else {
      JoinUncons(segments, suffix);
      FirstSlashOfRest(segments, suffix);
      assert segments[0] in segments;
      assert MCP_PREFIX[1..] <= t[1..];
      RootOfJoin(ROOT, segments[0], Join(segments[1..]) + suffix);
    }
  }

  lemma HandleAt(rules: map<string, Rule>, u: string)
    ensures var k := IndexOf(u, '/');
            Handle(rules, MCP_PREFIX + u) ==
            if u[..k] in rules then Forwarded(u[..k], rules[u[..k]], TrimSlashes(rules[u[..k]].realBaseUrl) + u[k..])
            else NotFound
  {
    Seam(MCP_PREFIX, u);
  }

  lemma JoinAtPrefix(segments: seq<string>, suffix: string)
    requires |segments| >= 2 && segments[0] == ROOT
    ensures Join(segments) + suffix == MCP_PREFIX + (segments[1] + (Join(segments[2..]) + suffix))
  {
    JoinUncons(segments, suffix);
    JoinUncons(segments[1..], suffix);
    assert segments[1..][1..] == segments[2..] && segments[1..][0] == segments[1];
    var x := segments[1] + (Join(segments[2..]) + suffix);
    PrefixIsRoot();
    Assoc(ROOT, ['/'], x);
    Assoc(['/'], ROOT + ['/'], x);
  }

  lemma HandleOfSegment(rules: map<string, Rule>, segment: string, rest: string)
    requires '/' !in segment && rest != "" && rest[0] == '/'
    ensures Handle(rules, MCP_PREFIX + (segment + rest)) ==
            if segment in rules then Forwarded(segment, rules[segment], TrimSlashes(rules[segment].realBaseUrl) + rest)
            else NotFound
  {
    FirstSlashAfter(segment, rest);
    HandleAt(rules, segment + rest);
    Seam(segment, rest);
  }

  lemma HandleOfNameOnly(rules: map<string, Rule>, name: string)
    requires '/' !in name
    ensures Handle(rules, MCP_PREFIX + name) ==
            if name in rules then Forwarded(name, rules[name], TrimSlashes(rules[name].realBaseUrl) + "") else NotFound
  {
    FirstSlashAfter(name, "");
    EmptyUnit(name);
    HandleAt(rules, name);
    assert name[..|name|] == name && name[|name|..] == "";
  }

  /** How the proxy reads a path of segments behind its prefix. */
  lemma HandleOfJoin(rules: map<string, Rule>, segments: seq<string>, suffix: string)
    requires SlashFree(segments) && '/' !in suffix && |segments| >= 2 && segments[0] == ROOT
    ensures var name := if |segments| == 2 then segments[1] + suffix else segments[1];
            var rest := if |segments| == 2 then "" else Join(segments[2..]) + suffix;
            Handle(rules, Join(segments) + suffix) ==
            if name in rules then Forwarded(name, rules[name], TrimSlashes(rules[name].realBaseUrl) + rest)
            else NotFound
  {
    var rest := Join(segments[2..]) + suffix;
    assert segments[1..][1..] == segments[2..] && segments[1] in segments;
    JoinAtPrefix(segments, suffix);
    FirstSlashOfRest(segments[1..], suffix);
    if |segments| == 2 {
      HandleOfNameOnly(rules, segments[1] + suffix);
    } else {
      HandleOfSegment(rules, segments[1], rest);
    }
  }

  // ---- what the client requests ----

  lemma {:induction false} TrimKeeps(s: string)
    requires s != "" && s[|s| - 1] != '/'
    ensures TrimSlashes(s) == s
  {
  }

  /** The part of the container's base URL behind the proxy's origin. */
  function Behind(name: string): string {
    if name == "" then "/mcp" else MCP_PREFIX + name
  }

  lemma ContainerBase(name: string, specServer: string)
    requires '/' !in name
    ensures EffectiveBaseUrl(PROXY_ORIGIN + MCP_PREFIX + name, specServer) == PROXY_ORIGIN + Behind(name)
  {
    var base := PROXY_ORIGIN + MCP_PREFIX + name;
    if name == "" {
      assert base == (PROXY_ORIGIN + "/mcp") + "/" && base[..|base| - 1] == PROXY_ORIGIN + "/mcp";
      TrimKeeps(PROXY_ORIGIN + "/mcp");
    } else {
      assert base[|base| - 1] == name[|name| - 1] && name[|name| - 1] in name;
      TrimKeeps(base);
      Assoc(PROXY_ORIGIN, MCP_PREFIX, name);
    }
    assert "http://" <= PROXY_ORIGIN;
  }

  lemma {:induction false} DelimiterAfter(a: string, b: string)
    requires FirstDelimiter(a) == |a| && b != "" && Delimiter(b[0])
    ensures FirstDelimiter(a + b) == |a|
  {
    if a == "" {
      EmptyUnit(b);
    } else {
      assert (a + b)[0] == a[0] && (a + b)[1..] == a[1..] + b;
      DelimiterAfter(a[1..], b);
    }
  }

  lemma NoDelimiterInProxyHost(host: string)
    requires host == PROXY_HOST
    ensures FirstDelimiter(host) == |host|
  {
    assert forall j :: 0 <= j < |host| ==> !Delimiter(host[j]);
  }

  lemma HttpOrigin(scheme: string, host: string, rest: string)
    requires scheme == "http://" && FirstDelimiter(host) == |host| && rest != "" && Delimiter(rest[0])
    ensures OriginLength((scheme + host) + rest) == |scheme + host|
  {
    Assoc(scheme, host, rest);
    Seam(scheme, host + rest);
    DelimiterAfter(host, rest);
  }

  lemma ProxyOrigin(rest: string)
    requires rest != "" && rest[0] == '/'
    ensures OriginLength(PROXY_ORIGIN + rest) == |PROXY_ORIGIN|
  {
    NoDelimiterInProxyHost(PROXY_HOST);
    HttpOrigin("http://", PROXY_HOST, rest);
  }

  /** The request for a URL behind the proxy's origin. */
  lemma ProxyRequest(keeps: bool, rest: string, query: string)
    requires rest != "" && rest[0] == '/' && Printable(PROXY_ORIGIN + rest)
    ensures Request(keeps, PROXY_ORIGIN + rest, Some(query))
         == Some((PROXY_ORIGIN, ClientPath(keeps, PathOf(rest)) + QuerySuffix(query)))
  {
    ProxyOrigin(rest);
    Seam(PROXY_ORIGIN, rest);
  }

  /** The client's form of a path, as segments. */
  function TextSegments(keeps: bool, path: string): seq<string> {
    EncodeAll(RemoveDots(keeps, Segments(path)))
  }

  lemma PathTextIsJoin(keeps: bool, path: string)
    ensures var segments := TextSegments(keeps, path);
            && PathText(keeps, path) == Join(segments) && SlashFree(segments) && AllKept(Join(segments))
  {
    var removed := RemoveDots(keeps, Segments(path));
    DotsAreRemoved(keeps, Segments(path));
    EncodeJoin(removed);
    EncodeAllIsKept(removed);
  }

  /** The path of the request has at least one segment, an empty one if nothing is left. */
  function AtLeastOne(segments: seq<string>): seq<string> {
    if segments == [] then [""] else segments
  }

  lemma ClientPathIsJoin(keeps: bool, path: string)
    ensures var segments := AtLeastOne(TextSegments(keeps, path));
            && ClientPath(keeps, path) == Join(segments) && SlashFree(segments) && AllKept(Join(segments))
  {
    PathTextIsJoin(keeps, path);
    JoinOne("");
    if TextSegments(keeps, path) != [] {
      JoinIsNotEmpty(TextSegments(keeps, path));
    }
  }

  lemma SuffixIsPlain(query: string)
    requires UrlEncoded(query)
    ensures '/' !in QuerySuffix(query) && ' ' !in QuerySuffix(query)
  {
  }

  /** The proxy reads the request target that the client sends. */
  lemma TargetIsReceived(keeps: bool, rules: map<string, Rule>, path: string, query: string, verb: string)
    requires UrlEncoded(query) && ' ' !in verb
    ensures Receive(rules, RequestLine(verb, ClientPath(keeps, path) + QuerySuffix(query)))
         == Handle(rules, ClientPath(keeps, path) + QuerySuffix(query))
  {
    ClientPathIsJoin(keeps, path);
    SuffixIsPlain(query);
    LineIsParsed(verb, ClientPath(keeps, path) + QuerySuffix(query));
  }

  /** A call under a rewritten configuration, as the proxy handles it. */
  lemma CallIsHandled(keeps: bool, rules: map<string, Rule>, c: ServerConfig, specServer: string, path: string,
                      query: string, verb: string)
    requires c.baseUrl != "" && '/' !in c.name && path != "" && path[0] == '/'
    requires UrlEncoded(query) && ' ' !in verb
    ensures Call(keeps, rules, Rewrite(c).baseUrl, specServer, path, query, verb) ==
            if Printable(c.name) && Printable(path)
            then Handle(rules, ClientPath(keeps, PathOf(Behind(c.name) + path)) + QuerySuffix(query)) else NotSent
  {
    var rest := Behind(c.name) + path;
    var url := PROXY_ORIGIN + rest;
    ContainerBase(c.name, specServer);
    Assoc(PROXY_ORIGIN, Behind(c.name), path);
    PrintableParts(c.name, path);
    assert RequestUrl(Rewrite(c).baseUrl, specServer, path) == Some(url);
    if Printable(url) {
      ProxyRequest(keeps, rest, query);
      TargetIsReceived(keeps, rules, PathOf(rest), query, verb);
    }
  }

  lemma PathStarts(rest: string)
    requires rest != "" && rest[0] == '/'
    ensures PathOf(rest) != "" && PathOf(rest)[0] == '/'
  {
  }

  lemma PrintableParts(name: string, path: string)
    ensures Printable(PROXY_ORIGIN + (Behind(name) + path)) <==> Printable(name) && Printable(path)
  {
    PrintableSum(PROXY_ORIGIN, Behind(name) + path);
    PrintableSum(Behind(name), path);
    PrintableSum(MCP_PREFIX, name);
  }

  lemma PrintableSum(a: string, b: string)
    ensures Printable(a + b) <==> Printable(a) && Printable(b)
  {
    assert forall c :: c in a + b <==> c in a || c in b;
  }

  // ---- the segments of a call ----

  /** Before the path: the prefix and the name, unless the name is a dot segment or missing. */
  function Base(name: string): seq<string> {
    if name == "" || name == "." then [ROOT] else if name == ".." then [] else [ROOT, name]
  }

  function Front(name: string): seq<string> {
    if name == "" then [ROOT] else [ROOT, name]
  }

  lemma JoinOne(a: string)
    ensures Join([a]) == ['/'] + a
  {
    assert [a][1..] == [];
    EmptyUnit(a);
  }

  lemma JoinTwo(a: string, b: string)
    ensures Join([a, b]) == (['/'] + (a + ['/'])) + b
  {
    assert [a, b][1..] == [b];
    JoinOne(b);
    Assoc(a, ['/'], b);
    Assoc(['/'], a + ['/'], b);
  }

  lemma BehindSegments(name: string)
    requires '/' !in name
    ensures Segments(Behind(name)) == Front(name)
  {
    PrefixIsRoot();
    JoinOne(ROOT);
    JoinTwo(ROOT, name);
    assert Behind("") == ['/'] + ROOT;
    SegmentsOfJoin(Front(name));
  }

  /** A name without '?' and '#' stands before the path; climbs take away segments from behind. */
  lemma SegmentsOfCall(keeps: bool, name: string, path: string)
    requires '/' !in name && '?' !in name && '#' !in name && path != "" && path[0] == '/'
    ensures RemoveDots(keeps, Segments(PathOf(Behind(name) + path))) ==
            Shortened(Base(name), Climb(0, Segments(PathOf(path)))) + RemoveDots(keeps, Segments(PathOf(path)))
  {
    PathOfSum(Behind(name), path);
    PathStarts(path);
    BehindSegments(name);
    SegmentsAdd(Behind(name), PathOf(path));
    JoinOfSegments(PathOf(path));
    PushFront(name);
    DotsOnBase(keeps, Front(name), Segments(PathOf(path)));
  }

  lemma PushOne(out: seq<string>, a: string)
    ensures PushAll(out, [a]) == Push(out, a)
  {
    assert [a][1..] == [];
  }

  lemma PushTwo(out: seq<string>, a: string, b: string)
    ensures PushAll(out, [a, b]) == Push(Push(out, a), b)
  {
    assert [a, b][1..] == [b];
    PushOne(Push(out, a), b);
  }

  lemma PushFront(name: string)
    ensures PushAll([], Front(name)) == Base(name)
  {
    PushOne([], ROOT);
    PushTwo([], ROOT, name);
    assert ROOT != "." && ROOT != "..";
    assert Push([], ROOT) == [ROOT];
    assert Push([ROOT], "..") == [];
  }

  /** With '?' or '#' in the name nothing of the path is left, and the segments end within the name. */
  lemma SegmentsOfCutName(keeps: bool, name: string, path: string)
    requires '/' !in name && PathEnd(name) < |name|
    ensures |RemoveDots(keeps, Segments(PathOf(Behind(name) + path)))| <= 2
  {
    var cut := name[..PathEnd(name)];
    PathOfSum(MCP_PREFIX, name + path);
    PathOfRest(name, path);
    Assoc(MCP_PREFIX, name, path);
    assert PathOf(Behind(name) + path) == MCP_PREFIX + cut;
    CutSegments(keeps, cut);
  }

  lemma CutSegments(keeps: bool, cut: string)
    requires '/' !in cut
    ensures |RemoveDots(keeps, Segments(MCP_PREFIX + cut))| <= 2
  {
    PrefixIsRoot();
    JoinTwo(ROOT, cut);
    SegmentsOfJoin([ROOT, cut]);
    PushTwo([], ROOT, cut);
    assert Push([], ROOT) == [ROOT];
  }

  // ---- when a call arrives ----

  lemma JoinIsLonger(a: seq<string>, b: seq<string>)
    requires a != []
    ensures |Join(a + b)| > |Join(b)|
  {
    JoinAdd(a, b);
  }

  lemma LengthDiffers(base: string, a: string, b: string)
    requires |a| != |b|
    ensures base + a != base + b
  {
  }

  /** A rest that is too short does not make the URL. */
  lemma ShorterRest(rules: map<string, Rule>, segments: seq<string>, suffix: string, path: string, name: string,
                    rule: Rule)
    requires SlashFree(segments) && '/' !in suffix
    requires |segments| == 2 ==> path != ""
    requires |segments| > 2 ==> |Join(segments[2..]) + suffix| < |path|
    ensures Handle(rules, Join(segments) + suffix)
         != Forwarded(name, rule, TrimSlashes(rule.realBaseUrl) + path)
  {
    if MCP_PREFIX <= Join(segments) + suffix {
      PrefixOfJoin(segments, suffix);
      HandleOfJoin(rules, segments, suffix);
      LengthDiffers(TrimSlashes(rule.realBaseUrl), if |segments| == 2 then "" else Join(segments[2..]) + suffix, path);
    }
  }

  /** Behind fewer than two segments the proxy never sees the whole path as the rest. */
  lemma ShortBaseLosesPath(rules: map<string, Rule>, front: seq<string>, segments: seq<string>, suffix: string,
                           name: string, rule: Rule)
    requires SlashFree(front) && SlashFree(segments) && '/' !in suffix && |front| < 2
    ensures Handle(rules, Join(AtLeastOne(front + segments)) + suffix)
         != Forwarded(name, rule, TrimSlashes(rule.realBaseUrl) + (Join(segments) + suffix))
  {
    var all := AtLeastOne(front + segments);
    if |all| > 2 {
      var lost := segments[..2 - |front|];
      assert segments == lost + all[2..];
      JoinIsLonger(lost, all[2..]);
    }
    if segments != [] {
      JoinIsNotEmpty(segments);
    }
    ShorterRest(rules, all, suffix, Join(segments) + suffix, name, rule);
  }

  lemma JoinIsNotEmpty(segments: seq<string>)
    requires segments != []
    ensures Join(segments) != ""
  {
  }

  /** At most two segments leave no rest, so they make no URL with one, and none under another name. */
  lemma NoRestForFew(rules: map<string, Rule>, few: seq<string>, path: string, suffix: string, name: string,
                     rule: Rule)
    requires SlashFree(few) && '/' !in suffix && |few| <= 2
    requires |few| == 2 ==> few[1] != name
    ensures Handle(rules, Join(few) + suffix)
         != Forwarded(name, rule, TrimSlashes(rule.realBaseUrl) + (path + suffix))
  {
    if |few| < 2 || path + suffix != "" {
      ShorterRest(rules, few, suffix, path + suffix, name, rule);
    } else if MCP_PREFIX <= Join(few) + suffix {
      PrefixOfJoin(few, suffix);
      HandleOfJoin(rules, few, suffix);
      EmptyUnit(few[1]);
    }
  }

  /** The name in a forwarded answer is one segment. */
  lemma ForwardedNameIsSegment(rules: map<string, Rule>, target: string)
    ensures Handle(rules, target).Forwarded? ==> '/' !in Handle(rules, target).name
  {
  }

  lemma SlashInNameIsLost(keeps: bool, rules: map<string, Rule>, c: ServerConfig, baseUrl: string,
                          specServer: string, path: string, query: string, verb: string)
    requires '/' in c.name
    ensures Call(keeps, rules, baseUrl, specServer, path, query, verb) != Own(keeps, c, path, query)
  {
    var url := RequestUrl(baseUrl, specServer, path);
    if url.Some? {
      var request := Request(keeps, url.value, Some(query));
      if request.Some? {
        var parsed := ParseRequestLine(RequestLine(verb, request.value.1));
        if parsed.Some? {
          ForwardedNameIsSegment(rules, parsed.value.1);
        }
      }
    }
  }

  lemma EncodedParts(keeps: bool, path: string, a: seq<string>, b: seq<string>)
    requires RemoveDots(keeps, Segments(path)) == a + b
    ensures ClientPath(keeps, path) == Join(AtLeastOne(EncodeAll(a) + EncodeAll(b)))
    ensures SlashFree(EncodeAll(a)) && SlashFree(EncodeAll(b))
  {
    ClientPathIsJoin(keeps, path);
    EncodeAllAdd(a, b);
    DotsAreRemoved(keeps, Segments(path));
    assert forall x :: x in a || x in b ==> x in a + b;
    EncodeAllIsKept(a);
    EncodeAllIsKept(b);
  }

  /** What the client climbs away from the prefix and the name, encoded. */
  function EncodedFront(name: string, path: string): seq<string> {
    EncodeAll(Shortened(Base(name), Climb(0, Segments(PathOf(path)))))
  }

  lemma EncodedCall(keeps: bool, name: string, path: string)
    requires '/' !in name && '?' !in name && '#' !in name && path != "" && path[0] == '/'
    ensures var (front, rest) := (EncodedFront(name, path), TextSegments(keeps, PathOf(path)));
            && ClientPath(keeps, PathOf(Behind(name) + path)) == Join(AtLeastOne(front + rest))
            && SlashFree(front) && SlashFree(rest)
  {
    SegmentsOfCall(keeps, name, path);
    EncodedParts(keeps, PathOf(Behind(name) + path), Shortened(Base(name), Climb(0, Segments(PathOf(path)))),
                 RemoveDots(keeps, Segments(PathOf(path))));
  }

  /** Behind the prefix and the encoded name, the proxy answers as for that name, unless nothing follows it. */
  lemma HandleBehindName(keeps: bool, rules: map<string, Rule>, name: string, path: string, query: string)
    requires '/' !in name && '?' !in name && '#' !in name && path != "" && path[0] == '/' && UrlEncoded(query)
    requires Shortened(Base(name), Climb(0, Segments(PathOf(path)))) == [ROOT, name]
    ensures var (text, suffix) := (PathText(keeps, PathOf(path)), QuerySuffix(query));
            var called := if text == "" then Encode(name) + suffix else Encode(name);
            var rest := if text == "" then "" else text + suffix;
            Handle(rules, ClientPath(keeps, PathOf(Behind(name) + path)) + suffix) ==
            if called in rules then Forwarded(called, rules[called], TrimSlashes(rules[called].realBaseUrl) + rest)
            else NotFound
  {
    var front, rest := EncodedFront(name, path), TextSegments(keeps, PathOf(path));
    EncodedCall(keeps, name, path);
    PathTextIsJoin(keeps, PathOf(path));
    SuffixIsPlain(query);
    FullFront(name);
    assert (front + rest)[..2] == front && (front + rest)[2..] == rest;
    HandleOfJoin(rules, front + rest, QuerySuffix(query));
    if rest != [] {
      JoinIsNotEmpty(rest);
    }
  }

  /** A name without '?', '#' and '/': the call is the server's own exactly if name and path are good. */
  lemma PlainNameIff(keeps: bool, rules: map<string, Rule>, c: ServerConfig, path: string, query: string)
    requires '/' !in c.name && '?' !in c.name && '#' !in c.name && path != "" && path[0] == '/'
    requires UrlEncoded(query) && Printable(path)
    requires c.name in rules && rules[c.name] == Rule(c.baseUrl, c.headers)
    ensures (Handle(rules, ClientPath(keeps, PathOf(Behind(c.name) + path)) + QuerySuffix(query))
             == Own(keeps, c, path, query))
            <==> GoodName(c.name) && GoodPath(keeps, path, query)
  {
    var front, rest := EncodedFront(c.name, path), TextSegments(keeps, PathOf(path));
    if |front| < 2 {
      EncodedCall(keeps, c.name, path);
      PathTextIsJoin(keeps, PathOf(path));
      SuffixIsPlain(query);
      ShortBaseLosesPath(rules, front, rest, QuerySuffix(query), c.name, Rule(c.baseUrl, c.headers));
    } else {
      HandleBehindName(keeps, rules, c.name, path, query);
      EncodeUnchangedIff(c.name);
      OwnAnswerIff(rules, c.name, Encode(c.name), TrimSlashes(c.baseUrl), PathText(keeps, PathOf(path)),
                   QuerySuffix(query));
    }
  }

  /** The answer for an encoded name is the own one exactly if the name is as it was and no query is lost. */
  lemma OwnAnswerIff(rules: map<string, Rule>, name: string, encoded: string, base: string, text: string,
                     suffix: string)
    requires name in rules && TrimSlashes(rules[name].realBaseUrl) == base
    ensures var called := if text == "" then encoded + suffix else encoded;
            var rest := if text == "" then "" else text + suffix;
            var answer := if called in rules
                          then Forwarded(called, rules[called], TrimSlashes(rules[called].realBaseUrl) + rest)
                          else NotFound;
            (answer == Forwarded(name, rules[name], base + (text + suffix)))
            <==> encoded == name && (suffix == "" || text != "")
  {
    if text == "" {
      if suffix == "" {
        EmptyUnit(encoded);
      } else {
        LengthDiffers(base, "", text + suffix);
      }
    }
  }

  lemma FullFront(name: string)
    ensures EncodeAll([ROOT, name]) == [ROOT, Encode(name)]
  {
    assert [ROOT, name][1..] == [name] && [name][1..] == [];
    EncodeKept(ROOT);
  }

  /** A name with '?' or '#': the call is never the server's own. */
  lemma CutNameIsLost(keeps: bool, rules: map<string, Rule>, c: ServerConfig, path: string, query: string)
    requires '/' !in c.name && ('?' in c.name || '#' in c.name) && path != "" && path[0] == '/' && UrlEncoded(query)
    ensures Handle(rules, ClientPath(keeps, PathOf(Behind(c.name) + path)) + QuerySuffix(query))
         != Own(keeps, c, path, query)
  {
    var whole := PathOf(Behind(c.name) + path);
    var few := AtLeastOne(TextSegments(keeps, whole));
    ClientPathIsJoin(keeps, whole);
    SegmentsOfCutName(keeps, c.name, path);
    SuffixIsPlain(query);
    if |few| == 2 {
      SegmentIsKept(few, 1);
    }
    NoRestForFew(rules, few, PathText(keeps, PathOf(path)), QuerySuffix(query), c.name, Rule(c.baseUrl, c.headers));
  }

  lemma {:induction false} SegmentIsKept(segments: seq<string>, i: nat)
    requires i < |segments| && AllKept(Join(segments))
    ensures AllKept(segments[i])
  {
    assert forall c :: c in segments[0] || c in Join(segments[1..]) ==> c in Join(segments);
    if i > 0 {
      SegmentIsKept(segments[1..], i - 1);
    }
  }

  lemma GoodNameIsPrintable(name: string)
    requires GoodName(name)
    ensures Printable(name) && '?' !in name && '#' !in name
  {
  }

  /**
   A proxied call is the server's own call, under its name, with its headers, to its base URL with the
   client's form of path and query, exactly if the client leaves the name alone, accepts the path, does
   not climb above the path's beginning and leaves something of it in front of a query.
   */
  lemma CallIsOwnIff(keeps: bool, rules: map<string, Rule>, c: ServerConfig, specServer: string, path: string,
                     query: string, verb: string)
    requires c.baseUrl != "" && path != "" && path[0] == '/' && UrlEncoded(query) && ' ' !in verb
    requires c.name in rules && rules[c.name] == Rule(c.baseUrl, c.headers)
    ensures (Call(keeps, rules, Rewrite(c).baseUrl, specServer, path, query, verb) == Own(keeps, c, path, query))
            <==> GoodName(c.name) && GoodPath(keeps, path, query)
  {
    if '/' in c.name {
      SlashInNameIsLost(keeps, rules, c, Rewrite(c).baseUrl, specServer, path, query, verb);
    } else {
      CallIsHandled(keeps, rules, c, specServer, path, query, verb);
      if GoodName(c.name) {
        GoodNameIsPrintable(c.name);
      }
      if Printable(c.name) && Printable(path) {
        if '?' in c.name || '#' in c.name {
          CutNameIsLost(keeps, rules, c, path, query);
        } else {
          PlainNameIff(keeps, rules, c, path, query);
        }
      }
    }
  }

  /** With a client that keeps the slash, something of every path is left. */
  lemma KeptSlashLeavesPath(path: string, query: string)
    requires path != "" && path[0] == '/'
    ensures GoodPath(true, path, query) <==> Printable(path) && Climb(0, Segments(PathOf(path))) == 0
  {
    PathStarts(path);
    PathTextIsJoin(true, PathOf(path));
    DotsAreRemoved(true, Segments(PathOf(path)));
    JoinIsNotEmpty(TextSegments(true, PathOf(path)));
  }

  /** A name that the client has to encode is looked up in its encoded form. */
  lemma EncodedNameIsLookedUp(keeps: bool, rules: map<string, Rule>, c: ServerConfig, specServer: string,
                              path: string, query: string, verb: string)
    requires c.baseUrl != "" && path != "" && path[0] == '/' && UrlEncoded(query) && ' ' !in verb
    requires GoodPath(keeps, path, query)
    requires Printable(c.name) && '/' !in c.name && '?' !in c.name && '#' !in c.name && !AllKept(c.name)
    requires Encode(c.name) !in rules
    ensures Call(keeps, rules, Rewrite(c).baseUrl, specServer, path, query, verb) == NotFound
  {
    CallIsHandled(keeps, rules, c, specServer, path, query, verb);
    WholeBase(c.name);
    HandleBehindName(keeps, rules, c.name, path, query);
    EmptyUnit(Encode(c.name));
  }

  lemma WholeBase(name: string)
    requires !AllKept(name)
    ensures Shortened(Base(name), 0) == [ROOT, name]
  {
  }

  /** The only server of a run: with a name to encode its calls are answered 404, although it was registered. */
  lemma OnlyServerIsNotFound(keeps: bool, c: ServerConfig, specServer: string, path: string, query: string,
                             verb: string)
    requires c.baseUrl != "" && path != "" && path[0] == '/' && UrlEncoded(query) && ' ' !in verb
    requires GoodPath(keeps, path, query)
    requires Printable(c.name) && '/' !in c.name && '?' !in c.name && '#' !in c.name && !AllKept(c.name)
    ensures Call(keeps, map[c.name := Rule(c.baseUrl, c.headers)], Rewrite(c).baseUrl, specServer, path, query, verb)
         == NotFound
  {
    EncodeUnchangedIff(c.name);
    EncodedNameIsLookedUp(keeps, map[c.name := Rule(c.baseUrl, c.headers)], c, specServer, path, query, verb);
  }

  lemma MyServer(name: string)
    requires name == "my server"
    ensures Printable(name) && '/' !in name && '?' !in name && '#' !in name && !AllKept(name)
  {
    assert name[2] == ' ' && name[2] in name;
  }

  /** For example a server called "my server". */
  lemma SpaceInNameIsNotFound(keeps: bool, c: ServerConfig, specServer: string, path: string, query: string,
                              verb: string, name: string)
    requires name == "my server" && c.name == name && c.baseUrl != "" && path != "" && path[0] == '/'
    requires UrlEncoded(query) && ' ' !in verb && GoodPath(keeps, path, query)
    ensures Call(keeps, map[c.name := Rule(c.baseUrl, c.headers)], Rewrite(c).baseUrl, specServer, path, query, verb)
         == NotFound
  {
    MyServer(name);
    OnlyServerIsNotFound(keeps, c, specServer, path, query, verb);
  }

  // ---- servers without a base URL ----

  /** The base URL of an API document, as far as it is one for HTTP. */
  predicate HttpServer(specServer: string) {
    "http://" <= TrimSlashes(specServer) || "https://" <= TrimSlashes(specServer)
  }

  lemma UnproxiedUrl(specServer: string, path: string)
    ensures RequestUrl("", specServer, path) ==
            if HttpServer(specServer) then Some(TrimSlashes(specServer) + path) else None
  {
  }

  lemma {:induction false} NoRuleWithoutBase(configs: seq<ServerConfig>, n: nat, name: string)
    requires n <= |configs| && forall i :: 0 <= i < n && configs[i].name == name ==> configs[i].baseUrl == ""
    ensures name !in RulesOf(configs, n)
  {
    if n > 0 {
      NoRuleWithoutBase(configs, n - 1, name);
    }
  }

  /**
   A server that is registered without a base URL is called directly, without the proxy: at the first
   server of its document if that is for HTTP and not the proxy itself, and not at all otherwise.  No rule
   is built for it.
   */
  method RegisterAndCallDirectly(keeps: bool, proxy: Proxy, configs: seq<ServerConfig>, i: nat, specServer: string,
                                 path: string, query: string, verb: string)
    returns (answer: Answer)
    requires i < |configs| && configs[i].baseUrl == ""
    modifies proxy
    ensures !HttpServer(specServer) ==> answer == NotSent
    ensures HttpServer(specServer) ==>
              var direct := Request(keeps, TrimSlashes(specServer) + path, Some(query));
              && (direct.None? ==> answer == NotSent)
              && (direct.Some? && direct.value.0 != PROXY_ORIGIN ==> answer == Outside(direct.value.0, direct.value.1))
    ensures DistinctNames(configs) ==> configs[i].name !in RulesOf(configs, |configs|)
  {
    var forContainer := proxy.RegisterServers(configs);
    assert Handed(configs[i], forContainer[i]);
    UnproxiedUrl(specServer, path);
    answer := Call(keeps, proxy.rules, forContainer[i].baseUrl, specServer, path, query, verb);
    if DistinctNames(configs) {
      NoRuleWithoutBase(configs, |configs|, configs[i].name);
    }
  }

  // ---- the request that goes out ----

  /** A base URL without query, fragment and user information that a client accepts. */
  predicate PlainBase(baseUrl: string) {
    var base := TrimSlashes(baseUrl);
    && ("http://" <= base || "https://" <= base)
    && Printable(base) && '?' !in base && '#' !in base && PlainAuthority(Authority(base))
  }

  lemma {:induction false} DelimiterOfSum(a: string, b: string)
    requires b != "" && Delimiter(b[0])
    ensures FirstDelimiter(a + b) == FirstDelimiter(a)
  {
    if a == "" {
      EmptyUnit(b);
    } else {
      assert (a + b)[0] == a[0] && (a + b)[1..] == a[1..] + b;
      if !Delimiter(a[0]) {
        DelimiterOfSum(a[1..], b);
      }
    }
  }

  /** A base URL as its origin and its own path. */
  lemma OriginOfSum(base: string, path: string)
    requires "http://" <= base || "https://" <= base
    requires Rooted(path)
    ensures var k := OriginLength(base);
            && OriginLength(base + path) == k
            && (base + path)[..k] == base[..k] && (base + path)[k..] == base[k..] + path
  {
    var scheme := if "http://" <= base then 7 else 8;
    if path == "" {
      EmptyUnit(base);
      EmptyUnit(base[OriginLength(base)..]);
    } else {
      assert (base + path)[scheme..] == base[scheme..] + path;
      DelimiterOfSum(base[scheme..], path);
      SchemeOfSum(base, path);
    }
  }

  lemma SchemeOfSum(base: string, path: string)
    requires "http://" <= base || "https://" <= base
    ensures "http://" <= base <==> "http://" <= base + path
    ensures "https://" <= base ==> "https://" <= base + path
  {
    assert base == (base + path)[..|base|];
  }

  lemma BasePathIsRooted(base: string)
    requires '?' !in base && '#' !in base
    ensures var path := base[OriginLength(base)..];
            Rooted(path) && '?' !in path && '#' !in path
  {
    var k := OriginLength(base);
    assert k < |base| ==> base[k] in base && Delimiter(base[k]);
    assert forall c :: c in base[k..] ==> c in base;
  }

  lemma EncodedDot(s: string)
    ensures IsDot(Encode(s)) ==> IsDot(s)
  {
    EncodeIsKept(s);
    if AllKept(s) {
      EncodeKept(s);
    }
  }

  lemma {:induction false} EncodedIsDotFree(segments: seq<string>)
    requires DotFree(segments)
    ensures DotFree(EncodeAll(segments))
  {
    if segments != [] {
      assert segments[0] in segments && forall s :: s in segments[1..] ==> s in segments;
      EncodedDot(segments[0]);
      EncodedIsDotFree(segments[1..]);
    }
  }

  /** Behind a base path, the client's form of a path that does not climb makes the same request as the path. */
  lemma ClientPathTwice(keeps: bool, base: string, path: string)
    requires Rooted(base) && path != "" && path[0] == '/' && Climb(0, Segments(path)) == 0
    ensures ClientPath(keeps, base + PathText(keeps, path)) == ClientPath(keeps, base + path)
  {
    var front, removed := PushAll([], Segments(base)), RemoveDots(keeps, Segments(path));
    JoinOfSegments(path);
    SegmentsAdd(base, path);
    DotsOnBase(keeps, Segments(base), Segments(path));
    assert Shortened(front, 0) == front;
    DotsAreRemoved(keeps, Segments(path));
    SegmentsOfTextOnBase(keeps, base, path);
    SameEncoding(front, removed);
  }

  lemma SegmentsOfTextOnBase(keeps: bool, base: string, path: string)
    requires Rooted(base) && path != "" && path[0] == '/'
    ensures RemoveDots(keeps, Segments(base + PathText(keeps, path))) ==
            PushAll([], Segments(base)) + TextSegments(keeps, path)
  {
    var encoded := TextSegments(keeps, path);
    JoinOfSegments(path);
    PathTextIsJoin(keeps, path);
    DotsAreRemoved(keeps, Segments(path));
    EncodedIsDotFree(RemoveDots(keeps, Segments(path)));
    SegmentsOfJoin(encoded);
    SegmentsAdd(base, Join(encoded));
    CleanOnBase(keeps, Segments(base), encoded);
  }

  /** Segments without dots are only appended to what a base comes to. */
  lemma CleanOnBase(keeps: bool, base: seq<string>, clean: seq<string>)
    requires DotFree(clean) && (keeps ==> clean != [])
    ensures RemoveDots(keeps, base + clean) == PushAll([], base) + clean
  {
    PushAllAdd([], base, clean);
    NoDotsToRemove(PushAll([], base), clean);
    if keeps {
      var last := clean[|clean| - 1];
      assert last in clean && (base + clean)[|base + clean| - 1] == last;
    }
    EmptyUnit(PushAll([], base) + clean);
  }

  lemma SameEncoding(front: seq<string>, removed: seq<string>)
    requires SlashFree(removed)
    ensures Encode(Join(front + EncodeAll(removed))) == Encode(Join(front + removed))
  {
    EncodeJoin(front + removed);
    EncodeJoin(front + EncodeAll(removed));
    EncodeAllAdd(front, removed);
    EncodeAllAdd(front, EncodeAll(removed));
    EncodeAllIsKept(removed);
  }

  /** The path and the query of a forwarded URL are those the container's client sent. */
  lemma ForwardedParts(path: string, query: string)
    requires AllKept(path) && UrlEncoded(query)
    ensures PathOf(path + QuerySuffix(query)) == path && OwnQuery(path + QuerySuffix(query)) == query
  {
    var suffix := QuerySuffix(query);
    PathOfSum(path, suffix);
    EmptyUnit(path);
    assert PathOf(suffix) == "";
    assert '#' !in query;
    FirstIndexIsUnique(query, '#', |query|);
    if query != "" {
      var s := path + suffix;
      assert PathEnd(s) == |path| && s[|path| + 1..] == query;
      assert query[..|query|] == query;
    }
  }

  lemma KeptIsPrintable(s: string)
    requires AllKept(s)
    ensures Printable(s) && '?' !in s && '#' !in s
  {
  }

  /** A URL text behind a base URL: its origin is the base's, and its path and query stand behind the base's path. */
  lemma PartsOnBase(base: string, text: string)
    requires "http://" <= base || "https://" <= base
    requires '?' !in base && '#' !in base && Rooted(text)
    ensures var k := OriginLength(base);
            && OriginLength(base + text) == k && (base + text)[..k] == base[..k]
            && PathOf((base + text)[k..]) == base[k..] + PathOf(text)
            && OwnQuery((base + text)[k..]) == OwnQuery(text)
  {
    BasePathIsRooted(base);
    OriginOfSum(base, text);
    PathOfSum(base[OriginLength(base)..], text);
    OwnQueryOfSum(base[OriginLength(base)..], text);
  }

  /** The forwarded text behind the base URL: path and query are what the container's client sent. */
  lemma SentOnBase(keeps: bool, base: string, path: string, query: string)
    requires "http://" <= base || "https://" <= base
    requires '?' !in base && '#' !in base && Printable(base) && UrlEncoded(query) && GoodPath(keeps, path, query)
    ensures var (sent, k) := (PathText(keeps, PathOf(path)), OriginLength(base));
            Request(keeps, base + (sent + QuerySuffix(query)), None)
            == Some((base[..k], ClientPath(keeps, base[k..] + sent) + QuerySuffix(query)))
  {
    var sent := PathText(keeps, PathOf(path));
    PathTextIsJoin(keeps, PathOf(path));
    SentIsRooted(keeps, path, query);
    PartsOnBase(base, sent + QuerySuffix(query));
    ForwardedParts(sent, query);
    EncodeKept(query);
    KeptIsPrintable(sent);
    KeptIsPrintable(query);
    PrintableSum(base, sent + QuerySuffix(query));
    PrintableSum(sent, QuerySuffix(query));
    PrintableSum(['?'], query);
  }

  /** The request of a direct call. */
  lemma DirectOnBase(keeps: bool, base: string, path: string, query: string)
    requires "http://" <= base || "https://" <= base
    requires '?' !in base && '#' !in base && Printable(base) && Printable(path) && path != "" && path[0] == '/'
    ensures var k := OriginLength(base);
            Request(keeps, base + path, Some(query))
            == Some((base[..k], ClientPath(keeps, base[k..] + PathOf(path)) + QuerySuffix(query)))
  {
    PartsOnBase(base, path);
    PrintableSum(base, path);
  }

  /**
   The request that the proxy sends for the server's own call is the request that the container would
   have sent directly to the original base URL.
   */
  lemma ForwardedIsDirect(keeps: bool, c: ServerConfig, specServer: string, path: string, query: string)
    requires PlainBase(c.baseUrl) && c.baseUrl != "" && path != "" && path[0] == '/'
    requires UrlEncoded(query) && GoodPath(keeps, path, query)
    ensures var direct := RequestUrl(c.baseUrl, specServer, path);
            && direct.Some?
            && Request(keeps, Own(keeps, c, path, query).url, None) == Request(keeps, direct.value, Some(query))
            && Request(keeps, direct.value, Some(query)).Some?
  {
    var base := TrimSlashes(c.baseUrl);
    BasePathIsRooted(base);
    PathStarts(path);
    DirectOnBase(keeps, base, path, query);
    SentOnBase(keeps, base, path, query);
    ClientPathTwice(keeps, base[OriginLength(base)..], PathOf(path));
  }

  lemma SentIsRooted(keeps: bool, path: string, query: string)
    requires GoodPath(keeps, path, query)
    ensures Rooted(PathText(keeps, PathOf(path)) + QuerySuffix(query))
  {
    PathTextIsJoin(keeps, PathOf(path));
  }

  lemma OwnQueryOfSum(a: string, b: string)
    requires '?' !in a && '#' !in a
    ensures OwnQuery(a + b) == OwnQuery(b)
  {
    var i := PathEnd(b);
    PathOfSum(a, b);
    if i < |b| {
      DropInto(a, b, i);
    }
    SameQuery(a + b, b);
  }

  lemma SameQuery(s: string, t: string)
    requires PathEnd(s) < |s| <==> PathEnd(t) < |t|
    requires PathEnd(s) < |s| ==> s[PathEnd(s)] == t[PathEnd(t)] && s[PathEnd(s) + 1..] == t[PathEnd(t) + 1..]
    ensures OwnQuery(s) == OwnQuery(t)
  {
  }

  lemma DropInto(a: string, b: string, i: nat)
    requires i < |b|
    ensures (a + b)[|a| + i] == b[i] && (a + b)[|a| + i + 1..] == b[i + 1..]
  {
  }

  /** What stands behind a base URL does not change its authority. */
  lemma AuthorityOnBase(base: string, text: string)
    requires ("http://" <= base || "https://" <= base) && Rooted(text)
    ensures Authority(base + text) == Authority(base) && DefaultPort(base + text) == DefaultPort(base)
  {
    OriginOfSum(base, text);
    SchemeOfSum(base, text);
    var j, k := SchemeLength(base), OriginLength(base);
    assert SchemeLength(base + text) == j;
    assert (base + text)[j..k] == (base + text)[..k][j..] && base[j..k] == base[..k][j..];
  }

  /** The forwarded and the direct URL have the authority of the base URL. */
  lemma SameAuthority(keeps: bool, c: ServerConfig, path: string, query: string)
    requires PlainBase(c.baseUrl) && path != "" && path[0] == '/' && GoodPath(keeps, path, query)
    ensures var (base, url) := (TrimSlashes(c.baseUrl), Own(keeps, c, path, query).url);
            && Authority(url) == Authority(base + path) == Authority(base)
            && DefaultPort(url) == DefaultPort(base + path) == DefaultPort(base)
  {
    var base := TrimSlashes(c.baseUrl);
    AuthorityOnBase(base, path);
    SentIsRooted(keeps, path, query);
    AuthorityOnBase(base, PathText(keeps, PathOf(path)) + QuerySuffix(query));
  }

  lemma HeadersOfCall(keeps: bool, c: ServerConfig, path: string, query: string, defaults: Headers, own: Headers,
                      sent: Headers)
    requires PlainBase(c.baseUrl) && path != "" && path[0] == '/' && GoodPath(keeps, path, query)
    requires !Names(own, HOST)
    ensures var (rule, url) := (Rule(c.baseUrl, c.headers), Own(keeps, c, path, query).url);
            var direct := TrimSlashes(c.baseUrl) + path;
            && PlainAuthority(Authority(url)) && PlainAuthority(Authority(direct))
            && HeadersArrive(Arriving(defaults, sent, rule, url), DirectFields(own, rule, direct), sent, rule,
                             NeedsNoPort(TrimSlashes(c.baseUrl)))
  {
    var url := Own(keeps, c, path, query).url;
    SameAuthority(keeps, c, path, query);
    SameHost(TrimSlashes(c.baseUrl) + path, url);
    SameHost(TrimSlashes(c.baseUrl), url);
    HeadersOfUrl(defaults, own, sent, Rule(c.baseUrl, c.headers), url);
  }

  /**
   From registration to the request that goes out, for server i of a run with distinct names.  Exactly
   for good names and paths the call reaches the proxy under the server's own name, and then its origin,
   path and query are those of a direct call, and HeadersArrive says what becomes of the headers.
   */
  method RegisterAndCall(keeps: bool, proxy: Proxy, configs: seq<ServerConfig>, i: nat, specServer: string,
                         path: string, query: string, verb: string, defaults: Headers, own: Headers, sent: Headers)
    returns (answer: Answer, arriving: Option<Headers>)
    requires DistinctNames(configs) && i < |configs| && configs[i].baseUrl != ""
    requires path != "" && path[0] == '/' && UrlEncoded(query) && ' ' !in verb && !Names(own, HOST)
    modifies proxy
    ensures answer == Own(keeps, configs[i], path, query)
            <==> GoodName(configs[i].name) && GoodPath(keeps, path, query)
    ensures GoodName(configs[i].name) && GoodPath(keeps, path, query) && PlainBase(configs[i].baseUrl) ==>
              var rule := Rule(configs[i].baseUrl, configs[i].headers);
              var direct := RequestUrl(configs[i].baseUrl, specServer, path);
              && direct.Some? && answer.Forwarded? && PlainAuthority(Authority(direct.value))
              && Request(keeps, answer.url, None) == Request(keeps, direct.value, Some(query))
              && HeadersArrive(arriving, DirectFields(own, rule, direct.value), sent, rule,
                               NeedsNoPort(TrimSlashes(configs[i].baseUrl)))
  {
    var c := configs[i];
    var forContainer := proxy.RegisterServers(configs);
    RuleOfDistinctName(configs, i);
    RewriteAllAt(configs, |configs|, i);
    CallIsOwnIff(keeps, proxy.rules, c, specServer, path, query, verb);
    answer := Call(keeps, proxy.rules, forContainer[i].baseUrl, specServer, path, query, verb);
    arriving := None;
    if answer.Forwarded? && PlainAuthority(Authority(answer.url)) {
      arriving := Arriving(defaults, sent, answer.rule, answer.url);
    }
    if GoodName(c.name) && GoodPath(keeps, path, query) && PlainBase(c.baseUrl) {
      ForwardedIsDirect(keeps, c, specServer, path, query);
      HeadersOfCall(keeps, c, path, query, defaults, own, sent);
    }
  }
}
