/**
 The header fields of a tool call: what the proxy passes on and sets (app/services/proxy/credential_proxy.py
 `_handle_mcp_reverse_proxy`), what an HTTP client adds, and what a direct call would have sent.  Servers
 compare field names without regard to case (section 5.1 of RFC 9110); the code's dictionaries do not.
 */
module McpHeaders {
  import opened ClientUrl
  import opened McpRouting
  import opened Sequences
  import opened Text
  import opened Wrappers

  // ---- field names ----

  function LowerChar(c: char): char {
    if 'A' <= c <= 'Z' then (c - 'A') + 'a' else if c as int == 0x212A then 'k' else c
  }

  function Lower(s: string): (r: string)
    ensures |r| == |s|
  {
    if s == "" then "" else [LowerChar(s[0])] + Lower(s[1..])
  }

  const HOST := "Host"

  lemma LowerHost(name: string)
    requires name == "Host"
    ensures Lower(name) == "host"
  {
    var h, o, s, t := name, name[1..], name[2..], name[3..];
    assert h[1..] == o && o[1..] == s && s[1..] == t && t[1..] == "";
    assert Lower(t) == "t";
    assert Lower(s) == "st";
    assert Lower(o) == "ost";
  }

  predicate SameName(a: string, b: string) {
    Lower(a) == Lower(b)
  }

  /** The same character, or a letter and its other case; the Kelvin sign counts as a k. */
  ghost predicate SameLetter(x: char, y: char) {
    || x == y
    || ('A' <= x <= 'Z' && y as int == x as int + 32) || ('A' <= y <= 'Z' && x as int == y as int + 32)
    || (x == '\U{212A}' && (y == 'k' || y == 'K')) || (y == '\U{212A}' && (x == 'k' || x == 'K'))
  }

  /** Two names are the same exactly if they are so letter by letter. */
  lemma {:induction false} SameNameIff(a: string, b: string)
    ensures SameName(a, b) <==> |a| == |b| && forall i :: 0 <= i < |a| ==> SameLetter(a[i], b[i])
  {
    if a != "" && b != "" {
      SameNameIff(a[1..], b[1..]);
      LowerLetter(a[0], b[0]);
      assert Lower(a)[1..] == Lower(a[1..]) && Lower(b)[1..] == Lower(b[1..]);
      if SameName(a, b) {
        assert Lower(a)[0] == Lower(b)[0];
        forall i | 0 <= i < |a| ensures SameLetter(a[i], b[i]) {
          assert i > 0 ==> a[i] == a[1..][i - 1] && b[i] == b[1..][i - 1];
        }
      }
    }
  }

  lemma LowerLetter(x: char, y: char)
    ensures LowerChar(x) == LowerChar(y) <==> SameLetter(x, y)
  {
  }

  /** Some field has this name. */
  predicate Names(fields: Headers, name: string) {
    exists j :: j in fields && SameName(j, name)
  }

  ghost predicate OnlyField(fields: Headers, k: string) {
    k in fields && forall j :: j in fields && SameName(j, k) ==> j == k
  }

  /** The fields of one name are the same. */
  ghost predicate SameFields(a: Headers, b: Headers, name: string) {
    forall j :: SameName(j, name) ==> (j in a <==> j in b) && (j in a ==> a[j] == b[j])
  }

  // ---- hosts ----

  /** What follows the last occurrence of c, or everything. */
  function AfterLast(s: string, c: char): string {
    var i := IndexOf(s, c);
    if i == |s| then s else AfterLast(s[i + 1..], c)
  }

  /** The host part of an authority as `urlparse` finds it. */
  function HostName(authority: string): string {
    var info := AfterLast(authority, '@');
    var bracket := IndexOf(info, '[');
    if bracket == |info| then info[..IndexOf(info, ':')]
    else
      var literal := info[bracket + 1..];
      literal[..IndexOf(literal, ']')]
  }

  /** urlparse(url).hostname: lower case up to a zone, without brackets and port. */
  function ProxyHost(url: string): Option<string> {
    var name := HostName(Authority(url));
    var zone := IndexOf(name, '%');
    if name == "" then None else Some(Lower(name[..zone]) + name[zone..])
  }

  /** No header is set for an empty host, with or without user information and port. */
  lemma NoHostIs(url: string)
    ensures ProxyHost(url).None? <==> HostName(Authority(url)) == ""
    ensures ProxyHost(url).Some? ==> |ProxyHost(url).value| == |HostName(Authority(url))|
    ensures Authority(url) == "" ==> ProxyHost(url).None?
  {
    var name := HostName(Authority(url));
    assert |Lower(name[..IndexOf(name, '%')])| == IndexOf(name, '%');
  }

  predicate Digit(c: char) {
    '0' <= c <= '9'
  }

  predicate Digits(s: string) {
    forall c :: c in s ==> Digit(c)
  }

  function Number(digits: string): nat
    requires Digits(digits)
  {
    if digits == "" then 0
    else
      var n := |digits| - 1;
      assert digits[n] in digits && forall c :: c in digits[..n] ==> c in digits;
      10 * Number(digits[..n]) + (digits[n] - '0') as nat
  }

  function Decimal(n: nat): (s: string)
    ensures s != ""
  {
    if n < 10 then ['0' + n as char] else Decimal(n / 10) + ['0' + (n % 10) as char]
  }

  /** Characters of host names, which clients leave as they are but for case. */
  predicate NameChar(c: char) {
    'a' <= c <= 'z' || 'A' <= c <= 'Z' || Digit(c) || c in {'-', '.', '_', '~'}
  }

  /** They are the kept ones without the reserved signs and other ones. */
  lemma NameCharsAre(c: char)
    ensures NameChar(c) <==> Kept(c) && c !in "!$%&'()*+,/:;=@[\\]^|"
  {
  }

  predicate RegisteredName(host: string) {
    host != "" && forall c :: c in host ==> NameChar(c)
  }

  /** An IPv6 address in brackets. */
  predicate Literal(host: string) {
    && |host| > 2 && host[0] == '[' && host[|host| - 1] == ']'
    && forall c :: c in host[1..|host| - 1] ==> NameChar(c) || c == ':'
  }

  /** The length of the host in an authority without user information. */
  function HostEnd(authority: string): (k: nat)
    ensures k <= |authority|
  {
    if authority != "" && authority[0] == '[' then
      var close := IndexOf(authority, ']');
      if close < |authority| then close + 1 else close
    else IndexOf(authority, ':')
  }

  function Host(authority: string): string {
    authority[..HostEnd(authority)]
  }

  /** The port with its colon, if there is one. */
  function Port(authority: string): string {
    authority[HostEnd(authority)..]
  }

  predicate PortText(port: string) {
    port == "" || (port[0] == ':' && Digits(port[1..]))
  }

  /** A host and perhaps a port, as clients accept them. */
  predicate PlainAuthority(authority: string) {
    var host, port := Host(authority), Port(authority);
    && (RegisteredName(host) || Literal(host))
    && PortText(port)
  }

  function DefaultPort(url: string): nat {
    if "http://" <= url then 80 else 443
  }

  /** The port is missing, empty, or the one that the scheme stands for. */
  predicate ImpliedPort(url: string)
    requires PlainAuthority(Authority(url))
  {
    var port := Port(Authority(url));
    |port| <= 1 || Number(port[1..]) == DefaultPort(url)
  }

  /** The host is a name, and the port is implied. */
  predicate NeedsNoPort(url: string)
    requires PlainAuthority(Authority(url))
  {
    ImpliedPort(url) && !Literal(Host(Authority(url)))
  }

  /** The Host field of a client. */
  function DirectHost(url: string): string
    requires PlainAuthority(Authority(url))
  {
    var host, port := Host(Authority(url)), Port(Authority(url));
    (if Literal(host) then host else Lower(host))
    + (if ImpliedPort(url) then "" else [':'] + Decimal(Number(port[1..])))
  }

  /** A name in lower case or a literal as it is, with any port but 80 of http and 443 of https. */
  lemma DirectHostIs(url: string, host: string, port: string)
    requires PlainAuthority(Authority(url)) && host == Host(Authority(url)) && port == Port(Authority(url))
    ensures var implied := port == "" || port == ":" || Number(port[1..]) == (if "http://" <= url then 80 else 443);
            var tail := if implied then "" else [':'] + Decimal(Number(port[1..]));
            DirectHost(url) == (if host[0] == '[' then host else Lower(host)) + tail
  {
    if RegisteredName(host) {
      assert host[0] in host;
    }
  }

  /** The rest behind the last occurrence, or all without one. */
  lemma {:induction false} AfterLastIs(s: string, c: char) returns (k: nat)
    ensures k <= |s| && AfterLast(s, c) == s[k..] && c !in s[k..]
    ensures k > 0 ==> s[k - 1] == c
    decreases |s|
  {
    var i := IndexOf(s, c);
    k := 0;
    if i < |s| {
      k := AfterLastIs(s[i + 1..], c);
      assert s[i + 1..][k..] == s[i + 1 + k..];
      k := i + 1 + k;
    } else {
      assert forall j: nat :: j < |s| ==> s[j] != c;
    }
  }

  /** What is printed for a port reads as that port. */
  lemma {:induction false} DecimalIsRead(n: nat)
    ensures Digits(Decimal(n)) && Number(Decimal(n)) == n
  {
    if n >= 10 {
      var init := Decimal(n / 10);
      DecimalIsRead(n / 10);
      assert Decimal(n) == init + ['0' + (n % 10) as char];
      assert Decimal(n)[..|init|] == init;
    } else {
      assert Decimal(n)[..0] == "";
    }
  }

  /** A name with or without a port is an accepted authority of that host and port. */
  lemma NameIsAccepted(host: string, port: string)
    requires RegisteredName(host) && PortText(port)
    ensures PlainAuthority(host + port) && Host(host + port) == host && Port(host + port) == port
    ensures !Literal(host)
  {
    var a := host + port;
    assert forall j: nat :: j < |host| ==> a[j] == host[j] && host[j] in host;
    assert host[0] in host && a[0] == host[0];
    FirstIndexIsUnique(a, ':', |host|);
    Seam(host, port);
  }

  /** So is an IPv6 literal in brackets. */
  lemma LiteralIsAccepted(inner: string, port: string)
    requires inner != "" && (forall c :: c in inner ==> NameChar(c) || c == ':') && PortText(port)
    ensures var host := ['['] + (inner + [']']);
            && PlainAuthority(host + port) && Host(host + port) == host && Port(host + port) == port
            && Literal(host)
  {
    var host := ['['] + (inner + [']']);
    var a, n := host + port, |inner| + 1;
    assert host[1..|host| - 1] == inner && host[n] == ']';
    assert forall j: nat :: 0 < j < n ==> a[j] == inner[j - 1] && inner[j - 1] in inner;
    assert a[0] == '[' && a[n] == ']';
    FirstIndexIsUnique(a, ']', n);
    Seam(host, port);
  }

  lemma AfterNone(s: string, c: char)
    requires c !in s
    ensures AfterLast(s, c) == s
  {
    NoIndex(s, c);
  }

  /** In an accepted authority there is no user information, and brackets only around a literal. */
  lemma PlainAuthorityParts(authority: string)
    requires PlainAuthority(authority)
    ensures '@' !in authority && (Literal(Host(authority)) || '[' !in authority)
  {
    var host, port := Host(authority), Port(authority);
    assert authority == host + port;
    if Literal(host) {
      LiteralIsPlain(host);
    }
    assert forall c :: c in port ==> c == ':' || Digit(c);
  }

  lemma LiteralIsPlain(host: string)
    requires Literal(host)
    ensures '@' !in host && '%' !in host && '%' !in host[1..|host| - 1] && ']' !in host[1..|host| - 1]
  {
    var inner := host[1..|host| - 1];
    assert forall c :: c in host ==> c == '[' || c == ']' || c in inner by {
      assert host == ['['] + (inner + [']']);
    }
    assert forall c :: c in inner ==> NameChar(c) || c == ':';
    assert !NameChar('@') && !NameChar('%') && !NameChar(']');
  }

  /** The host that `urlparse` finds. */
  lemma HostNameOfPlain(authority: string)
    requires PlainAuthority(authority)
    ensures var host := Host(authority);
            HostName(authority) == (if Literal(host) then host[1..|host| - 1] else host)
  {
    var host := Host(authority);
    PlainAuthorityParts(authority);
    AfterNone(authority, '@');
    if Literal(host) {
      LiteralName(authority);
    } else {
      NoIndex(authority, '[');
      assert authority[0] in authority;
    }
  }

  lemma LiteralName(authority: string)
    requires Literal(Host(authority)) && AfterLast(authority, '@') == authority
    ensures var host := Host(authority);
            HostName(authority) == host[1..|host| - 1]
  {
    var host := Host(authority);
    var inner := host[1..|host| - 1];
    LiteralIsPlain(host);
    assert authority[0] == host[0] == '[';
    FirstIndexIsUnique(authority, '[', 0);
    assert authority[1..] == inner + ([']'] + Port(authority)) by {
      assert host == ['['] + (inner + [']']);
    }
    UpToBracket(inner, Port(authority));
  }

  lemma UpToBracket(inner: string, rest: string)
    requires ']' !in inner
    ensures var s := inner + ([']'] + rest);
            s[..IndexOf(s, ']')] == inner
  {
    var s := inner + ([']'] + rest);
    assert forall j: nat :: j < |inner| ==> s[j] == inner[j];
    FirstIndexIsUnique(s, ']', |inner|);
  }

  lemma ProxyHostOfPlain(url: string)
    requires PlainAuthority(Authority(url))
    ensures var host := Host(Authority(url));
            ProxyHost(url) == Some(Lower(if Literal(host) then host[1..|host| - 1] else host))
  {
    var host := Host(Authority(url));
    var name := HostName(Authority(url));
    HostNameOfPlain(Authority(url));
    if Literal(host) {
      LiteralIsPlain(host);
    }
    assert '%' !in name;
    FirstIndexIsUnique(name, '%', |name|);
    assert name[..|name|] == name && Lower(name) + name[|name|..] == Lower(name);
  }

  /** The Host that the proxy sets is the client's own exactly without a port to name and without an IPv6 literal. */
  lemma HostIsDirectIff(url: string)
    requires PlainAuthority(Authority(url))
    ensures (ProxyHost(url) == Some(DirectHost(url))) <==> NeedsNoPort(url)
  {
    var host := Host(Authority(url));
    ProxyHostOfPlain(url);
    if !Literal(host) && ImpliedPort(url) {
      EmptyUnit(Lower(host));
    } else {
      assert |DirectHost(url)| > |ProxyHost(url).value|;
    }
  }

  /** For example the port of "http://h:8443". */
  lemma PortIsLost(url: string, authority: string)
    requires authority == "h:8443" && url == "http://" + authority
    ensures Authority(url) == authority && PlainAuthority(authority)
    ensures ProxyHost(url) == Some("h") && DirectHost(url) != "h"
  {
    AuthorityOf(url, authority);
    assert authority[1] == ':' && forall j: nat :: j < 1 ==> authority[j] != ':';
    FirstIndexIsUnique(authority, ':', 1);
    var host, port := Host(authority), Port(authority);
    assert host == "h" && port == ":8443";
    assert forall c :: c in host ==> c == 'h';
    HostIsDirectIff(url);
    ProxyHostOfPlain(url);
    Number8443(port[1..]);
    assert Lower(host) == "h";
  }

  lemma AuthorityOf(url: string, authority: string)
    requires url == "http://" + authority && forall c :: c in authority ==> !Delimiter(c)
    ensures Authority(url) == authority
  {
    assert url[7..] == authority;
    NoDelimiter(authority);
  }

  lemma Number8443(digits: string)
    requires digits == "8443"
    ensures Digits(digits) && Number(digits) == 8443
  {
    var a, b, c := digits[..3], digits[..2], digits[..1];
    assert a[..2] == b && b[..1] == c && c[..0] == "";
    assert Digits(digits) && Digits(a) && Digits(b) && Digits(c);
    assert Number(c) == 8;
    assert Number(b) == 84;
    assert Number(a) == 844;
  }

  // ---- the fields of a request ----

  const HOP_BY_HOP := {"host", "connection", "proxy-connection", "keep-alive", "transfer-encoding"}

  predicate Passes(name: string) {
    Lower(name) !in HOP_BY_HOP
  }

  /** The headers that the proxy gives its client: no hop-by-hop header of the container, and the rule's on top. */
  function ForwardHeaders(sent: Headers, host: Option<string>, rule: Rule): Headers {
    (map k | k in sent && Passes(k) :: sent[k])
    + (if host.Some? then map[HOST := host.value] else map[])
    + rule.headers
  }

  /** What a client sends: given headers, its default headers of other names, and a Host if none is given. */
  function ClientFields(defaults: Headers, given: Headers, host: string): Headers {
    var fields := (map k | k in defaults && !Names(given, k) :: defaults[k]) + given;
    if Names(fields, HOST) then fields else fields[HOST := host]
  }

  /** Two Host fields, which the client's HTTP library refuses to send (section 3.2 of RFC 9112). */
  predicate TwoHosts(fields: Headers) {
    exists i, j :: i in fields && j in fields && i != j && SameName(i, HOST) && SameName(j, HOST)
  }

  /** The fields that reach the target of a forwarded call, if any do. */
  function Arriving(defaults: Headers, sent: Headers, rule: Rule, url: string): Option<Headers>
    requires PlainAuthority(Authority(url))
  {
    var fields := ClientFields(defaults, ForwardHeaders(sent, ProxyHost(url), rule), DirectHost(url));
    if TwoHosts(fields) then None else Some(fields)
  }

  /** A direct call with the rule's headers. */
  function DirectFields(defaults: Headers, rule: Rule, url: string): Headers
    requires PlainAuthority(Authority(url))
  {
    ClientFields(defaults, rule.headers, DirectHost(url))
  }

  /** No passed header, not the proxy's Host and no other header of the rule has the name in another case. */
  ghost predicate Unrivalled(sent: Headers, rule: Rule, k: string) {
    && (forall j :: j in sent && Passes(j) && SameName(j, k) ==> j == k)
    && (SameName(HOST, k) ==> k == HOST)
    && (forall j :: j in rule.headers && SameName(j, k) ==> j == k)
  }

  /** The rule names the host, but not as "Host". */
  ghost predicate HostInOtherCase(rule: Rule) {
    exists j :: j in rule.headers && j != HOST && SameName(j, HOST)
  }

  lemma HostIsHopByHop(j: string)
    ensures SameName(j, HOST) ==> !Passes(j)
  {
    LowerHost(HOST);
  }

  /** The proxy's headers always have a Host, so its client adds none and drops its own default. */
  lemma FieldsOfForward(defaults: Headers, sent: Headers, host: string, rule: Rule, direct: string, j: string)
    ensures var given := ForwardHeaders(sent, Some(host), rule);
            var fields := ClientFields(defaults, given, direct);
            && HOST in given && HOST in fields
            && (Names(given, j) ==> (j in fields <==> j in given) && (j in given ==> fields[j] == given[j]))
  {
    var given := ForwardHeaders(sent, Some(host), rule);
    assert SameName(HOST, HOST);
  }

  /** What the container sends arrives too, unless it is hop-by-hop or the rule has it. */
  lemma OtherHeadersPass(defaults: Headers, sent: Headers, rule: Rule, host: string, direct: string, k: string)
    requires k in sent && k !in rule.headers
    ensures var given := ForwardHeaders(sent, Some(host), rule);
            var fields := ClientFields(defaults, given, direct);
            && (Passes(k) ==> k in fields && fields[k] == sent[k])
            && (!Passes(k) && k != HOST ==> k !in given)
  {
    assert SameName(k, k);
    HostIsHopByHop(k);
    FieldsOfForward(defaults, sent, host, rule, direct, k);
  }

  /** The only fields for the host are the proxy's and those of the rule. */
  lemma HostFields(defaults: Headers, sent: Headers, rule: Rule, host: string, direct: string, j: string)
    requires SameName(j, HOST)
    ensures var fields := ClientFields(defaults, ForwardHeaders(sent, Some(host), rule), direct);
            && (j in fields <==> j == HOST || j in rule.headers)
            && (j in rule.headers ==> fields[j] == rule.headers[j])
            && (HOST !in rule.headers ==> fields[HOST] == host)
  {
    HostIsHopByHop(j);
    assert SameName(HOST, j);
    FieldsOfForward(defaults, sent, host, rule, direct, j);
  }

  /** A forwarded call is refused exactly if the rule names the host in another case. */
  lemma RefusedIff(defaults: Headers, sent: Headers, rule: Rule, url: string)
    requires PlainAuthority(Authority(url))
    ensures Arriving(defaults, sent, rule, url).None? <==> HostInOtherCase(rule)
  {
    ProxyHostOfPlain(url);
    TwoHostsIff(defaults, sent, rule, ProxyHost(url).value, DirectHost(url));
  }

  lemma TwoHostsIff(defaults: Headers, sent: Headers, rule: Rule, host: string, direct: string)
    ensures TwoHosts(ClientFields(defaults, ForwardHeaders(sent, Some(host), rule), direct)) <==> HostInOtherCase(rule)
  {
    assert SameName(HOST, HOST);
    forall j | SameName(j, HOST)
      ensures j in ClientFields(defaults, ForwardHeaders(sent, Some(host), rule), direct)
              <==> j == HOST || j in rule.headers
    {
      HostFields(defaults, sent, rule, host, direct, j);
    }
  }

  /**
   A header of the rule arrives with its value, and it is the only field of its name exactly if it has
   no rival in another case.
   */
  lemma OnlyFieldIff(defaults: Headers, sent: Headers, rule: Rule, host: string, direct: string, k: string)
    requires k in rule.headers
    ensures var fields := ClientFields(defaults, ForwardHeaders(sent, Some(host), rule), direct);
            && k in fields && fields[k] == rule.headers[k]
            && (OnlyField(fields, k) <==> Unrivalled(sent, rule, k))
  {
    var given := ForwardHeaders(sent, Some(host), rule);
    forall j | SameName(j, k)
      ensures j in ClientFields(defaults, given, direct) <==> j in given
    {
      assert SameName(k, j);
      FieldsOfForward(defaults, sent, host, rule, direct, j);
    }
    assert SameName(k, k);
    FieldsOfForward(defaults, sent, host, rule, direct, k);
  }

  /**
   The fields of a rule's header are those of a direct call exactly if no passed header has its name in a
   case that the rule does not have, and the rule has "Host" itself if it names the host.
   */
  lemma SameFieldsIff(defaults: Headers, own: Headers, sent: Headers, rule: Rule, host: string, direct: string,
                      k: string)
    requires k in rule.headers
    ensures SameFields(ClientFields(defaults, ForwardHeaders(sent, Some(host), rule), direct),
                       ClientFields(own, rule.headers, direct), k)
            <==> (forall j :: j in sent && Passes(j) && SameName(j, k) ==> j in rule.headers)
                 && (SameName(HOST, k) ==> HOST in rule.headers)
  {
    var given := ForwardHeaders(sent, Some(host), rule);
    var fields, wanted := ClientFields(defaults, given, direct), ClientFields(own, rule.headers, direct);
    forall j | SameName(j, k)
      ensures j in fields <==> j in given
      ensures j in given ==> fields[j] == given[j]
      ensures j in wanted <==> j in rule.headers
      ensures j in rule.headers ==> wanted[j] == rule.headers[j] == given[j]
      ensures j in given <==> j in rule.headers || j == HOST || (j in sent && Passes(j))
    {
      assert SameName(k, j) && SameName(HOST, HOST);
      FieldsOfForward(defaults, sent, host, rule, direct, j);
    }
  }

  /** Without a header of the rule for it, the target gets the proxy's Host; a direct call has the client's own. */
  lemma HostArrives(defaults: Headers, own: Headers, sent: Headers, rule: Rule, url: string)
    requires PlainAuthority(Authority(url)) && !Names(rule.headers, HOST) && !Names(own, HOST)
    ensures var arriving := Arriving(defaults, sent, rule, url);
            var direct := DirectFields(own, rule, url);
            && arriving.Some? && OnlyField(arriving.value, HOST) && OnlyField(direct, HOST)
            && (arriving.value[HOST] == direct[HOST]
                <==> NeedsNoPort(url))
  {
    ProxyHostOfPlain(url);
    HostIsDirectIff(url);
    RefusedIff(defaults, sent, rule, url);
    ProxyHostIsOnly(defaults, sent, rule, ProxyHost(url).value, DirectHost(url));
    AddedHostIsOnly(own, rule.headers, DirectHost(url));
  }

  lemma ProxyHostIsOnly(defaults: Headers, sent: Headers, rule: Rule, host: string, direct: string)
    requires !Names(rule.headers, HOST)
    ensures var fields := ClientFields(defaults, ForwardHeaders(sent, Some(host), rule), direct);
            OnlyField(fields, HOST) && fields[HOST] == host
  {
    forall j | SameName(j, HOST)
      ensures j in ClientFields(defaults, ForwardHeaders(sent, Some(host), rule), direct) <==> j == HOST
    {
      HostFields(defaults, sent, rule, host, direct, j);
    }
    HostFields(defaults, sent, rule, host, direct, HOST);
  }

  lemma AddedHostIsOnly(defaults: Headers, given: Headers, host: string)
    requires !Names(given, HOST) && !Names(defaults, HOST)
    ensures var fields := ClientFields(defaults, given, host);
            OnlyField(fields, HOST) && fields[HOST] == host
  {
  }

  /** The call is sent, and its Host and the fields of the rule's headers are those of a direct call. */
  ghost predicate LikeDirect(arriving: Option<Headers>, direct: Headers, rule: Rule) {
    && arriving.Some? && SameFields(arriving.value, direct, HOST)
    && forall k :: k in rule.headers ==> SameFields(arriving.value, direct, k)
  }

  /** No passed header has a name of the rule in a case that the rule does not have. */
  ghost predicate NoRivalPasses(sent: Headers, rule: Rule) {
    forall j, k :: j in sent && k in rule.headers && Passes(j) && SameName(j, k) ==> j in rule.headers
  }

  /**
   The headers of a forwarded call are those of a direct one exactly if no passed header is a rival of the
   rule's, the rule names the host as "Host" if at all, and otherwise the base URL needs no port and no
   IPv6 literal.
   */
  lemma LikeDirectIff(defaults: Headers, own: Headers, sent: Headers, rule: Rule, url: string)
    requires PlainAuthority(Authority(url)) && !Names(own, HOST)
    ensures LikeDirect(Arriving(defaults, sent, rule, url), DirectFields(own, rule, url), rule)
            <==> NoRivalPasses(sent, rule) && !HostInOtherCase(rule)
                 && (HOST in rule.headers || NeedsNoPort(url))
  {
    RefusedIff(defaults, sent, rule, url);
    if !HostInOtherCase(rule) {
      var host, direct := ProxyHost(url), DirectHost(url);
      ProxyHostOfPlain(url);
      HostIsDirectIff(url);
      HostIsAlikeIff(defaults, own, sent, rule, host.value, direct);
      forall k | k in rule.headers
        ensures SameFields(Arriving(defaults, sent, rule, url).value, DirectFields(own, rule, url), k)
                <==> forall j :: j in sent && Passes(j) && SameName(j, k) ==> j in rule.headers
      {
        assert SameName(HOST, k) ==> SameName(k, HOST);
        SameFieldsIff(defaults, own, sent, rule, host.value, direct, k);
      }
    }
  }

  lemma HostIsAlikeIff(defaults: Headers, own: Headers, sent: Headers, rule: Rule, host: string, direct: string)
    requires !Names(own, HOST) && !HostInOtherCase(rule)
    ensures SameFields(ClientFields(defaults, ForwardHeaders(sent, Some(host), rule), direct),
                       ClientFields(own, rule.headers, direct), HOST)
            <==> HOST in rule.headers || host == direct
  {
    if HOST in rule.headers {
      SameFieldsIff(defaults, own, sent, rule, host, direct, HOST);
      forall j | SameName(j, HOST)
        ensures !Passes(j)
      {
        HostIsHopByHop(j);
      }
    } else {
      ProxyHostIsOnly(defaults, sent, rule, host, direct);
      AddedHostIsOnly(own, rule.headers, direct);
      OneFieldEach(ClientFields(defaults, ForwardHeaders(sent, Some(host), rule), direct),
                   ClientFields(own, rule.headers, direct));
    }
  }

  lemma OneFieldEach(a: Headers, b: Headers)
    requires OnlyField(a, HOST) && OnlyField(b, HOST)
    ensures SameFields(a, b, HOST) <==> a[HOST] == b[HOST]
  {
    assert SameName(HOST, HOST);
  }

  /**
   What becomes of the headers of a call: it is refused exactly if the rule names the host in another case;
   otherwise every resolved header arrives with its value, alone exactly if it has no rival.  The headers
   are those of the direct call exactly if no rival passes, the rule names the host as "Host" if at all,
   and otherwise `noPort` holds.
   */
  ghost predicate HeadersArrive(arriving: Option<Headers>, direct: Headers, sent: Headers, rule: Rule, noPort: bool) {
    && (arriving.None? <==> HostInOtherCase(rule))
    && (arriving.Some? ==> forall k :: k in rule.headers ==>
          && k in arriving.value && arriving.value[k] == rule.headers[k]
          && (OnlyField(arriving.value, k) <==> Unrivalled(sent, rule, k)))
    && (LikeDirect(arriving, direct, rule)
        <==> NoRivalPasses(sent, rule) && !HostInOtherCase(rule) && (HOST in rule.headers || noPort))
  }

  lemma HeadersOfUrl(defaults: Headers, own: Headers, sent: Headers, rule: Rule, url: string)
    requires PlainAuthority(Authority(url)) && !Names(own, HOST)
    ensures HeadersArrive(Arriving(defaults, sent, rule, url), DirectFields(own, rule, url), sent, rule,
                          NeedsNoPort(url))
  {
    RefusedIff(defaults, sent, rule, url);
    LikeDirectIff(defaults, own, sent, rule, url);
    ProxyHostOfPlain(url);
    RulesArrive(defaults, sent, rule, ProxyHost(url).value, DirectHost(url));
  }

  lemma RulesArrive(defaults: Headers, sent: Headers, rule: Rule, host: string, direct: string)
    ensures var fields := ClientFields(defaults, ForwardHeaders(sent, Some(host), rule), direct);
            forall k :: k in rule.headers ==>
              && k in fields && fields[k] == rule.headers[k]
              && (OnlyField(fields, k) <==> Unrivalled(sent, rule, k))
  {
    var fields := ClientFields(defaults, ForwardHeaders(sent, Some(host), rule), direct);
    forall k | k in rule.headers
      ensures k in fields && fields[k] == rule.headers[k] && (OnlyField(fields, k) <==> Unrivalled(sent, rule, k))
    {
      OnlyFieldIff(defaults, sent, rule, host, direct, k);
    }
  }

  /** URLs of one scheme and authority have one Host. */
  lemma SameHost(a: string, b: string)
    requires Authority(a) == Authority(b) && DefaultPort(a) == DefaultPort(b) && PlainAuthority(Authority(a))
    ensures DirectHost(a) == DirectHost(b) && (NeedsNoPort(a) <==> NeedsNoPort(b))
  {
  }

  // ---- headers that do not arrive as they should ----

  lemma LowerAccept(name: string)
    requires name == "accept" || name == "Accept"
    ensures Lower(name) == "accept"
  {
    var a, b, c, d, e := name[1..], name[2..], name[3..], name[4..], name[5..];
    assert a[1..] == b && b[1..] == c && c[1..] == d && d[1..] == e && e[1..] == "";
    assert Lower(e) == "t";
    assert Lower(d) == "pt";
    assert Lower(c) == "ept";
    assert Lower(b) == "cept";
    assert Lower(a) == "ccept";
  }

  /** A resolved header "accept" arrives beside the "Accept" of the container's client. */
  lemma AcceptArrivesTwice(defaults: Headers, own: Headers, sent: Headers, rule: Rule, host: string, direct: string,
                           lower: string, upper: string)
    requires lower == "accept" && upper == "Accept" && rule.headers.Keys == {lower} && upper in sent
    ensures var fields := ClientFields(defaults, ForwardHeaders(sent, Some(host), rule), direct);
            && lower in fields && fields[lower] == rule.headers[lower]
            && upper in fields && fields[upper] == sent[upper]
            && OnlyField(ClientFields(own, rule.headers, direct), lower)
  {
    LowerAccept(lower);
    LowerAccept(upper);
    assert SameName(upper, upper) && SameName(lower, lower);
    assert lower != upper && Passes(upper);
    LowerHost(HOST);
    assert upper != HOST;
    GivenAlone(own, rule.headers, direct, lower);
    FieldsOfForward(defaults, sent, host, rule, direct, lower);
    FieldsOfForward(defaults, sent, host, rule, direct, upper);
  }

  /** The only header given to a client is the only field of its name. */
  lemma GivenAlone(defaults: Headers, given: Headers, host: string, k: string)
    requires given.Keys == {k}
    ensures var fields := ClientFields(defaults, given, host);
            OnlyField(fields, k) && fields[k] == given[k] && (SameName(k, HOST) ==> !TwoHosts(fields))
  {
    assert k in given && SameName(k, k);
    var fields := ClientFields(defaults, given, host);
    forall j | j in fields && SameName(j, k)
      ensures j == k
    {
      assert SameName(k, j);
    }
  }

  /** A resolved header "host" makes every proxied call fail, and a direct one sends it. */
  lemma LowerCaseHostIsRefused(defaults: Headers, own: Headers, sent: Headers, rule: Rule, url: string, name: string)
    requires name == "host" && rule.headers.Keys == {name} && PlainAuthority(Authority(url))
    ensures Arriving(defaults, sent, rule, url) == None
    ensures OnlyField(DirectFields(own, rule, url), name) && !TwoHosts(DirectFields(own, rule, url))
    ensures DirectFields(own, rule, url)[name] == rule.headers[name]
  {
    LowerHost(HOST);
    LowerLowerHost(name);
    assert SameName(name, HOST) && name != HOST && name in rule.headers;
    RefusedIff(defaults, sent, rule, url);
    GivenAlone(own, rule.headers, DirectHost(url), name);
  }

  lemma LowerLowerHost(name: string)
    requires name == "host"
    ensures Lower(name) == "host"
  {
    var o, s, t := name[1..], name[2..], name[3..];
    assert o[1..] == s && s[1..] == t && t[1..] == "";
    assert Lower(t) == "t";
    assert Lower(s) == "st";
    assert Lower(o) == "ost";
  }
}
