/**
 Tool calls of a container to the APIs of MCP servers, through the credential proxy
 (app/services/execute_service.py `_extract_mcp_headers_to_proxy`, workspace_agent/openapi_mcp.py
 `OpenAPIMcpService`, app/services/proxy/credential_proxy.py `_handle_mcp_reverse_proxy`).
 */
module McpRouting {
  import opened Sequences
  import opened Text
  import opened Wrappers

  type Headers = map<string, string>

  const PROXY_HOST := "127.0.0.1:8080"
  const PROXY_ORIGIN := "http://" + PROXY_HOST
  const MCP_PREFIX := "/mcp/"

  /** A server configuration with resolved headers; `spec` stands for the OpenAPI document. */
  datatype ServerConfig = ServerConfig(name: string, spec: nat, baseUrl: string, headers: Headers)

  /** What the container gets instead. */
  datatype ContainerConfig = ContainerConfig(name: string, spec: nat, baseUrl: string)

  datatype Rule = Rule(realBaseUrl: string, headers: Headers)

  function TrimSlashes(s: string): string {
    if s != "" && s[|s| - 1] == '/' then TrimSlashes(s[..|s| - 1]) else s
  }

  /** What is trimmed off are the slashes at the end, all of them. */
  lemma {:induction false} TrimmedIs(s: string)
    ensures var t := TrimSlashes(s);
            && |t| <= |s| && t == s[..|t|] && (t != "" ==> t[|t| - 1] != '/')
            && forall i :: |t| <= i < |s| ==> s[i] == '/'
  {
    if s != "" && s[|s| - 1] == '/' {
      TrimmedIs(s[..|s| - 1]);
    }
  }

  // ---- the host side ----

  function Rewrite(c: ServerConfig): ContainerConfig {
    ContainerConfig(c.name, c.spec, if c.baseUrl == "" then "" else PROXY_ORIGIN + MCP_PREFIX + c.name)
  }

  /**
   Name and document stay, and what has no base URL gets none; otherwise the base URL is the server's
   place behind the proxy.
   */
  ghost predicate Handed(c: ServerConfig, handed: ContainerConfig) {
    && handed.name == c.name && handed.spec == c.spec
    && (c.baseUrl == "" <==> handed.baseUrl == "")
    && (c.baseUrl != "" ==> handed.baseUrl == PROXY_ORIGIN + MCP_PREFIX + c.name)
  }

  ghost predicate AllHanded(configs: seq<ServerConfig>, handed: seq<ContainerConfig>) {
    |handed| == |configs| && forall i :: 0 <= i < |configs| ==> Handed(configs[i], handed[i])
  }

  lemma RewriteIsHanded(c: ServerConfig)
    ensures Handed(c, Rewrite(c))
  {
    assert PROXY_ORIGIN != "";
  }

  lemma PlaceBehindProxy(name: string)
    ensures PROXY_ORIGIN + MCP_PREFIX + name == "http://127.0.0.1:8080/mcp/" + name
  {
  }

  /** The first `n` configurations as the container sees them. */
  function RewriteAll(configs: seq<ServerConfig>, n: nat): (r: seq<ContainerConfig>)
    requires n <= |configs|
    ensures |r| == n
  {
    MapFirst(Rewrite, configs, n)
  }

  lemma RewriteAllAt(configs: seq<ServerConfig>, n: nat, i: nat)
    requires i < n <= |configs|
    ensures RewriteAll(configs, n)[i] == Rewrite(configs[i])
  {
    MapFirstAt(Rewrite, configs, n, i);
  }

  /** A configuration with a base URL replaces the rule of its name. */
  function AddRule(rules: map<string, Rule>, c: ServerConfig): map<string, Rule> {
    if c.baseUrl == "" then rules else rules[c.name := Rule(c.baseUrl, c.headers)]
  }

  /** The rules of the first `n` configurations. */
  function RulesOf(configs: seq<ServerConfig>, n: nat): map<string, Rule>
    requires n <= |configs|
  {
    if n == 0 then map[] else AddRule(RulesOf(configs, n - 1), configs[n - 1])
  }

  lemma RulesStep(configs: seq<ServerConfig>, i: nat)
    requires i < |configs|
    ensures RulesOf(configs, i + 1) == AddRule(RulesOf(configs, i), configs[i])
  {
  }

  /** The loop over the configurations, with the rewriting of a single one as a parameter. */
  method BuildRules(configs: seq<ServerConfig>, rewrite: ServerConfig -> ContainerConfig)
    returns (built: map<string, Rule>, forContainer: seq<ContainerConfig>)
    ensures built == RulesOf(configs, |configs|)
    ensures forContainer == MapFirst(rewrite, configs, |configs|)
  {
    built := map[];
    forContainer := [];
    var i := 0;
    while i < |configs|
      invariant i <= |configs|
      invariant built == RulesOf(configs, i)
      invariant forContainer == MapFirst(rewrite, configs, i)
    {
      var c := configs[i];
      if c.baseUrl != "" {
        built := built[c.name := Rule(c.baseUrl, c.headers)];
      }
      RulesStep(configs, i);
      forContainer := forContainer + [rewrite(c)];
      i := i + 1;
    }
  }

  class Proxy {
    var rules: map<string, Rule>

    constructor ()
      ensures rules == map[]
    {
      rules := map[];
    }

    /** `_extract_mcp_headers_to_proxy`; without any rule the proxy keeps the rules it had. */
    method RegisterServers(configs: seq<ServerConfig>) returns (forContainer: seq<ContainerConfig>)
      modifies this
      ensures forContainer == RewriteAll(configs, |configs|)
      ensures AllHanded(configs, forContainer)
      ensures RulesOf(configs, |configs|) == map[] ==> rules == old(rules)
      ensures RulesOf(configs, |configs|) != map[] ==> rules == RulesOf(configs, |configs|)
    {
      var built;
      built, forContainer := BuildRules(configs, Rewrite);
      forall i | 0 <= i < |configs| ensures Handed(configs[i], forContainer[i]) {
        RewriteAllAt(configs, |configs|, i);
        RewriteIsHanded(configs[i]);
      }
      if built != map[] {
        rules := built;
      }
    }
  }

  // ---- the container side ----

  /** The base URL that `OpenAPIMcpService` settles on; `specServer` is the URL of the first server in the document. */
  function EffectiveBaseUrl(baseUrl: string, specServer: string): string {
    var url := TrimSlashes(if baseUrl != "" then baseUrl else specServer);
    if "http://" <= url || "https://" <= url then url else ""
  }

  /** The URL that a tool call requests, or None when no base URL is configured; `path` includes the query. */
  function RequestUrl(baseUrl: string, specServer: string, path: string): Option<string> {
    var base := EffectiveBaseUrl(baseUrl, specServer);
    if base == "" then None else Some(base + path)
  }

  // ---- the proxy ----

  /** The rule and target URL of a request; None is the 404 answer. */
  function Route(rules: map<string, Rule>, target: string): Option<(Rule, string)>
    requires MCP_PREFIX <= target
  {
    var mcpPath := target[|MCP_PREFIX|..];
    var slash := IndexOf(mcpPath, '/');
    var name, remaining := mcpPath[..slash], mcpPath[slash..];
    if name in rules then Some((rules[name], TrimSlashes(rules[name].realBaseUrl) + remaining)) else None
  }

  // ---- rules by name ----

  /** The last configuration with this name and a base URL, which is the one whose rule survives. */
  ghost function LastNamed(configs: seq<ServerConfig>, n: nat, name: string): Option<ServerConfig>
    requires n <= |configs|
  {
    if n == 0 then None
    else if configs[n - 1].name == name && configs[n - 1].baseUrl != "" then Some(configs[n - 1])
    else LastNamed(configs, n - 1, name)
  }

  lemma {:induction false} RuleIsLastNamed(configs: seq<ServerConfig>, n: nat, name: string)
    requires n <= |configs|
    ensures var c := LastNamed(configs, n, name);
            if c.None? then name !in RulesOf(configs, n)
            else name in RulesOf(configs, n) && RulesOf(configs, n)[name] == Rule(c.value.baseUrl, c.value.headers)
  {
    if n > 0 {
      RuleIsLastNamed(configs, n - 1, name);
    }
  }

  lemma {:induction false} LastNamedIsAmong(configs: seq<ServerConfig>, n: nat, i: nat)
    requires i < n <= |configs| && configs[i].baseUrl != ""
    ensures LastNamed(configs, n, configs[i].name).Some?
    ensures LastNamed(configs, n, configs[i].name).value in configs
    ensures LastNamed(configs, n, configs[i].name).value.name == configs[i].name
  {
    if !(configs[n - 1].name == configs[i].name && configs[n - 1].baseUrl != "") {
      LastNamedIsAmong(configs, n - 1, i);
    }
  }

  /** A request for `name + path` behind the prefix is routed by that name. */
  lemma NamedRoute(name: string, path: string, rules: map<string, Rule>)
    requires name != "" && '/' !in name && path != "" && path[0] == '/'
    ensures Route(rules, MCP_PREFIX + (name + path)) ==
            (if name in rules then Some((rules[name], TrimSlashes(rules[name].realBaseUrl) + path)) else None)
  {
    Seam(MCP_PREFIX, name + path);
    Seam(name, path);
    FirstIndexIsUnique(name + path, '/', |name|);
  }

  ghost predicate DistinctNames(configs: seq<ServerConfig>) {
    forall i, j :: 0 <= i < j < |configs| ==> configs[i].name != configs[j].name
  }

  lemma RuleOfDistinctName(configs: seq<ServerConfig>, i: nat)
    requires DistinctNames(configs) && i < |configs| && configs[i].baseUrl != ""
    ensures configs[i].name in RulesOf(configs, |configs|)
    ensures RulesOf(configs, |configs|)[configs[i].name] == Rule(configs[i].baseUrl, configs[i].headers)
  {
    RuleIsLastNamed(configs, |configs|, configs[i].name);
    LastNamedIsAmong(configs, |configs|, i);
    var j :| 0 <= j < |configs| && configs[j] == LastNamed(configs, |configs|, configs[i].name).value;
    assert j == i;
  }

  /**
   Without distinct names a call goes where the last configuration of its name points, so the calls
   of server i are preserved exactly if that configuration has the same base URL.
   */
  lemma DuplicateNameRoutes(configs: seq<ServerConfig>, i: nat, path: string)
    requires i < |configs| && configs[i].baseUrl != "" && configs[i].name != "" && '/' !in configs[i].name
    requires path != "" && path[0] == '/'
    ensures var last := LastNamed(configs, |configs|, configs[i].name);
            var routed := Route(RulesOf(configs, |configs|), MCP_PREFIX + (configs[i].name + path));
            && last.Some? && routed.Some?
            && (routed.value.1 == TrimSlashes(configs[i].baseUrl) + path
                <==> TrimSlashes(last.value.baseUrl) == TrimSlashes(configs[i].baseUrl))
  {
    var c := configs[i];
    RuleIsLastNamed(configs, |configs|, c.name);
    LastNamedIsAmong(configs, |configs|, i);
    NamedRoute(c.name, path, RulesOf(configs, |configs|));
    var a, b := TrimSlashes(LastNamed(configs, |configs|, c.name).value.baseUrl), TrimSlashes(c.baseUrl);
    if a + path == b + path {
      assert |a| == |b|;
      Seam(a, path);
      Seam(b, path);
    }
  }
}
