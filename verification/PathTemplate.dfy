/**
 Path templating of OpenAPI operations (workspace_agent/openapi_mcp.py, `execute_tool` and
 `_encode_path_parameter`).

 Values are the UTF-8 octets of `str(value)`.  `isWord` stands for the character class \w.
 */
module PathTemplate {
  import opened Bytes
  import opened PercentEncoding
  import opened Sequences
  import opened Text
  import opened Wrappers

  predicate BraceFree(s: string) {
    '{' !in s && '}' !in s
  }

  lemma {:induction false} QuoteIsBraceAndSlashFree(v: bytes)
    ensures BraceFree(Quote(v)) && '/' !in Quote(v)
  {
    if v != [] {
      QuoteIsBraceAndSlashFree(v[1..]);
    }
  }

  // ---- the code ----

  type Args = map<string, Option<bytes>>

  /** `_encode_path_parameter`; None is Python's None. */
  function EncodeParameter(value: Option<bytes>): string {
    if value.None? then "" else Quote(value.value)
  }

  function WordRun(s: string, isWord: char -> bool): (k: nat)
    ensures k <= |s| && (forall i :: 0 <= i < k ==> isWord(s[i])) && (k < |s| ==> !isWord(s[k]))
  {
    if s != "" && isWord(s[0]) then 1 + WordRun(s[1..], isWord) else 0
  }

  /** re.findall(r"\{(\w+)\}", s) */
  function FindParams(s: string, isWord: char -> bool): seq<string>
    decreases |s|
  {
    if s == "" then []
    else
      var k := if s[0] == '{' then WordRun(s[1..], isWord) else 0;
      if k > 0 && k + 1 < |s| && s[k + 1] == '}' then [s[1..k + 1]] + FindParams(s[k + 2..], isWord)
      else FindParams(s[1..], isWord)
  }

  function Placeholder(name: string): string {
    ['{'] + (name + ['}'])
  }

  /** The replacement loop over `names`; Err carries the first name without an argument. */
  function SubstituteEach(path: string, names: seq<string>, args: Args): Result<string, string>
    decreases |names|
  {
    if names == [] then Ok(path)
    else if names[0] !in args then Err(names[0])
    else SubstituteEach(Replace(path, Placeholder(names[0]), EncodeParameter(args[names[0]])), names[1..], args)
  }

  method BuildPath(template: string, args: Args, isWord: char -> bool) returns (r: Result<string, string>)
    ensures r == SubstituteEach(template, FindParams(template, isWord), args)
  {
    var path := template;
    var names := FindParams(template, isWord);
    var i := 0;
    while i < |names|
      invariant i <= |names|
      invariant SubstituteEach(path, names[i..], args) == SubstituteEach(template, names, args)
    {
      assert names[i..][1..] == names[i + 1..];
      if names[i] !in args {
        return Err(names[i]);
      }
      path := Replace(path, Placeholder(names[i]), EncodeParameter(args[names[i]]));
      i := i + 1;
    }
    return Ok(path);
  }

  // ---- templates as literal characters and placeholders ----

  /** A literal character, which may be a brace, or a placeholder. */
  datatype Piece = Lit(c: char) | Param(name: string)

  /** The pieces that the pattern sees in any text. */
  function Pieces(t: string, isWord: char -> bool): seq<Piece>
    decreases |t|
  {
    if t == "" then []
    else
      var k := if t[0] == '{' then WordRun(t[1..], isWord) else 0;
      if k > 0 && k + 1 < |t| && t[k + 1] == '}' then [Param(t[1..k + 1])] + Pieces(t[k + 2..], isWord)
      else [Lit(t[0])] + Pieces(t[1..], isWord)
  }

  ghost predicate WordName(name: string, isWord: char -> bool) {
    name != "" && (forall c :: c in name ==> isWord(c))
  }

  ghost predicate WellFormed(pieces: seq<Piece>, isWord: char -> bool) {
    forall p :: p in pieces && p.Param? ==> WordName(p.name, isWord)
  }

  /** The text with the parameters of `done` replaced, all at once. */
  ghost function Render(pieces: seq<Piece>, done: set<string>, args: Args): string
    requires done <= args.Keys
    decreases |pieces|
  {
    if pieces == [] then "" else RenderPiece(pieces[0], done, args) + Render(pieces[1..], done, args)
  }

  ghost function RenderPiece(p: Piece, done: set<string>, args: Args): string
    requires done <= args.Keys
  {
    match p
    case Lit(c) => [c]
    case Param(name) => if name in done then EncodeParameter(args[name]) else Placeholder(name)
  }

  /** All parameters replaced at once. */
  ghost function Simultaneous(pieces: seq<Piece>, args: Args): string {
    Render(pieces, args.Keys, args)
  }

  ghost function Names(pieces: seq<Piece>): seq<string>
    decreases |pieces|
  {
    if pieces == [] then []
    else (if pieces[0].Param? then [pieces[0].name] else []) + Names(pieces[1..])
  }

  lemma PlaceholderAtStart(t: string, k: nat)
    requires k + 1 < |t| && t[0] == '{' && t[k + 1] == '}'
    ensures t == Placeholder(t[1..k + 1]) + t[k + 2..]
  {
  }

  /** The placeholder at the start of a text ends at this index; 0 when there is none. */
  function TakesParam(t: string, isWord: char -> bool): nat {
    var k := if t != "" && t[0] == '{' then WordRun(t[1..], isWord) else 0;
    if k > 0 && k + 1 < |t| && t[k + 1] == '}' then k + 1 else 0
  }

  lemma PiecesStep(t: string, isWord: char -> bool)
    requires t != ""
    ensures var n := TakesParam(t, isWord);
            if n > 0 then n < |t| && Pieces(t, isWord) == [Param(t[1..n])] + Pieces(t[n + 1..], isWord)
            else Pieces(t, isWord) == [Lit(t[0])] + Pieces(t[1..], isWord)
    ensures var n := TakesParam(t, isWord);
            if n > 0 then n < |t| && FindParams(t, isWord) == [t[1..n]] + FindParams(t[n + 1..], isWord)
            else FindParams(t, isWord) == FindParams(t[1..], isWord)
  {
  }

  lemma {:induction false} PiecesAreText(t: string, isWord: char -> bool, args: Args)
    ensures Render(Pieces(t, isWord), {}, args) == t
    decreases |t|
  {
    if t != "" {
      var n := TakesParam(t, isWord);
      PiecesStep(t, isWord);
      if n > 0 {
        PiecesAreText(t[n + 1..], isWord, args);
        PlaceholderAtStart(t, n - 1);
        RenderCons(Param(t[1..n]), Pieces(t[n + 1..], isWord), {}, args);
      } else {
        PiecesAreText(t[1..], isWord, args);
        RenderCons(Lit(t[0]), Pieces(t[1..], isWord), {}, args);
        assert t == [t[0]] + t[1..];
      }
    }
  }

  lemma RenderCons(p: Piece, pieces: seq<Piece>, done: set<string>, args: Args)
    requires done <= args.Keys
    ensures Render([p] + pieces, done, args) == RenderPiece(p, done, args) + Render(pieces, done, args)
  {
    assert ([p] + pieces)[1..] == pieces;
  }

  lemma NamesCons(p: Piece, pieces: seq<Piece>)
    ensures Names([p] + pieces) == (if p.Param? then [p.name] else []) + Names(pieces)
  {
    assert ([p] + pieces)[1..] == pieces;
  }

  lemma {:induction false} PiecesHaveNames(t: string, isWord: char -> bool)
    ensures Names(Pieces(t, isWord)) == FindParams(t, isWord)
    decreases |t|
  {
    if t != "" {
      var n := TakesParam(t, isWord);
      PiecesStep(t, isWord);
      if n > 0 {
        PiecesHaveNames(t[n + 1..], isWord);
        NamesCons(Param(t[1..n]), Pieces(t[n + 1..], isWord));
      } else {
        PiecesHaveNames(t[1..], isWord);
        NamesCons(Lit(t[0]), Pieces(t[1..], isWord));
        EmptyUnit(FindParams(t[1..], isWord));
      }
    }
  }

  lemma RunIsWord(t: string, isWord: char -> bool)
    requires WordRun(t, isWord) > 0
    ensures WordName(t[..WordRun(t, isWord)], isWord)
  {
  }

  lemma {:induction false} PiecesAreWellFormed(t: string, isWord: char -> bool)
    ensures WellFormed(Pieces(t, isWord), isWord)
    decreases |t|
  {
    if t != "" {
      var k := if t[0] == '{' then WordRun(t[1..], isWord) else 0;
      if k > 0 && k + 1 < |t| && t[k + 1] == '}' {
        PiecesAreWellFormed(t[k + 2..], isWord);
        RunIsWord(t[1..], isWord);
        assert t[1..k + 1] == t[1..][..k];
      } else {
        PiecesAreWellFormed(t[1..], isWord);
      }
    }
  }

  /** The pieces are the template: the same text, and the names that the pattern finds, in order. */
  lemma PiecesOfTemplate(t: string, isWord: char -> bool, args: Args)
    ensures Render(Pieces(t, isWord), {}, args) == t
    ensures Names(Pieces(t, isWord)) == FindParams(t, isWord)
    ensures WellFormed(Pieces(t, isWord), isWord)
  {
    PiecesAreText(t, isWord, args);
    PiecesHaveNames(t, isWord);
    PiecesAreWellFormed(t, isWord);
  }

  // ---- occurrences ----

  function Contains(s: string, p: string): bool {
    p <= s || (s != "" && Contains(s[1..], p))
  }

  lemma {:induction false} ContainsAfter(a: string, b: string, p: string)
    requires Contains(b, p)
    ensures Contains(a + b, p)
  {
    if a == "" {
      EmptyUnit(b);
    } else {
      ContainsAfter(a[1..], b, p);
      assert (a + b)[1..] == a[1..] + b;
    }
  }

  /** A placeholder does not begin inside text without braces. */
  lemma {:induction false} ContainsSkipsBraceFree(a: string, b: string, name: string)
    requires BraceFree(a) && Contains(a + b, Placeholder(name))
    ensures Contains(b, Placeholder(name))
  {
    if a == "" {
      EmptyUnit(b);
    } else {
      assert (a + b)[1..] == a[1..] + b && (a + b)[0] == a[0] && a[0] in a;
      assert Placeholder(name)[0] == '{';
      assert forall c :: c in a[1..] ==> c in a;
      ContainsSkipsBraceFree(a[1..], b, name);
    }
  }

  function OpenBraces(s: string): nat {
    if s == "" then 0 else (if s[0] == '{' then 1 else 0) + OpenBraces(s[1..])
  }

  lemma {:induction false} OpenBracesAdd(a: string, b: string)
    ensures OpenBraces(a + b) == OpenBraces(a) + OpenBraces(b)
  {
    if a == "" {
      EmptyUnit(b);
    } else {
      assert (a + b)[1..] == a[1..] + b;
      OpenBracesAdd(a[1..], b);
    }
  }

  lemma {:induction false} NoOpenBraces(s: string)
    requires BraceFree(s)
    ensures OpenBraces(s) == 0
  {
    if s != "" {
      assert s[0] in s && forall c :: c in s[1..] ==> c in s;
      NoOpenBraces(s[1..]);
    }
  }

  /** Replacing a placeholder that occurs takes away an opening brace for good. */
  lemma {:induction false} ReplaceDropsBrace(s: string, name: string, value: string)
    requires BraceFree(value)
    ensures OpenBraces(Replace(s, Placeholder(name), value)) <= OpenBraces(s)
    ensures Contains(s, Placeholder(name)) ==> OpenBraces(Replace(s, Placeholder(name), value)) < OpenBraces(s)
    decreases |s|
  {
    var p := Placeholder(name);
    if p <= s {
      var rest := s[|p|..];
      ReplaceDropsBrace(rest, name, value);
      OpenBracesAdd(value, Replace(rest, p, value));
      NoOpenBraces(value);
      assert s == p + rest;
      OpenBracesAdd(p, rest);
      assert p[0] == '{';
    } else if s != "" {
      ReplaceSkips(s, p, value);
      ReplaceDropsBrace(s[1..], name, value);
      OpenBracesAdd([s[0]], Replace(s[1..], p, value));
    }
  }

  // ---- one replacement ----

  lemma {:induction false} ReplaceKeepsBraceFree(s: string, rest: string, name: string, value: string)
    requires BraceFree(s)
    ensures Replace(s + rest, Placeholder(name), value) == s + Replace(rest, Placeholder(name), value)
  {
    if s == "" {
      EmptyUnit(rest);
      EmptyUnit(Replace(rest, Placeholder(name), value));
    } else {
      var t := s + rest;
      assert t[0] == s[0] && s[0] in s && t[1..] == s[1..] + rest;
      assert forall c :: c in s[1..] ==> c in s;
      ReplaceKeepsBraceFree(s[1..], rest, name, value);
      assert !(Placeholder(name) <= t) by { assert Placeholder(name)[0] == '{'; }
      ReplaceSkips(t, Placeholder(name), value);
      Assoc([s[0]], s[1..], Replace(rest, Placeholder(name), value));
      assert s == [s[0]] + s[1..];
    }
  }

  /** A placeholder is a prefix of another one only if they are the same. */
  lemma PlaceholderPrefix(name: string, other: string, rest: string)
    requires BraceFree(name) && BraceFree(other)
    requires Placeholder(name) <= Placeholder(other) + rest
    ensures name == other
  {
    var p, t := Placeholder(name), Placeholder(other) + rest;
    var n, m := |name|, |other|;
    assert forall i :: 0 <= i < n ==> p[i + 1] == name[i];
    assert forall i :: 0 <= i < m ==> t[i + 1] == other[i];
    assert p[n + 1] == '}' && t[m + 1] == '}';
    assert n == m;
    assert forall i :: 0 <= i < n ==> name[i] == other[i];
  }

  /** The part of another placeholder after its opening brace is copied. */
  lemma ReplaceSkipsTail(name: string, other: string, rest: string, value: string)
    requires BraceFree(other)
    ensures Replace(other + (['}'] + rest), Placeholder(name), value)
         == other + (['}'] + Replace(rest, Placeholder(name), value))
  {
    var p, close := Placeholder(name), ['}'] + rest;
    ReplaceKeepsBraceFree(other, close, name, value);
    assert !(p <= close) by { assert p[0] == '{'; }
    ReplaceSkips(close, p, value);
    assert close[1..] == rest;
  }

  lemma ReplaceSkipsOther(name: string, other: string, rest: string, value: string)
    requires BraceFree(name) && BraceFree(other) && name != other
    ensures Replace(Placeholder(other) + rest, Placeholder(name), value)
         == Placeholder(other) + Replace(rest, Placeholder(name), value)
  {
    var t := Placeholder(other) + rest;
    if Placeholder(name) <= t {
      PlaceholderPrefix(name, other, rest);
    }
    ReplaceSkips(t, Placeholder(name), value);
    assert t[1..] == other + (['}'] + rest);
    ReplaceSkipsTail(name, other, rest, value);
    var tail := Replace(rest, Placeholder(name), value);
    assert Placeholder(other) + tail == ['{'] + (other + (['}'] + tail));
  }

  lemma ArgumentIsBraceFree(value: Option<bytes>)
    ensures BraceFree(EncodeParameter(value))
  {
    if value.Some? {
      QuoteIsBraceAndSlashFree(value.value);
    }
  }

  lemma PrefixOfSum(q: string, a: string, b: string)
    requires q <= a + b
    ensures if |q| <= |a| then q <= a else q == a + q[|a|..] && q[|a|..] <= b
  {
    if |q| > |a| {
      assert q[|a|..] <= (a + b)[|a|..] && (a + b)[|a|..] == b;
    }
  }

  lemma PrefixOfHead(q: string, a: string, b: string)
    requires q <= a
    ensures q <= a + b
  {
  }

  lemma PrefixPastHead(r: string, a: string, b: string)
    requires r <= b
    ensures a + r <= a + b
  {
  }

  /** A text without opening brace cannot begin with a placeholder that is still there. */
  lemma FirstPieceIsSettled(p: Piece, done: set<string>, args: Args, q: string, rest: string)
    requires done <= args.Keys && '{' !in q && q != "" && q <= RenderPiece(p, done, args) + rest
    ensures RenderPiece(p, done, args) == RenderPiece(p, args.Keys, args)
  {
    assert q[0] in q && q[0] == (RenderPiece(p, done, args) + rest)[0];
  }

  /** Brace-free text at the start of a partly replaced template is there too once all is replaced. */
  lemma {:induction false} PrefixIsSettled(pieces: seq<Piece>, done: set<string>, args: Args, q: string)
    requires done <= args.Keys && '{' !in q && q <= Render(pieces, done, args)
    ensures q <= Simultaneous(pieces, args)
    decreases |pieces|
  {
    if pieces != [] && q != "" {
      var head := RenderPiece(pieces[0], done, args);
      FirstPieceIsSettled(pieces[0], done, args, q, Render(pieces[1..], done, args));
      PrefixOfSum(q, head, Render(pieces[1..], done, args));
      if |q| <= |head| {
        PrefixOfHead(q, head, Simultaneous(pieces[1..], args));
      } else {
        var r := q[|head|..];
        assert forall c :: c in r ==> c in q;
        PrefixIsSettled(pieces[1..], done, args, r);
        PrefixPastHead(r, head, Simultaneous(pieces[1..], args));
      }
    }
  }

  /** A literal brace begins a placeholder only if it does so in the simultaneous substitution. */
  lemma LiteralBraceMatches(pieces: seq<Piece>, done: set<string>, args: Args, name: string)
    requires done <= args.Keys && BraceFree(name)
    requires Placeholder(name) <= ['{'] + Render(pieces, done, args)
    ensures Placeholder(name) <= ['{'] + Simultaneous(pieces, args)
  {
    var q := name + ['}'];
    var t := ['{'] + Render(pieces, done, args);
    assert q == Placeholder(name)[1..] && t[1..] == Render(pieces, done, args);
    PrefixIsSettled(pieces, done, args, q);
    assert Placeholder(name) == ['{'] + q;
  }

  lemma LiteralIsSkipped(c: char, pieces: seq<Piece>, done: set<string>, args: Args, name: string, value: string)
    requires done <= args.Keys && BraceFree(name)
    requires !Contains([c] + Simultaneous(pieces, args), Placeholder(name))
    ensures Replace([c] + Render(pieces, done, args), Placeholder(name), value)
         == [c] + Replace(Render(pieces, done, args), Placeholder(name), value)
  {
    var t := [c] + Render(pieces, done, args);
    if Placeholder(name) <= t {
      assert Placeholder(name)[0] == t[0];
      LiteralBraceMatches(pieces, done, args, name);
    }
    ReplaceSkips(t, Placeholder(name), value);
    assert t[1..] == Render(pieces, done, args);
  }

  /**
   If the simultaneous substitution forms no placeholder of this name, replacing its placeholder
   throughout the partly replaced text is replacing that parameter.
   */
  lemma {:induction false} ReplaceIsSubstitution(pieces: seq<Piece>, done: set<string>, args: Args, name: string,
                                                 isWord: char -> bool)
    requires WellFormed(pieces, isWord) && WordName(name, isWord) && !isWord('{') && !isWord('}')
    requires done <= args.Keys && name in args
    requires !Contains(Simultaneous(pieces, args), Placeholder(name))
    ensures Replace(Render(pieces, done, args), Placeholder(name), EncodeParameter(args[name]))
         == Render(pieces, done + {name}, args)
    decreases |pieces|
  {
    if pieces != [] {
      var p, value := Placeholder(name), EncodeParameter(args[name]);
      var rest := Render(pieces[1..], done, args);
      assert pieces[0] in pieces && forall q :: q in pieces[1..] ==> q in pieces;
      if Contains(Simultaneous(pieces[1..], args), p) {
        ContainsAfter(RenderPiece(pieces[0], args.Keys, args), Simultaneous(pieces[1..], args), p);
      }
      ReplaceIsSubstitution(pieces[1..], done, args, name, isWord);
      match pieces[0]
      case Lit(c) =>
        LiteralIsSkipped(c, pieces[1..], done, args, name, value);
      case Param(m) =>
        if m in done {
          ArgumentIsBraceFree(args[m]);
          ReplaceKeepsBraceFree(EncodeParameter(args[m]), rest, name, value);
        } else if m == name {
          ReplaceHits(rest, p, value);
        } else {
          ReplaceSkipsOther(name, m, rest, value);
        }
    }
  }

  // ---- the loop ----

  ghost function Range(names: seq<string>): set<string> {
    if names == [] then {} else {names[0]} + Range(names[1..])
  }

  lemma {:induction false} RangeHas(names: seq<string>, n: string)
    ensures n in Range(names) <==> n in names
  {
    if names != [] {
      assert names == [names[0]] + names[1..];
      RangeHas(names[1..], n);
    }
  }

  /** No name of `allowed` gets a placeholder by the substitution itself. */
  ghost predicate NothingForms(pieces: seq<Piece>, args: Args, allowed: set<string>) {
    forall n :: n in allowed ==> !Contains(Simultaneous(pieces, args), Placeholder(n))
  }

  lemma {:induction false} LoopIsSubstitution(pieces: seq<Piece>, done: set<string>, names: seq<string>, args: Args,
                                              isWord: char -> bool)
    requires WellFormed(pieces, isWord) && !isWord('{') && !isWord('}') && done <= args.Keys
    requires forall n :: n in names ==> WordName(n, isWord) && n in args
    requires forall n :: n in names ==> !Contains(Simultaneous(pieces, args), Placeholder(n))
    ensures Range(names) <= args.Keys
    ensures SubstituteEach(Render(pieces, done, args), names, args) == Ok(Render(pieces, done + Range(names), args))
    decreases |names|
  {
    if names == [] {
      assert done + Range(names) == done;
    } else {
      var rest := names[1..];
      assert names[0] in names && forall n :: n in rest ==> n in names;
      ReplaceIsSubstitution(pieces, done, args, names[0], isWord);
      LoopIsSubstitution(pieces, done + {names[0]}, rest, args, isWord);
      assert (done + {names[0]}) + Range(rest) == done + Range(names);
    }
  }

  lemma {:induction false} RenderIgnoresStrangers(pieces: seq<Piece>, a: set<string>, b: set<string>, args: Args)
    requires a <= args.Keys && b <= args.Keys
    requires forall n :: n in Names(pieces) ==> (n in a <==> n in b)
    ensures Render(pieces, a, args) == Render(pieces, b, args)
    decreases |pieces|
  {
    if pieces != [] {
      var head := if pieces[0].Param? then [pieces[0].name] else [];
      assert Names(pieces) == head + Names(pieces[1..]);
      assert pieces[0].Param? ==> head[0] in Names(pieces);
      RenderIgnoresStrangers(pieces[1..], a, b, args);
    }
  }

  lemma {:induction false} SubstituteAppend(path: string, names: seq<string>, last: string, args: Args)
    requires SubstituteEach(path, names, args).Ok? && last in args
    ensures SubstituteEach(path, names + [last], args)
         == Ok(Replace(SubstituteEach(path, names, args).value, Placeholder(last), EncodeParameter(args[last])))
    decreases |names|
  {
    if names == [] {
      assert names + [last] == [last] && [last][1..] == [];
    } else {
      assert (names + [last])[1..] == names[1..] + [last];
      SubstituteAppend(Replace(path, Placeholder(names[0]), EncodeParameter(args[names[0]])), names[1..], last, args);
    }
  }

  lemma {:induction false} FirstMissing(path: string, names: seq<string>, args: Args)
    ensures SubstituteEach(path, names, args).Err? <==> exists n :: n in names && n !in args
    decreases |names|
  {
    if names != [] && names[0] in args {
      FirstMissing(Replace(path, Placeholder(names[0]), EncodeParameter(args[names[0]])), names[1..], args);
      assert names == [names[0]] + names[1..];
    } else if names != [] {
      assert names[0] in names;
    }
  }

  /** The error names the first parameter without an argument. */
  lemma {:induction false} MissingIsNamed(path: string, names: seq<string>, args: Args) returns (k: nat)
    requires SubstituteEach(path, names, args).Err?
    ensures k < |names| && SubstituteEach(path, names, args) == Err(names[k]) && names[k] !in args
    ensures forall j :: 0 <= j < k ==> names[j] in args
    decreases |names|
  {
    k := 0;
    if names[0] in args {
      k := MissingIsNamed(Replace(path, Placeholder(names[0]), EncodeParameter(args[names[0]])), names[1..], args);
      k := k + 1;
      assert forall j :: 0 < j < k ==> names[j] == names[1..][j - 1];
    }
  }

  /** Lists of allowed names that have every parameter of the template, in any order and with repetitions. */
  ghost predicate Covers(names: seq<string>, t: string, allowed: set<string>, isWord: char -> bool) {
    (forall n :: n in names ==> n in allowed) && (forall n :: n in FindParams(t, isWord) ==> n in names)
  }

  ghost predicate EveryOrderSubstitutes(t: string, args: Args, allowed: set<string>, isWord: char -> bool) {
    forall names :: Covers(names, t, allowed, isWord) ==>
      SubstituteEach(t, names, args) == Ok(Simultaneous(Pieces(t, isWord), args))
  }

  lemma CoveringLoop(t: string, names: seq<string>, args: Args, allowed: set<string>, isWord: char -> bool)
    requires !isWord('{') && !isWord('}') && Covers(names, t, allowed, isWord)
    requires forall n :: n in allowed ==> WordName(n, isWord) && n in args
    requires NothingForms(Pieces(t, isWord), args, allowed)
    ensures SubstituteEach(t, names, args) == Ok(Simultaneous(Pieces(t, isWord), args))
  {
    var pieces := Pieces(t, isWord);
    PiecesOfTemplate(t, isWord, args);
    LoopIsSubstitution(pieces, {}, names, args, isWord);
    forall n | n in Names(pieces) ensures n in {} + Range(names) {
      RangeHas(names, n);
    }
    RenderIgnoresStrangers(pieces, {} + Range(names), args.Keys, args);
  }

  /** One more turn of the loop for a name that has been formed does not leave the text as it was. */
  lemma FormedNameChanges(t: string, args: Args, allowed: set<string>, n: string, isWord: char -> bool)
    requires forall m :: m in FindParams(t, isWord) ==> m in allowed
    requires n in allowed && n in args && Contains(Simultaneous(Pieces(t, isWord), args), Placeholder(n))
    ensures !EveryOrderSubstitutes(t, args, allowed, isWord)
  {
    var names := FindParams(t, isWord);
    var s := Simultaneous(Pieces(t, isWord), args);
    assert Covers(names, t, allowed, isWord) && Covers(names + [n], t, allowed, isWord);
    if SubstituteEach(t, names, args) == Ok(s) {
      SubstituteAppend(t, names, n, args);
      ArgumentIsBraceFree(args[n]);
      ReplaceDropsBrace(s, n, EncodeParameter(args[n]));
    }
  }

  /**
   For given arguments, replacing the parameters one after the other equals replacing them at once in
   every order and with any repetitions of the allowed names, exactly when the result of replacing them
   at once contains no placeholder of such a name.
   */
  lemma OrderIsIrrelevantIff(t: string, args: Args, allowed: set<string>, isWord: char -> bool)
    requires !isWord('{') && !isWord('}')
    requires forall n :: n in allowed ==> WordName(n, isWord) && n in args
    requires forall n :: n in FindParams(t, isWord) ==> n in allowed
    ensures EveryOrderSubstitutes(t, args, allowed, isWord) <==> NothingForms(Pieces(t, isWord), args, allowed)
  {
    if NothingForms(Pieces(t, isWord), args, allowed) {
      forall names | Covers(names, t, allowed, isWord)
        ensures SubstituteEach(t, names, args) == Ok(Simultaneous(Pieces(t, isWord), args))
      {
        CoveringLoop(t, names, args, allowed, isWord);
      }
    } else {
      var n :| n in allowed && Contains(Simultaneous(Pieces(t, isWord), args), Placeholder(n));
      FormedNameChanges(t, args, allowed, n, isWord);
    }
  }

  // ---- nested templates ----

  /** Word characters and placeholders, at least one if `seen` is false, up to a literal closing brace. */
  predicate Closes(pieces: seq<Piece>, seen: bool, isWord: char -> bool) {
    pieces != [] &&
    match pieces[0]
    case Param(_) => Closes(pieces[1..], true, isWord)
    case Lit(c) => if c == '}' then seen else isWord(c) && Closes(pieces[1..], seen, isWord)
  }

  /** A literal opening brace, then word characters and at least one placeholder, then a literal closing brace. */
  predicate Nested(pieces: seq<Piece>, isWord: char -> bool) {
    pieces != [] &&
    ((pieces[0] == Lit('{') && Closes(pieces[1..], false, isWord)) || Nested(pieces[1..], isWord))
  }

  /** Word characters up to a literal closing brace. */
  predicate ClosesPlainly(pieces: seq<Piece>, isWord: char -> bool) {
    pieces != [] && pieces[0].Lit? &&
    (pieces[0].c == '}' || (isWord(pieces[0].c) && ClosesPlainly(pieces[1..], isWord)))
  }

  /** What the pattern leaves as literals contains no placeholder. */
  ghost predicate Exhausted(pieces: seq<Piece>, isWord: char -> bool) {
    pieces == [] ||
    (!(pieces[0] == Lit('{') && ClosesPlainly(pieces[1..], isWord) && pieces[1] != Lit('}'))
     && Exhausted(pieces[1..], isWord))
  }

  lemma {:induction false} PlainCloseIsWordRun(t: string, isWord: char -> bool)
    requires ClosesPlainly(Pieces(t, isWord), isWord) && !isWord('{') && !isWord('}')
    ensures var k := WordRun(t, isWord);
            k < |t| && t[k] == '}' && (Pieces(t, isWord)[0] != Lit('}') ==> k > 0)
    decreases |t|
  {
    if Pieces(t, isWord)[0] != Lit('}') {
      assert Pieces(t, isWord)[1..] == Pieces(t[1..], isWord);
      PlainCloseIsWordRun(t[1..], isWord);
    }
  }

  lemma {:induction false} PiecesAreExhausted(t: string, isWord: char -> bool)
    requires !isWord('{') && !isWord('}')
    ensures Exhausted(Pieces(t, isWord), isWord)
    decreases |t|
  {
    if t != "" {
      var k := if t[0] == '{' then WordRun(t[1..], isWord) else 0;
      var pieces := Pieces(t, isWord);
      if k > 0 && k + 1 < |t| && t[k + 1] == '}' {
        PiecesAreExhausted(t[k + 2..], isWord);
        assert pieces[1..] == Pieces(t[k + 2..], isWord);
      } else {
        PiecesAreExhausted(t[1..], isWord);
        assert pieces[1..] == Pieces(t[1..], isWord);
        if t[0] == '{' && ClosesPlainly(pieces[1..], isWord) {
          PlainCloseIsWordRun(t[1..], isWord);
        }
      }
    }
  }

  /** A name and a closing brace at the start of the substituted text come from pieces that close. */
  lemma {:induction false} MatchCloses(pieces: seq<Piece>, args: Args, w: string, seen: bool, isWord: char -> bool)
    requires !isWord('{') && !isWord('}') && (forall c :: c in w ==> isWord(c))
    requires w + ['}'] <= Simultaneous(pieces, args)
    ensures Closes(pieces, seen, isWord) || (!seen && ClosesPlainly(pieces, isWord))
    decreases |pieces|
  {
    var q := w + ['}'];
    var rest := Simultaneous(pieces[1..], args);
    match pieces[0]
    case Lit(c) =>
      assert c == q[0];
      if w != "" {
        assert w[0] in w && forall x :: x in w[1..] ==> x in w;
        assert q[1..] == w[1..] + ['}'] && ([c] + rest)[1..] == rest;
        MatchCloses(pieces[1..], args, w[1..], seen, isWord);
      }
    case Param(m) =>
      var v := RenderPiece(pieces[0], args.Keys, args);
      ParamTakesWord(m, args, w, rest, isWord);
      assert forall x :: x in w[|v|..] ==> x in w;
      assert q[|v|..] == w[|v|..] + ['}'] && (v + rest)[|v|..] == rest;
      MatchCloses(pieces[1..], args, w[|v|..], true, isWord);
  }

  /** The value of a parameter at the start of such a text lies within the name. */
  lemma ParamTakesWord(m: string, args: Args, w: string, rest: string, isWord: char -> bool)
    requires !isWord('{') && !isWord('}') && (forall c :: c in w ==> isWord(c))
    requires w + ['}'] <= RenderPiece(Param(m), args.Keys, args) + rest
    ensures |RenderPiece(Param(m), args.Keys, args)| <= |w|
  {
    var q, v := w + ['}'], RenderPiece(Param(m), args.Keys, args);
    assert w != "" ==> w[0] in w;
    assert q[0] != '{' && q[0] == (v + rest)[0] && q[|w|] == (v + rest)[|w|] == '}';
    if m in args {
      ArgumentIsBraceFree(args[m]);
      assert forall i :: 0 <= i < |v| ==> v[i] in v;
    }
  }

  /** Without nesting no arguments form a placeholder. */
  lemma {:induction false} UnnestedFormsNothing(pieces: seq<Piece>, args: Args, n: string, isWord: char -> bool)
    requires !isWord('{') && !isWord('}') && WordName(n, isWord)
    requires forall m :: m in Names(pieces) ==> m in args
    requires Exhausted(pieces, isWord) && Contains(Simultaneous(pieces, args), Placeholder(n))
    ensures Nested(pieces, isWord)
    decreases |pieces|
  {
    var head, rest := RenderPiece(pieces[0], args.Keys, args), Simultaneous(pieces[1..], args);
    var mine := if pieces[0].Param? then [pieces[0].name] else [];
    assert Names(pieces) == mine + Names(pieces[1..]);
    if pieces[0] == Lit('{') && Placeholder(n) <= head + rest {
      assert Placeholder(n)[1..] == n + ['}'] && (head + rest)[1..] == rest;
      MatchCloses(pieces[1..], args, n, false, isWord);
      assert rest[0] == n[0] && n[0] in n;
    } else {
      if pieces[0].Param? {
        assert mine[0] in Names(pieces);
        ArgumentIsBraceFree(args[pieces[0].name]);
        ContainsSkipsBraceFree(head, rest, n);
      } else {
        assert Placeholder(n)[0] == '{' && (head + rest)[1..] == rest;
      }
      UnnestedFormsNothing(pieces[1..], args, n, isWord);
    }
  }

  /** The name that a closing run spells when every parameter has the value "a". */
  ghost function Spelled(pieces: seq<Piece>, seen: bool, isWord: char -> bool): string
    requires Closes(pieces, seen, isWord)
  {
    match pieces[0]
    case Param(_) => ['a'] + Spelled(pieces[1..], true, isWord)
    case Lit(c) => if c == '}' then "" else [c] + Spelled(pieces[1..], seen, isWord)
  }

  ghost function FormedName(pieces: seq<Piece>, isWord: char -> bool): string
    requires Nested(pieces, isWord)
  {
    if pieces[0] == Lit('{') && Closes(pieces[1..], false, isWord) then Spelled(pieces[1..], false, isWord)
    else FormedName(pieces[1..], isWord)
  }

  ghost predicate AllAreA(pieces: seq<Piece>, args: Args) {
    forall p :: p in pieces && p.Param? ==> p.name in args && args[p.name] == Some([97])
  }

  lemma LetterA()
    ensures EncodeParameter(Some([97])) == ['a']
  {
    assert Quote([97]) == [97 as char] + Quote([]);
  }

  lemma {:induction false} SpelledIsRendered(pieces: seq<Piece>, seen: bool, args: Args, isWord: char -> bool)
    requires Closes(pieces, seen, isWord) && AllAreA(pieces, args) && isWord('a')
    ensures var w := Spelled(pieces, seen, isWord);
            && w + ['}'] <= Simultaneous(pieces, args)
            && (forall c :: c in w ==> isWord(c))
            && (!seen ==> w != "")
    decreases |pieces|
  {
    assert pieces[0] in pieces && forall p :: p in pieces[1..] ==> p in pieces;
    match pieces[0]
    case Param(_) =>
      LetterA();
      SpelledIsRendered(pieces[1..], true, args, isWord);
      var w := Spelled(pieces[1..], true, isWord);
      assert (['a'] + w) + ['}'] == ['a'] + (w + ['}']);
    case Lit(c) =>
      if c != '}' {
        SpelledIsRendered(pieces[1..], seen, args, isWord);
        var w := Spelled(pieces[1..], seen, isWord);
        assert ([c] + w) + ['}'] == [c] + (w + ['}']);
      }
  }

  /** A nested template forms a placeholder as soon as all its parameters are "a". */
  lemma {:induction false} NestedFormsName(pieces: seq<Piece>, args: Args, isWord: char -> bool)
    requires Nested(pieces, isWord) && AllAreA(pieces, args) && isWord('a')
    ensures WordName(FormedName(pieces, isWord), isWord)
    ensures Contains(Simultaneous(pieces, args), Placeholder(FormedName(pieces, isWord)))
    decreases |pieces|
  {
    assert forall p :: p in pieces[1..] ==> p in pieces;
    if pieces[0] == Lit('{') && Closes(pieces[1..], false, isWord) {
      SpelledIsRendered(pieces[1..], false, args, isWord);
      var w, rest := Spelled(pieces[1..], false, isWord), Simultaneous(pieces[1..], args);
      assert Placeholder(w) == ['{'] + (w + ['}']);
    } else {
      NestedFormsName(pieces[1..], args, isWord);
      ContainsAfter(RenderPiece(pieces[0], args.Keys, args), Simultaneous(pieces[1..], args),
                    Placeholder(FormedName(pieces, isWord)));
    }
  }

  lemma {:induction false} ParamIsNamed(pieces: seq<Piece>, p: Piece)
    requires p in pieces && p.Param?
    ensures p.name in Names(pieces)
    decreases |pieces|
  {
    if pieces[0] != p {
      ParamIsNamed(pieces[1..], p);
    }
  }

  /** For all arguments and all lists of names that have the template's, the loop is the simultaneous substitution. */
  ghost predicate AlwaysSubstitutes(t: string, isWord: char -> bool) {
    forall args: Args, allowed: set<string> :: Suitable(t, args, allowed, isWord) ==>
      EveryOrderSubstitutes(t, args, allowed, isWord)
  }

  ghost predicate Suitable(t: string, args: Args, allowed: set<string>, isWord: char -> bool) {
    && (forall n :: n in allowed ==> WordName(n, isWord) && n in args)
    && (forall n :: n in FindParams(t, isWord) ==> n in allowed)
  }

  /**
   Sequential replacement is simultaneous substitution for all arguments and all lists of names that have
   the template's, exactly when the template is not nested; other stray braces do no harm.  The lists may
   have further names, so for the lists of the code this is sufficient only; OwnNamesSubstituteIff is exact.
   */
  lemma SequentialIsSimultaneousIff(t: string, isWord: char -> bool)
    requires isWord('a') && !isWord('{') && !isWord('}')
    ensures AlwaysSubstitutes(t, isWord) <==> !Nested(Pieces(t, isWord), isWord)
  {
    var pieces := Pieces(t, isWord);
    if Nested(pieces, isWord) {
      NestedFails(t, isWord);
    } else {
      forall args: Args, allowed: set<string> | Suitable(t, args, allowed, isWord)
        ensures EveryOrderSubstitutes(t, args, allowed, isWord)
      {
        UnnestedSubstitutes(t, args, allowed, isWord);
      }
    }
  }

  lemma UnnestedSubstitutes(t: string, args: Args, allowed: set<string>, isWord: char -> bool)
    requires !isWord('{') && !isWord('}') && !Nested(Pieces(t, isWord), isWord)
    requires Suitable(t, args, allowed, isWord)
    ensures EveryOrderSubstitutes(t, args, allowed, isWord)
  {
    var pieces := Pieces(t, isWord);
    PiecesOfTemplate(t, isWord, args);
    PiecesAreExhausted(t, isWord);
    forall n | n in allowed ensures !Contains(Simultaneous(pieces, args), Placeholder(n)) {
      if Contains(Simultaneous(pieces, args), Placeholder(n)) {
        UnnestedFormsNothing(pieces, args, n, isWord);
      }
    }
    OrderIsIrrelevantIff(t, args, allowed, isWord);
  }

  // ---- the template's own names ----

  /** Text that percent-encoding leaves alone. */
  predicate Unencoded(s: string) {
    forall c :: c in s ==> (c as int) < 256 && Unreserved(c as int)
  }

  /**
   Some values make the pieces begin with `name` and a closing brace; `values` are those of the parameters
   that came before.
   */
  predicate CanSpell(pieces: seq<Piece>, name: string, values: map<string, string>)
    decreases |pieces|
  {
    pieces != [] &&
    match pieces[0]
    case Lit(c) =>
      if name == "" then c == '}' else name[0] == c && CanSpell(pieces[1..], name[1..], values)
    case Param(m) =>
      if m in values then values[m] <= name && CanSpell(pieces[1..], name[|values[m]|..], values)
      else exists k: nat :: k <= |name| && TakesValue(pieces, name, values, k)
  }

  /** The parameter at the start takes the first k characters. */
  predicate TakesValue(pieces: seq<Piece>, name: string, values: map<string, string>, k: nat)
    requires pieces != [] && pieces[0].Param? && k <= |name|
    decreases |pieces|, 0
  {
    Unencoded(name[..k]) && CanSpell(pieces[1..], name[k..], values[pieces[0].name := name[..k]])
  }

  /** Behind some literal opening brace the pieces can spell this name up to a closing brace. */
  predicate CanForm(pieces: seq<Piece>, name: string) {
    pieces != [] && ((pieces[0] == Lit('{') && CanSpell(pieces[1..], name, map[])) || CanForm(pieces[1..], name))
  }

  ghost predicate Agrees(values: map<string, string>, args: Args) {
    forall m :: m in values ==> m in args && values[m] == EncodeParameter(args[m])
  }

  lemma {:induction false} QuotedWithoutPercent(v: bytes)
    requires '%' !in Quote(v)
    ensures Unencoded(Quote(v))
  {
    if v != [] {
      assert Quote(v)[0] in Quote(v);
      assert Unreserved(v[0]);
      assert forall c :: c in Quote(v[1..]) ==> c in Quote(v);
      QuotedWithoutPercent(v[1..]);
    }
  }

  lemma ValueWithoutPercent(value: Option<bytes>)
    requires '%' !in EncodeParameter(value)
    ensures Unencoded(EncodeParameter(value))
  {
    if value.Some? {
      QuotedWithoutPercent(value.value);
    }
  }

  ghost predicate HasArguments(pieces: seq<Piece>, args: Args) {
    forall p :: p in pieces && p.Param? ==> p.name in args
  }

  lemma TakenValue(pieces: seq<Piece>, name: string, values: map<string, string>, k: nat)
    requires pieces != [] && pieces[0].Param? && pieces[0].name !in values && k <= |name|
    requires TakesValue(pieces, name, values, k)
    ensures CanSpell(pieces, name, values)
  {
  }

  /** What arguments do spell can be spelled. */
  lemma {:induction false} SpellsWhatIsThere(pieces: seq<Piece>, args: Args, name: string,
                                             values: map<string, string>, isWord: char -> bool)
    requires !isWord('{') && !isWord('}') && !isWord('%') && (forall c :: c in name ==> isWord(c))
    requires HasArguments(pieces, args) && Agrees(values, args) && name + ['}'] <= Simultaneous(pieces, args)
    ensures CanSpell(pieces, name, values)
    decreases |pieces|
  {
    var q, rest := name + ['}'], Simultaneous(pieces[1..], args);
    assert pieces[0] in pieces && forall p :: p in pieces[1..] ==> p in pieces;
    match pieces[0]
    case Lit(c) =>
      assert c == q[0];
      if name != "" {
        assert name[0] in name && forall x :: x in name[1..] ==> x in name;
        assert q[1..] == name[1..] + ['}'] && ([c] + rest)[1..] == rest;
        SpellsWhatIsThere(pieces[1..], args, name[1..], values, isWord);
      }
    case Param(m) =>
      var v := EncodeParameter(args[m]);
      var k := |v|;
      ParamTakesWord(m, args, name, rest, isWord);
      ValueIsTaken(v, name, rest);
      assert forall x :: x in name[k..] || x in name[..k] ==> x in name;
      ValueWithoutPercent(args[m]);
      if m in values {
        SpellsWhatIsThere(pieces[1..], args, name[k..], values, isWord);
      } else {
        SpellsWhatIsThere(pieces[1..], args, name[k..], values[m := name[..k]], isWord);
        TakenValue(pieces, name, values, k);
      }
  }

  lemma ValueIsTaken(v: string, name: string, rest: string)
    requires |v| <= |name| && name + ['}'] <= v + rest
    ensures v == name[..|v|] && name[|v|..] + ['}'] <= rest
  {
    var q := name + ['}'];
    assert v == (v + rest)[..|v|] && q[..|v|] == name[..|v|] && q[|v|..] == name[|v|..] + ['}'];
    assert (v + rest)[|v|..] == rest;
  }

  lemma {:induction false} FormsWhatIsThere(pieces: seq<Piece>, args: Args, name: string, isWord: char -> bool)
    requires !isWord('{') && !isWord('}') && !isWord('%') && WordName(name, isWord) && HasArguments(pieces, args)
    requires Contains(Simultaneous(pieces, args), Placeholder(name))
    ensures CanForm(pieces, name)
    decreases |pieces|
  {
    var head, rest := RenderPiece(pieces[0], args.Keys, args), Simultaneous(pieces[1..], args);
    assert pieces[0] in pieces && forall p :: p in pieces[1..] ==> p in pieces;
    if pieces[0] == Lit('{') && Placeholder(name) <= head + rest {
      assert Placeholder(name)[1..] == name + ['}'] && (head + rest)[1..] == rest;
      SpellsWhatIsThere(pieces[1..], args, name, map[], isWord);
    } else {
      if pieces[0].Param? {
        ArgumentIsBraceFree(args[pieces[0].name]);
        ContainsSkipsBraceFree(head, rest, name);
      } else {
        assert Placeholder(name)[0] == '{' && (head + rest)[1..] == rest;
      }
      FormsWhatIsThere(pieces[1..], args, name, isWord);
    }
  }

  /** Values with which the pieces spell the name. */
  ghost function SpellingValues(pieces: seq<Piece>, name: string, values: map<string, string>): map<string, string>
    requires CanSpell(pieces, name, values)
    decreases |pieces|
  {
    match pieces[0]
    case Lit(c) => if name == "" then values else SpellingValues(pieces[1..], name[1..], values)
    case Param(m) =>
      if m in values then SpellingValues(pieces[1..], name[|values[m]|..], values)
      else
        var k: nat :| k <= |name| && TakesValue(pieces, name, values, k);
        SpellingValues(pieces[1..], name[k..], values[m := name[..k]])
  }

  ghost predicate AllUnencoded(values: map<string, string>) {
    forall m :: m in values ==> Unencoded(values[m])
  }

  lemma {:induction false} SpellingExtends(pieces: seq<Piece>, name: string, values: map<string, string>)
    requires CanSpell(pieces, name, values) && AllUnencoded(values)
    ensures var final := SpellingValues(pieces, name, values);
            && AllUnencoded(final)
            && forall m :: m in values ==> m in final && final[m] == values[m]
    decreases |pieces|
  {
    match pieces[0]
    case Lit(c) =>
      if name != "" {
        SpellingExtends(pieces[1..], name[1..], values);
      }
    case Param(m) =>
      if m in values {
        SpellingExtends(pieces[1..], name[|values[m]|..], values);
      } else {
        var k: nat :| k <= |name| && TakesValue(pieces, name, values, k)
                      && SpellingValues(pieces, name, values) ==
                         SpellingValues(pieces[1..], name[k..], values[m := name[..k]]);
        SpellingExtends(pieces[1..], name[k..], values[m := name[..k]]);
      }
  }

  /** With these values the pieces do spell the name. */
  lemma {:induction false} SpellingIsThere(pieces: seq<Piece>, name: string, values: map<string, string>, args: Args)
    requires CanSpell(pieces, name, values) && AllUnencoded(values)
    requires Agrees(SpellingValues(pieces, name, values), args)
    ensures name + ['}'] <= Simultaneous(pieces, args)
    decreases |pieces|
  {
    match pieces[0]
    case Lit(c) =>
      if name != "" {
        SpellingIsThere(pieces[1..], name[1..], values, args);
        assert name + ['}'] == [c] + (name[1..] + ['}']);
      }
    case Param(m) =>
      if m in values {
        var k := |values[m]|;
        SpellingExtends(pieces[1..], name[k..], values);
        SpellingIsThere(pieces[1..], name[k..], values, args);
        ValueThenRest(pieces, name, k, args);
      } else {
        var k: nat :| k <= |name| && TakesValue(pieces, name, values, k)
                      && SpellingValues(pieces, name, values) ==
                         SpellingValues(pieces[1..], name[k..], values[m := name[..k]]);
        SpellingExtends(pieces[1..], name[k..], values[m := name[..k]]);
        SpellingIsThere(pieces[1..], name[k..], values[m := name[..k]], args);
        ValueThenRest(pieces, name, k, args);
      }
  }

  lemma ValueThenRest(pieces: seq<Piece>, name: string, k: nat, args: Args)
    requires pieces != [] && pieces[0].Param? && pieces[0].name in args && k <= |name|
    requires EncodeParameter(args[pieces[0].name]) == name[..k]
    requires name[k..] + ['}'] <= Simultaneous(pieces[1..], args)
    ensures name + ['}'] <= Simultaneous(pieces, args)
  {
    var rest := Simultaneous(pieces[1..], args);
    assert name + ['}'] == name[..k] + (name[k..] + ['}']);
    assert Simultaneous(pieces, args) == name[..k] + rest;
  }

  function Octets(s: string): (b: bytes)
    requires Unencoded(s)
    ensures |b| == |s|
  {
    if s == "" then [] else
      assert s[0] in s && forall c :: c in s[1..] ==> c in s;
      [s[0] as int] + Octets(s[1..])
  }

  lemma {:induction false} QuoteOfUnencoded(s: string)
    requires Unencoded(s)
    ensures Quote(Octets(s)) == s
  {
    if s != "" {
      assert s[0] in s && forall c :: c in s[1..] ==> c in s;
      QuoteOfUnencoded(s[1..]);
      assert Octets(s)[1..] == Octets(s[1..]) && s == [s[0]] + s[1..];
    }
  }

  /** Arguments with these values, and None for the other names. */
  ghost function ArgumentsFor(values: map<string, string>, names: seq<string>): Args
    requires AllUnencoded(values)
  {
    map m | m in values.Keys + (set n | n in names) :: if m in values then Some(Octets(values[m])) else None
  }

  lemma ArgumentsAgree(values: map<string, string>, names: seq<string>)
    requires AllUnencoded(values)
    ensures Agrees(values, ArgumentsFor(values, names))
    ensures forall n :: n in names ==> n in ArgumentsFor(values, names)
  {
    forall m | m in values ensures EncodeParameter(Some(Octets(values[m]))) == values[m] {
      QuoteOfUnencoded(values[m]);
    }
  }

  /** Arguments for the names of the list with which the placeholder is formed. */
  ghost function FormingArguments(pieces: seq<Piece>, name: string, names: seq<string>): Args
    requires CanForm(pieces, name)
  {
    if pieces[0] == Lit('{') && CanSpell(pieces[1..], name, map[]) then
      SpellingExtends(pieces[1..], name, map[]);
      ArgumentsFor(SpellingValues(pieces[1..], name, map[]), names)
    else FormingArguments(pieces[1..], name, names)
  }

  lemma {:induction false} FormableIsFormed(pieces: seq<Piece>, name: string, names: seq<string>)
    requires CanForm(pieces, name)
    ensures var args := FormingArguments(pieces, name, names);
            && (forall n :: n in names ==> n in args)
            && Contains(Simultaneous(pieces, args), Placeholder(name))
    decreases |pieces|
  {
    var args := FormingArguments(pieces, name, names);
    if pieces[0] == Lit('{') && CanSpell(pieces[1..], name, map[]) {
      SpellingExtends(pieces[1..], name, map[]);
      ArgumentsAgree(SpellingValues(pieces[1..], name, map[]), names);
      SpellingIsThere(pieces[1..], name, map[], args);
      assert Placeholder(name) == ['{'] + (name + ['}']);
    } else {
      FormableIsFormed(pieces[1..], name, names);
      ContainsAfter(RenderPiece(pieces[0], args.Keys, args), Simultaneous(pieces[1..], args), Placeholder(name));
    }
  }

  ghost function OwnNames(t: string, isWord: char -> bool): set<string> {
    set n | n in FindParams(t, isWord)
  }

  /** For all arguments, orders and repetitions of the template's own names. */
  ghost predicate OwnNamesSubstitute(t: string, isWord: char -> bool) {
    forall args: Args :: OwnNames(t, isWord) <= args.Keys ==>
      EveryOrderSubstitutes(t, args, OwnNames(t, isWord), isWord)
  }

  /**
   Sequential replacement is simultaneous substitution, for all arguments, orders and repetitions of the
   template's own names, exactly when behind no literal opening brace the pieces can spell one of those
   names up to a closing brace, with equal values for repeated parameters.
   */
  lemma OwnNamesSubstituteIff(t: string, isWord: char -> bool)
    requires !isWord('{') && !isWord('}') && !isWord('%')
    ensures OwnNamesSubstitute(t, isWord)
            <==> forall n :: n in FindParams(t, isWord) ==> !CanForm(Pieces(t, isWord), n)
  {
    var pieces, names, own := Pieces(t, isWord), FindParams(t, isWord), OwnNames(t, isWord);
    NamesAreWords(t, isWord);
    PiecesHaveNames(t, isWord);
    assert forall n :: n in names ==> n in own;
    if OwnNamesSubstitute(t, isWord) {
      forall n | n in names ensures !CanForm(pieces, n) {
        if CanForm(pieces, n) {
          var args := FormingArguments(pieces, n, names);
          FormableIsFormed(pieces, n, names);
          OrderIsIrrelevantIff(t, args, own, isWord);
        }
      }
    } else {
      var args: Args :| own <= args.Keys && !EveryOrderSubstitutes(t, args, own, isWord);
      OrderIsIrrelevantIff(t, args, own, isWord);
      var n :| n in own && Contains(Simultaneous(pieces, args), Placeholder(n));
      OwnArguments(t, args, isWord);
      FormsWhatIsThere(pieces, args, n, isWord);
    }
  }

  lemma OwnArguments(t: string, args: Args, isWord: char -> bool)
    requires OwnNames(t, isWord) <= args.Keys
    ensures HasArguments(Pieces(t, isWord), args)
  {
    PiecesHaveNames(t, isWord);
    forall p | p in Pieces(t, isWord) && p.Param? ensures p.name in args {
      ParamIsNamed(Pieces(t, isWord), p);
      assert p.name in OwnNames(t, isWord);
    }
  }

  /** The arguments that give "a" to every name of a list. */
  ghost function AllA(names: seq<string>): Args {
    map m | m in names :: Some([97])
  }

  lemma AllAFits(pieces: seq<Piece>, names: seq<string>)
    requires forall n :: n in Names(pieces) ==> n in names
    ensures AllAreA(pieces, AllA(names))
  {
    forall p | p in pieces && p.Param? ensures p.name in AllA(names) {
      ParamIsNamed(pieces, p);
    }
  }

  lemma NamesAreWords(t: string, isWord: char -> bool)
    ensures forall n :: n in FindParams(t, isWord) ==> WordName(n, isWord)
  {
    PiecesHaveNames(t, isWord);
    PiecesAreWellFormed(t, isWord);
    NamesAreParams(Pieces(t, isWord));
    assert forall n :: n in FindParams(t, isWord) ==> Param(n) in Pieces(t, isWord);
  }

  lemma NestedFails(t: string, isWord: char -> bool)
    requires isWord('a') && !isWord('{') && !isWord('}') && Nested(Pieces(t, isWord), isWord)
    ensures !AlwaysSubstitutes(t, isWord)
  {
    var pieces := Pieces(t, isWord);
    var n := FormedName(pieces, isWord);
    var names := FindParams(t, isWord) + [n];
    var args, allowed := AllA(names), set m | m in names;
    PiecesHaveNames(t, isWord);
    AllAFits(pieces, names);
    NestedFormsName(pieces, args, isWord);
    NamesAreWords(t, isWord);
    assert forall m :: m in names ==> m in FindParams(t, isWord) || m == n;
    assert Suitable(t, args, allowed, isWord);
    FormedNameChanges(t, args, allowed, n, isWord);
  }

  lemma {:induction false} NamesAreParams(pieces: seq<Piece>)
    ensures forall n :: n in Names(pieces) ==> Param(n) in pieces
    decreases |pieces|
  {
    if pieces != [] {
      NamesAreParams(pieces[1..]);
      assert forall p :: p in pieces[1..] ==> p in pieces;
      assert pieces[0] in pieces;
    }
  }

  /**
   What `execute_tool` builds for a template that is not nested: the simultaneous substitution if every
   parameter of the template has an argument, an error otherwise; the path keeps the number of slashes.
   */
  lemma PathIsSubstitution(t: string, args: Args, isWord: char -> bool)
    requires !isWord('{') && !isWord('}') && !isWord('/') && !Nested(Pieces(t, isWord), isWord)
    ensures var names := FindParams(t, isWord);
            var r := SubstituteEach(t, names, args);
            && (r.Ok? <==> forall n :: n in names ==> n in args)
            && (r.Ok? ==> r.value == Simultaneous(Pieces(t, isWord), args) && Slashes(r.value) == Slashes(t))
  {
    var names := FindParams(t, isWord);
    FirstMissing(t, names, args);
    if forall n :: n in names ==> n in args {
      var pieces, allowed := Pieces(t, isWord), set n | n in names;
      PiecesOfTemplate(t, isWord, args);
      NamesAreParams(pieces);
      UnnestedSubstitutes(t, args, allowed, isWord);
      assert Covers(names, t, allowed, isWord);
      SlashesKept(pieces, args, isWord);
    }
  }

  function Slashes(s: string): nat {
    if s == "" then 0 else (if s[0] == '/' then 1 else 0) + Slashes(s[1..])
  }

  lemma {:induction false} SlashesAdd(a: string, b: string)
    ensures Slashes(a + b) == Slashes(a) + Slashes(b)
  {
    if a == "" {
      EmptyUnit(b);
    } else {
      assert (a + b)[1..] == a[1..] + b;
      SlashesAdd(a[1..], b);
    }
  }

  lemma {:induction false} NoSlashes(s: string)
    requires '/' !in s
    ensures Slashes(s) == 0
  {
    if s != "" {
      assert forall c :: c in s[1..] ==> c in s;
      NoSlashes(s[1..]);
    }
  }

  lemma SlashFreeArgument(arg: Option<bytes>)
    ensures Slashes(EncodeParameter(arg)) == 0
  {
    if arg.Some? {
      QuoteIsBraceAndSlashFree(arg.value);
    }
    NoSlashes(EncodeParameter(arg));
  }

  lemma SlashFreePlaceholder(name: string)
    requires '/' !in name
    ensures Slashes(Placeholder(name)) == 0
  {
    assert '/' !in Placeholder(name);
    NoSlashes(Placeholder(name));
  }

  /** Substitution neither adds nor removes a slash. */
  lemma {:induction false} SlashesKept(pieces: seq<Piece>, args: Args, isWord: char -> bool)
    requires WellFormed(pieces, isWord) && !isWord('/')
    ensures Slashes(Simultaneous(pieces, args)) == Slashes(Render(pieces, {}, args))
    decreases |pieces|
  {
    if pieces != [] {
      assert pieces[0] in pieces && forall q :: q in pieces[1..] ==> q in pieces;
      var rest, rest' := Render(pieces[1..], {}, args), Render(pieces[1..], args.Keys, args);
      SlashesKept(pieces[1..], args, isWord);
      SlashesAdd(RenderPiece(pieces[0], {}, args), rest);
      SlashesAdd(RenderPiece(pieces[0], args.Keys, args), rest');
      if pieces[0].Param? {
        SlashFreePlaceholder(pieces[0].name);
        if pieces[0].name in args {
          SlashFreeArgument(args[pieces[0].name]);
        }
      }
    }
  }

  // ---- a nested template ----

  lemma NestedReplacements(p: string)
    requires p == "{a}"
    ensures Replace("{{a}}{a}", p, "a") == "{a}a" && Replace("{a}a", p, "a") == "aa"
  {
    var t: string := "{{a}}{a}";
    assert t[1..] == p + "}{a}" && "}{a}"[1..] == p + "";
    assert p[1] != t[1];
    ReplaceSkips(t, p, "a");
    ReplaceHits("}{a}", p, "a");
    ReplaceSkips("}{a}", p, "a");
    ReplaceHits("", p, "a");
    assert "{a}a" == p + "a";
    ReplaceHits("a", p, "a");
    assert Replace("a", p, "a") == "a";
  }

  lemma PlaceholderParts(name: string, rest: string)
    ensures var t := Placeholder(name) + rest;
            var n := |name|;
            && |t| >= n + 2 && t[1..] == name + (['}'] + rest)
            && t[n + 1] == '}' && t[1..n + 1] == name && t[n + 2..] == rest
  {
  }

  lemma WordRunOfName(name: string, rest: string, isWord: char -> bool)
    requires WordName(name, isWord) && !isWord('}')
    ensures WordRun(name + (['}'] + rest), isWord) == |name|
  {
    var u := name + (['}'] + rest);
    assert forall i :: 0 <= i < |name| ==> u[i] == name[i] && name[i] in name;
    assert u[|name|] == '}';
  }

  lemma FindStep(t: string, k: nat, isWord: char -> bool)
    requires 0 < k && k + 1 < |t| && t[0] == '{' && t[k + 1] == '}' && WordRun(t[1..], isWord) == k
    ensures FindParams(t, isWord) == [t[1..k + 1]] + FindParams(t[k + 2..], isWord)
  {
  }

  lemma FindTakesPlaceholder(name: string, rest: string, isWord: char -> bool)
    requires WordName(name, isWord) && !isWord('}')
    ensures FindParams(Placeholder(name) + rest, isWord) == [name] + FindParams(rest, isWord)
  {
    PlaceholderParts(name, rest);
    WordRunOfName(name, rest, isWord);
    FindStep(Placeholder(name) + rest, |name|, isWord);
  }

  lemma FindSkipsBrace(t: string, isWord: char -> bool)
    requires |t| >= 2 && t[0] == '{' && !isWord(t[1])
    ensures FindParams(t, isWord) == FindParams(t[1..], isWord)
  {
  }

  lemma NestedParams(t: string, isWord: char -> bool)
    requires t == "{{a}}{a}"
    requires isWord('a') && !isWord('{') && !isWord('}')
    ensures FindParams(t, isWord) == ["a", "a"]
  {
    var p := Placeholder("a");
    assert t[1..] == p + "}{a}" && "}{a}"[1..] == p + "";
    FindSkipsBrace(t, isWord);
    FindTakesPlaceholder("a", "}{a}", isWord);
    FindTakesPlaceholder("a", "", isWord);
  }

  /**
   The condition on braces is needed: in "{{a}}{a}" the value "a" makes a new placeholder of the
   outer braces, and the second turn of the loop fills it.
   */
  lemma NestedBracesSubstituteTwice(isWord: char -> bool)
    requires isWord('a') && !isWord('{') && !isWord('}')
    ensures var t, args := "{{a}}{a}", map["a" := Some([97])];
            && SubstituteEach(t, ["a"], args) == Ok("{a}a")
            && SubstituteEach(t, FindParams(t, isWord), args) == Ok("aa")
  {
    var args: Args := map["a" := Some([97])];
    assert [97 as byte][1..] == [] && EncodeParameter(args["a"]) == "a";
    assert Placeholder("a") == "{a}";
    NestedReplacements(Placeholder("a"));
    NestedParams("{{a}}{a}", isWord);
    var one, two := ["a"], ["a", "a"];
    assert one[1..] == [] && two[1..] == one;
    assert SubstituteEach("aa", [], args) == Ok("aa") && SubstituteEach("{a}a", [], args) == Ok("{a}a");
    assert SubstituteEach("{a}a", one, args) == Ok("aa");
  }

  lemma PiecesOfBrace(rest: string, isWord: char -> bool)
    requires rest != "" && !isWord(rest[0])
    ensures Pieces(['{'] + rest, isWord) == [Lit('{')] + Pieces(rest, isWord)
    ensures FindParams(['{'] + rest, isWord) == FindParams(rest, isWord)
  {
    assert (['{'] + rest)[1..] == rest;
    PiecesStep(['{'] + rest, isWord);
  }

  lemma PiecesOfPlaceholder(name: string, rest: string, isWord: char -> bool)
    requires WordName(name, isWord) && !isWord('}')
    ensures Pieces(Placeholder(name) + rest, isWord) == [Param(name)] + Pieces(rest, isWord)
    ensures FindParams(Placeholder(name) + rest, isWord) == [name] + FindParams(rest, isWord)
  {
    PlaceholderParts(name, rest);
    WordRunOfName(name, rest, isWord);
    PiecesStep(Placeholder(name) + rest, isWord);
  }

  /** Pieces of a placeholder in braces. */
  lemma PiecesInBraces(name: string, rest: string, isWord: char -> bool)
    requires WordName(name, isWord) && !isWord('{') && !isWord('}')
    ensures var t := ['{'] + (Placeholder(name) + rest);
            && Pieces(t, isWord) == [Lit('{')] + ([Param(name)] + Pieces(rest, isWord))
            && FindParams(t, isWord) == [name] + FindParams(rest, isWord)
  {
    var inner := Placeholder(name) + rest;
    assert inner[0] == '{';
    PiecesOfBrace(inner, isWord);
    PiecesOfPlaceholder(name, rest, isWord);
  }

  /** A parameter in braces, followed by one more character, spells only names that end with it. */
  lemma SpelledWithLast(pieces: seq<Piece>, m: string, c: char, name: string)
    requires pieces == [Param(m), Lit(c), Lit('}')] && c != '}' && CanSpell(pieces, name, map[])
    ensures name != "" && name[|name| - 1] == c
  {
    var k: nat :| k <= |name| && TakesValue(pieces, name, map[], k);
    var rest := name[k..];
    assert pieces[1..] == [Lit(c), Lit('}')] && pieces[1..][1..] == [Lit('}')];
    assert CanSpell([Lit(c), Lit('}')], rest, map[m := name[..k]]);
    assert rest != "" && rest[0] == c && CanSpell([Lit('}')], rest[1..], map[m := name[..k]]);
    assert rest[1..] == "";
  }

  lemma {:induction false} NoBraceFormsNothing(pieces: seq<Piece>, name: string)
    requires forall p :: p in pieces ==> p != Lit('{')
    ensures !CanForm(pieces, name)
    decreases |pieces|
  {
    if pieces != [] {
      assert pieces[0] in pieces && forall p :: p in pieces[1..] ==> p in pieces;
      NoBraceFormsNothing(pieces[1..], name);
    }
  }

  lemma PiecesOfTail(tail: string, isWord: char -> bool)
    requires tail == "b}"
    ensures Pieces(tail, isWord) == [Lit('b'), Lit('}')] && FindParams(tail, isWord) == []
  {
    assert tail[1..] == "}" && "}"[1..] == "";
    PiecesStep(tail, isWord);
    PiecesStep("}", isWord);
  }

  lemma HarmlessPieces(t: string, isWord: char -> bool)
    requires t == "{{a}b}" && isWord('a') && isWord('b') && !isWord('{') && !isWord('}')
    ensures Pieces(t, isWord) == [Lit('{')] + ([Param("a")] + [Lit('b'), Lit('}')])
    ensures FindParams(t, isWord) == ["a"] + []
  {
    var tail := "b}";
    assert t == ['{'] + (Placeholder("a") + tail);
    PiecesInBraces("a", tail, isWord);
    PiecesOfTail(tail, isWord);
  }

  /** A nested template that the code substitutes as it should: the formed name is none of its own. */
  lemma HarmlessNested(t: string, isWord: char -> bool)
    requires t == "{{a}b}" && isWord('a') && isWord('b') && !isWord('{') && !isWord('}') && !isWord('%')
    ensures Nested(Pieces(t, isWord), isWord) && OwnNamesSubstitute(t, isWord)
  {
    var pieces, inner := Pieces(t, isWord), [Param("a"), Lit('b'), Lit('}')];
    HarmlessPieces(t, isWord);
    assert pieces[0] == Lit('{') && pieces[1..] == inner;
    ClosesWithB(inner, isWord);
    NoBraceFormsNothing(inner, "a");
    if CanSpell(inner, "a", map[]) {
      SpelledWithLast(inner, "a", 'b', "a");
    }
    OwnNamesSubstituteIff(t, isWord);
  }

  lemma ClosesWithB(inner: seq<Piece>, isWord: char -> bool)
    requires inner == [Param("a"), Lit('b'), Lit('}')] && isWord('b')
    ensures Closes(inner, false, isWord)
  {
    assert inner[1..] == [Lit('b'), Lit('}')] && inner[1..][1..] == [Lit('}')];
    assert Closes([Lit('}')], true, isWord);
    assert Closes([Lit('b'), Lit('}')], true, isWord);
  }

  lemma OrdersDiffer(t: string, args: Args, one: seq<string>, two: seq<string>, isWord: char -> bool)
    requires OwnNames(t, isWord) <= args.Keys
    requires Covers(one, t, OwnNames(t, isWord), isWord) && Covers(two, t, OwnNames(t, isWord), isWord)
    requires SubstituteEach(t, one, args) != SubstituteEach(t, two, args)
    ensures !OwnNamesSubstitute(t, isWord)
  {
    assert !EveryOrderSubstitutes(t, args, OwnNames(t, isWord), isWord);
  }

  /** A nested template that it does not: the outer braces spell the name that follows. */
  lemma RepeatedNestedFails(t: string, isWord: char -> bool)
    requires t == "{{a}}{a}" && isWord('a') && !isWord('{') && !isWord('}')
    ensures !OwnNamesSubstitute(t, isWord)
  {
    NestedBracesSubstituteTwice(isWord);
    NestedParams(t, isWord);
    OrdersDiffer(t, map["a" := Some([97])], ["a"], ["a", "a"], isWord);
  }
}
