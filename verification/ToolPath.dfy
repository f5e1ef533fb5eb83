/**
 The path of a tool call, from its template to the client's request: which arguments keep the segments
 that the template asks for (workspace_agent/openapi_mcp.py `execute_tool`).
 */
module ToolPath {
  import opened Bytes
  import opened ClientUrl
  import opened PathTemplate
  import opened PercentEncoding
  import opened Sequences
  import opened Wrappers
  import McpCall

  // ---- templates by segments ----

  lemma {:induction false} WordRunBeforeSlash(a: string, b: string, isWord: char -> bool)
    requires !isWord('/')
    ensures WordRun(a + (['/'] + b), isWord) == WordRun(a, isWord)
  {
    var t := a + (['/'] + b);
    if a != "" {
      assert t[0] == a[0] && t[1..] == a[1..] + (['/'] + b);
      WordRunBeforeSlash(a[1..], b, isWord);
    }
  }

  /** A placeholder does not reach over a slash. */
  lemma TakesBeforeSlash(a: string, b: string, isWord: char -> bool)
    requires a != "" && !isWord('/')
    ensures TakesParam(a + (['/'] + b), isWord) == TakesParam(a, isWord)
  {
    var t := a + (['/'] + b);
    assert t[0] == a[0] && t[1..] == a[1..] + (['/'] + b) && t[|a|] == '/';
    WordRunBeforeSlash(a[1..], b, isWord);
    assert forall j: nat :: j < |a| ==> t[j] == a[j];
  }

  lemma DropOfSum(a: string, b: string, n: nat)
    requires 1 <= n <= |a|
    ensures (a + b)[n..] == a[n..] + b && (a + b)[0] == a[0] && (a + b)[1..n] == a[1..n]
  {
  }

  lemma TakeParam(t: string, n: nat, isWord: char -> bool)
    requires TakesParam(t, isWord) == n > 0
    ensures n < |t| && Pieces(t, isWord) == [Param(t[1..n])] + Pieces(t[n + 1..], isWord)
  {
    PiecesStep(t, isWord);
  }

  lemma TakeLiteral(t: string, isWord: char -> bool)
    requires t != "" && TakesParam(t, isWord) == 0
    ensures Pieces(t, isWord) == [Lit(t[0])] + Pieces(t[1..], isWord)
  {
    PiecesStep(t, isWord);
  }

  lemma ParamBeforeSlash(a: string, tail: string, n: nat, isWord: char -> bool)
    requires TakesParam(a, isWord) == TakesParam(a + tail, isWord) == n > 0
    ensures n < |a| && Pieces(a + tail, isWord) == [Param(a[1..n])] + Pieces(a[n + 1..] + tail, isWord)
  {
    TakeParam(a, n, isWord);
    TakeParam(a + tail, n, isWord);
    DropOfSum(a, tail, n);
    DropOfSum(a, tail, n + 1);
  }

  lemma LiteralBeforeSlash(a: string, tail: string, isWord: char -> bool)
    requires a != "" && TakesParam(a + tail, isWord) == 0
    ensures Pieces(a + tail, isWord) == [Lit(a[0])] + Pieces(a[1..] + tail, isWord)
  {
    TakeLiteral(a + tail, isWord);
    DropOfSum(a, tail, 1);
  }

  lemma {:induction false} PiecesBeforeSlash(a: string, tail: string, isWord: char -> bool)
    requires tail != "" && tail[0] == '/' && !isWord('/')
    ensures Pieces(a + tail, isWord) == Pieces(a, isWord) + Pieces(tail, isWord)
    decreases |a|
  {
    if a == "" {
      EmptyUnit(tail);
      EmptyUnit(Pieces(tail, isWord));
    } else {
      var n := TakesParam(a, isWord);
      assert tail == ['/'] + tail[1..];
      TakesBeforeSlash(a, tail[1..], isWord);
      if n > 0 {
        TakeParam(a, n, isWord);
        ParamBeforeSlash(a, tail, n, isWord);
        PiecesBeforeSlash(a[n + 1..], tail, isWord);
        Assoc([Param(a[1..n])], Pieces(a[n + 1..], isWord), Pieces(tail, isWord));
      } else {
        TakeLiteral(a, isWord);
        LiteralBeforeSlash(a, tail, isWord);
        PiecesBeforeSlash(a[1..], tail, isWord);
        Assoc([Lit(a[0])], Pieces(a[1..], isWord), Pieces(tail, isWord));
      }
    }
  }

  lemma PiecesAtSlash(a: string, b: string, isWord: char -> bool)
    requires !isWord('/')
    ensures Pieces(a + (['/'] + b), isWord) == Pieces(a, isWord) + ([Lit('/')] + Pieces(b, isWord))
  {
    var tail := ['/'] + b;
    assert tail[1..] == b;
    PiecesStep(tail, isWord);
    PiecesBeforeSlash(a, tail, isWord);
  }

  lemma {:induction false} SimultaneousAdd(a: seq<Piece>, b: seq<Piece>, args: Args)
    ensures Simultaneous(a + b, args) == Simultaneous(a, args) + Simultaneous(b, args)
    decreases |a|
  {
    if a == [] {
      EmptyUnit(b);
      EmptyUnit(Simultaneous(b, args));
    } else {
      assert (a + b)[0] == a[0] && (a + b)[1..] == a[1..] + b;
      SimultaneousAdd(a[1..], b, args);
      Assoc(RenderPiece(a[0], args.Keys, args), Simultaneous(a[1..], args), Simultaneous(b, args));
    }
  }

  /** A text with its placeholders replaced. */
  ghost function Filled(t: string, args: Args, isWord: char -> bool): string {
    Simultaneous(Pieces(t, isWord), args)
  }

  lemma FilledAtSlash(a: string, b: string, args: Args, isWord: char -> bool)
    requires !isWord('/')
    ensures Filled(a + (['/'] + b), args, isWord) == Filled(a, args, isWord) + (['/'] + Filled(b, args, isWord))
  {
    PiecesAtSlash(a, b, isWord);
    SimultaneousAdd(Pieces(a, isWord), [Lit('/')] + Pieces(b, isWord), args);
    RenderCons(Lit('/'), Pieces(b, isWord), args.Keys, args);
  }

  ghost function FillAll(segments: seq<string>, args: Args, isWord: char -> bool): (r: seq<string>)
    ensures |r| == |segments|
  {
    if segments == [] then [] else [Filled(segments[0], args, isWord)] + FillAll(segments[1..], args, isWord)
  }

  lemma {:induction false} FilledJoin(segments: seq<string>, args: Args, isWord: char -> bool)
    requires !isWord('/')
    ensures Filled(Join(segments), args, isWord) == Join(FillAll(segments, args, isWord))
  {
    if segments != [] {
      var rest := Join(segments[1..]);
      FilledJoin(segments[1..], args, isWord);
      FilledAtSlash("", segments[0] + rest, args, isWord);
      EmptyUnit(Join(segments));
      EmptyUnit(['/'] + Filled(segments[0] + rest, args, isWord));
      JoinCons(Filled(segments[0], args, isWord), FillAll(segments[1..], args, isWord));
      if segments[1..] == [] {
        EmptyUnit(segments[0]);
        EmptyUnit(Filled(segments[0], args, isWord));
      } else {
        FilledBeforeSlash(segments[0], rest, args, isWord);
      }
    }
  }

  lemma FilledBeforeSlash(a: string, rest: string, args: Args, isWord: char -> bool)
    requires !isWord('/') && rest != "" && rest[0] == '/'
    ensures Filled(a + rest, args, isWord) == Filled(a, args, isWord) + Filled(rest, args, isWord)
  {
    assert rest == ['/'] + rest[1..];
    FilledAtSlash(a, rest[1..], args, isWord);
    FilledAtSlash("", rest[1..], args, isWord);
    EmptyUnit(rest);
    EmptyUnit(['/'] + Filled(rest[1..], args, isWord));
  }

  // ---- characters of filled texts ----

  /** A character that values do not have. */
  predicate Foreign(c: char) {
    c == '/' || c == '?' || c == '#' || Control(c)
  }

  lemma {:induction false} QuoteHasNoForeign(v: bytes)
    ensures forall c :: c in Quote(v) ==> !Foreign(c)
  {
    if v != [] {
      QuoteHasNoForeign(v[1..]);
      HexIsNotForeign(v[0] / 16);
      HexIsNotForeign(v[0] % 16);
    }
  }

  lemma HexIsNotForeign(d: nat)
    requires d < 16
    ensures !Foreign(HexChar(d))
  {
  }

  /** Foreign characters of a filled text are literals of the template. */
  lemma {:induction false} ForeignIsLiteral(pieces: seq<Piece>, args: Args, c: char)
    requires HasArguments(pieces, args) && Foreign(c) && c in Simultaneous(pieces, args)
    ensures Lit(c) in pieces
    decreases |pieces|
  {
    assert pieces[0] in pieces && forall p :: p in pieces[1..] ==> p in pieces;
    if c in Simultaneous(pieces[1..], args) {
      ForeignIsLiteral(pieces[1..], args, c);
    } else if pieces[0].Param? {
      assert c in EncodeParameter(args[pieces[0].name]);
      QuoteHasNoForeign(args[pieces[0].name].value);
    }
  }

  lemma {:induction false} LiteralIsThere(t: string, c: char, isWord: char -> bool)
    requires Lit(c) in Pieces(t, isWord)
    ensures c in t
    decreases |t|
  {
    var n := TakesParam(t, isWord);
    PiecesStep(t, isWord);
    if n > 0 {
      LiteralIsThere(t[n + 1..], c, isWord);
    } else if c != t[0] {
      LiteralIsThere(t[1..], c, isWord);
    }
  }

  ghost predicate Covered(t: string, args: Args, isWord: char -> bool) {
    forall n :: n in FindParams(t, isWord) ==> n in args
  }

  lemma FilledHasNoForeign(t: string, args: Args, c: char, isWord: char -> bool)
    requires Covered(t, args, isWord) && Foreign(c) && c !in t
    ensures c !in Filled(t, args, isWord)
  {
    if c in Filled(t, args, isWord) {
      OwnArguments(t, args, isWord);
      ForeignIsLiteral(Pieces(t, isWord), args, c);
      LiteralIsThere(t, c, isWord);
    }
  }

  // ---- the segments of a call ----

  /** Every segment of the path is the filled segment of the template. */
  lemma SegmentsAreFilled(t: string, args: Args, isWord: char -> bool)
    requires t != "" && t[0] == '/' && !isWord('/') && Covered(t, args, isWord)
    ensures Segments(Filled(t, args, isWord)) == FillAll(Segments(t), args, isWord)
  {
    JoinOfSegments(t);
    FilledJoin(Segments(t), args, isWord);
    FilledSegmentsAreSlashFree(Segments(t), args, isWord);
    SegmentsOfJoin(FillAll(Segments(t), args, isWord));
  }

  lemma {:induction false} FilledSegmentsAreSlashFree(segments: seq<string>, args: Args, isWord: char -> bool)
    requires SlashFree(segments) && Covered(Join(segments), args, isWord) && !isWord('/')
    ensures SlashFree(FillAll(segments, args, isWord))
  {
    if segments != [] {
      assert segments[0] in segments && forall s :: s in segments[1..] ==> s in segments;
      CoveredParts(segments, args, isWord);
      FilledHasNoForeign(segments[0], args, '/', isWord);
      FilledSegmentsAreSlashFree(segments[1..], args, isWord);
    }
  }

  lemma {:induction false} NamesAdd(a: seq<Piece>, b: seq<Piece>)
    ensures Names(a + b) == Names(a) + Names(b)
    decreases |a|
  {
    if a == [] {
      EmptyUnit(b);
      EmptyUnit(Names(b));
    } else {
      assert (a + b)[0] == a[0] && (a + b)[1..] == a[1..] + b;
      NamesAdd(a[1..], b);
      Assoc(if a[0].Param? then [a[0].name] else [], Names(a[1..]), Names(b));
    }
  }

  lemma ParamsAtSlash(a: string, b: string, isWord: char -> bool)
    requires !isWord('/')
    ensures FindParams(a + (['/'] + b), isWord) == FindParams(a, isWord) + FindParams(b, isWord)
  {
    PiecesAtSlash(a, b, isWord);
    NamesAdd(Pieces(a, isWord), [Lit('/')] + Pieces(b, isWord));
    NamesCons(Lit('/'), Pieces(b, isWord));
    PiecesHaveNames(a, isWord);
    PiecesHaveNames(b, isWord);
    PiecesHaveNames(a + (['/'] + b), isWord);
  }

  /** Arguments for a template are arguments for its first segment and for the rest. */
  lemma CoveredParts(segments: seq<string>, args: Args, isWord: char -> bool)
    requires segments != [] && Covered(Join(segments), args, isWord) && !isWord('/')
    ensures Covered(segments[0], args, isWord) && Covered(Join(segments[1..]), args, isWord)
  {
    var first, rest := segments[0], Join(segments[1..]);
    ParamsAtSlash("", first + rest, isWord);
    EmptyUnit(Join(segments));
    if rest == "" {
      EmptyUnit(first);
    } else {
      assert rest == ['/'] + rest[1..];
      ParamsAtSlash(first, rest[1..], isWord);
      ParamsAtSlash("", rest[1..], isWord);
      EmptyUnit(rest);
    }
  }

  /** No segment of the template is filled to a dot segment. */
  ghost predicate NoDotArguments(t: string, args: Args, isWord: char -> bool) {
    DotFree(FillAll(Segments(t), args, isWord))
  }

  lemma {:induction false} DotFreeDoesNotClimb(depth: nat, segments: seq<string>)
    requires DotFree(segments)
    ensures Climb(depth, segments) == 0
    decreases |segments|
  {
    if segments != [] {
      assert segments[0] in segments && forall s :: s in segments[1..] ==> s in segments;
      DotFreeDoesNotClimb(depth + 1, segments[1..]);
    }
  }

  lemma {:induction false} DotStaysInEncoding(segments: seq<string>)
    requires DotFree(EncodeAll(segments))
    ensures DotFree(segments)
  {
    if segments != [] {
      var encoded := EncodeAll(segments);
      assert encoded[0] in encoded && forall s :: s in encoded[1..] ==> s in encoded;
      assert encoded[1..] == EncodeAll(segments[1..]);
      DotStaysInEncoding(segments[1..]);
      if IsDot(segments[0]) {
        assert AllKept(segments[0]);
        EncodeKept(segments[0]);
      }
    }
  }

  /** The client keeps the segments of a path exactly if none is a dot segment. */
  lemma SegmentsKeptIff(keeps: bool, path: string)
    requires path != "" && path[0] == '/'
    ensures PathText(keeps, path) == Encode(path) <==> DotFree(Segments(path))
  {
    var segments := Segments(path);
    var removed := RemoveDots(keeps, segments);
    JoinOfSegments(path);
    if DotFree(segments) {
      NoDotsToRemove([], segments);
      EmptyUnit(segments);
      assert segments[|segments| - 1] in segments;
    } else if PathText(keeps, path) == Encode(path) {
      DotsAreRemoved(keeps, segments);
      McpCall.EncodedIsDotFree(removed);
      EncodeJoin(segments);
      EncodeJoin(removed);
      EncodeAllIsKept(segments);
      EncodeAllIsKept(removed);
      SegmentsOfJoin(EncodeAll(segments));
      SegmentsOfJoin(EncodeAll(removed));
      DotStaysInEncoding(segments);
    }
  }

  lemma QuotedDots()
    ensures Quote([46]) == "." && Quote([46, 46]) == ".."
  {
    assert [46 as byte][1..] == [] && [46 as byte, 46][1..] == [46];
    assert Quote([46]) == ['.'] + Quote([]);
    assert Quote([46, 46]) == ['.'] + Quote([46]);
  }

  /** A segment that is one placeholder becomes a dot segment exactly for the values "." and "..". */
  lemma DotArgumentIff(name: string, args: Args, isWord: char -> bool)
    requires WordName(name, isWord) && !isWord('}') && name in args
    ensures IsDot(Filled(Placeholder(name), args, isWord))
            <==> args[name] == Some([46]) || args[name] == Some([46, 46])
  {
    EmptyUnit(Placeholder(name));
    PiecesOfPlaceholder(name, "", isWord);
    EmptyUnit(EncodeParameter(args[name]));
    RenderCons(Param(name), [], args.Keys, args);
    QuotedDots();
    if args[name].Some? {
      QuoteIsReversible(args[name].value);
      QuoteIsReversible([46]);
      QuoteIsReversible([46, 46]);
    }
  }

  /**
   The path that `execute_tool` builds: the client requests every segment of the template, filled with its
   arguments, exactly if none of them becomes a dot segment; then the call is one that the proxy forwards.
   */
  lemma RequestedSegmentsIff(keeps: bool, t: string, args: Args, query: string, isWord: char -> bool)
    requires !isWord('{') && !isWord('}') && !isWord('/') && !Nested(Pieces(t, isWord), isWord)
    requires t != "" && t[0] == '/' && '?' !in t && '#' !in t && Printable(t) && Covered(t, args, isWord)
    ensures var r := SubstituteEach(t, FindParams(t, isWord), args);
            && r.Ok? && PathOf(r.value) == r.value
            && Segments(r.value) == FillAll(Segments(t), args, isWord)
            && (PathText(keeps, r.value) == Encode(r.value) <==> NoDotArguments(t, args, isWord))
            && (NoDotArguments(t, args, isWord) ==> McpCall.GoodPath(keeps, r.value, query))
  {
    var path := Filled(t, args, isWord);
    PathIsSubstitution(t, args, isWord);
    SegmentsAreFilled(t, args, isWord);
    JoinOfSegments(t);
    FilledJoin(Segments(t), args, isWord);
    FilledHasNoForeign(t, args, '?', isWord);
    FilledHasNoForeign(t, args, '#', isWord);
    forall c | Control(c) ensures c !in path {
      FilledHasNoForeign(t, args, c, isWord);
    }
    WholePath(path);
    SegmentsKeptIff(keeps, path);
    if NoDotArguments(t, args, isWord) {
      DotFreeDoesNotClimb(0, Segments(path));
      EncodedIsNotEmpty(path);
    }
  }

  lemma WholePath(path: string)
    requires '?' !in path && '#' !in path
    ensures PathOf(path) == path
  {
    PathOfSum(path, "");
    EmptyUnit(path);
  }

  lemma EncodedIsNotEmpty(path: string)
    requires path != "" && path[0] == '/'
    ensures Encode(path) != ""
  {
    assert EncodeChar('/') == ['/'];
  }
}
