/**
 Context-token accounting (app/services/execute_service.py:908-1041 and `update_context_status` of
 app/repositories/conversation_repository.py): the event shown before `done`, the stored flag and the
 admission check of the next run.

 Percentages are real numbers.  The runs of one conversation follow each other.
 */
module ContextAccounting {
  import opened Wrappers

  /** The token columns of a conversation. */
  datatype Record = Record(totalInput: int, totalOutput: int, estimated: int, limitReached: bool)

  const NEW_RECORD := Record(0, 0, 0, false)

  function Percent(tokens: int, window: int): real
    requires window > 0
  {
    (tokens as real / window as real) * 100.0
  }

  lemma PercentAtLeast(tokens: int, window: int, p: int)
    requires window > 0
    ensures Percent(tokens, window) >= p as real <==> tokens * 100 >= p * window
  {
    var t, w, q := tokens as real, window as real, p as real;
    assert (t / w) * 100.0 == (t * 100.0) / w;
    assert ((t * 100.0) / w) * w == t * 100.0;
    assert (t * 100.0) / w >= q <==> t * 100.0 >= q * w;
    assert t * 100.0 == (tokens * 100) as real && q * w == (p * window) as real;
  }

  predicate Rejects(r: Record, window: int) {
    r.limitReached || (window > 0 && r.estimated > 0 && Percent(r.estimated, window) >= 95.0)
  }

  predicate LimitReached(tokens: int, window: int) {
    window > 0 && Percent(tokens, window) >= 95.0
  }

  function Charge(r: Record, window: int, input: int, output: int): Record {
    var estimated := r.estimated + (input + output);
    Record(r.totalInput + input, r.totalOutput + output, estimated, LimitReached(estimated, window))
  }

  // ---- the event ----

  datatype Level = Normal | Warning | Critical | Blocked

  datatype ContextStatus = ContextStatus(current: int, maximum: int, percent: real, level: Level, canContinue: bool,
                                         recommendedAction: Option<string>)

  function LevelOf(percent: real): Level {
    if percent >= 95.0 then Blocked
    else if percent >= 85.0 then Critical
    else if percent >= 70.0 then Warning
    else Normal
  }

  function StatusFor(tokens: int, window: int): Option<ContextStatus> {
    if window <= 0 then None
    else
      var percent := Percent(tokens, window);
      var level := LevelOf(percent);
      var action := if level == Normal then None else Some("new_chat");
      Some(ContextStatus(tokens, window, percent, level, level != Blocked, action))
  }

  // ---- runs ----

  /** A run: the window of its model, the tokens it reports, and whether its transaction commits. */
  datatype Run = Run(window: int, input: int, output: int, commits: bool)

  predicate Counts(r: Record, run: Run) {
    !Rejects(r, run.window) && run.commits
  }

  function After(from: Record, log: Log<Run>): Record {
    if log.Empty? then from
    else
      var r := After(from, log.rest);
      if Counts(r, log.head) then Charge(r, log.head.window, log.head.input, log.head.output) else r
  }

  /** The runs that were admitted and committed. */
  function Counted(from: Record, log: Log<Run>): Log<Run> {
    if log.Empty? then Empty
    else
      var before := Counted(from, log.rest);
      if Counts(After(from, log.rest), log.head) then Newer(log.head, before) else before
  }

  function SumInput(runs: Log<Run>): int {
    if runs.Empty? then 0 else runs.head.input + SumInput(runs.rest)
  }

  function SumOutput(runs: Log<Run>): int {
    if runs.Empty? then 0 else runs.head.output + SumOutput(runs.rest)
  }

  /** The stored totals are the sums over the counted runs, whatever models they used. */
  lemma {:induction false} TotalsAreSums(log: Log<Run>)
    ensures var r, counted := After(NEW_RECORD, log), Counted(NEW_RECORD, log);
            && r.totalInput == SumInput(counted)
            && r.totalOutput == SumOutput(counted)
            && r.estimated == SumInput(counted) + SumOutput(counted)
  {
    if log.Newer? {
      TotalsAreSums(log.rest);
    }
  }

  /** Once the flag is set no run of any model is admitted, and nothing changes any more. */
  lemma {:induction false} LimitIsFinal(r: Record, later: Log<Run>, window: int)
    requires r.limitReached
    ensures After(r, later) == r && Rejects(After(r, later), window)
  {
    if later.Newer? {
      LimitIsFinal(r, later.rest, later.head.window);
    }
  }

  /**
   After a counted run with a positive window the event, the flag and every later check agree: the
   event says blocked iff the flag is stored, and then all later checks reject, for any models; else
   the next check with the same model admits.
   */
  lemma EventFlagAndChecksAgree(log: Log<Run>, last: Run, later: Log<Run>, window: int)
    requires last.window > 0 && Counts(After(NEW_RECORD, log), last)
    ensures var before, after := After(NEW_RECORD, log), After(NEW_RECORD, Newer(last, log));
            var event := StatusFor(before.estimated + (last.input + last.output), last.window);
            && event.Some?
            && event.value.current == after.estimated == after.totalInput + after.totalOutput
            && (event.value.level == Blocked <==> after.limitReached)
            && (event.value.canContinue <==> !Rejects(after, last.window))
            && (after.limitReached ==> After(after, later) == after && Rejects(After(after, later), window))
  {
    var after := After(NEW_RECORD, Newer(last, log));
    TotalsAreSums(Newer(last, log));
    if after.limitReached {
      LimitIsFinal(after, later, window);
    }
  }

  /**
   With a window that is not positive nothing is shown and the flag is never set, so the run does not
   end the conversation for models of that kind; a later check with a positive window decides by its own.
   */
  lemma UnlimitedModelNeverBlocks(log: Log<Run>, last: Run, window: int)
    requires last.window <= 0 && Counts(After(NEW_RECORD, log), last)
    ensures var before, after := After(NEW_RECORD, log), After(NEW_RECORD, Newer(last, log));
            && StatusFor(before.estimated + (last.input + last.output), last.window) == None
            && (Rejects(after, window) <==> window > 0 && after.estimated > 0 && after.estimated * 100 >= 95 * window)
  {
    if window > 0 {
      PercentAtLeast(After(NEW_RECORD, Newer(last, log)).estimated, window, 95);
    }
  }

  /** The four levels as exact comparisons of token counts. */
  lemma LevelsAreThresholds(tokens: int, window: int)
    requires window > 0
    ensures LevelOf(Percent(tokens, window)) ==
            if tokens * 100 >= 95 * window then Blocked
            else if tokens * 100 >= 85 * window then Critical
            else if tokens * 100 >= 70 * window then Warning
            else Normal
  {
    PercentAtLeast(tokens, window, 95);
    PercentAtLeast(tokens, window, 85);
    PercentAtLeast(tokens, window, 70);
  }

  /** The event in terms of token counts: nothing without a positive window. */
  lemma StatusIs(tokens: int, window: int)
    ensures StatusFor(tokens, window).Some? <==> window > 0
    ensures window > 0 ==>
              var status := StatusFor(tokens, window).value;
              && status.current == tokens && status.maximum == window
              && status.percent * window as real == tokens as real * 100.0
              && (status.canContinue <==> tokens * 100 < 95 * window)
              && status.recommendedAction == (if tokens * 100 >= 70 * window then Some("new_chat") else None)
  {
    if window > 0 {
      var t, w := tokens as real, window as real;
      LevelsAreThresholds(tokens, window);
      assert ((t / w) * 100.0) * w == t * 100.0;
    }
  }

  // ---- usage formats ----

  /** `cache_creation` of a usage table: the nested counts, or something that is no table. */
  datatype CacheCreation = NoTable | Table(counts: map<string, int>)

  datatype Usage = Usage(counts: map<string, int>, cacheCreation: Option<CacheCreation>)

  function Get(counts: map<string, int>, key: string): int {
    if key in counts then counts[key] else 0
  }

  function Nested(u: Usage, key: string): int {
    if u.cacheCreation.Some? && u.cacheCreation.value.Table? then Get(u.cacheCreation.value.counts, key) else 0
  }

  function CacheCounts(u: Usage): (int, int, int) {
    if "cache_creation_5m_tokens" in u.counts then
      (u.counts["cache_creation_5m_tokens"],
       Get(u.counts, "cache_creation_1h_tokens"), Get(u.counts, "cache_read_tokens"))
    else
      var fiveMinutes := Nested(u, "ephemeral_5m_input_tokens");
      (if fiveMinutes == 0 then Get(u.counts, "cache_creation_input_tokens") else fiveMinutes,
       Nested(u, "ephemeral_1h_input_tokens"), Get(u.counts, "cache_read_input_tokens"))
  }

  /** `_normalize_usage`. */
  function NormalizeUsage(u: Usage): Usage {
    var input, output, cache := Get(u.counts, "input_tokens"), Get(u.counts, "output_tokens"), CacheCounts(u);
    Usage(map["input_tokens" := input,
              "output_tokens" := output,
              "cache_creation_5m_tokens" := cache.0,
              "cache_creation_1h_tokens" := cache.1,
              "cache_read_tokens" := cache.2,
              "total_tokens" := input + output + cache.0 + cache.1 + cache.2], None)
  }

  /** The event and the record both normalise what was normalised before; nothing is counted twice. */
  lemma NormalizeIsIdempotent(u: Usage)
    ensures var n := NormalizeUsage(u).counts;
            && NormalizeUsage(NormalizeUsage(u)) == NormalizeUsage(u)
            && n["total_tokens"] == n["input_tokens"] + n["output_tokens"] + n["cache_creation_5m_tokens"]
                                    + n["cache_creation_1h_tokens"] + n["cache_read_tokens"]
  {
    var n := NormalizeUsage(u);
    assert CacheCounts(n) == CacheCounts(u);
  }

  /** The count of a key in a table, 0 if the key is missing. */
  ghost predicate CountOf(counts: map<string, int>, key: string, n: int) {
    if key in counts then n == counts[key] else n == 0
  }

  /** The five counts of a normalised table, by the key each of them comes from. */
  ghost predicate CountsAre(n: Usage, input: int, output: int, fiveMinutes: int, oneHour: int, read: int) {
    n.counts == map["input_tokens" := input, "output_tokens" := output, "cache_creation_5m_tokens" := fiveMinutes,
                    "cache_creation_1h_tokens" := oneHour, "cache_read_tokens" := read,
                    "total_tokens" := input + output + fiveMinutes + oneHour + read]
  }

  /** A table that has the normalised key for five minutes keeps its five counts, missing ones as 0. */
  lemma NormalisedCounts(u: Usage, input: int, output: int, oneHour: int, read: int)
    requires "cache_creation_5m_tokens" in u.counts
    requires CountOf(u.counts, "input_tokens", input) && CountOf(u.counts, "output_tokens", output)
    requires CountOf(u.counts, "cache_creation_1h_tokens", oneHour) && CountOf(u.counts, "cache_read_tokens", read)
    ensures CountsAre(NormalizeUsage(u), input, output, u.counts["cache_creation_5m_tokens"], oneHour, read)
  {
  }

  /**
   A raw table gives its nested counts for five minutes and one hour, if it has a nested table, and its
   cache reads; without five-minute tokens there, all tokens of cache creation count for five minutes.
   */
  lemma RawCounts(u: Usage, input: int, output: int, nested: int, created: int, oneHour: int, read: int)
    requires "cache_creation_5m_tokens" !in u.counts
    requires CountOf(u.counts, "input_tokens", input) && CountOf(u.counts, "output_tokens", output)
    requires var inner := if u.cacheCreation.Some? && u.cacheCreation.value.Table? then u.cacheCreation.value.counts
                          else map[];
             && CountOf(inner, "ephemeral_5m_input_tokens", nested)
             && CountOf(inner, "ephemeral_1h_input_tokens", oneHour)
    requires CountOf(u.counts, "cache_creation_input_tokens", created)
    requires CountOf(u.counts, "cache_read_input_tokens", read)
    ensures CountsAre(NormalizeUsage(u), input, output, if nested != 0 then nested else created, oneHour, read)
  {
  }

  // ---- the stored conversation ----

  class Conversation {
    var totalInput: int
    var totalOutput: int
    var estimated: int
    var limitReached: bool

    ghost function Contents(): Record
      reads this
    {
      Record(totalInput, totalOutput, estimated, limitReached)
    }

    constructor ()
      ensures Contents() == NEW_RECORD
    {
      totalInput, totalOutput, estimated, limitReached := 0, 0, 0, false;
    }

    /** `update_context_status` of the repository. */
    method UpdateContextStatus(input: int, output: int, tokens: int, reached: bool)
      modifies this
      ensures Contents() == Record(old(totalInput) + input, old(totalOutput) + output, old(estimated) + tokens, reached)
    {
      totalInput := totalInput + input;
      totalOutput := totalOutput + output;
      estimated := estimated + tokens;
      limitReached := reached;
    }
  }

  /** `_check_context_limit`; an unknown conversation is admitted. */
  method CheckContextLimit(conversation: Conversation?, window: int) returns (rejected: bool)
    ensures rejected <==> conversation != null && Rejects(conversation.Contents(), window)
  {
    if conversation == null {
      return false;
    }
    if conversation.limitReached {
      return true;
    }
    if window > 0 && conversation.estimated > 0 {
      var percent := (conversation.estimated as real / window as real) * 100.0;
      if percent >= 95.0 {
        return true;
      }
    }
    return false;
  }

  /** `_build_context_status_event`. */
  method BuildContextStatusEvent(conversation: Conversation?, window: int, usage: Usage)
    returns (event: Option<ContextStatus>)
    ensures var tokens := Get(usage.counts, "input_tokens") + Get(usage.counts, "output_tokens");
            event == StatusFor(if conversation == null then tokens else conversation.estimated + tokens, window)
  {
    var normalized := NormalizeUsage(usage);
    var tokens := Get(normalized.counts, "input_tokens") + Get(normalized.counts, "output_tokens");
    var accumulated := if conversation == null then tokens else conversation.estimated + tokens;
    if window <= 0 {
      return None;
    }
    var percent := (accumulated as real / window as real) * 100.0;
    if percent >= 95.0 {
      return Some(ContextStatus(accumulated, window, percent, Blocked, false, Some("new_chat")));
    } else if percent >= 85.0 {
      return Some(ContextStatus(accumulated, window, percent, Critical, true, Some("new_chat")));
    } else if percent >= 70.0 {
      return Some(ContextStatus(accumulated, window, percent, Warning, true, Some("new_chat")));
    }
    return Some(ContextStatus(accumulated, window, percent, Normal, true, None));
  }

  /** `_update_context_status`; an unknown conversation is left alone. */
  method UpdateContextStatus(conversation: Conversation?, window: int, input: int, output: int)
    modifies if conversation == null then {} else {conversation}
    ensures conversation != null ==>
              conversation.Contents() == Charge(old(conversation.Contents()), window, input, output)
  {
    var tokens := input + output;
    var accumulated := if conversation == null then tokens else conversation.estimated + tokens;
    var percent := if window > 0 then (accumulated as real / window as real) * 100.0 else 0.0;
    if conversation != null {
      conversation.UpdateContextStatus(input, output, tokens, percent >= 95.0);
    }
  }

  /** One run of `execute_streaming` as far as tokens go: check, event, record, commit or roll back. */
  method Execute(conversation: Conversation, window: int, usage: Usage, commits: bool)
    returns (rejected: bool, event: Option<ContextStatus>)
    modifies conversation
    ensures rejected <==> Rejects(old(conversation.Contents()), window)
    ensures var run := Run(window, Get(usage.counts, "input_tokens"), Get(usage.counts, "output_tokens"), commits);
            && conversation.Contents() == After(old(conversation.Contents()), Newer(run, Empty))
            && event == if rejected then None
                        else StatusFor(old(conversation.estimated) + (run.input + run.output), window)
  {
    event := None;
    rejected := CheckContextLimit(conversation, window);
    if rejected {
      return;
    }
    event := BuildContextStatusEvent(conversation, window, usage);
    var input, output, estimated, reached :=
      conversation.totalInput, conversation.totalOutput, conversation.estimated, conversation.limitReached;
    var normalized := NormalizeUsage(usage);
    UpdateContextStatus(conversation, window,
                        Get(normalized.counts, "input_tokens"), Get(normalized.counts, "output_tokens"));
    if !commits {
      conversation.totalInput, conversation.totalOutput, conversation.estimated, conversation.limitReached :=
        input, output, estimated, reached;
    }
  }
}
