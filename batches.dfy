/** The records the analyzers pass around, and counting over per-item outcomes. */
module Records {
  import opened Wrappers

  datatype MemoryType = Issue | Commit | Discussion | Meta

  /**
   * `GitMemory`: one analysed item. `date` is the item's date as the
   * analyzers print it (`{}` of a calendar date).
   */
  datatype GitMemory = GitMemory(
    memoryType: MemoryType,
    name: string,
    tagLine: string,
    sourceUrl: string,
    payload: string,
    date: string)

  /** `format!("{} {}\n", date, text)`: one line of a batch summary. */
  function SummaryLine(date: string, text: string): string
  {
    date + " " + text + "\n"
  }

  /** How many of the first `n` outcomes succeeded. */
  function Successes<T>(results: seq<Option<T>>, n: nat): (count: nat)
    requires n <= |results|
    ensures count <= n
  {
    if n == 0 then 0 else Successes(results, n - 1) + (if results[n - 1].Some? then 1 else 0)
  }

  lemma {:induction false} SuccessesMonotone<T>(results: seq<Option<T>>, m: nat, n: nat)
    requires m <= n <= |results|
    ensures Successes(results, m) <= Successes(results, n)
    decreases n - m
  {
    if m < n {
      SuccessesMonotone(results, m, n - 1);
    }
  }

  /** No outcome among the first `n` succeeded exactly when none was counted. */
  lemma {:induction false} NoSuccessIff<T>(results: seq<Option<T>>, n: nat)
    requires n <= |results|
    ensures Successes(results, n) == 0 <==> forall i :: 0 <= i < n ==> results[i].None?
  {
    if n > 0 {
      NoSuccessIff(results, n - 1);
    }
  }

  /**
   * The index at or after `from` before which a batch loop stops: the first
   * `n` by which `cap` outcomes have succeeded, or `|results|` if that never happens.
   */
  function StopFrom<T>(results: seq<Option<T>>, cap: nat, from: nat): (n: nat)
    requires from <= |results|
    ensures from <= n <= |results|
    ensures forall j :: from <= j < n ==> Successes(results, j) < cap
    ensures n < |results| ==> Successes(results, n) >= cap
    decreases |results| - from
  {
    if from == |results| || Successes(results, from) >= cap then from
    else StopFrom(results, cap, from + 1)
  }

  function Stop<T>(results: seq<Option<T>>, cap: nat): (n: nat)
    ensures n <= |results|
    ensures forall j :: 0 <= j < n ==> Successes(results, j) < cap
    ensures n < |results| ==> Successes(results, n) >= cap
  {
    StopFrom(results, cap, 0)
  }

  /** A batch loop that has not stopped yet and is below the cap goes on past the current outcome. */
  lemma StopBeyond<T>(results: seq<Option<T>>, cap: nat, i: nat)
    requires i < |results| && i <= Stop(results, cap)
    requires Successes(results, i) < cap
    ensures i < Stop(results, cap)
  {
  }

  /** A batch loop that has not stopped before `n` and has run out of outcomes or reached the cap stops at `n`. */
  lemma StopAt<T>(results: seq<Option<T>>, cap: nat, n: nat)
    requires n <= Stop(results, cap)
    requires n < |results| ==> Successes(results, n) >= cap
    ensures Stop(results, cap) == n
  {
  }

  /**
   * The loop stops after exactly `min(cap, all successes)` successes: it never
   * handles more than `cap`, and it only stops early once it has `cap`.
   */
  lemma StopCountsCapped<T>(results: seq<Option<T>>, cap: nat)
    requires cap > 0
    ensures var n := Stop(results, cap);
      Successes(results, n) == if Successes(results, |results|) < cap then Successes(results, |results|) else cap
  {
    var n := Stop(results, cap);
    SuccessesMonotone(results, n, |results|);
    if n > 0 {
      assert Successes(results, n - 1) < cap;
    }
  }
}

/**
 * `process_commits`: summarise each commit of a batch in place, stopping once
 * 20 have been summarised, and collect a dated line per summary while the
 * collected text is within 45 000 bytes.
 *
 * `results[i]` is what `analyze_commit_integrated` yields for entry `i`
 * (fetch, stripping and the chat chain happen there).
 */
module CommitBatch {
  import opened Wrappers
  import opened Text
  import opened Records

  const MaxEntries: nat := 20
  const SummaryCeiling: nat := 45_000

  /** An entry after it is analysed: a summary replaces its payload, a failure leaves it as it was. */
  function Updated(entry: GitMemory, result: Option<string>): GitMemory
  {
    match result
    case Some(summary) => entry.(payload := summary)
    case None => entry
  }

  /** The summary text after the first `n` entries: a line is added only while the text is within the ceiling. */
  function Digest(entries: seq<GitMemory>, results: seq<Option<string>>, n: nat): string
    requires |entries| == |results| && n <= |results|
  {
    if n == 0 then ""
    else
      var before := Digest(entries, results, n - 1);
      match results[n - 1]
      case Some(summary) =>
        if ByteLen(before) <= SummaryCeiling then before + SummaryLine(entries[n - 1].date, summary) else before
      case None => before
  }

  method ProcessCommits(entries: array<GitMemory>, results: seq<Option<string>>) returns (summaries: Option<string>)
    requires entries.Length == |results|
    modifies entries
    ensures forall i :: 0 <= i < Stop(results, MaxEntries) ==> entries[i] == Updated(old(entries[i]), results[i])
    ensures forall i :: Stop(results, MaxEntries) <= i < entries.Length ==> entries[i] == old(entries[i])
    ensures var stop := Stop(results, MaxEntries);
      summaries == if Successes(results, stop) == 0 then None else Some(Digest(old(entries[..]), results, stop))
  {
    ghost var original := entries[..];
    var commitsSummaries := "";
    var processedCount := 0;
    var i := 0;
    while i < entries.Length
      invariant i <= Stop(results, MaxEntries)
      invariant processedCount == Successes(results, i)
      invariant commitsSummaries == Digest(original, results, i)
      invariant forall j :: 0 <= j < i ==> entries[j] == Updated(original[j], results[j])
      invariant forall j :: i <= j < entries.Length ==> entries[j] == original[j]
    {
      if processedCount >= MaxEntries {
        break;
      }
      StopBeyond(results, MaxEntries, i);
      CommitStep(original, results, i);
      if results[i].Some? {
        var commit := entries[i].(payload := results[i].value);
        entries[i] := commit;
        if ByteLen(commitsSummaries) <= SummaryCeiling {
          commitsSummaries := commitsSummaries + SummaryLine(commit.date, commit.payload);
        }
        processedCount := processedCount + 1;
      }
      i := i + 1;
    }
    StopAt(results, MaxEntries, i);
    if processedCount == 0 {
      return None;
    }
    return Some(commitsSummaries);
  }

  /** One more entry: a success appends its line while the text is within the ceiling, a failure adds nothing. */
  lemma CommitStep(entries: seq<GitMemory>, results: seq<Option<string>>, i: nat)
    requires |entries| == |results| && i < |results|
    ensures results[i].Some? && ByteLen(Digest(entries, results, i)) <= SummaryCeiling ==>
      Digest(entries, results, i + 1) == Digest(entries, results, i) + SummaryLine(entries[i].date, results[i].value)
    ensures results[i].Some? && ByteLen(Digest(entries, results, i)) > SummaryCeiling ==>
      Digest(entries, results, i + 1) == Digest(entries, results, i)
    ensures results[i].None? ==> Digest(entries, results, i + 1) == Digest(entries, results, i)
  {
  }

  // ---------------------------------------------------------------------

  /** The result is absent exactly when no entry of the batch was summarised. */
  lemma NoSummaryIffNoSuccess(results: seq<Option<string>>)
    ensures Successes(results, Stop(results, MaxEntries)) == 0 <==> forall i :: 0 <= i < |results| ==> results[i].None?
  {
    var stop := Stop(results, MaxEntries);
    StopCountsCapped(results, MaxEntries);
    NoSuccessIff(results, |results|);
  }

  /** The summary text only grows: lines are appended in input order and never removed. */
  lemma {:induction false} DigestGrows(entries: seq<GitMemory>, results: seq<Option<string>>, m: nat, n: nat)
    requires |entries| == |results| && m <= n <= |results|
    ensures Digest(entries, results, m) <= Digest(entries, results, n)
    decreases n - m
  {
    if m < n {
      DigestGrows(entries, results, m, n - 1);
    }
  }

  /** Once the text is past the ceiling nothing more is appended, though later entries are still summarised. */
  lemma {:induction false} CeilingIsFinal(entries: seq<GitMemory>, results: seq<Option<string>>, m: nat, n: nat)
    requires |entries| == |results| && m <= n <= |results|
    requires ByteLen(Digest(entries, results, m)) > SummaryCeiling
    ensures Digest(entries, results, n) == Digest(entries, results, m)
    decreases n - m
  {
    if m < n {
      CeilingIsFinal(entries, results, m, n - 1);
    }
  }

  /** The text exceeds the ceiling by at most one line: it is within 45 000 bytes before each append. */
  lemma {:induction false} DigestBounded(entries: seq<GitMemory>, results: seq<Option<string>>, n: nat, longest: nat)
    requires |entries| == |results| && n <= |results|
    requires forall j :: 0 <= j < n && results[j].Some? ==>
      ByteLen(SummaryLine(entries[j].date, results[j].value)) <= longest
    ensures ByteLen(Digest(entries, results, n)) <= SummaryCeiling + longest
  {
    if n > 0 {
      DigestBounded(entries, results, n - 1, longest);
      var before := Digest(entries, results, n - 1);
      if results[n - 1].Some? && ByteLen(before) <= SummaryCeiling {
        ByteLenConcat(before, SummaryLine(entries[n - 1].date, results[n - 1].value));
      }
    }
  }
}

/**
 * `process_issues`: summarise issues one by one, collecting a dated line and
 * a memory per success, and stop once more than 16 memories are collected.
 *
 * `results[i]` is what `analyze_issue_integrated` yields for issue `i`: the
 * summary text and the memory, or nothing on failure.
 */
module IssueBatch {
  import opened Wrappers
  import opened Records

  /** The loop breaks as soon as the number of memories exceeds 16. */
  const MaxIssues: nat := 17

  /** The memories of the successes among the first `n` outcomes, in input order. */
  function Memories(results: seq<Option<(string, GitMemory)>>, n: nat): (ms: seq<GitMemory>)
    requires n <= |results|
    ensures |ms| == Successes(results, n)
  {
    if n == 0 then []
    else Memories(results, n - 1) + (if results[n - 1].Some? then [results[n - 1].value.1] else [])
  }

  /** The summary lines of the successes among the first `n` outcomes, in input order. */
  function IssueDigest(results: seq<Option<(string, GitMemory)>>, n: nat): string
    requires n <= |results|
  {
    if n == 0 then ""
    else
      IssueDigest(results, n - 1) +
      match results[n - 1]
      case Some((summary, gm)) => SummaryLine(gm.date, summary)
      case None => ""
  }

  method ProcessIssues(results: seq<Option<(string, GitMemory)>>) returns (r: Option<(string, nat, seq<GitMemory>)>)
    ensures var stop := Stop(results, MaxIssues);
      r == if Successes(results, stop) == 0 then None
           else Some((IssueDigest(results, stop), Successes(results, stop), Memories(results, stop)))
  {
    var issuesSummaries := "";
    var gitMemoryVec: seq<GitMemory> := [];
    var i := 0;
    while i < |results|
      invariant i <= Stop(results, MaxIssues)
      invariant Successes(results, i) < MaxIssues
      invariant issuesSummaries == IssueDigest(results, i)
      invariant gitMemoryVec == Memories(results, i)
    {
      StopBeyond(results, MaxIssues, i);
      IssueStep(results, i);
      if results[i].Some? {
        var summary, gm := results[i].value.0, results[i].value.1;
        issuesSummaries := issuesSummaries + SummaryLine(gm.date, summary);
        gitMemoryVec := gitMemoryVec + [gm];
        if |gitMemoryVec| > 16 {
          i := i + 1;
          break;
        }
      }
      i := i + 1;
    }
    StopAt(results, MaxIssues, i);
    var count := |gitMemoryVec|;
    if count == 0 {
      return None;
    }
    return Some((issuesSummaries, count, gitMemoryVec));
  }

  /** One more outcome: a success adds its line and its memory, a failure adds nothing. */
  lemma IssueStep(results: seq<Option<(string, GitMemory)>>, i: nat)
    requires i < |results|
    ensures results[i].Some? ==>
      var (summary, gm) := results[i].value;
      && IssueDigest(results, i + 1) == IssueDigest(results, i) + SummaryLine(gm.date, summary)
      && Memories(results, i + 1) == Memories(results, i) + [gm]
    ensures results[i].None? ==>
      IssueDigest(results, i + 1) == IssueDigest(results, i) && Memories(results, i + 1) == Memories(results, i)
  {
  }

  // ---------------------------------------------------------------------

  /** The memories kept are a prefix of all the successes' memories, in input order. */
  lemma {:induction false} MemoriesGrow(results: seq<Option<(string, GitMemory)>>, m: nat, n: nat)
    requires m <= n <= |results|
    ensures Memories(results, m) <= Memories(results, n)
    decreases n - m
  {
    if m < n {
      MemoriesGrow(results, m, n - 1);
    }
  }

  /**
   * The batch keeps the first `min(17, successes)` memories, in input order,
   * and reports nothing exactly when no issue succeeded.
   */
  lemma FirstSeventeen(results: seq<Option<(string, GitMemory)>>)
    ensures var stop := Stop(results, MaxIssues);
      var all := Memories(results, |results|);
      && Memories(results, stop) <= all
      && |Memories(results, stop)| == (if |all| < MaxIssues then |all| else MaxIssues)
      && (|Memories(results, stop)| == 0 <==> forall i :: 0 <= i < |results| ==> results[i].None?)
  {
    var stop := Stop(results, MaxIssues);
    MemoriesGrow(results, stop, |results|);
    StopCountsCapped(results, MaxIssues);
    NoSuccessIff(results, |results|);
  }
}
