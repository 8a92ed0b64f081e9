# github-analyzer text budgeting and batching, in Dafny

github-analyzer summarises a GitHub user's weekly activity (commits, issues,
discussions) with a chat model. Around its network and chat calls,
`src/data_analyzers.rs` applies a set of deterministic rules that decide how
much text is sent and in which shape. This project models those rules and
proves their properties:

- **The commit-patch stripper** of `analyze_commit_integrated`
  (`patch_stripper.dfy`). It makes one pass over the lines of a git patch.
  Inside a diff block it drops lines that contain `[ ] { }`, and it stops at
  a budget of 18 000 bytes. The check against the budget leaves out the
  newline pushed after each kept line, so as written even ASCII text can
  end at 18 001 bytes. It goes further over only in two ways, both under
  "Findings": the `usize` underflow that follows an exact fill, and the cut
  of the line that trips the check, which counts characters where the
  check counts bytes. `StripPatch` is the loop, on a `string` accumulator
  and a boolean. It is proved equal to `Stripped`, a declarative
  specification: `Kept` is the filter, `FirstOverflow` is the line where the
  cap strikes, and `CutAt` is the cut itself. `usize` subtraction wraps
  explicitly, modulo 2^64.
- **The proportional budget** of `correlate_commits_issues_discussions`
  (`budget_allocator.dfy`). 16 000 units are shared by weight (1/4/4/2)
  among the sources that are present. Each source is cut to three characters
  per unit and put behind its label.
- **The batch loops** `process_commits` and `process_issues`
  (`batches.dfy`).
  - `ProcessCommits` updates an `array<GitMemory>` in place.
  - `ProcessIssues` builds its digest and its memory list.
  - Both are proved against `Stop`, the first index by which the success cap
    is reached, and against recursive digest functions.
- **The small fixed rules** (`requests.dfy`): the chat-model tier of an issue
  analysis, the `issue_<n>` and `commit-<sha5>` request ids, and the
  character caps of `correlate_user_and_home_project`.

Rust mixes two measures of a string. `String::len` counts UTF-8 bytes, while
`chars().take(n)` counts characters. The model keeps both explicit
(`text.dfy`):
- `Text.ByteLen` is the byte length, the sum of each character's UTF-8 width.
- `Text.TakeChars` is the character prefix.
- `Text.TakeBytes` is the longest character prefix that fits a byte budget.
  Only the corrected stripper uses it.

Each network fetch and each chat call becomes an input to the model:
- a patch is its sequence of lines;
- a batch's per-item analyses are a sequence of `Option` results.

## Model

| member | source | states |
|---|---|---|
| `Text.ByteLen` | src/data_analyzers.rs:364 | `String::len` as the sum of the UTF-8 widths of the characters, between the character count and four times it; the same measure is used at :173 and :450 |
| `Text.TakeChars` | src/data_analyzers.rs:366 | `chars().take(n)` yields a prefix of the text whose length is `min(n, characters)` |
| `Text.AsciiByteLen` | src/data_analyzers.rs:364 | on ASCII text the byte length `len()` equals the character count |
| `Text.TakeBytes` | src/data_analyzers.rs:365-366 | the byte cut yields a prefix that fits the budget, and adding the next character would overflow it |
| `Text.AsciiTakeBytes` | src/data_analyzers.rs:366 | on ASCII text the byte cut and `chars().take(n)` agree, so the correction changes nothing there |
| `Text.NatToString` | src/data_analyzers.rs:196 | `{issue_number}` in decimal: at least one digit, all digits, and no leading zero unless the number is 0 |
| `Text.NatToStringRoundTrip` | src/data_analyzers.rs:196 | the decimal rendering of a number reads back as that number |
| `PatchStripper.Kept` | src/data_analyzers.rs:370-391 | the filter: the lines that survive the diff-block rule, in order, never more than the input |
| `PatchStripper.Stripped` | src/data_analyzers.rs:363-392 | the as-written result: the rendered kept lines before the first line that trips the byte check, then that line cut to the wrapped `max - len` characters, and nothing after |
| `PatchStripper.UsizeSub` | src/data_analyzers.rs:365 | `usize` subtraction: the plain difference when it is not negative, otherwise the difference wrapped modulo 2^64 |
| `PatchStripper.FirstOverflow` | src/data_analyzers.rs:364 | the cap strikes at the first line whose byte length, added to the text so far, exceeds the budget, and at no earlier line |
| `PatchStripper.StripPatch` | src/data_analyzers.rs:358-392 | the loop's output is exactly `Stripped`: the kept lines, each with `\n`, up to the first line that trips the cap, then that line cut to the `usize` difference `18000 - len`, and nothing after |
| `PatchStripper.HeadOfFirst` | src/data_analyzers.rs:359 | no diff block is open at the start, so the first line is always kept |
| `PatchStripper.InsideIffOpenBlock` | src/data_analyzers.rs:370-391 | the `inside_diff_block` flag is set exactly when some earlier `diff --git` line has no empty line after it |
| `PatchStripper.FilterEmitsIff` | src/data_analyzers.rs:370-391 | a line is kept, with `\n`, exactly when it is a header, has none of `[ ] { }`, or lies outside every diff block; otherwise it is dropped |
| `PatchStripper.KeptWithoutHeaders` | src/data_analyzers.rs:377-387 | a patch without `diff --git` lines is never filtered and leaves no diff block open |
| `PatchStripper.KeptNoLonger` | src/data_analyzers.rs:370-391 | filtering never makes the text longer than all lines with their newlines |
| `PatchStripper.HeadBounded` | src/data_analyzers.rs:364-387 | before the cap strikes, the text is at most `max + 1` bytes: the check ignores the newline that follows each line; counting it gives at most `max` |
| `PatchStripper.CapStrikesAt` | src/data_analyzers.rs:364-367 | when line `k` is the first to trip the cap, the output is the text so far plus line `k` cut to `max - len` in `usize` |
| `PatchStripper.NoOverflowWhenShort` | src/data_analyzers.rs:364 | a patch whose lines and newlines fit in `max` bytes never trips the cap, whether or not the newline is counted |
| `PatchStripper.StrippedWhenShort` | src/data_analyzers.rs:363-392 | a patch that fits is only filtered, never cut |
| `PatchStripper.CapIsFinal` | src/data_analyzers.rs:367 | once the cap has struck, later lines change nothing |
| `PatchStripper.DroppedLineTripsCap` | src/data_analyzers.rs:364-384 | the cap is checked before the filter: a bracketed line inside a diff block, which the filter would drop, is still cut into the output when it trips the cap |
| `PatchStripper.UnderflowAfterExactFill` | src/data_analyzers.rs:364-387 | a first line of exactly `max` bytes leaves `max + 1` bytes. The next line then wraps `max - len`, is appended whole, and the output exceeds the cap |
| `PatchStripper.UnderflowExample` | src/data_analyzers.rs:361-367 | the patch made of 18 000 `a` characters and then `b` is stripped to 18 002 bytes, over the 18 000 budget |
| `PatchStripper.ExactFillAtEnd` | src/data_analyzers.rs:364-387 | a single line of exactly `max` bytes passes the check and is kept with its newline, so the output is `max + 1` bytes with no underflow |
| `PatchStripper.ExactFillExample` | src/data_analyzers.rs:361-387 | the one-line patch of 18 000 `a` characters is stripped to 18 001 bytes |
| `PatchStripper.MultiByteCutExample` | src/data_analyzers.rs:364-366 | a first line of 18 001 two-byte characters trips the byte check but is cut to 18 000 characters, 36 000 bytes |
| `PatchStripper.StrippedFixed` | src/data_analyzers.rs:363-392 | the corrected stripper: the check counts the newline, and the line that trips it is cut by bytes with `TakeBytes` |
| `PatchStripper.FixedCut` | src/data_analyzers.rs:365-366 | text within the budget, followed by a line cut to the bytes that remain, stays within the budget |
| `PatchStripper.FixedStrippedWithinCap` | src/data_analyzers.rs:361-367 | counting the newline in the check and cutting by bytes keeps the output within `max` bytes, and so within `max` characters, for every patch |
| `PatchStripper.FixedAgreesWhenShort` | src/data_analyzers.rs:363-392 | on a patch that fits, the corrected and the as-written stripper agree, and both only filter |
| `BudgetAllocator.Space` | src/data_analyzers.rs:615-629 | an absent source gets 0 units; a present one gets the floor of `16000 * weight / (sum of present weights)` |
| `BudgetAllocator.PresentWeightCovers` | src/data_analyzers.rs:621 | a present source's weight is part of the present total, so that total is never zero when a share is computed |
| `BudgetAllocator.SpacesConserveTotal` | src/data_analyzers.rs:606-629 | the shares add up to at most the total, and rounding loses less than one unit per present source |
| `BudgetAllocator.SharesFollowWeights` | src/data_analyzers.rs:608-629 | a present source with a larger weight never gets a smaller share; equal weights get equal shares |
| `BudgetAllocator.AllPresentShares` | src/data_analyzers.rs:606-629 | with all four sources present the weight total is 11 and the shares are 1454, 5818, 5818 and 2909 |
| `BudgetAllocator.NothingPresent` | src/data_analyzers.rs:615-651 | with no source present the weight total is 0, and every part of the prompt is `""` |
| `BudgetAllocator.Trimmed` | src/data_analyzers.rs:631-651 | one source: "" when absent, otherwise its label followed by the first `3 * space` characters, as `trim_to_allocated_space` inside `map_or` computes |
| `BudgetAllocator.TrimSources` | src/data_analyzers.rs:631-651 | the four trimmed sources, one per input source, in the source's order |
| `BudgetAllocator.TrimmedWithinShare` | src/data_analyzers.rs:631-651 | a present source becomes its label followed by a prefix of its text of `min(length, 3 * share)` characters; an absent one becomes `""` |
| `Records.Stop` | src/data_analyzers.rs:85-87 | a batch loop stops at the first point by which `cap` items have succeeded, or at the end of the input |
| `Records.StopCountsCapped` | src/data_analyzers.rs:434-436 | a batch handles exactly `min(cap, successes)` successful items |
| `Records.NoSuccessIff` | src/data_analyzers.rs:467-470 | no success was counted exactly when every item failed |
| `Records.SuccessesMonotone` | src/data_analyzers.rs:455 | the success count never decreases along the input |
| `CommitBatch.Updated` | src/data_analyzers.rs:447-448 | a summary replaces the entry's payload; a failure leaves the entry as it was |
| `CommitBatch.Digest` | src/data_analyzers.rs:450-453 | the summary text after `n` entries: each success adds its `date payload` line only while the text is at most 45 000 bytes |
| `CommitBatch.ProcessCommits` | src/data_analyzers.rs:428-473 | the entries before the stop point have their payload replaced by their summary when it succeeded and are left alone when it failed. The entries from the stop point on are unchanged. The result is `None` when nothing succeeded, otherwise the digest of the dated summary lines |
| `CommitBatch.CommitStep` | src/data_analyzers.rs:447-456 | a success appends its dated line only while the digest is within 45 000 bytes; a failure appends nothing |
| `CommitBatch.NoSummaryIffNoSuccess` | src/data_analyzers.rs:467-470 | the result is `None` exactly when every entry failed |
| `CommitBatch.DigestGrows` | src/data_analyzers.rs:450-453 | summary lines are only appended, in input order, never removed |
| `CommitBatch.CeilingIsFinal` | src/data_analyzers.rs:450-455 | once the digest is past 45 000 bytes nothing more is appended, though later entries are still summarised and counted |
| `CommitBatch.DigestBounded` | src/data_analyzers.rs:450-453 | the digest exceeds 45 000 bytes by at most its longest line |
| `IssueBatch.IssueDigest` | src/data_analyzers.rs:83 | the `date summary` lines of the successes among the first `n` outcomes, in input order |
| `IssueBatch.Memories` | src/data_analyzers.rs:82-84 | one memory per success, so the memory count equals the success count |
| `IssueBatch.IssueStep` | src/data_analyzers.rs:77-89 | a success appends its dated line and its memory; a failure adds nothing |
| `IssueBatch.ProcessIssues` | src/data_analyzers.rs:68-98 | the loop stops once 17 issues have succeeded. The result is `None` when none succeeded, otherwise the dated lines, the count and the memories of the successes up to the stop point |
| `IssueBatch.MemoriesGrow` | src/data_analyzers.rs:83-84 | the memories kept are a prefix of all the successes' memories, in input order |
| `IssueBatch.FirstSeventeen` | src/data_analyzers.rs:76-97 | the batch keeps the first `min(17, successes)` memories in input order, and reports nothing exactly when no issue succeeded |
| `ChatRequests.IssueChatOptions` | src/data_analyzers.rs:173-190 | text over 12 000 bytes selects the 16K model with 192 tokens, otherwise the base model with 128; both restart at temperature 0.7 |
| `ChatRequests.TierMonotone` | src/data_analyzers.rs:173-190 | longer issue text never gets the smaller model or the smaller token budget |
| `ChatRequests.AsciiTier` | src/data_analyzers.rs:173 | for ASCII text the threshold is more than 12 000 characters |
| `ChatRequests.IssueRequestId` | src/data_analyzers.rs:196 | the id is `issue_` followed by decimal digits that read back as the issue number, with no leading zero |
| `ChatRequests.IssueRequestIdInjective` | src/data_analyzers.rs:196 | distinct issue numbers never share a request id |
| `ChatRequests.LastSegment` | src/data_analyzers.rs:406 | the first item of `rsplitn(2, "/")` is the suffix of the url after its last `/`, or the whole url when it has none |
| `ChatRequests.ShaSerial` | src/data_analyzers.rs:406-409 | the serial is the first `min(5, length)` characters of the last segment, and contains no `/` |
| `ChatRequests.ShaSerialOfCommitUrl` | src/data_analyzers.rs:406-409 | for a url ending in `/<sha>` with at least five characters of sha, the serial is the sha's first five |
| `ChatRequests.CommitChain` | src/data_analyzers.rs:406-418 | the per-commit arguments of the chain: request id `commit-<serial>`, budgets 256 then 128, error context `analyze_commit-<serial>`, with the serial from `ShaSerial` |
| `ChatRequests.CommitChainOfCommitUrl` | src/data_analyzers.rs:406-418 | for a url ending in `/<sha>`: request id `commit-<sha5>`, budgets 256 then 128, error context `analyze_commit-<sha5>` |
| `ChatRequests.CapUserHomeInputs` | src/data_analyzers.rs:688-692 | each input of the correlation is a prefix of its original, of at most 6000, 4000, 9000, 6000 and 4000 characters respectively |

## Left out

- Network I/O is not modelled: the owner/repo validation, the comment pagination and the HTTP patch fetch. Their results are the model's inputs.
- The chat calls are not modelled (`chat_completion`, `chain_of_chat`). `chain_of_chat` is defined in `src/utils.rs`, which is not part of this model. Each batch receives the per-item outcomes as a sequence of `Option` values.
- `squeeze_fit_remove_quoted` and `squeeze_fit_commits_issues` are left out, because they live in `src/utils.rs`, which is not part of this model.
- Prompt texts and their `format!` assembly are left out; they are string interpolation. So is the final assembly of `analyze_issue_integrated`'s output string and memory.
- `text.lines()` is not modelled. The stripper receives the patch already split into lines, and `from_utf8_lossy` decoding is not modelled.
- Dates (`Utc::now`, `date_naive`) and their `Display` form are not computed: a memory's date is a string field.
- `BudgetAllocator.Space`: integer floor division replaces the `f32` product and the `as usize` truncation. For the weights 1/4/4/2 and the total 16 000 the two agree on every presence pattern; for other weights or totals they may differ.
- `PatchStripper.UsizeSub`: models a release build on a 64-bit target, where the subtraction wraps. A debug build panics instead, and a 32-bit target wraps modulo 2^32.
- Commented-out code is not modelled: `analyze_issue_integrated_chain`, the older `process_commits` and `analyze_discussions`.
- `src/lib.rs` is left out. It is the HTTP entry point, and it calls `process_commits` with a different return shape and `analyze_discussions`, which is commented out.
- The `"0000"` fallback of `sha_serial` is not modelled: `rsplitn` always yields a first item, so that branch cannot be reached.

## Findings

| source | as written | input that shows it | evidently intended | confidence | as-written member | corrected member |
|---|---|---|---|---|---|---|
| src/data_analyzers.rs:364-366 | the cap check `len + line.len() > 18000` does not count the `\n` pushed after each kept line (:387), so the text can reach 18 001 bytes, and a patch whose only line has exactly 18 000 bytes ends there (`ExactFillAtEnd`); if another line follows, `18000 - len` underflows `usize`, wrapping in release builds (panicking in debug builds), and the whole next line is appended | a first line of exactly 18 000 ASCII bytes followed by the line `b`: the output is 18 002 bytes | count the newline in the check (`len + line.len() + 1 > 18000`), so the text never exceeds 18 000 bytes and the difference is never negative | not executed | `PatchStripper.UnderflowAfterExactFill` | `PatchStripper.FixedStrippedWithinCap` |
| src/data_analyzers.rs:364-366 | the check counts bytes (`len()`), but the line that trips it is cut to `remaining` characters (`chars().take(remaining)`), so non-ASCII text ends up to four bytes per remaining unit | a first line of 18 001 copies of `é` (two bytes each): the output is 18 000 characters, 36 000 bytes | cut the line at the last character boundary that fits the remaining bytes, so the output never exceeds 18 000 bytes | not executed | `PatchStripper.MultiByteCutExample` | `PatchStripper.FixedStrippedWithinCap` |
