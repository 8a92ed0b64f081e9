/**
 * The small fixed rules around the chat calls: which model tier an issue
 * analysis uses, the deterministic request ids, and the character caps on the
 * inputs of the user/home-project correlation.
 */
module ChatRequests {
  import opened Text

  datatype ChatModel = GPT35Turbo | GPT35Turbo16K

  /** The fields of `ChatOptions` that `analyze_issue_integrated` sets (the system prompt is left out). */
  datatype ChatOptions = ChatOptions(model: ChatModel, restart: bool, temperature: real, maxTokens: nat)

  /** Issue text longer than this many bytes goes to the extended-context model. */
  const ExtendedContextThreshold: nat := 12000

  /** The options of the issue analysis, chosen by the byte length of the gathered issue text. */
  function IssueChatOptions(issueText: string): (co: ChatOptions)
    ensures co.model == GPT35Turbo16K <==> ByteLen(issueText) > ExtendedContextThreshold
    ensures co.maxTokens == (if co.model == GPT35Turbo16K then 192 else 128)
    ensures co.restart && co.temperature == 0.7
  {
    if ByteLen(issueText) > ExtendedContextThreshold then
      ChatOptions(GPT35Turbo16K, true, 0.7, 192)
    else
      ChatOptions(GPT35Turbo, true, 0.7, 128)
  }

  /** Longer issue text never gets the smaller model or the smaller answer budget. */
  lemma TierMonotone(shorter: string, longer: string)
    requires ByteLen(shorter) <= ByteLen(longer)
    ensures IssueChatOptions(shorter).model == GPT35Turbo16K ==> IssueChatOptions(longer).model == GPT35Turbo16K
    ensures IssueChatOptions(shorter).maxTokens <= IssueChatOptions(longer).maxTokens
  {
  }

  /** For ASCII text the threshold is a character count: more than 12000 characters. */
  lemma AsciiTier(issueText: string)
    requires IsAscii(issueText)
    ensures IssueChatOptions(issueText).model == GPT35Turbo16K <==> |issueText| > ExtendedContextThreshold
  {
    AsciiByteLen(issueText);
  }

  /** The request id of an issue analysis: `issue_` and the issue number in decimal. */
  function IssueRequestId(number: nat): (id: string)
    ensures |id| > 6 && id[..6] == "issue_" && IsDigits(id[6..])
    ensures DigitsValue(id[6..]) == number
    ensures |id| > 7 ==> id[6] != '0'
  {
    NatToStringRoundTrip(number);
    var id := "issue_" + NatToString(number);
    assert id[6..] == NatToString(number);
    id
  }

  /** Distinct issues never share a request id. */
  lemma IssueRequestIdInjective(a: nat, b: nat)
    requires IssueRequestId(a) == IssueRequestId(b)
    ensures a == b
  {
    assert IssueRequestId(a)[6..] == NatToString(a);
    assert IssueRequestId(b)[6..] == NatToString(b);
    NatToStringInjective(a, b);
  }

  /**
   * The first item of `url.rsplitn(2, "/")`: the text after the last `/`, or
   * the whole url when it has none. `rsplitn` always yields this item.
   */
  function LastSegment(url: string): (seg: string)
    ensures '/' !in seg
    ensures |seg| <= |url| && url[|url| - |seg|..] == seg
    ensures |seg| < |url| ==> url[|url| - |seg| - 1] == '/'
  {
    if url == [] then []
    else if url[|url| - 1] == '/' then []
    else
      var rest := LastSegment(url[..|url| - 1]);
      assert url[..|url| - 1][|url| - 1 - |rest|..] == rest;
      rest + [url[|url| - 1]]
  }

  /** `sha_serial`: the first five characters after the last `/` of a commit url. */
  function ShaSerial(url: string): (serial: string)
    ensures |serial| <= 5 && '/' !in serial
    ensures serial <= LastSegment(url)
    ensures |serial| == Min(5, |LastSegment(url)|)
  {
    TakeChars(LastSegment(url), 5)
  }

  /**
   * The per-commit arguments of the commit chat chain: the request id, the
   * answer budgets of its two stages and the error context it reports on failure.
   */
  datatype ChainArgs = ChainArgs(requestId: string, firstMaxTokens: nat, secondMaxTokens: nat, errorContext: string)

  function CommitChain(url: string): ChainArgs
  {
    var serial := ShaSerial(url);
    ChainArgs("commit-" + serial, 256, 128, "analyze_commit-" + serial)
  }

  /** A commit url `…/commit/<sha>` with at least five characters of sha yields the sha's first five. */
  lemma ShaSerialOfCommitUrl(prefix: string, sha: string)
    requires '/' !in sha && |sha| >= 5
    ensures ShaSerial(prefix + "/" + sha) == sha[..5]
  {
    var url := prefix + "/" + sha;
    var seg := LastSegment(url);
    assert url[|url| - |sha| - 1] == '/';
    assert url[|url| - |sha|..] == sha;
    assert seg == sha;
  }

  /** The request id and error context of a commit url `…/<sha>` carry the first five characters of the sha. */
  lemma CommitChainOfCommitUrl(prefix: string, sha: string)
    requires '/' !in sha && |sha| >= 5
    ensures CommitChain(prefix + "/" + sha) == ChainArgs("commit-" + sha[..5], 256, 128, "analyze_commit-" + sha[..5])
  {
    ShaSerialOfCommitUrl(prefix, sha);
  }

  /** The inputs of `correlate_user_and_home_project`, each cut to its character cap. */
  datatype UserHomeInputs = UserHomeInputs(homeRepo: string, userProfile: string, issues: string, repos: string, discussions: string)

  function CapUserHomeInputs(homeRepo: string, userProfile: string, issues: string, repos: string, discussions: string): (r: UserHomeInputs)
    ensures r.homeRepo <= homeRepo && |r.homeRepo| == Min(|homeRepo|, 6000)
    ensures r.userProfile <= userProfile && |r.userProfile| == Min(|userProfile|, 4000)
    ensures r.issues <= issues && |r.issues| == Min(|issues|, 9000)
    ensures r.repos <= repos && |r.repos| == Min(|repos|, 6000)
    ensures r.discussions <= discussions && |r.discussions| == Min(|discussions|, 4000)
  {
    UserHomeInputs(
      TakeChars(homeRepo, 6000),
      TakeChars(userProfile, 4000),
      TakeChars(issues, 9000),
      TakeChars(repos, 6000),
      TakeChars(discussions, 4000))
  }
}
