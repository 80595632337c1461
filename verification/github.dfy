/** Selection of reminder-worthy pull requests (src/github.ts): the per-PR filter, the
    filter over a list, the repository parser and the per-item discovery loop. The two
    network calls of the discovery are replaced by their outcomes, given as input. */
module Github {
  import opened Wrappers
  import opened Sequences

  /** A pull request as the reminder sees it. Requested reviewers are given by their
      logins and labels by their names, in the order the API lists them; the creation
      time and the cutoff are timestamps. */
  datatype PR = PR(
    number: nat,
    title: string,
    draft: bool,
    requestedReviewers: seq<string>,
    labels: seq<string>,
    htmlUrl: Option<string>,
    createdAt: int)

  /** A selected pull request tagged with the repository it belongs to. */
  datatype RepoPR = RepoPR(pr: PR, repo: string)

  const SuppressLabel: string := "suppress-pr-reminder"
  const MaxResults: nat := 100

  /** The exclusion reasons, in the order the filter reports them. */
  const DraftReason: string := "draft"
  const SuppressedReason: string := "label:" + SuppressLabel
  const CutoffReason: string := "created_before_cutoff"
  const NoReviewersReason: string := "no_allowlisted_reviewers"
  const ReasonOrder: seq<string> := [DraftReason, SuppressedReason, CutoffReason, NoReviewersReason]

  /** What the filter decides about one pull request. */
  datatype Evaluation = Evaluation(included: bool, reasons: seq<string>, normalized: PR)

  /** A pull request worth a reminder: ready, not suppressed, recent, and waiting on at
      least one reviewer, every one of whom is allowlisted. */
  predicate Eligible(p: PR, allowlist: set<string>, cutoff: int) {
    && !p.draft
    && SuppressLabel !in p.labels
    && p.createdAt >= cutoff
    && |p.requestedReviewers| > 0
    && forall i :: 0 <= i < |p.requestedReviewers| ==> p.requestedReviewers[i] in allowlist
  }

  /** The requested reviewers whose login is allowlisted, in their original order. */
  function AllowedReviewers(reviewers: seq<string>, allowlist: set<string>): (r: seq<string>)
    ensures IsSubsequence(r, reviewers)
    ensures forall i :: 0 <= i < |r| ==> r[i] in allowlist
    ensures forall x :: x in allowlist ==> Count(x, r) == Count(x, reviewers)
    ensures forall x :: x !in allowlist ==> Count(x, r) == 0
    decreases |reviewers|
  {
    if reviewers == [] then []
    else
      var last := reviewers[|reviewers| - 1];
      var rest := AllowedReviewers(reviewers[..|reviewers| - 1], allowlist);
      if last in allowlist then
        assert (rest + [last])[..|rest|] == rest;
        rest + [last]
      else
        rest
  }

  /** An all-allowlisted reviewer list is left as it is. */
  lemma {:induction false} AllowedReviewersUnchanged(reviewers: seq<string>, allowlist: set<string>)
    requires forall i :: 0 <= i < |reviewers| ==> reviewers[i] in allowlist
    ensures AllowedReviewers(reviewers, allowlist) == reviewers
    decreases |reviewers|
  {
    if reviewers != [] {
      var init := reviewers[..|reviewers| - 1];
      AllowedReviewersUnchanged(init, allowlist);
      assert reviewers == init + [reviewers[|reviewers| - 1]];
    }
  }

  /** The four reasons are different strings (they differ in length). */
  lemma ReasonOrderDistinct()
    ensures Distinct(ReasonOrder)
  {
    assert |DraftReason| == 5 && |SuppressedReason| == 26;
    assert |CutoffReason| == 21 && |NoReviewersReason| == 24;
  }

  /** `reasons.push(reason)` when `holds`. */
  function PushIf(reasons: seq<string>, holds: bool, reason: string): (r: seq<string>)
    ensures forall x :: x in r <==> x in reasons || (holds && x == reason)
  {
    if holds then reasons + [reason] else reasons
  }

  lemma PushIfKeepsOrder(reasons: seq<string>, k: nat, holds: bool)
    requires k < |ReasonOrder|
    requires IsSubsequence(reasons, ReasonOrder[..k])
    ensures IsSubsequence(PushIf(reasons, holds, ReasonOrder[k]), ReasonOrder[..k + 1])
  {
    assert ReasonOrder[..k + 1][..k] == ReasonOrder[..k];
    if holds {
      assert (reasons + [ReasonOrder[k]])[..|reasons|] == reasons;
    }
  }

  /** The reasons that hold, pushed in the order the filter checks them. */
  function Reasons(draft: bool, suppressed: bool, stale: bool, unreviewed: bool): (r: seq<string>)
    ensures IsSubsequence(r, ReasonOrder)
    ensures r == [] <==> !draft && !suppressed && !stale && !unreviewed
  {
    var r0: seq<string> := [];
    var r1 := PushIf(r0, draft, ReasonOrder[0]);
    var r2 := PushIf(r1, suppressed, ReasonOrder[1]);
    var r3 := PushIf(r2, stale, ReasonOrder[2]);
    var r4 := PushIf(r3, unreviewed, ReasonOrder[3]);
    PushIfKeepsOrder(r0, 0, draft);
    PushIfKeepsOrder(r1, 1, suppressed);
    PushIfKeepsOrder(r2, 2, stale);
    PushIfKeepsOrder(r3, 3, unreviewed);
    assert ReasonOrder[..4] == ReasonOrder;
    r4
  }

  /** Each reason is reported exactly when its check fails. */
  lemma ReasonsReported(draft: bool, suppressed: bool, stale: bool, unreviewed: bool)
    ensures (DraftReason in Reasons(draft, suppressed, stale, unreviewed)) == draft
    ensures (SuppressedReason in Reasons(draft, suppressed, stale, unreviewed)) == suppressed
    ensures (CutoffReason in Reasons(draft, suppressed, stale, unreviewed)) == stale
    ensures (NoReviewersReason in Reasons(draft, suppressed, stale, unreviewed)) == unreviewed
  {
    ReasonOrderDistinct();
  }

  /** Decides whether `pr` is reminder-worthy. Every check is made, none short-circuits
      another, and the reviewer list is narrowed to the allowlist whatever the verdict. */
  function FilterPR(pr: PR, allowlist: set<string>, cutoff: int): (e: Evaluation)
    ensures (DraftReason in e.reasons) == pr.draft
    ensures (SuppressedReason in e.reasons) == (SuppressLabel in pr.labels)
    ensures (CutoffReason in e.reasons) == (pr.createdAt < cutoff)
    ensures (NoReviewersReason in e.reasons) == (e.normalized.requestedReviewers == [])
    ensures IsSubsequence(e.reasons, ReasonOrder)
    ensures e.included <==> e.reasons == []
    ensures e.included <==> Eligible(e.normalized, allowlist, cutoff)
    ensures e.normalized == pr.(requestedReviewers := AllowedReviewers(pr.requestedReviewers, allowlist))
  {
    var allowed := AllowedReviewers(pr.requestedReviewers, allowlist);
    var reasons := Reasons(pr.draft, SuppressLabel in pr.labels, pr.createdAt < cutoff, |allowed| == 0);
    ReasonsReported(pr.draft, SuppressLabel in pr.labels, pr.createdAt < cutoff, |allowed| == 0);
    Evaluation(|reasons| == 0, reasons, pr.(requestedReviewers := allowed))
  }

  /** The filter lets an eligible pull request through untouched. */
  lemma EligibleIsFixpoint(p: PR, allowlist: set<string>, cutoff: int)
    requires Eligible(p, allowlist, cutoff)
    ensures FilterPR(p, allowlist, cutoff) == Evaluation(true, [], p)
  {
    AllowedReviewersUnchanged(p.requestedReviewers, allowlist);
  }

  /** Each input, narrowed to its allowlisted reviewers, whether or not it is included. */
  function Normalized(prs: seq<PR>, allowlist: set<string>, cutoff: int): (r: seq<PR>)
    decreases |prs|
  {
    if prs == [] then []
    else Normalized(prs[..|prs| - 1], allowlist, cutoff) + [FilterPR(prs[|prs| - 1], allowlist, cutoff).normalized]
  }

  /** `filterPRs`: evaluate each pull request, keep the included ones, return them
      normalised. */
  function FilterPRs(prs: seq<PR>, allowlist: set<string>, cutoff: int): (r: seq<PR>)
    ensures |r| <= |prs|
    ensures forall p :: p in r ==> Eligible(p, allowlist, cutoff)
    ensures IsSubsequence(r, Normalized(prs, allowlist, cutoff))
    decreases |prs|
  {
    if prs == [] then []
    else
      var init := prs[..|prs| - 1];
      var e := FilterPR(prs[|prs| - 1], allowlist, cutoff);
      var rest := FilterPRs(init, allowlist, cutoff);
      if e.included then
        SubsequenceSnoc(rest, Normalized(init, allowlist, cutoff), e.normalized);
        rest + [e.normalized]
      else
        SubsequenceExtend(rest, Normalized(init, allowlist, cutoff), e.normalized);
        rest
  }

  /** Every included input reaches the output, normalised. */
  lemma {:induction false} FilterPRsComplete(prs: seq<PR>, allowlist: set<string>, cutoff: int, i: nat)
    requires i < |prs| && FilterPR(prs[i], allowlist, cutoff).included
    ensures FilterPR(prs[i], allowlist, cutoff).normalized in FilterPRs(prs, allowlist, cutoff)
    decreases |prs|
  {
    if i < |prs| - 1 {
      var init := prs[..|prs| - 1];
      assert init[i] == prs[i];
      FilterPRsComplete(init, allowlist, cutoff, i);
    }
  }

  /** Filtering a list of eligible pull requests returns it unchanged. */
  lemma {:induction false} FilterPRsOfEligible(prs: seq<PR>, allowlist: set<string>, cutoff: int)
    requires forall p :: p in prs ==> Eligible(p, allowlist, cutoff)
    ensures FilterPRs(prs, allowlist, cutoff) == prs
    decreases |prs|
  {
    if prs != [] {
      var init := prs[..|prs| - 1];
      assert forall p :: p in init ==> p in prs;
      FilterPRsOfEligible(init, allowlist, cutoff);
      EligibleIsFixpoint(prs[|prs| - 1], allowlist, cutoff);
      SplitLast(prs);
    }
  }

  /** `filterPRs` is idempotent. */
  lemma FilterPRsIdempotent(prs: seq<PR>, allowlist: set<string>, cutoff: int)
    ensures FilterPRs(FilterPRs(prs, allowlist, cutoff), allowlist, cutoff) == FilterPRs(prs, allowlist, cutoff)
  {
    FilterPRsOfEligible(FilterPRs(prs, allowlist, cutoff), allowlist, cutoff);
  }

  /** Appending to the input appends the filtered tail to the output. */
  lemma {:induction false} FilterPRsAppend(prs: seq<PR>, p: PR, allowlist: set<string>, cutoff: int)
    ensures FilterPRs(prs + [p], allowlist, cutoff) ==
      FilterPRs(prs, allowlist, cutoff) + FilterPRs([p], allowlist, cutoff)
  {
    assert (prs + [p])[..|prs|] == prs;
    assert [p][..0] == [];
  }

  lemma FilterPRsSingle(p: PR, allowlist: set<string>, cutoff: int)
    ensures FilterPRs([p], allowlist, cutoff)
         == if FilterPR(p, allowlist, cutoff).included then [FilterPR(p, allowlist, cutoff).normalized] else []
  {
    assert [p][..0] == [];
  }

  /** An excluded pull request followed by an eligible one filters to the eligible one. */
  lemma ExcludedThenKept(excluded: PR, kept: PR, allowlist: set<string>, cutoff: int)
    requires !FilterPR(excluded, allowlist, cutoff).included
    requires Eligible(kept, allowlist, cutoff)
    ensures FilterPRs([excluded, kept], allowlist, cutoff) == [kept]
  {
    FilterPRsAppend([excluded], kept, allowlist, cutoff);
    FilterPRsSingle(excluded, allowlist, cutoff);
    FilterPRsSingle(kept, allowlist, cutoff);
    EligibleIsFixpoint(kept, allowlist, cutoff);
    assert [excluded] + [kept] == [excluded, kept];
  }

  // The cases of the source's filter tests, with alice allowlisted and every pull
  // request created at the cutoff.

  const ReadyPR := PR(2, "Ready PR", false, ["alice"], [], None, 0)

  lemma DraftExcludedScenario()
    ensures FilterPRs([PR(1, "Draft PR", true, ["alice"], [], None, 0), ReadyPR], {"alice"}, 0) == [ReadyPR]
  {
    ExcludedThenKept(PR(1, "Draft PR", true, ["alice"], [], None, 0), ReadyPR, {"alice"}, 0);
  }

  lemma SuppressedExcludedScenario()
    ensures FilterPRs([PR(1, "Suppressed", false, ["alice"], ["suppress-pr-reminder"], None, 0), ReadyPR], {"alice"}, 0)
         == [ReadyPR]
  {
    ExcludedThenKept(PR(1, "Suppressed", false, ["alice"], ["suppress-pr-reminder"], None, 0), ReadyPR, {"alice"}, 0);
  }

  lemma NoReviewersExcludedScenario()
    ensures FilterPRs([PR(1, "No reviewers", false, [], [], None, 0), ReadyPR], {"alice"}, 0) == [ReadyPR]
  {
    ExcludedThenKept(PR(1, "No reviewers", false, [], [], None, 0), ReadyPR, {"alice"}, 0);
  }

  /** The owner and repository named in a repository URL. */
  datatype RepoRef = RepoRef(owner: string, repo: string)

  const ReposPrefix: string := "repos/"

  predicate NoSlash(s: string) {
    forall k :: 0 <= k < |s| ==> s[k] != '/'
  }

  /** The end of the run of non-`/` characters starting at `j`: what `[^/]+` consumes. */
  function SegmentEnd(url: string, j: nat): (e: nat)
    requires j <= |url|
    ensures j <= e <= |url|
    ensures forall k :: j <= k < e ==> url[k] != '/'
    ensures e < |url| ==> url[e] == '/'
    decreases |url| - j
  {
    if j == |url| || url[j] == '/' then j else SegmentEnd(url, j + 1)
  }

  /** The match of `repos\/([^/]+)\/([^/]+)` starting exactly at `i`, if any. */
  function MatchAt(url: string, i: nat): Option<RepoRef>
    requires i <= |url|
  {
    if i + |ReposPrefix| <= |url| && url[i..i + |ReposPrefix|] == ReposPrefix then
      var ownerEnd := SegmentEnd(url, i + |ReposPrefix|);
      if i + |ReposPrefix| < ownerEnd < |url| then
        var repoEnd := SegmentEnd(url, ownerEnd + 1);
        if ownerEnd + 1 < repoEnd then
          Some(RepoRef(url[i + |ReposPrefix|..ownerEnd], url[ownerEnd + 1..repoEnd]))
        else None
      else None
    else None
  }

  /** The leftmost match at or after `i`. */
  function FirstMatch(url: string, i: nat): Option<RepoRef>
    requires i <= |url|
    decreases |url| - i
  {
    if MatchAt(url, i).Some? then MatchAt(url, i)
    else if i == |url| then None
    else FirstMatch(url, i + 1)
  }

  /** `parseRepoFromUrl`: the owner and repository of the first `repos/<owner>/<repo>`
      in `url`, or the error it throws. */
  function ParseRepoFromUrl(url: string): (r: Result<RepoRef, string>)
    ensures r.Success? ==> r.value.owner != "" && NoSlash(r.value.owner)
    ensures r.Success? ==> r.value.repo != "" && NoSlash(r.value.repo)
    ensures r.Failure? ==> r.error == "Unable to parse repository from URL: " + url
  {
    match FirstMatch(url, 0)
    case Some(ref) =>
      FirstMatchFound(url, 0);
      Success(ref)
    case None => Failure("Unable to parse repository from URL: " + url)
  }

  /** The text `repos/<owner>/<repo>` for non-empty, slash-free segments. */
  function RepoPath(owner: string, repo: string): string {
    ReposPrefix + owner + "/" + repo
  }

  /** `repos/<owner>/<repo>` with non-empty, slash-free segments starts at index `i`. */
  ghost predicate OccursAt(url: string, i: nat, owner: string, repo: string) {
    && owner != "" && NoSlash(owner)
    && repo != "" && NoSlash(repo)
    && i + |RepoPath(owner, repo)| <= |url|
    && url[i..i + |RepoPath(owner, repo)|] == RepoPath(owner, repo)
  }

  /** Some `repos/<owner>/<repo>` starts at `i`. */
  ghost predicate OccurrenceAt(url: string, i: nat) {
    exists owner, repo :: OccursAt(url, i, owner, repo)
  }

  lemma MatchAtSound(url: string, i: nat)
    requires i <= |url| && MatchAt(url, i).Some?
    ensures var ref := MatchAt(url, i).value;
      && OccursAt(url, i, ref.owner, ref.repo)
      && (i + |RepoPath(ref.owner, ref.repo)| == |url| || url[i + |RepoPath(ref.owner, ref.repo)|] == '/')
  {
    MatchAtSegments(url, i);
    MatchAtText(url, i);
  }

  /** The two captured segments are non-empty and free of `/`. */
  lemma MatchAtSegments(url: string, i: nat)
    requires i <= |url| && MatchAt(url, i).Some?
    ensures var ref := MatchAt(url, i).value;
      ref.owner != "" && NoSlash(ref.owner) && ref.repo != "" && NoSlash(ref.repo)
  {
    var ref := MatchAt(url, i).value;
    var ownerEnd := SegmentEnd(url, i + |ReposPrefix|);
    var repoEnd := SegmentEnd(url, ownerEnd + 1);
    assert ref.owner == url[i + |ReposPrefix|..ownerEnd] && ref.repo == url[ownerEnd + 1..repoEnd];
    forall k | 0 <= k < |ref.owner| ensures ref.owner[k] != '/' {
      assert ref.owner[k] == url[i + |ReposPrefix| + k];
    }
    forall k | 0 <= k < |ref.repo| ensures ref.repo[k] != '/' {
      assert ref.repo[k] == url[ownerEnd + 1 + k];
    }
  }

  /** The match spans the text `repos/<owner>/<repo>`, and the repository segment runs
      to the end of the URL or to a `/`. */
  lemma MatchAtText(url: string, i: nat)
    requires i <= |url| && MatchAt(url, i).Some?
    ensures var ref := MatchAt(url, i).value;
      && i + |RepoPath(ref.owner, ref.repo)| <= |url|
      && url[i..i + |RepoPath(ref.owner, ref.repo)|] == RepoPath(ref.owner, ref.repo)
      && (i + |RepoPath(ref.owner, ref.repo)| == |url| || url[i + |RepoPath(ref.owner, ref.repo)|] == '/')
  {
    var ref := MatchAt(url, i).value;
    var start := i + |ReposPrefix|;
    var ownerEnd := SegmentEnd(url, start);
    var repoEnd := SegmentEnd(url, ownerEnd + 1);
    assert ref.owner == url[start..ownerEnd] && ref.repo == url[ownerEnd + 1..repoEnd];
    assert url[i..start] == ReposPrefix;
    assert url[ownerEnd..ownerEnd + 1] == "/";
    SliceSplit(url, i, start, ownerEnd, ownerEnd + 1, repoEnd);
    assert |RepoPath(ref.owner, ref.repo)| == repoEnd - i;
  }

  lemma MatchAtComplete(url: string, i: nat, owner: string, repo: string)
    requires i <= |url| && OccursAt(url, i, owner, repo)
    ensures MatchAt(url, i).Some?
  {
    var path := RepoPath(owner, repo);
    var start := i + |ReposPrefix|;
    var slash := start + |owner|;
    assert url[i..i + |path|] == path;
    assert url[i..start] == path[..|ReposPrefix|] == ReposPrefix;
    forall k | start <= k < slash ensures url[k] != '/' {
      assert url[k] == path[k - i] == owner[k - start];
    }
    assert url[slash] == path[slash - i] == '/';
    assert url[slash + 1] == path[slash + 1 - i] == repo[0];
    var ownerEnd := SegmentEnd(url, start);
    assert ownerEnd == slash;
  }

  lemma {:induction false} FirstMatchFound(url: string, i: nat)
    requires i <= |url| && FirstMatch(url, i).Some?
    ensures FirstMatch(url, i).value.owner != "" && NoSlash(FirstMatch(url, i).value.owner)
    ensures FirstMatch(url, i).value.repo != "" && NoSlash(FirstMatch(url, i).value.repo)
    decreases |url| - i
  {
    var j := FirstMatchIndex(url, i);
    MatchAtSound(url, j);
  }

  /** Where the leftmost match at or after `i` starts. */
  lemma {:induction false} FirstMatchIndex(url: string, i: nat) returns (j: nat)
    requires i <= |url| && FirstMatch(url, i).Some?
    ensures i <= j <= |url| && MatchAt(url, j) == FirstMatch(url, i)
    ensures forall k :: i <= k < j ==> MatchAt(url, k).None?
    decreases |url| - i
  {
    if MatchAt(url, i).Some? {
      j := i;
    } else {
      j := FirstMatchIndex(url, i + 1);
      forall k | i <= k < j ensures MatchAt(url, k).None? {
        if k != i {
          assert i + 1 <= k;
        }
      }
    }
  }

  lemma {:induction false} FirstMatchMissing(url: string, i: nat, j: nat)
    requires i <= j <= |url| && FirstMatch(url, i).None?
    ensures MatchAt(url, j).None?
    decreases |url| - i
  {
    if i < j {
      FirstMatchMissing(url, i + 1, j);
    }
  }

  /** On success the parsed owner and repository form the leftmost `repos/<owner>/<repo>`
      in the URL, each segment taken whole up to the next `/`. */
  lemma ParseRepoFromUrlSound(url: string) returns (i: nat)
    requires ParseRepoFromUrl(url).Success?
    ensures var ref := ParseRepoFromUrl(url).value;
      && OccursAt(url, i, ref.owner, ref.repo)
      && (i + |RepoPath(ref.owner, ref.repo)| == |url| || url[i + |RepoPath(ref.owner, ref.repo)|] == '/')
    ensures forall k: nat :: k < i ==> !OccurrenceAt(url, k)
  {
    i := FirstMatchIndex(url, 0);
    MatchAtSound(url, i);
    forall k: nat | k < i ensures !OccurrenceAt(url, k) {
      if OccurrenceAt(url, k) {
        var o, p :| OccursAt(url, k, o, p);
        MatchAtComplete(url, k, o, p);
      }
    }
  }

  /** `parseRepoFromUrl` throws exactly when no `repos/<owner>/<repo>` occurs. */
  lemma ParseRepoFromUrlFails(url: string)
    ensures ParseRepoFromUrl(url).Failure? <==> forall i: nat :: !OccurrenceAt(url, i)
  {
    if ParseRepoFromUrl(url).Success? {
      var ref := ParseRepoFromUrl(url).value;
      var i := ParseRepoFromUrlSound(url);
      assert OccurrenceAt(url, i);
    } else {
      forall i: nat ensures !OccurrenceAt(url, i) {
        if OccurrenceAt(url, i) {
          var o, p :| OccursAt(url, i, o, p);
          FirstMatchMissing(url, 0, i);
          MatchAtComplete(url, i, o, p);
        }
      }
    }
  }

  /** `[^/]+` starting at `j` stops exactly at `e` when the characters up to `e` are
      not `/` and `e` is the end or a `/`. */
  lemma {:induction false} SegmentEndAt(url: string, j: nat, e: nat)
    requires j <= e <= |url|
    requires forall k :: j <= k < e ==> url[k] != '/'
    requires e == |url| || url[e] == '/'
    ensures SegmentEnd(url, j) == e
    decreases e - j
  {
    if j < e {
      SegmentEndAt(url, j + 1, e);
    }
  }

  /** Positions where no match starts do not change the leftmost match. */
  lemma {:induction false} FirstMatchSkip(url: string, i: nat, j: nat)
    requires i <= j <= |url|
    requires forall k :: i <= k < j ==> MatchAt(url, k).None?
    ensures FirstMatch(url, i) == FirstMatch(url, j)
    decreases j - i
  {
    if i < j {
      FirstMatchSkip(url, i + 1, j);
    }
  }

  /** A match needs an `r` where it starts, so none starts inside an `r`-free prefix. */
  lemma NoMatchInPrefix(prefix: string, rest: string)
    requires forall k :: 0 <= k < |prefix| ==> prefix[k] != 'r'
    ensures FirstMatch(prefix + rest, 0) == FirstMatch(prefix + rest, |prefix|)
  {
    var url := prefix + rest;
    assert ReposPrefix[0] == 'r';
    forall k | 0 <= k < |prefix| ensures MatchAt(url, k).None? {
      if k + |ReposPrefix| <= |url| {
        assert url[k..k + |ReposPrefix|][0] == url[k] == prefix[k];
      }
    }
    FirstMatchSkip(url, 0, |prefix|);
  }

  /** `repos/<owner>/<repo>` at the end of a URL is matched with exactly these segments. */
  lemma MatchAtPath(prefix: string, owner: string, repo: string)
    requires owner != "" && NoSlash(owner) && repo != "" && NoSlash(repo)
    ensures MatchAt(prefix + RepoPath(owner, repo), |prefix|) == Some(RepoRef(owner, repo))
  {
    ConcatParts(prefix, ReposPrefix, owner, "/", repo);
    MatchAtEnd(prefix + RepoPath(owner, repo), |prefix|, owner, repo);
  }

  lemma MatchAtEnd(url: string, i: nat, owner: string, repo: string)
    requires owner != "" && NoSlash(owner) && repo != "" && NoSlash(repo)
    requires i + |ReposPrefix| + |owner| + 1 + |repo| == |url|
    requires url[i..i + |ReposPrefix|] == ReposPrefix
    requires url[i + |ReposPrefix|..i + |ReposPrefix| + |owner|] == owner
    requires url[i + |ReposPrefix| + |owner|] == '/'
    requires url[i + |ReposPrefix| + |owner| + 1..|url|] == repo
    ensures MatchAt(url, i) == Some(RepoRef(owner, repo))
  {
    var start := i + |ReposPrefix|;
    var slash := start + |owner|;
    forall k | start <= k < slash ensures url[k] != '/' {
      assert url[k] == url[start..slash][k - start];
    }
    forall k | slash + 1 <= k < |url| ensures url[k] != '/' {
      assert url[k] == url[slash + 1..|url|][k - slash - 1];
    }
    SegmentEndAt(url, start, slash);
    SegmentEndAt(url, slash + 1, |url|);
  }

  /** A URL ending in `repos/<owner>/<repo>`, with no `r` before it, yields that owner
      and repository. */
  lemma ParseAfterPrefix(prefix: string, owner: string, repo: string)
    requires forall k :: 0 <= k < |prefix| ==> prefix[k] != 'r'
    requires owner != "" && NoSlash(owner) && repo != "" && NoSlash(repo)
    ensures ParseRepoFromUrl(prefix + RepoPath(owner, repo)) == Success(RepoRef(owner, repo))
  {
    NoMatchInPrefix(prefix, RepoPath(owner, repo));
    MatchAtPath(prefix, owner, repo);
  }

  /** The repository URL of a search hit, as the API reports it. */
  lemma ParseRepoFromUrlScenario()
    ensures ParseRepoFromUrl("https://api.github.com/" + RepoPath("my-org", "api"))
         == Success(RepoRef("my-org", "api"))
  {
    ParseAfterPrefix("https://api.github.com/", "my-org", "api");
  }

  /** What the detail request for one search hit returned. */
  datatype FetchOutcome = Fetched(pr: PR) | FetchFailed

  /** A search hit: whether it is a pull request, its repository URL ("" when absent),
      and the outcome of the detail request the loop would make for it. */
  datatype SearchItem = SearchItem(number: nat, isPullRequest: bool, repositoryUrl: string, detail: FetchOutcome)

  /** The loop's accumulators: the selected pull requests and the skip-reason tally. */
  datatype Tally = Tally(results: seq<RepoPR>, reasonCounts: map<string, nat>)

  /** What a discovery run yields: the selected pull requests, the tally it logs and
      the number of processed hits that were not selected. */
  datatype Discovery = Discovery(results: seq<RepoPR>, reasonCounts: map<string, nat>, skipped: int)

  /** The hits the loop does not skip outright. */
  predicate IsReviewable(item: SearchItem) {
    item.isPullRequest && item.repositoryUrl != ""
  }

  /** A reviewable hit whose repository URL does not parse: it aborts the loop. */
  predicate HasBadUrl(item: SearchItem) {
    IsReviewable(item) && ParseRepoFromUrl(item.repositoryUrl).Failure?
  }

  /** `reasonCounts[reason] ?? 0`. */
  function CountOf(counts: map<string, nat>, reason: string): nat {
    if reason in counts then counts[reason] else 0
  }

  /** The tally after counting each of `reasons` once more. */
  function AddReasons(counts: map<string, nat>, reasons: seq<string>): map<string, nat>
    decreases |reasons|
  {
    if reasons == [] then counts
    else
      var c := AddReasons(counts, reasons[..|reasons| - 1]);
      c[reasons[|reasons| - 1] := CountOf(c, reasons[|reasons| - 1]) + 1]
  }

  /** Each reason's count grows by its number of occurrences, and the keys are the old
      keys and the reasons. */
  lemma {:induction false} AddReasonsCounts(counts: map<string, nat>, reasons: seq<string>)
    ensures forall x :: CountOf(AddReasons(counts, reasons), x) == CountOf(counts, x) + Count(x, reasons)
    ensures forall x :: x in AddReasons(counts, reasons) <==> x in counts || x in reasons
    decreases |reasons|
  {
    if reasons != [] {
      var init := reasons[..|reasons| - 1];
      var last := reasons[|reasons| - 1];
      AddReasonsCounts(counts, init);
      assert reasons == init + [last];
      forall x ensures Count(x, reasons) == Count(x, init) + if last == x then 1 else 0 {
        CountSnoc(x, init, last);
      }
    }
  }

  /** One iteration of the loop: the new accumulators, or the error that ends the run. */
  function Visit(t: Tally, item: SearchItem, allowlist: set<string>, cutoff: int): (r: Result<Tally, string>)
    ensures r.Failure? <==> HasBadUrl(item)
    ensures r.Failure? ==> r.error == ParseRepoFromUrl(item.repositoryUrl).error
  {
    if !IsReviewable(item) then Success(t)
    else
      match ParseRepoFromUrl(item.repositoryUrl)
      case Failure(e) => Failure(e)
      case Success(ref) =>
        match item.detail
        case FetchFailed => Success(t)
        case Fetched(pr) =>
          var evaluation := FilterPR(pr, allowlist, cutoff);
          if !evaluation.included then Success(t.(reasonCounts := AddReasons(t.reasonCounts, evaluation.reasons)))
          else Success(t.(results := t.results + [RepoPR(evaluation.normalized, ref.repo)]))
  }

  /** The loop run over `items`, from empty accumulators. */
  function Collect(items: seq<SearchItem>, allowlist: set<string>, cutoff: int): (r: Result<Tally, string>)
    ensures r.Success? ==> |r.value.results| <= |items|
    ensures r.Success? ==> forall k :: 0 <= k < |r.value.results| ==> Eligible(r.value.results[k].pr, allowlist, cutoff)
    decreases |items|
  {
    if items == [] then Success(Tally([], map[]))
    else
      match Collect(items[..|items| - 1], allowlist, cutoff)
      case Failure(e) => Failure(e)
      case Success(t) => Visit(t, items[|items| - 1], allowlist, cutoff)
  }

  /** The first `MaxResults` search hits. */
  function Batch(items: seq<SearchItem>): (b: seq<SearchItem>)
    ensures |b| <= MaxResults && b <= items
    ensures |items| <= MaxResults ==> b == items
    ensures |items| > MaxResults ==> |b| == MaxResults && b == items[..MaxResults]
  {
    if |items| <= MaxResults then items else items[..MaxResults]
  }

  /** The per-item loop of `fetchRecentPRs`, with the search response and the detail
      requests given as `searchItems`. */
  method FetchRecentPRs(searchItems: seq<SearchItem>, allowlist: set<string>, cutoff: int)
    returns (r: Result<Discovery, string>)
    ensures Collect(Batch(searchItems), allowlist, cutoff).Failure? ==>
      r == Failure(Collect(Batch(searchItems), allowlist, cutoff).error)
    ensures Collect(Batch(searchItems), allowlist, cutoff).Success? ==>
      var t := Collect(Batch(searchItems), allowlist, cutoff).value;
      r == Success(Discovery(t.results, t.reasonCounts, |Batch(searchItems)| - |t.results|))
    ensures r.Success? ==> 0 <= r.value.skipped <= MaxResults
    ensures r.Success? ==> forall k :: 0 <= k < |r.value.results| ==> Eligible(r.value.results[k].pr, allowlist, cutoff)
  {
    var results: seq<RepoPR> := [];
    var items := Batch(searchItems);
    var reasonCounts: map<string, nat> := map[];

    for i := 0 to |items|
      invariant Collect(items[..i], allowlist, cutoff) == Success(Tally(results, reasonCounts))
    {
      var item := items[i];
      CollectStep(items, i, allowlist, cutoff);
      if !item.isPullRequest || item.repositoryUrl == "" {
        continue;
      }

      var ref;
      match ParseRepoFromUrl(item.repositoryUrl) {
        case Failure(e) =>
          assert Collect(items[..i + 1], allowlist, cutoff) == Failure(e);
          CollectAbortsForever(items, i + 1, allowlist, cutoff);
          return Failure(e);
        case Success(parsed) =>
          ref := parsed;
      }

      match item.detail {
        case FetchFailed =>
          continue;
        case Fetched(pr) =>
          var candidate := pr;
          var evaluation := FilterPR(candidate, allowlist, cutoff);
          if !evaluation.included {
            reasonCounts := CountReasons(reasonCounts, evaluation.reasons);
            continue;
          }
          results := results + [RepoPR(evaluation.normalized, ref.repo)];
      }
    }
    WholePrefix(items);
    r := Success(Discovery(results, reasonCounts, |items| - |results|));
  }

  /** `reasonCounts[reason] = (reasonCounts[reason] ?? 0) + 1` for each reason in turn. */
  method CountReasons(counts: map<string, nat>, reasons: seq<string>) returns (r: map<string, nat>)
    ensures r == AddReasons(counts, reasons)
  {
    r := counts;
    for j := 0 to |reasons|
      invariant r == AddReasons(counts, reasons[..j])
    {
      var reason := reasons[j];
      AddReasonsStep(counts, reasons, j);
      r := r[reason := CountOf(r, reason) + 1];
    }
    WholePrefix(reasons);
  }

  lemma AddReasonsStep(counts: map<string, nat>, reasons: seq<string>, j: nat)
    requires j < |reasons|
    ensures AddReasons(counts, reasons[..j + 1])
         == AddReasons(counts, reasons[..j])[reasons[j] := CountOf(AddReasons(counts, reasons[..j]), reasons[j]) + 1]
  {
    PrefixOfPrefix(reasons, j, j + 1);
  }

  lemma CollectStep(items: seq<SearchItem>, i: nat, allowlist: set<string>, cutoff: int)
    requires i < |items|
    ensures Collect(items[..i], allowlist, cutoff).Failure? ==>
      Collect(items[..i + 1], allowlist, cutoff) == Collect(items[..i], allowlist, cutoff)
    ensures Collect(items[..i], allowlist, cutoff).Success? ==>
      Collect(items[..i + 1], allowlist, cutoff) == Visit(Collect(items[..i], allowlist, cutoff).value, items[i], allowlist, cutoff)
  {
    PrefixOfPrefix(items, i, i + 1);
  }

  /** Once the loop has aborted, later hits do not matter. */
  lemma {:induction false} CollectAbortsForever(items: seq<SearchItem>, n: nat, allowlist: set<string>, cutoff: int)
    requires n <= |items| && Collect(items[..n], allowlist, cutoff).Failure?
    ensures Collect(items, allowlist, cutoff) == Collect(items[..n], allowlist, cutoff)
    decreases |items| - n
  {
    if n < |items| {
      PrefixOfPrefix(items, n, n + 1);
      CollectAbortsForever(items, n + 1, allowlist, cutoff);
    } else {
      assert items[..n] == items;
    }
  }

  /** The fetched pull requests of the reviewable hits whose URL parses, tagged with
      their repository, in hit order: what the loop hands to the filter. */
  function Candidates(items: seq<SearchItem>): seq<RepoPR>
    decreases |items|
  {
    if items == [] then []
    else
      var rest := Candidates(items[..|items| - 1]);
      var item := items[|items| - 1];
      if IsReviewable(item) && item.detail.Fetched? && ParseRepoFromUrl(item.repositoryUrl).Success? then
        rest + [RepoPR(item.detail.pr, ParseRepoFromUrl(item.repositoryUrl).value.repo)]
      else rest
  }

  /** The pull requests of tagged pull requests. */
  function Prs(rs: seq<RepoPR>): (r: seq<PR>)
    ensures |r| == |rs|
    decreases |rs|
  {
    if rs == [] then [] else Prs(rs[..|rs| - 1]) + [rs[|rs| - 1].pr]
  }

  /** Each candidate narrowed to its allowlisted reviewers, keeping its repository. */
  function Tagged(rs: seq<RepoPR>, allowlist: set<string>, cutoff: int): seq<RepoPR>
    decreases |rs|
  {
    if rs == [] then []
    else
      var last := rs[|rs| - 1];
      Tagged(rs[..|rs| - 1], allowlist, cutoff) + [RepoPR(FilterPR(last.pr, allowlist, cutoff).normalized, last.repo)]
  }

  /** How many candidates the filter excludes for `reason`. */
  function ReasonTally(rs: seq<RepoPR>, allowlist: set<string>, cutoff: int, reason: string): nat
    decreases |rs|
  {
    if rs == [] then 0
    else
      ReasonTally(rs[..|rs| - 1], allowlist, cutoff, reason)
      + (if reason in FilterPR(rs[|rs| - 1].pr, allowlist, cutoff).reasons then 1 else 0)
  }

  /** The filter reports each reason at most once. */
  lemma ReasonsDistinct(pr: PR, allowlist: set<string>, cutoff: int)
    ensures Distinct(FilterPR(pr, allowlist, cutoff).reasons)
  {
    ReasonOrderDistinct();
    SubsequenceOfDistinct(FilterPR(pr, allowlist, cutoff).reasons, ReasonOrder);
  }

  /** The run aborts exactly when a reviewable hit has an unparsable URL, with the
      error of the first such hit. */
  lemma {:induction false} CollectAborts(items: seq<SearchItem>, allowlist: set<string>, cutoff: int)
    ensures Collect(items, allowlist, cutoff).Failure? <==> exists k :: 0 <= k < |items| && HasBadUrl(items[k])
    ensures Collect(items, allowlist, cutoff).Failure? ==>
      exists k :: 0 <= k < |items| && HasBadUrl(items[k]) &&
        (forall j :: 0 <= j < k ==> !HasBadUrl(items[j])) &&
        Collect(items, allowlist, cutoff).error == ParseRepoFromUrl(items[k].repositoryUrl).error
  {
    if Collect(items, allowlist, cutoff).Failure? {
      var k := CollectFirstBad(items, allowlist, cutoff);
    } else {
      CollectClean(items, allowlist, cutoff);
    }
  }

  /** A run that does not abort met no unparsable URL. */
  lemma {:induction false} CollectClean(items: seq<SearchItem>, allowlist: set<string>, cutoff: int)
    requires Collect(items, allowlist, cutoff).Success?
    ensures forall k :: 0 <= k < |items| ==> !HasBadUrl(items[k])
    decreases |items|
  {
    if items != [] {
      var init := items[..|items| - 1];
      CollectClean(init, allowlist, cutoff);
      assert forall k :: 0 <= k < |init| ==> init[k] == items[k];
    }
  }

  /** The hit whose URL aborted the run: the first unparsable one. */
  lemma {:induction false} CollectFirstBad(items: seq<SearchItem>, allowlist: set<string>, cutoff: int) returns (k: nat)
    requires Collect(items, allowlist, cutoff).Failure?
    ensures k < |items| && HasBadUrl(items[k])
    ensures forall j :: 0 <= j < k ==> !HasBadUrl(items[j])
    ensures Collect(items, allowlist, cutoff).error == ParseRepoFromUrl(items[k].repositoryUrl).error
    decreases |items|
  {
    var init := items[..|items| - 1];
    if Collect(init, allowlist, cutoff).Failure? {
      k := CollectFirstBad(init, allowlist, cutoff);
      assert forall j :: 0 <= j <= k ==> init[j] == items[j];
    } else {
      CollectClean(init, allowlist, cutoff);
      k := |items| - 1;
      assert forall j :: 0 <= j < k ==> init[j] == items[j];
    }
  }

  /** On a run that does not abort, the selected pull requests are exactly `filterPRs`
      of the fetched candidates. */
  lemma {:induction false} CollectSelects(items: seq<SearchItem>, allowlist: set<string>, cutoff: int)
    requires Collect(items, allowlist, cutoff).Success?
    ensures Prs(Collect(items, allowlist, cutoff).value.results)
         == FilterPRs(Prs(Candidates(items)), allowlist, cutoff)
    decreases |items|
  {
    if items != [] {
      var init := items[..|items| - 1];
      var item := items[|items| - 1];
      CollectSelects(init, allowlist, cutoff);
      var t0 := Collect(init, allowlist, cutoff).value;
      var cands0 := Candidates(init);
      var t := Collect(items, allowlist, cutoff).value;
      if IsReviewable(item) && item.detail.Fetched? {
        var ref := ParseRepoFromUrl(item.repositoryUrl).value;
        var c := RepoPR(item.detail.pr, ref.repo);
        var e := FilterPR(c.pr, allowlist, cutoff);
        assert Candidates(items) == cands0 + [c];
        PrsSnoc(cands0, c);
        FilterPRsAppend(Prs(cands0), c.pr, allowlist, cutoff);
        FilterPRsSingle(c.pr, allowlist, cutoff);
        if e.included {
          assert t.results == t0.results + [RepoPR(e.normalized, ref.repo)];
          PrsSnoc(t0.results, RepoPR(e.normalized, ref.repo));
        }
      }
    }
  }

  /** On a run that does not abort, each selected pull request keeps its candidate's
      repository, and the selection keeps hit order. */
  lemma {:induction false} CollectKeepsOrder(items: seq<SearchItem>, allowlist: set<string>, cutoff: int)
    requires Collect(items, allowlist, cutoff).Success?
    ensures IsSubsequence(Collect(items, allowlist, cutoff).value.results, Tagged(Candidates(items), allowlist, cutoff))
    decreases |items|
  {
    if items != [] {
      var init := items[..|items| - 1];
      var item := items[|items| - 1];
      CollectKeepsOrder(init, allowlist, cutoff);
      var t0 := Collect(init, allowlist, cutoff).value;
      var cands0 := Candidates(init);
      var t := Collect(items, allowlist, cutoff).value;
      if IsReviewable(item) && item.detail.Fetched? {
        var ref := ParseRepoFromUrl(item.repositoryUrl).value;
        var c := RepoPR(item.detail.pr, ref.repo);
        var e := FilterPR(c.pr, allowlist, cutoff);
        var tagged := RepoPR(e.normalized, c.repo);
        assert Candidates(items) == cands0 + [c];
        TaggedSnoc(cands0, c, allowlist, cutoff);
        if e.included {
          assert t.results == t0.results + [tagged];
          SubsequenceSnoc(t0.results, Tagged(cands0, allowlist, cutoff), tagged);
        } else {
          SubsequenceExtend(t0.results, Tagged(cands0, allowlist, cutoff), tagged);
        }
      }
    }
  }

  lemma PrsSnoc(rs: seq<RepoPR>, r: RepoPR)
    ensures Prs(rs + [r]) == Prs(rs) + [r.pr]
  {
    InitOfAppend(rs, [r]);
  }

  lemma TaggedSnoc(rs: seq<RepoPR>, r: RepoPR, allowlist: set<string>, cutoff: int)
    ensures Tagged(rs + [r], allowlist, cutoff)
         == Tagged(rs, allowlist, cutoff) + [RepoPR(FilterPR(r.pr, allowlist, cutoff).normalized, r.repo)]
  {
    InitOfAppend(rs, [r]);
  }

  /** On a run that does not abort, the tally counts, per reason, the excluded
      candidates that reported it, and holds exactly the reasons reported at least once. */
  lemma {:induction false} CollectTallies(items: seq<SearchItem>, allowlist: set<string>, cutoff: int)
    requires Collect(items, allowlist, cutoff).Success?
    ensures var t := Collect(items, allowlist, cutoff).value;
      && (forall reason :: CountOf(t.reasonCounts, reason) == ReasonTally(Candidates(items), allowlist, cutoff, reason))
      && (forall reason :: reason in t.reasonCounts <==> ReasonTally(Candidates(items), allowlist, cutoff, reason) > 0)
    decreases |items|
  {
    if items != [] {
      var init := items[..|items| - 1];
      var item := items[|items| - 1];
      CollectTallies(init, allowlist, cutoff);
      var t0 := Collect(init, allowlist, cutoff).value;
      var cands0 := Candidates(init);
      var t := Collect(items, allowlist, cutoff).value;
      var cands := Candidates(items);
      if IsReviewable(item) && item.detail.Fetched? {
        var ref := ParseRepoFromUrl(item.repositoryUrl).value;
        var c := RepoPR(item.detail.pr, ref.repo);
        var e := FilterPR(c.pr, allowlist, cutoff);
        assert cands == cands0 + [c];
        assert cands[..|cands| - 1] == cands0;
        if !e.included {
          assert t.reasonCounts == AddReasons(t0.reasonCounts, e.reasons);
          AddReasonsCounts(t0.reasonCounts, e.reasons);
          ReasonsDistinct(c.pr, allowlist, cutoff);
          forall reason ensures CountOf(t.reasonCounts, reason) == ReasonTally(cands, allowlist, cutoff, reason) {
            CountDistinct(reason, e.reasons);
          }
        } else {
          assert t.reasonCounts == t0.reasonCounts;
        }
      }
    }
  }
}
