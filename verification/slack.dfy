/** Grouping of the selected pull requests by reviewer and rendering of the reminder
    message (src/slack.ts). */
module Slack {
  import opened Wrappers
  import opened Sequences
  import opened Text
  import opened Github
  import Config

  /** Slack user id by GitHub login. */
  type UserMap = Config.UserMap

  /** Pull requests by reviewer login. */
  type GroupedPRs = map<string, seq<RepoPR>>

  /** The reviewer logins named by any of `prs`. */
  function Logins(prs: seq<RepoPR>): (r: set<string>)
    ensures forall i, k :: 0 <= i < |prs| && 0 <= k < |prs[i].pr.requestedReviewers| ==> prs[i].pr.requestedReviewers[k] in r
    decreases |prs|
  {
    if prs == [] then {}
    else
      var init := prs[..|prs| - 1];
      var r := Logins(init) + Elements(prs[|prs| - 1].pr.requestedReviewers);
      assert forall i :: 0 <= i < |init| ==> prs[i] == init[i];
      r
  }

  /** The group of `login`: each pull request in input order, once per time it names
      `login` as a reviewer. */
  function GroupOf(prs: seq<RepoPR>, login: string): seq<RepoPR>
    decreases |prs|
  {
    if prs == [] then []
    else
      var last := prs[|prs| - 1];
      GroupOf(prs[..|prs| - 1], login) + Repeat(last, Count(login, last.pr.requestedReviewers))
  }

  lemma GroupOfSnoc(prs: seq<RepoPR>, i: nat)
    requires i < |prs|
    ensures Logins(prs[..i + 1]) == Logins(prs[..i]) + Elements(prs[i].pr.requestedReviewers)
    ensures forall login ::
      GroupOf(prs[..i + 1], login) == GroupOf(prs[..i], login) + Repeat(prs[i], Count(login, prs[i].pr.requestedReviewers))
  {
    PrefixOfPrefix(prs, i, i + 1);
  }

  /** A login has a non-empty group exactly when some pull request names it. */
  lemma {:induction false} GroupNonEmpty(prs: seq<RepoPR>, login: string)
    ensures GroupOf(prs, login) != [] <==> login in Logins(prs)
    decreases |prs|
  {
    if prs != [] {
      GroupNonEmpty(prs[..|prs| - 1], login);
    }
  }

  /** The group `grouped` holds for `login`, empty when it has none. */
  function GroupIn(grouped: GroupedPRs, login: string): seq<RepoPR>
  {
    if login in grouped then grouped[login] else []
  }

  /** The inner loop of `groupByReviewer`: appends `pr` to the group of each of its
      reviewers, creating a group on first sight of a login. */
  method AddToGroups(grouped: GroupedPRs, pr: RepoPR) returns (r: GroupedPRs)
    ensures r.Keys == grouped.Keys + Elements(pr.pr.requestedReviewers)
    ensures forall login :: login in r ==>
      r[login] == GroupIn(grouped, login) + Repeat(pr, Count(login, pr.pr.requestedReviewers))
  {
    var reviewers := pr.pr.requestedReviewers;
    r := grouped;
    for j := 0 to |reviewers|
      invariant forall login :: login in r <==> login in grouped || login in reviewers[..j]
      invariant forall login :: GroupIn(r, login) == GroupIn(grouped, login) + Repeat(pr, Count(login, reviewers[..j]))
    {
      var login := reviewers[j];
      ghost var before := r;
      assert reviewers[..j + 1] == reviewers[..j] + [login];
      if login !in r {
        r := r[login := []];
      }
      r := r[login := r[login] + [pr]];
      forall x ensures GroupIn(r, x) == GroupIn(grouped, x) + Repeat(pr, Count(x, reviewers[..j + 1])) {
        assert GroupIn(r, x) == if login == x then GroupIn(before, x) + [pr] else GroupIn(before, x);
        GroupStep(GroupIn(grouped, x), GroupIn(before, x), pr, reviewers, j, x);
      }
    }
    WholePrefix(reviewers);
  }

  /** One reviewer more: the group of `x` grows by `pr` when the reviewer is `x`. */
  lemma GroupStep(base: seq<RepoPR>, current: seq<RepoPR>, pr: RepoPR, reviewers: seq<string>, j: nat, x: string)
    requires j < |reviewers|
    requires current == base + Repeat(pr, Count(x, reviewers[..j]))
    ensures (if reviewers[j] == x then current + [pr] else current) == base + Repeat(pr, Count(x, reviewers[..j + 1]))
  {
    CountPrefixStep(x, reviewers, j);
    if reviewers[j] == x {
      RepeatSnoc(pr, Count(x, reviewers[..j]));
      AppendAssoc(base, Repeat(pr, Count(x, reviewers[..j])), [pr]);
    }
  }

  /** `groupByReviewer`: one group per reviewer login, holding the pull requests that
      name it. */
  method GroupByReviewer(prs: seq<RepoPR>) returns (grouped: GroupedPRs)
    ensures grouped.Keys == Logins(prs)
    ensures forall login :: login in grouped ==> grouped[login] == GroupOf(prs, login)
    ensures forall login :: login in grouped ==> grouped[login] != []
  {
    grouped := map[];
    for i := 0 to |prs|
      invariant grouped.Keys == Logins(prs[..i])
      invariant forall login :: login in grouped ==> grouped[login] == GroupOf(prs[..i], login)
    {
      GroupOfSnoc(prs, i);
      forall login | login !in grouped ensures GroupOf(prs[..i], login) == [] {
        GroupNonEmpty(prs[..i], login);
      }
      grouped := AddToGroups(grouped, prs[i]);
    }
    WholePrefix(prs);
    forall login | login in grouped ensures grouped[login] != [] {
      GroupNonEmpty(prs, login);
    }
  }

  /** A login is a key exactly when some pull request names it. */
  lemma {:induction false} LoginsExact(prs: seq<RepoPR>, login: string)
    ensures login in Logins(prs) <==> exists i :: 0 <= i < |prs| && login in prs[i].pr.requestedReviewers
    decreases |prs|
  {
    if prs != [] {
      var init := prs[..|prs| - 1];
      LoginsExact(init, login);
      if login in Logins(init) {
        var i :| 0 <= i < |init| && login in init[i].pr.requestedReviewers;
        assert prs[i] == init[i];
      }
      if exists i :: 0 <= i < |prs| && login in prs[i].pr.requestedReviewers {
        var i :| 0 <= i < |prs| && login in prs[i].pr.requestedReviewers;
        if i < |init| {
          assert init[i] == prs[i];
        }
      }
    }
  }

  /** A pull request occurs in the group of `login` once per occurrence in the input
      times the number of times it names `login`. */
  lemma {:induction false} GroupCount(prs: seq<RepoPR>, login: string, p: RepoPR)
    ensures Count(p, GroupOf(prs, login)) == Count(p, prs) * Count(login, p.pr.requestedReviewers)
    decreases |prs|
  {
    if prs != [] {
      var init := prs[..|prs| - 1];
      var last := prs[|prs| - 1];
      GroupCount(init, login, p);
      var c := Count(login, p.pr.requestedReviewers);
      var a := Count(p, init);
      var group := GroupOf(init, login);
      var added := Repeat(last, Count(login, last.pr.requestedReviewers));
      assert GroupOf(prs, login) == group + added;
      CountAppend(p, group, added);
      CountRepeat(p, last, Count(login, last.pr.requestedReviewers));
      SplitLast(prs);
      CountSnoc(p, init, last);
      if last == p {
        assert Count(p, prs) == a + 1;
        assert Count(p, GroupOf(prs, login)) == a * c + c;
        MulSucc(a, c);
        assert Count(p, GroupOf(prs, login)) == (a + 1) * c;
      } else {
        assert Count(p, prs) == a;
        assert Count(p, GroupOf(prs, login)) == a * c;
      }
    } else {
      assert Count(p, GroupOf(prs, login)) == 0 == Count(p, prs);
    }
  }

  lemma MulSucc(a: nat, c: nat)
    ensures (a + 1) * c == a * c + c
  {
  }

  /** A pull request is in the group of `login` exactly when it is an input that
      names `login`; so a pull request with two reviewers is in both groups. */
  lemma GroupMembership(prs: seq<RepoPR>, login: string, p: RepoPR)
    ensures p in GroupOf(prs, login) <==> p in prs && login in p.pr.requestedReviewers
  {
    GroupCount(prs, login, p);
  }

  /** When no pull request names a reviewer twice, each group keeps the input order. */
  lemma {:induction false} GroupKeepsOrder(prs: seq<RepoPR>, login: string)
    requires forall i :: 0 <= i < |prs| ==> Distinct(prs[i].pr.requestedReviewers)
    ensures IsSubsequence(GroupOf(prs, login), prs)
    decreases |prs|
  {
    if prs != [] {
      var init := prs[..|prs| - 1];
      var last := prs[|prs| - 1];
      assert forall i :: 0 <= i < |init| ==> init[i] == prs[i];
      GroupKeepsOrder(init, login);
      SplitLast(prs);
      CountDistinct(login, last.pr.requestedReviewers);
      if login in last.pr.requestedReviewers {
        assert Repeat(last, 1) == [last];
        SubsequenceSnoc(GroupOf(init, login), init, last);
      } else {
        assert GroupOf(prs, login) == GroupOf(init, login);
        SubsequenceExtend(GroupOf(init, login), init, last);
      }
    }
  }

  /** The number of reviewer entries across `prs`. */
  function Entries(prs: seq<RepoPR>): nat
    decreases |prs|
  {
    if prs == [] then 0 else Entries(prs[..|prs| - 1]) + |prs[|prs| - 1].pr.requestedReviewers|
  }

  /** The sizes of the groups of `keys`, added up. */
  function GroupSizes(prs: seq<RepoPR>, keys: seq<string>): nat
    decreases |keys|
  {
    if keys == [] then 0 else GroupSizes(prs, keys[..|keys| - 1]) + |GroupOf(prs, keys[|keys| - 1])|
  }

  lemma {:induction false} GroupSizesSnoc(prs: seq<RepoPR>, p: RepoPR, keys: seq<string>)
    ensures GroupSizes(prs + [p], keys) == GroupSizes(prs, keys) + CountSum(keys, p.pr.requestedReviewers)
    decreases |keys|
  {
    if keys != [] {
      GroupSizesSnoc(prs, p, keys[..|keys| - 1]);
      assert (prs + [p])[..|prs|] == prs;
    }
  }

  /** Over any enumeration of the logins without repeats, the groups hold as many
      entries as the input names reviewers. */
  lemma {:induction false} TotalGroupSize(prs: seq<RepoPR>, keys: seq<string>)
    requires Distinct(keys)
    requires forall login :: login in Logins(prs) ==> login in keys
    ensures GroupSizes(prs, keys) == Entries(prs)
    decreases |prs|
  {
    if prs == [] {
      GroupSizesEmpty(keys);
    } else {
      var init := prs[..|prs| - 1];
      var last := prs[|prs| - 1];
      TotalGroupSize(init, keys);
      SplitLast(prs);
      GroupSizesSnoc(init, last, keys);
      CountSumCovers(keys, last.pr.requestedReviewers);
    }
  }

  lemma {:induction false} GroupSizesEmpty(keys: seq<string>)
    ensures GroupSizes([], keys) == 0
    decreases |keys|
  {
    if keys != [] {
      GroupSizesEmpty(keys[..|keys| - 1]);
    }
  }

  /** Pull requests that passed the selection are grouped under allowlisted
      reviewers only. */
  lemma LoginsAllowlisted(prs: seq<RepoPR>, allowlist: set<string>, cutoff: int)
    requires forall i :: 0 <= i < |prs| ==> Eligible(prs[i].pr, allowlist, cutoff)
    ensures forall login :: login in Logins(prs) ==> login in allowlist
  {
    forall login | login in Logins(prs) ensures login in allowlist {
      LoginsExact(prs, login);
    }
  }

  // The fixtures of the source's grouping test.

  const PrOne := RepoPR(PR(1, "PR one", false, ["alice", "bob"], [], Some("https://github.com/my-org/api/pull/1"), 0), "api")
  const PrTwo := RepoPR(PR(2, "PR two", false, ["alice"], [], Some("https://github.com/my-org/web/pull/2"), 0), "web")

  lemma CountPair<T>(x: T, y: T, z: T)
    ensures Count(x, [y, z]) == (if y == x then 1 else 0) + (if z == x then 1 else 0)
  {
    assert [y, z][..1] == [y];
    assert [y][..0] == [];
  }

  lemma CountSingle<T>(x: T, y: T)
    ensures Count(x, [y]) == if y == x then 1 else 0
  {
    assert [y][..0] == [];
  }

  /** The grouping of two pull requests, one reviewer at a time. */
  lemma GroupOfPair(a: RepoPR, b: RepoPR, login: string)
    ensures GroupOf([a, b], login)
         == Repeat(a, Count(login, a.pr.requestedReviewers)) + Repeat(b, Count(login, b.pr.requestedReviewers))
  {
    assert GroupOf([a], login) == Repeat(a, Count(login, a.pr.requestedReviewers)) by {
      assert [a][..0] == [];
      assert GroupOf([], login) == [];
    }
    assert [a, b][..1] == [a];
  }

  lemma LoginsPair(a: RepoPR, b: RepoPR)
    ensures Logins([a, b]) == Elements(a.pr.requestedReviewers) + Elements(b.pr.requestedReviewers)
  {
    assert Logins([a]) == Elements(a.pr.requestedReviewers) by {
      assert [a][..0] == [];
    }
    assert [a, b][..1] == [a];
  }

  /** Two pull requests, the first asking alice and bob, the second alice: the
      reviewers are alice and bob. */
  lemma GroupingScenarioKeys()
    ensures Logins([PrOne, PrTwo]) == {"alice", "bob"}
  {
    LoginsPair(PrOne, PrTwo);
    assert Elements(PrOne.pr.requestedReviewers) == {"alice", "bob"};
    assert Elements(PrTwo.pr.requestedReviewers) == {"alice"};
  }

  /** Alice's group holds both pull requests, bob's the first. */
  lemma GroupingScenario()
    ensures GroupOf([PrOne, PrTwo], "alice") == [PrOne, PrTwo]
    ensures GroupOf([PrOne, PrTwo], "bob") == [PrOne]
  {
    GroupOfPair(PrOne, PrTwo, "alice");
    GroupOfPair(PrOne, PrTwo, "bob");
    CountPair("alice", "alice", "bob");
    CountPair("bob", "alice", "bob");
    CountSingle("alice", "alice");
    CountSingle("bob", "alice");
    assert Repeat(PrOne, 1) == [PrOne] && Repeat(PrTwo, 1) == [PrTwo] && Repeat(PrTwo, 0) == [];
  }

  // Rendering

  const EmptyQueueMessage := "\U{1F389}" + " No PRs waiting for review!" + " The queue is empty."
  const Header := "\U{1F50D} *PRs waiting for review*\n"
  const Tip := "Tip: add the `" + SuppressLabel + "` label to hide a PR.\n"

  /** The reviewer has a Slack id: a key of the users map with a non-empty value. */
  predicate IsMapped(userMap: UserMap, login: string) {
    login in userMap && userMap[login] != ""
  }

  function Mention(userMap: UserMap, login: string): string {
    if IsMapped(userMap, login) then "<@" + userMap[login] + ">" else "Unmapped reviewer"
  }

  function SectionHeading(mention: string): string {
    "\n*" + mention + ":*\n"
  }

  /** The link of a pull request: its own URL when it has a non-empty one, otherwise
      the URL built from the organisation, repository and number. */
  function PrUrl(p: RepoPR, org: string): string {
    if p.pr.htmlUrl.Some? && p.pr.htmlUrl.value != "" then p.pr.htmlUrl.value
    else "https://github.com/" + org + "/" + p.repo + "/pull/" + NatToString(p.pr.number)
  }

  function PrLine(p: RepoPR, org: string): string {
    "\U{2022} <" + PrUrl(p, org) + "|" + p.repo + "#" + NatToString(p.pr.number) + ">: " + p.pr.title + "\n"
  }

  /** One line per pull request of the group, in group order. */
  function PrLines(group: seq<RepoPR>, org: string): string
    decreases |group|
  {
    if group == [] then "" else PrLines(group[..|group| - 1], org) + PrLine(group[|group| - 1], org)
  }

  function Section(grouped: GroupedPRs, userMap: UserMap, org: string, login: string): string {
    SectionHeading(Mention(userMap, login)) + PrLines(GroupIn(grouped, login), org)
  }

  /** The sections of `keys`, in the order of `keys`. */
  function Sections(grouped: GroupedPRs, userMap: UserMap, org: string, keys: seq<string>): string
    decreases |keys|
  {
    if keys == [] then ""
    else Sections(grouped, userMap, org, keys[..|keys| - 1]) + Section(grouped, userMap, org, keys[|keys| - 1])
  }

  /** The reminder: the empty-queue text when there is no reviewer, otherwise the
      header, the tip and one section per reviewer in ascending order of login. */
  ghost function Render(grouped: GroupedPRs, userMap: UserMap, org: string): string {
    if |grouped| == 0 then EmptyQueueMessage
    else Header + Tip + Sections(grouped, userMap, org, SortedKeys(grouped.Keys))
  }

  lemma PrLinesStep(group: seq<RepoPR>, org: string, j: nat)
    requires j < |group|
    ensures PrLines(group[..j + 1], org) == PrLines(group[..j], org) + PrLine(group[j], org)
  {
    PrefixOfPrefix(group, j, j + 1);
  }

  lemma SectionsStep(grouped: GroupedPRs, userMap: UserMap, org: string, keys: seq<string>, i: nat)
    requires i < |keys|
    ensures Sections(grouped, userMap, org, keys[..i + 1])
         == Sections(grouped, userMap, org, keys[..i]) + Section(grouped, userMap, org, keys[i])
  {
    PrefixOfPrefix(keys, i, i + 1);
  }

  /** One more reviewer's heading and lines extend the sections by that reviewer's. */
  lemma SectionsExtend(start: string, grouped: GroupedPRs, userMap: UserMap, org: string, keys: seq<string>, i: nat)
    requires i < |keys| && keys[i] in grouped
    ensures start + Sections(grouped, userMap, org, keys[..i]) + SectionHeading(Mention(userMap, keys[i]))
              + PrLines(grouped[keys[i]], org)
         == start + Sections(grouped, userMap, org, keys[..i + 1])
  {
    var sofar := Sections(grouped, userMap, org, keys[..i]);
    var heading := SectionHeading(Mention(userMap, keys[i]));
    SectionsStep(grouped, userMap, org, keys, i);
    AppendAssoc(start + sofar, heading, PrLines(grouped[keys[i]], org));
    AppendAssoc(start, sofar, heading + PrLines(grouped[keys[i]], org));
  }

  /** `formatMessage`: renders the grouped pull requests as the reminder text. */
  method FormatMessage(grouped: GroupedPRs, userMap: UserMap, org: string) returns (message: string)
    ensures message == Render(grouped, userMap, org)
  {
    if |grouped| == 0 {
      return EmptyQueueMessage;
    }
    message := Header;
    message := message + Tip;
    ghost var start := message;
    var reviewers := Sort(grouped.Keys);
    for i := 0 to |reviewers|
      invariant message == start + Sections(grouped, userMap, org, reviewers[..i])
    {
      var reviewer := reviewers[i];
      message := message + SectionHeading(Mention(userMap, reviewer));
      ghost var before := message;
      var prs := grouped[reviewer];
      for j := 0 to |prs|
        invariant message == before + PrLines(prs[..j], org)
      {
        PrLinesStep(prs, org, j);
        AppendAssoc(before, PrLines(prs[..j], org), PrLine(prs[j], org));
        message := message + PrLine(prs[j], org);
      }
      WholePrefix(prs);
      SectionsExtend(start, grouped, userMap, org, reviewers, i);
    }
    WholePrefix(reviewers);
  }

  /** The empty-queue text is produced exactly when there is no reviewer. */
  lemma RenderEmptyIff(grouped: GroupedPRs, userMap: UserMap, org: string)
    ensures Render(grouped, userMap, org) == EmptyQueueMessage <==> |grouped| == 0
  {
    if |grouped| != 0 {
      var rest := Tip + Sections(grouped, userMap, org, SortedKeys(grouped.Keys));
      AppendAssoc(Header, Tip, Sections(grouped, userMap, org, SortedKeys(grouped.Keys)));
      assert Render(grouped, userMap, org)[0] == Header[0] == '\U{1F50D}';
      assert EmptyQueueMessage[0] == '\U{1F389}';
    }
  }

  lemma {:induction false} SectionsAppend(grouped: GroupedPRs, userMap: UserMap, org: string, a: seq<string>, b: seq<string>)
    ensures Sections(grouped, userMap, org, a + b)
         == Sections(grouped, userMap, org, a) + Sections(grouped, userMap, org, b)
    decreases |b|
  {
    if b == [] {
      assert a + b == a;
    } else {
      var b' := b[..|b| - 1];
      var k := b[|b| - 1];
      SectionsAppend(grouped, userMap, org, a, b');
      var ab := a + b;
      InitOfAppend(a, b);
      assert Sections(grouped, userMap, org, ab)
          == Sections(grouped, userMap, org, a + b') + Section(grouped, userMap, org, k);
      assert Sections(grouped, userMap, org, b)
          == Sections(grouped, userMap, org, b') + Section(grouped, userMap, org, k);
      AppendAssoc(Sections(grouped, userMap, org, a), Sections(grouped, userMap, org, b'), Section(grouped, userMap, org, k));
    }
  }

  /** The sections of `keys` are the sections before position `i`, the section of
      `keys[i]`, and the sections after it. */
  lemma SectionsSplit(grouped: GroupedPRs, userMap: UserMap, org: string, keys: seq<string>, i: nat)
    requires i < |keys|
    ensures Sections(grouped, userMap, org, keys)
         == Sections(grouped, userMap, org, keys[..i]) + Section(grouped, userMap, org, keys[i])
            + Sections(grouped, userMap, org, keys[i + 1..])
  {
    assert keys == keys[..i + 1] + keys[i + 1..];
    SectionsAppend(grouped, userMap, org, keys[..i + 1], keys[i + 1..]);
    SectionsStep(grouped, userMap, org, keys, i);
  }

  /** Any ascending enumeration of the reviewers gives the message body: the order of
      the sections is the order of the logins, whatever enumerated them. */
  lemma RenderBySortedKeys(grouped: GroupedPRs, userMap: UserMap, org: string, keys: seq<string>)
    requires |grouped| != 0
    requires StrictlySorted(keys)
    requires forall k :: k in keys <==> k in grouped
    ensures Render(grouped, userMap, org) == Header + Tip + Sections(grouped, userMap, org, keys)
  {
    SortedUnique(keys, SortedKeys(grouped.Keys));
  }

  /** The position of `k` in the ascending enumeration of the reviewers. */
  lemma SortedIndex(grouped: GroupedPRs, k: string) returns (i: nat)
    requires k in grouped
    ensures i < |SortedKeys(grouped.Keys)| && SortedKeys(grouped.Keys)[i] == k
  {
    var ks := SortedKeys(grouped.Keys);
    assert k in ks;
    i :| 0 <= i < |ks| && ks[i] == k;
  }

  /** Every reviewer gets a section in the message: heading and pull request lines. */
  lemma SectionShown(grouped: GroupedPRs, userMap: UserMap, org: string, login: string) returns (at: nat)
    requires login in grouped
    ensures InfixAt(SectionHeading(Mention(userMap, login)) + PrLines(grouped[login], org), Render(grouped, userMap, org), at)
  {
    var ks := SortedKeys(grouped.Keys);
    var i := SortedIndex(grouped, login);
    SectionsSplit(grouped, userMap, org, ks, i);
    var u := Header + Tip + Sections(grouped, userMap, org, ks[..i]);
    var t := Section(grouped, userMap, org, login);
    var v := Sections(grouped, userMap, org, ks[i + 1..]);
    AppendAssoc(Header + Tip, Sections(grouped, userMap, org, ks[..i]) + t, v);
    AppendAssoc(Header + Tip, Sections(grouped, userMap, org, ks[..i]), t);
    InfixOfConcat(u, t, v);
    at := |u|;
  }

  /** Sections come in ascending order of login: the section of `a` ends before the
      section of `b` begins whenever `a` sorts before `b`. */
  lemma SectionsOrdered(grouped: GroupedPRs, userMap: UserMap, org: string, a: string, b: string) returns (i: nat, j: nat)
    requires a in grouped && b in grouped && LexLess(a, b)
    ensures InfixAt(Section(grouped, userMap, org, a), Render(grouped, userMap, org), i)
    ensures InfixAt(Section(grouped, userMap, org, b), Render(grouped, userMap, org), j)
    ensures i + |Section(grouped, userMap, org, a)| <= j
  {
    var ks := SortedKeys(grouped.Keys);
    var ia := SortedIndex(grouped, a);
    var ib := SortedIndex(grouped, b);
    if ib <= ia {
      if ib == ia {
        LexLessIrreflexive(a);
      } else {
        LexLessAsymmetric(a, b);
      }
      assert false;
    }
    var front := ks[..ib];
    assert front[ia] == a;
    SectionsSplit(grouped, userMap, org, ks, ib);
    SectionsSplit(grouped, userMap, org, front, ia);
    PrefixOfPrefix(ks, ia, ib);
    var h := Header + Tip;
    var s1 := Sections(grouped, userMap, org, ks[..ia]);
    var sa := Section(grouped, userMap, org, a);
    var s2 := Sections(grouped, userMap, org, front[ia + 1..]);
    var sb := Section(grouped, userMap, org, b);
    var s3 := Sections(grouped, userMap, org, ks[ib + 1..]);
    Regroup(h, s1, sa, s2, sb, s3);
    InfixOfConcat(h + s1, sa, s2 + sb + s3);
    InfixOfConcat(h + s1 + sa + s2, sb, s3);
    i := |h + s1|;
    j := |h + s1 + sa + s2|;
  }

  /** The text a pull request contributes to the message has no `@`. */
  predicate AtFree(p: RepoPR) {
    && '@' !in p.repo
    && '@' !in p.pr.title
    && (p.pr.htmlUrl.Some? ==> '@' !in p.pr.htmlUrl.value)
  }

  lemma {:induction false} PrLinesAtFree(group: seq<RepoPR>, org: string)
    requires '@' !in org
    requires forall p :: p in group ==> AtFree(p)
    ensures '@' !in PrLines(group, org)
    decreases |group|
  {
    if group != [] {
      var p := group[|group| - 1];
      PrLinesAtFree(group[..|group| - 1], org);
      PrLineAtFree(p, org);
    }
  }

  lemma PrLineAtFree(p: RepoPR, org: string)
    requires '@' !in org && AtFree(p)
    ensures '@' !in PrLine(p, org)
  {
    var digits := NatToString(p.pr.number);
    assert '@' !in digits by {
      assert AllDigits(digits);
    }
    assert '@' !in PrUrl(p, org);
  }

  lemma {:induction false} SectionsAtFree(grouped: GroupedPRs, userMap: UserMap, org: string, keys: seq<string>)
    requires '@' !in org
    requires forall k :: k in keys ==> !IsMapped(userMap, k)
    requires forall k, p :: k in grouped && p in grouped[k] ==> AtFree(p)
    ensures '@' !in Sections(grouped, userMap, org, keys)
    decreases |keys|
  {
    if keys != [] {
      var k := keys[|keys| - 1];
      SectionsAtFree(grouped, userMap, org, keys[..|keys| - 1]);
      PrLinesAtFree(GroupIn(grouped, k), org);
      HeadingAtFree(userMap, k);
      assert Sections(grouped, userMap, org, keys)
          == Sections(grouped, userMap, org, keys[..|keys| - 1])
             + (SectionHeading(Mention(userMap, k)) + PrLines(GroupIn(grouped, k), org));
    }
  }

  lemma HeadingAtFree(userMap: UserMap, login: string)
    requires !IsMapped(userMap, login)
    ensures '@' !in SectionHeading(Mention(userMap, login))
  {
    assert Mention(userMap, login) == "Unmapped reviewer";
  }

  lemma HeaderAtFree()
    ensures '@' !in Header
  {
  }

  lemma TipAtFree()
    ensures '@' !in Tip
  {
  }

  lemma EmptyMessageAtFree()
    ensures '@' !in EmptyQueueMessage
  {
  }

  /** With no reviewer mapped to a Slack id, the message mentions nobody: it holds no
      `@` at all, provided the pull requests' own text has none. */
  lemma NoMentionWhenUnmapped(grouped: GroupedPRs, userMap: UserMap, org: string)
    requires forall k :: k in grouped ==> !IsMapped(userMap, k)
    requires '@' !in org
    requires forall k, p :: k in grouped && p in grouped[k] ==> AtFree(p)
    ensures '@' !in Render(grouped, userMap, org)
  {
    if |grouped| != 0 {
      SectionsAtFree(grouped, userMap, org, SortedKeys(grouped.Keys));
      HeaderAtFree();
      TipAtFree();
    } else {
      EmptyMessageAtFree();
    }
  }

  /** A reviewer mapped to a Slack id gets the mention `<@id>` in their heading. */
  lemma MentionShown(grouped: GroupedPRs, userMap: UserMap, org: string, login: string) returns (at: nat)
    requires login in grouped && IsMapped(userMap, login)
    ensures InfixAt("<@" + userMap[login] + ">", Render(grouped, userMap, org), at)
  {
    var start := SectionShown(grouped, userMap, org, login);
    var mention := "<@" + userMap[login] + ">";
    var section := SectionHeading(mention) + PrLines(grouped[login], org);
    AppendAssoc("\n*" + mention, ":*\n", PrLines(grouped[login], org));
    InfixOfConcat("\n*", mention, ":*\n" + PrLines(grouped[login], org));
    InfixTrans(mention, section, Render(grouped, userMap, org), 2, start);
    at := start + 2;
  }

  // The fixtures of the source's tests.

  const TestUserMap: UserMap := map["alice" := "U01ALICE", "bob" := "U02BOB"]
  const FixBug := RepoPR(PR(1, "Fix bug", false, ["alice"], [], Some("https://github.com/my-org/api/pull/1"), 0), "api")
  const AddDocs := RepoPR(PR(3, "Add docs", false, ["charlie"], [], Some("https://github.com/my-org/web/pull/3"), 0), "web")

  lemma FixBugLine()
    ensures PrLine(FixBug, "my-org")
         == "\U{2022} <" + "https://github.com/my-org/api/pull/1" + "|" + "api" + "#" + "1" + ">: " + "Fix bug" + "\n"
  {
    assert NatToString(1) == "1";
  }

  lemma AddDocsLine()
    ensures PrLine(AddDocs, "my-org")
         == "\U{2022} <" + "https://github.com/my-org/web/pull/3" + "|" + "web" + "#" + "3" + ">: " + "Add docs" + "\n"
  {
    assert NatToString(3) == "3";
  }

  lemma AddDocsAtFree()
    ensures AtFree(AddDocs)
  {
    assert '@' !in "https://github.com/my-org/web/pull/3";
    assert '@' !in "Add docs";
  }

  /** The message of a single-reviewer table is the header, the tip, the reviewer's
      heading and the lines of the group. */
  lemma SingleReviewer(userMap: UserMap, org: string, login: string, group: seq<RepoPR>)
    ensures Render(map[login := group], userMap, org)
         == Header + Tip + SectionHeading(Mention(userMap, login)) + PrLines(group, org)
  {
    var grouped := map[login := group];
    RenderBySortedKeys(grouped, userMap, org, [login]);
    assert [login][..0] == [];
    assert GroupIn(grouped, login) == group;
    assert Sections(grouped, userMap, org, [login]) == "" + Section(grouped, userMap, org, login);
    assert "" + Section(grouped, userMap, org, login) == Section(grouped, userMap, org, login);
    AppendAssoc(Header + Tip, SectionHeading(Mention(userMap, login)), PrLines(group, org));
  }

  /** A mapped reviewer, as in the source's tests: the message is the header, the
      tip, alice's mention and the line of her pull request. */
  lemma MappedScenario()
    ensures Render(map["alice" := [FixBug]], TestUserMap, "my-org")
         == Header + Tip + ("\n*" + ("<@" + "U01ALICE" + ">") + ":*\n")
            + ("\U{2022} <" + "https://github.com/my-org/api/pull/1" + "|" + "api" + "#" + "1" + ">: " + "Fix bug" + "\n")
  {
    SingleReviewer(TestUserMap, "my-org", "alice", [FixBug]);
    assert PrLines([FixBug], "my-org") == PrLine(FixBug, "my-org") by {
      assert [FixBug][..0] == [];
    }
    FixBugLine();
    assert Mention(TestUserMap, "alice") == "<@" + "U01ALICE" + ">" by {
      assert TestUserMap["alice"] == "U01ALICE";
    }
  }

  /** An unmapped reviewer, as in the source's tests: a placeholder heading, and
      (next lemma) no mention anywhere. */
  lemma UnmappedScenario()
    ensures Render(map["charlie" := [AddDocs]], TestUserMap, "my-org")
         == Header + Tip + ("\n*" + "Unmapped reviewer" + ":*\n")
            + ("\U{2022} <" + "https://github.com/my-org/web/pull/3" + "|" + "web" + "#" + "3" + ">: " + "Add docs" + "\n")
  {
    SingleReviewer(TestUserMap, "my-org", "charlie", [AddDocs]);
    assert PrLines([AddDocs], "my-org") == PrLine(AddDocs, "my-org") by {
      assert [AddDocs][..0] == [];
    }
    AddDocsLine();
    assert Mention(TestUserMap, "charlie") == "Unmapped reviewer" by {
      assert "charlie" !in TestUserMap;
    }
  }

  lemma UnmappedScenarioNoMention()
    ensures '@' !in Render(map["charlie" := [AddDocs]], TestUserMap, "my-org")
  {
    AddDocsAtFree();
    NoMentionWhenUnmapped(map["charlie" := [AddDocs]], TestUserMap, "my-org");
  }

  /** No reviewer: the empty-queue text, as in the source's tests. */
  lemma EmptyScenario(userMap: UserMap, org: string)
    ensures Render(map[], userMap, org) == EmptyQueueMessage
  {
  }

  /** A pull request without its own URL links to the URL built from organisation,
      repository and number. */
  lemma FallbackUrlScenario()
    ensures PrUrl(RepoPR(PR(42, "Add docs", false, ["charlie"], [], None, 0), "web"), "my-org")
         == "https://github.com/" + "my-org" + "/" + "web" + "/pull/" + "42"
  {
    assert NatToString(42) == "42";
  }

  /** An empty URL counts as none. */
  lemma EmptyUrlScenario()
    ensures PrUrl(RepoPR(PR(42, "Add docs", false, ["charlie"], [], Some(""), 0), "web"), "my-org")
         == "https://github.com/" + "my-org" + "/" + "web" + "/pull/" + "42"
  {
    assert NatToString(42) == "42";
  }
}
