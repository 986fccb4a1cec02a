/** Merging the lists of parallel sub-searches.

    The goroutines finish in any order, so the lists of the searches that succeeded arrive as any
    permutation of them. They are deduplicated by URL, first seen wins, then sorted by score with an
    unstable sort and cut to maxResults. */
module SearchMerge {
  import opened MapIteration
  import opened Options
  import opened Ordering

  datatype SearchResult = SearchResult(title: string, url: string, content: string, score: real, publishedDate: string)

  function Score(r: SearchResult): real {
    r.score
  }

  function Url(r: SearchResult): string {
    r.url
  }

  // ---------------------------------------------------------------- first seen wins

  predicate Has(xs: seq<SearchResult>, url: string) {
    xs != [] && (xs[|xs| - 1].url == url || Has(xs[..|xs| - 1], url))
  }

  /** The first result with this URL. */
  function First(xs: seq<SearchResult>, url: string): SearchResult
    requires Has(xs, url)
  {
    if Has(xs[..|xs| - 1], url) then First(xs[..|xs| - 1], url) else xs[|xs| - 1]
  }

  function FirstSeen(xs: seq<SearchResult>): seq<SearchResult> {
    if xs == [] then []
    else
      var init, last := xs[..|xs| - 1], xs[|xs| - 1];
      if Has(init, last.url) then FirstSeen(init) else FirstSeen(init) + [last]
  }

  function Flatten(lists: seq<seq<SearchResult>>): seq<SearchResult> {
    if lists == [] then [] else Flatten(lists[..|lists| - 1]) + lists[|lists| - 1]
  }

  lemma {:induction false} HasConcat(a: seq<SearchResult>, b: seq<SearchResult>, url: string)
    ensures Has(a + b, url) <==> Has(a, url) || Has(b, url)
    ensures Has(a, url) ==> First(a + b, url) == First(a, url)
    ensures !Has(a, url) && Has(b, url) ==> First(a + b, url) == First(b, url)
  {
    if b == [] {
      assert a + b == a;
    } else {
      HasConcat(a, b[..|b| - 1], url);
      assert (a + b)[..|a + b| - 1] == a + b[..|b| - 1];
    }
  }

  lemma {:induction false} HasMeaning(xs: seq<SearchResult>, url: string)
    ensures Has(xs, url) <==> url in Keys(xs, Url)
  {
    if xs != [] {
      var init := xs[..|xs| - 1];
      HasMeaning(init, url);
      assert Keys(xs, Url) == Keys(init, Url) + [xs[|xs| - 1].url];
    }
  }

  lemma {:induction false} FirstSeenUrls(xs: seq<SearchResult>)
    ensures Distinct(Keys(FirstSeen(xs), Url))
    ensures forall url :: url in Keys(FirstSeen(xs), Url) <==> Has(xs, url)
  {
    if xs != [] {
      var init, last := xs[..|xs| - 1], xs[|xs| - 1];
      FirstSeenUrls(init);
      if !Has(init, last.url) {
        assert Keys(FirstSeen(xs), Url) == Keys(FirstSeen(init), Url) + [last.url];
      }
    }
  }

  /** Deduplication keeps exactly the URLs there were, each once, ... */
  lemma DeduplicationKeepsUrls(xs: seq<SearchResult>, url: string)
    ensures Distinct(Keys(FirstSeen(xs), Url))
    ensures url in Keys(FirstSeen(xs), Url) <==> url in Keys(xs, Url)
  {
    FirstSeenUrls(xs);
    HasMeaning(xs, url);
  }

  /** ... and for each URL the result that came first. */
  lemma {:induction false} FirstSeenIsFirst(xs: seq<SearchResult>, r: SearchResult)
    requires r in FirstSeen(xs)
    ensures Has(xs, r.url) && First(xs, r.url) == r
  {
    if xs != [] {
      var init, last := xs[..|xs| - 1], xs[|xs| - 1];
      if r in FirstSeen(init) {
        FirstSeenIsFirst(init, r);
      }
    }
  }

  // ---------------------------------------------------------------- the merged answer

  /** What the merge may return when the lists arrive in this order. */
  ghost predicate IsAnswer(arrived: seq<seq<SearchResult>>, maxResults: nat, top: seq<SearchResult>) {
    exists ranked :: IsRanking(arrived, ranked) && top == Cut(ranked, maxResults)
  }

  ghost predicate IsRanking(arrived: seq<seq<SearchResult>>, ranked: seq<SearchResult>) {
    IsSortOf(FirstSeen(Flatten(arrived)), ranked, Score)
  }

  ghost function Lists(arrived: seq<array<SearchResult>>): (lists: seq<seq<SearchResult>>)
    reads arrived
    ensures |lists| == |arrived|
    ensures forall i :: 0 <= i < |arrived| ==> lists[i] == arrived[i][..]
  {
    seq(|arrived|, i requires 0 <= i < |arrived| reads arrived => arrived[i][..])
  }

  /** The arrived lists are shared with the cache; this method may change none of them. */
  method MergeAndRank(arrived: seq<array<SearchResult>>, maxResults: nat) returns (top: seq<SearchResult>)
    ensures IsAnswer(Lists(arrived), maxResults, top)
  {
    ghost var lists := Lists(arrived);
    var all := Merge(arrived);
    var ranked := Rank(all);
    assert IsRanking(lists, ranked);
    top := if |ranked| > maxResults then ranked[..maxResults] else ranked;
    assert lists == Lists(arrived);
  }

  method Rank(all: seq<SearchResult>) returns (ranked: seq<SearchResult>)
    ensures IsSortOf(all, ranked, Score)
  {
    var results := new SearchResult[|all|](i requires 0 <= i < |all| => all[i]);
    assert results[..] == all;
    SortSlice(results, Score);
    ranked := results[..];
  }

  method Merge(arrived: seq<array<SearchResult>>) returns (all: seq<SearchResult>)
    ensures all == FirstSeen(Flatten(Lists(arrived)))
  {
    var seen: set<string> := {};
    all := [];
    ghost var lists := Lists(arrived);
    for i := 0 to |arrived|
      invariant all == FirstSeen(Flatten(lists[..i]))
      invariant forall url :: url in seen <==> Has(Flatten(lists[..i]), url)
    {
      all, seen := AddNew(arrived[i], all, seen, Flatten(lists[..i]));
      assert lists[..i + 1][..i] == lists[..i];
    }
    assert lists[..|lists|] == lists;
  }

  method AddNew(results: array<SearchResult>, all: seq<SearchResult>, seen: set<string>,
      ghost before: seq<SearchResult>)
    returns (all': seq<SearchResult>, seen': set<string>)
    requires all == FirstSeen(before) && forall url :: url in seen <==> Has(before, url)
    ensures all' == FirstSeen(before + results[..])
    ensures forall url :: url in seen' <==> Has(before + results[..], url)
  {
    all', seen' := all, seen;
    ghost var list := results[..];
    assert before + list[..0] == before;
    for i := 0 to results.Length
      invariant all' == FirstSeen(before + list[..i])
      invariant forall url :: url in seen' <==> Has(before + list[..i], url)
    {
      var r := results[i];
      ghost var sofar := before + list[..i];
      assert before + list[..i + 1] == sofar + [r];
      assert (sofar + [r])[..|sofar|] == sofar;
      if r.url !in seen' {
        seen' := seen' + {r.url};
        all' := all' + [r];
      }
    }
    assert list[..|list|] == list;
  }

  /** The answer's URLs are distinct and descend by score; it has min(maxResults, number of distinct
      URLs) entries; and each is the result first seen with its URL. */
  lemma AnswerShape(arrived: seq<seq<SearchResult>>, maxResults: nat, top: seq<SearchResult>)
    requires IsAnswer(arrived, maxResults, top)
    ensures Distinct(Keys(top, Url)) && Descending(Keys(top, Score))
    ensures |top| == if |FirstSeen(Flatten(arrived))| > maxResults then maxResults else |FirstSeen(Flatten(arrived))|
    ensures forall r :: r in top ==> Has(Flatten(arrived), r.url) && First(Flatten(arrived), r.url) == r
  {
    var ranked: seq<SearchResult> :| IsRanking(arrived, ranked) && top == Cut(ranked, maxResults);
    RankingUrls(arrived, ranked);
    CutKeepsOrder(ranked, maxResults);
    assert |ranked| == |multiset(ranked)| == |FirstSeen(Flatten(arrived))|;
    forall r | r in top ensures Has(Flatten(arrived), r.url) && First(Flatten(arrived), r.url) == r {
      RankedIsFirst(arrived, ranked, r);
    }
  }

  /** No URL left out scored higher, when first seen, than any that was kept. */
  lemma AnswerIsTopK(arrived: seq<seq<SearchResult>>, maxResults: nat, top: seq<SearchResult>, url: string,
      kept: SearchResult)
    requires IsAnswer(arrived, maxResults, top) && kept in top
    requires Has(Flatten(arrived), url) && url !in Keys(top, Url)
    ensures kept.score >= First(Flatten(arrived), url).score
  {
    var ranked: seq<SearchResult> :| IsRanking(arrived, ranked) && top == Cut(ranked, maxResults);
    RankingUrls(arrived, ranked);
    CutKeepsOrder(ranked, maxResults);
    var i :| 0 <= i < |top| && top[i] == kept;
    var k :| 0 <= k < |ranked| && Keys(ranked, Url)[k] == url;
    RankedIsFirst(arrived, ranked, ranked[k]);
    assert Keys(ranked, Score)[i] >= Keys(ranked, Score)[k];
  }

  lemma RankedIsFirst(arrived: seq<seq<SearchResult>>, ranked: seq<SearchResult>, r: SearchResult)
    requires IsRanking(arrived, ranked) && r in ranked
    ensures Has(Flatten(arrived), r.url) && First(Flatten(arrived), r.url) == r
  {
    assert r in multiset(ranked);
    FirstSeenIsFirst(Flatten(arrived), r);
  }

  lemma CutKeepsOrder(ranked: seq<SearchResult>, maxResults: nat)
    requires Distinct(Keys(ranked, Url)) && Descending(Keys(ranked, Score))
    ensures var top := Cut(ranked, maxResults);
            && Distinct(Keys(top, Url)) && Descending(Keys(top, Score))
            && |top| <= |ranked|
            && (forall i :: 0 <= i < |top| ==> Keys(ranked, Url)[i] in Keys(top, Url))
            && (forall i :: 0 <= i < |top| ==> top[i] == ranked[i])
  {
    var top := Cut(ranked, maxResults);
    assert Keys(top, Url) == Keys(ranked, Url)[..|top|];
    assert Keys(top, Score) == Keys(ranked, Score)[..|top|];
    assert forall i :: 0 <= i < |top| ==> Keys(top, Url)[i] == Keys(ranked, Url)[i];
  }

  /** A ranking shows each URL once. */
  lemma RankingUrls(arrived: seq<seq<SearchResult>>, ranked: seq<SearchResult>)
    requires IsRanking(arrived, ranked)
    ensures Distinct(Keys(ranked, Url))
    ensures forall url :: url in Keys(ranked, Url) <==> Has(Flatten(arrived), url)
  {
    var all := FirstSeen(Flatten(arrived));
    FirstSeenUrls(Flatten(arrived));
    SameElementsSameKeys(all, ranked, Url);
    SameCountsDistinct(Keys(all, Url), Keys(ranked, Url));
    forall url ensures url in Keys(ranked, Url) <==> url in Keys(all, Url) {
      assert url in Keys(ranked, Url) <==> url in multiset(Keys(ranked, Url));
      assert url in Keys(all, Url) <==> url in multiset(Keys(all, Url));
    }
  }

  // ---------------------------------------------------------------- failed searches

  function Successes(outcomes: seq<Option<seq<SearchResult>>>): seq<seq<SearchResult>> {
    if outcomes == [] then []
    else
      var init, last := Successes(outcomes[..|outcomes| - 1]), outcomes[|outcomes| - 1];
      if last.Some? then init + [last.value] else init
  }

  lemma {:induction false} SuccessesMeaning(outcomes: seq<Option<seq<SearchResult>>>, list: seq<SearchResult>)
    ensures list in Successes(outcomes) <==> Some(list) in outcomes
  {
    if outcomes != [] {
      var init := outcomes[..|outcomes| - 1];
      SuccessesMeaning(init, list);
      assert outcomes == init + [outcomes[|outcomes| - 1]];
    }
  }

  lemma {:induction false} FlattenHas(lists: seq<seq<SearchResult>>, url: string)
    ensures Has(Flatten(lists), url) <==> exists list :: list in lists && Has(list, url)
    ensures Has(Flatten(lists), url) ==>
              exists list :: list in lists && Has(list, url) && First(Flatten(lists), url) == First(list, url)
  {
    if lists != [] {
      var init, last := lists[..|lists| - 1], lists[|lists| - 1];
      FlattenHas(init, url);
      HasConcat(Flatten(init), last, url);
      assert lists == init + [last];
      assert forall list :: list in lists <==> list in init || list == last;
    }
  }

  /** Nothing is lost from one search because another failed: a URL is merged exactly when some
      search that succeeded found it. */
  lemma FailuresLoseNothing(outcomes: seq<Option<seq<SearchResult>>>, arrived: seq<seq<SearchResult>>, url: string)
    requires multiset(arrived) == multiset(Successes(outcomes))
    ensures Has(Flatten(arrived), url) <==> exists list :: Some(list) in outcomes && Has(list, url)
  {
    FlattenHas(arrived, url);
    forall list ensures list in arrived <==> Some(list) in outcomes {
      SuccessesMeaning(outcomes, list);
      assert list in arrived <==> list in multiset(arrived);
      assert list in Successes(outcomes) <==> list in multiset(Successes(outcomes));
    }
  }

  // ---------------------------------------------------------------- schedule independence

  /** Lists that share a URL first show it with the same score. */
  ghost predicate Agree(lists: seq<seq<SearchResult>>) {
    forall one, other, url :: one in lists && other in lists && Has(one, url) && Has(other, url) ==>
      First(one, url).score == First(other, url).score
  }

  ghost predicate SameSchedule(lists: seq<seq<SearchResult>>, arrived: seq<seq<SearchResult>>) {
    multiset(arrived) == multiset(lists)
  }

  lemma SameScheduleSameLists(lists: seq<seq<SearchResult>>, arrived: seq<seq<SearchResult>>)
    requires SameSchedule(lists, arrived)
    ensures forall list :: list in arrived <==> list in lists
  {
    forall list ensures list in arrived <==> list in lists {
      assert list in arrived <==> list in multiset(arrived);
      assert list in lists <==> list in multiset(lists);
    }
  }

  /** The score a URL ends up with, whichever of its lists comes first. */
  lemma AgreedScore(lists: seq<seq<SearchResult>>, arrived: seq<seq<SearchResult>>, url: string)
    requires Agree(lists) && SameSchedule(lists, arrived)
    ensures Has(Flatten(arrived), url) <==> Has(Flatten(lists), url)
    ensures Has(Flatten(lists), url) ==> First(Flatten(arrived), url).score == First(Flatten(lists), url).score
  {
    SameScheduleSameLists(lists, arrived);
    FlattenHas(lists, url);
    FlattenHas(arrived, url);
  }

  /** Every arrival order gives every URL the score it has in this one. */
  ghost predicate ScoresDoNotDependOnSchedule(lists: seq<seq<SearchResult>>) {
    forall arrived, url :: SameSchedule(lists, arrived) && Has(Flatten(lists), url) ==>
      Has(Flatten(arrived), url) && First(Flatten(arrived), url).score == First(Flatten(lists), url).score
  }

  lemma FlattenSnoc(lists: seq<seq<SearchResult>>, last: seq<SearchResult>)
    ensures Flatten(lists + [last]) == Flatten(lists) + last
  {
    assert (lists + [last])[..|lists|] == lists;
  }

  lemma {:induction false} FlattenFront(front: seq<SearchResult>, rest: seq<seq<SearchResult>>)
    ensures Flatten([front] + rest) == front + Flatten(rest)
  {
    if rest == [] {
      assert [front] + rest == [] + [front];
      FlattenSnoc([], front);
    } else {
      var init, last := rest[..|rest| - 1], rest[|rest| - 1];
      FlattenFront(front, init);
      FlattenSnoc([front] + init, last);
      assert [front] + rest == [front] + init + [last];
    }
  }

  lemma MoveToFront(lists: seq<seq<SearchResult>>, front: seq<SearchResult>) returns (rest: seq<seq<SearchResult>>)
    requires front in lists
    ensures SameSchedule(lists, [front] + rest)
  {
    var k :| 0 <= k < |lists| && lists[k] == front;
    rest := lists[..k] + lists[k + 1..];
    assert lists == lists[..k] + [front] + lists[k + 1..];
  }

  lemma {:induction false} ScoreWhenFirst(lists: seq<seq<SearchResult>>, front: seq<SearchResult>, url: string)
    requires ScoresDoNotDependOnSchedule(lists)
    requires front in lists && Has(front, url)
    ensures Has(Flatten(lists), url) && First(Flatten(lists), url).score == First(front, url).score
  {
    var rest := MoveToFront(lists, front);
    assert Has(Flatten(lists), url) by {
      FlattenHas(lists, url);
    }
    var arrived := [front] + rest;
    assert First(Flatten(arrived), url).score == First(Flatten(lists), url).score;
    FlattenFront(front, rest);
    HasConcat(front, Flatten(rest), url);
  }

  /** The scores the merge settles on are independent of the goroutines' order exactly when the lists
      agree on the URLs they share. */
  lemma ScheduleIndependentIffAgree(lists: seq<seq<SearchResult>>)
    ensures Agree(lists) <==> ScoresDoNotDependOnSchedule(lists)
  {
    if Agree(lists) {
      forall arrived, url | SameSchedule(lists, arrived) && Has(Flatten(lists), url)
        ensures Has(Flatten(arrived), url) && First(Flatten(arrived), url).score == First(Flatten(lists), url).score
      {
        AgreedScore(lists, arrived, url);
      }
    }
    if ScoresDoNotDependOnSchedule(lists) {
      forall one, other, url | one in lists && other in lists && Has(one, url) && Has(other, url)
        ensures First(one, url).score == First(other, url).score
      {
        ScoreWhenFirst(lists, one, url);
        ScoreWhenFirst(lists, other, url);
      }
    }
  }

  /** A ranking's scores are those of its URLs, looked up in any schedule of the same lists. */
  lemma RankingScores(lists: seq<seq<SearchResult>>, arrived: seq<seq<SearchResult>>, ranked: seq<SearchResult>,
      scoreOf: string -> real)
    requires Agree(lists) && SameSchedule(lists, arrived) && IsRanking(arrived, ranked)
    requires forall url :: Has(Flatten(lists), url) ==> scoreOf(url) == First(Flatten(lists), url).score
    ensures Keys(ranked, Score) == Keys(Keys(ranked, Url), scoreOf)
  {
    forall i | 0 <= i < |ranked| ensures ranked[i].score == scoreOf(ranked[i].url) {
      assert ranked[i] in multiset(FirstSeen(Flatten(arrived)));
      FirstSeenIsFirst(Flatten(arrived), ranked[i]);
      AgreedScore(lists, arrived, ranked[i].url);
    }
  }

  lemma RankingsShowSameScores(lists: seq<seq<SearchResult>>, arrived: seq<seq<SearchResult>>,
      one: seq<SearchResult>, other: seq<SearchResult>)
    requires Agree(lists) && SameSchedule(lists, arrived)
    requires IsRanking(lists, one) && IsRanking(arrived, other)
    ensures Keys(one, Score) == Keys(other, Score)
    ensures forall url :: url in Keys(one, Url) <==> url in Keys(other, Url)
  {
    var scoreOf := (url: string) => if Has(Flatten(lists), url) then First(Flatten(lists), url).score else 0.0;
    RankingScores(lists, lists, one, scoreOf);
    RankingScores(lists, arrived, other, scoreOf);
    RankingUrls(lists, one);
    RankingUrls(arrived, other);
    forall url ensures url in Keys(one, Url) <==> url in Keys(other, Url) {
      AgreedScore(lists, arrived, url);
    }
    DistinctSameElements(Keys(one, Url), Keys(other, Url));
    SameElementsSameKeys(Keys(one, Url), Keys(other, Url), scoreOf);
    DescendingIsUnique(Keys(one, Score), Keys(other, Score));
  }

  /** If equal URLs carry equal scores, every arrival order and every outcome of the unstable sort
      give the same sequence of scores. */
  lemma ScoresOfAnswerAreScheduleIndependent(
      lists: seq<seq<SearchResult>>, arrived: seq<seq<SearchResult>>, maxResults: nat,
      one: seq<SearchResult>, other: seq<SearchResult>)
    requires Agree(lists) && SameSchedule(lists, arrived)
    requires IsAnswer(lists, maxResults, one) && IsAnswer(arrived, maxResults, other)
    ensures Keys(one, Score) == Keys(other, Score)
  {
    var ranked1: seq<SearchResult> :| IsRanking(lists, ranked1) && one == Cut(ranked1, maxResults);
    var ranked2: seq<SearchResult> :| IsRanking(arrived, ranked2) && other == Cut(ranked2, maxResults);
    RankingsShowSameScores(lists, arrived, ranked1, ranked2);
    hide IsRanking, Agree, SameSchedule, Flatten, FirstSeen;
    assert |ranked1| == |Keys(ranked1, Score)| == |ranked2|;
    assert Keys(one, Score) == Keys(ranked1, Score)[..|one|];
    assert Keys(other, Score) == Keys(ranked2, Score)[..|other|];
  }

  ghost predicate DistinctScores(flat: seq<SearchResult>) {
    forall a, b :: Has(flat, a) && Has(flat, b) && a != b ==> First(flat, a).score != First(flat, b).score
  }

  /** If moreover no two URLs have the same score, the sequence of URLs is the same too. */
  lemma UrlsOfAnswerAreScheduleIndependent(
      lists: seq<seq<SearchResult>>, arrived: seq<seq<SearchResult>>, maxResults: nat,
      one: seq<SearchResult>, other: seq<SearchResult>)
    requires Agree(lists) && SameSchedule(lists, arrived) && DistinctScores(Flatten(lists))
    requires IsAnswer(lists, maxResults, one) && IsAnswer(arrived, maxResults, other)
    ensures Keys(one, Url) == Keys(other, Url)
  {
    ScoresOfAnswerAreScheduleIndependent(lists, arrived, maxResults, one, other);
    AnswerShape(lists, maxResults, one);
    AnswerShape(arrived, maxResults, other);
    assert |one| == |Keys(one, Score)| == |Keys(other, Score)| == |other|;
    forall i | 0 <= i < |one| ensures one[i].url == other[i].url {
      assert one[i].score == Keys(one, Score)[i] == Keys(other, Score)[i] == other[i].score;
      AgreedScore(lists, arrived, other[i].url);
    }
  }
}
