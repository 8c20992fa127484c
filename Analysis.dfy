/**
 * The analysis service: the interest-score heuristic, plain and
 * section-diversified top-N selection, and the statistics fold over a
 * snapshot of all articles.
 */
module Analysis {
  import opened Wrappers
  import opened Seqs
  import opened JavaLang
  import opened Time
  import opened Persistence

  /**
   * Labels worth the breaking-news boost. The first is spelled as the
   * scoring code spells it: "Actualités" with its "é" mis-decoded as "√©",
   * so it is not the label the recommendation code looks for.
   */
  const BreakingLabels: seq<string> := ["Actualit\U{221A}\U{A9}s", "Breaking"]
  /** Labels worth the major-event boost. */
  const MajorLabels: seq<string> := ["Sport", "Culture"]
  /** The group of an article without sections. */
  const FallbackSection: string := "Divers"

  /** The exception integer division by zero raises. */
  datatype Exception = ArithmeticException

  function SectionsOf(a: Article): seq<string> {
    if a.sections.Some? then a.sections.value else []
  }

  // ---------------------------------------------------------------------
  // Interest score
  // ---------------------------------------------------------------------

  /** 50 points, minus 2 per whole day of age, never below 0 (above 50 for future dates). */
  function RecencyTerm(a: Article, now: Timestamp): (r: int)
    ensures r >= 0
    ensures DaysBetween(a.publicationDate, now) <= 25 ==> r == 50 - 2 * DaysBetween(a.publicationDate, now)
    ensures DaysBetween(a.publicationDate, now) >= 25 ==> r == 0
  {
    Max(0, 50 - DaysBetween(a.publicationDate, now) * 2)
  }

  /** 5 points for a lead that is present and not empty. */
  function LeadTerm(a: Article): (r: int)
    ensures r == 5 <==> a.lead.Some? && |a.lead.value| > 0
    ensures r == 0 || r == 5
  {
    if a.lead.Some? && |a.lead.value| != 0 then 5 else 0
  }

  /** 10 points for a body longer than 200 UTF-16 units, 5 more beyond 500. */
  function BodyTerm(a: Article): (r: int)
    ensures r == 0 || r == 10 || r == 15
    ensures r == 0 <==> a.body.None? || Utf16Length(a.body.value) <= 200
    ensures r == 15 <==> a.body.Some? && Utf16Length(a.body.value) > 500
  {
    (if a.body.Some? && Utf16Length(a.body.value) > 200 then 10 else 0)
    + (if a.body.Some? && Utf16Length(a.body.value) > 500 then 5 else 0)
  }

  /** 5 points per section entry, at most 15; none without sections. */
  function SectionCountTerm(a: Article): (r: int)
    ensures 0 <= r <= 15
    ensures a.sections.Some? ==> r == Min(15, 5 * |a.sections.value|)
    ensures a.sections.None? ==> r == 0
  {
    if a.sections.Some? then Min(15, |a.sections.value| * 5) else 0
  }

  predicate IsBreakingLabel(s: string) {
    s in BreakingLabels
  }

  predicate IsMajorLabel(s: string) {
    s in MajorLabels
  }

  /** No section before position `i` carries a boosted label. */
  predicate NoBoostBefore(sections: seq<string>, i: int)
    requires 0 <= i <= |sections|
  {
    forall j :: 0 <= j < i ==> !IsBreakingLabel(sections[j]) && !IsMajorLabel(sections[j])
  }

  /** The boost of the first section, in list order, that carries a boosted label. */
  function PriorityBonus(sections: seq<string>): int {
    if |sections| == 0 then 0
    else if IsBreakingLabel(sections[0]) then 15
    else if IsMajorLabel(sections[0]) then 10
    else PriorityBonus(sections[1..])
  }

  function PriorityTerm(a: Article): int {
    if a.sections.Some? then PriorityBonus(a.sections.value) else 0
  }

  /** `calculateInterestScore`, as the sum of its five terms. */
  function InterestScore(a: Article, now: Timestamp): int {
    RecencyTerm(a, now) + LeadTerm(a) + BodyTerm(a) + SectionCountTerm(a) + PriorityTerm(a)
  }

  /**
   * The boost is decided by the first boosted section in list order, not by
   * the largest boost present: 15 exactly when that section is a breaking
   * label, 10 exactly when it is a major label, 0 when there is none.
   */
  lemma {:induction false} PriorityBonusFirstMatch(sections: seq<string>)
    ensures PriorityBonus(sections) == 0 || PriorityBonus(sections) == 10 || PriorityBonus(sections) == 15
    ensures PriorityBonus(sections) == 15 <==>
      exists i :: 0 <= i < |sections| && IsBreakingLabel(sections[i]) && NoBoostBefore(sections, i)
    ensures PriorityBonus(sections) == 10 <==>
      exists i :: 0 <= i < |sections| && IsMajorLabel(sections[i]) && NoBoostBefore(sections, i)
    ensures PriorityBonus(sections) == 0 <==>
      forall i :: 0 <= i < |sections| ==> !IsBreakingLabel(sections[i]) && !IsMajorLabel(sections[i])
    decreases |sections|
  {
    if |sections| == 0 {
    } else if IsBreakingLabel(sections[0]) {
      assert NoBoostBefore(sections, 0);
      assert !IsMajorLabel(sections[0]);
      forall i | 0 < i < |sections| ensures !NoBoostBefore(sections, i) { }
    } else if IsMajorLabel(sections[0]) {
      assert NoBoostBefore(sections, 0);
      forall i | 0 < i < |sections| ensures !NoBoostBefore(sections, i) { }
    } else {
      var tail := sections[1..];
      PriorityBonusFirstMatch(tail);
      forall i | 0 <= i < |tail| ensures NoBoostBefore(tail, i) <==> NoBoostBefore(sections, i + 1) {
        assert forall j :: 0 <= j < i ==> tail[j] == sections[j + 1];
        if NoBoostBefore(tail, i) {
          forall j | 0 <= j < i + 1 ensures !IsBreakingLabel(sections[j]) && !IsMajorLabel(sections[j]) {
            if j > 0 { assert sections[j] == tail[j - 1]; }
          }
        }
      }
      forall i | 0 < i < |sections| ensures sections[i] == tail[i - 1] {
      }
      if PriorityBonus(sections) == 0 {
        forall i | 0 <= i < |sections| ensures !IsBreakingLabel(sections[i]) && !IsMajorLabel(sections[i]) {
          if i > 0 { assert sections[i] == tail[i - 1]; }
        }
      }
      if exists i :: 0 <= i < |sections| && IsBreakingLabel(sections[i]) && NoBoostBefore(sections, i) {
        var i :| 0 <= i < |sections| && IsBreakingLabel(sections[i]) && NoBoostBefore(sections, i);
        assert i > 0;
        assert IsBreakingLabel(tail[i - 1]) && NoBoostBefore(tail, i - 1);
      }
      if exists i :: 0 <= i < |sections| && IsMajorLabel(sections[i]) && NoBoostBefore(sections, i) {
        var i :| 0 <= i < |sections| && IsMajorLabel(sections[i]) && NoBoostBefore(sections, i);
        assert i > 0;
        assert IsMajorLabel(tail[i - 1]) && NoBoostBefore(tail, i - 1);
      }
    }
  }

  /** Every term is non-negative, so the score is too; it is not capped. */
  lemma InterestScoreNonNegative(a: Article, now: Timestamp)
    ensures InterestScore(a, now) >= 0
    ensures PriorityTerm(a) == 0 || PriorityTerm(a) == 10 || PriorityTerm(a) == 15
  {
    if a.sections.Some? {
      PriorityBonusFirstMatch(a.sections.value);
    }
  }

  /** Section order decides the boost: a major label ahead of a breaking one wins. */
  lemma PriorityScanOrder()
    ensures PriorityBonus(["Sport", "Breaking"]) == 10
    ensures PriorityBonus(["Breaking", "Sport"]) == 15
    ensures PriorityBonus(["Monde", "Culture", "Breaking"]) == 10
    ensures PriorityBonus(["Actualit\U{E9}s"]) == 0
  {
    assert ["Monde", "Culture", "Breaking"][1..] == ["Culture", "Breaking"];
  }

  /** A one-day-old article with a lead, a 600-character body and sections Sport, Culture. */
  lemma InterestScoreExample(now: Timestamp)
    requires now - SecondsPerDay >= MinTimestamp
    ensures InterestScore(Article(1, Some("lead"), Some(seq(600, _ => 'x')), now - SecondsPerDay, Some(["Sport", "Culture"])), now) == 88
  {
    Utf16LengthBmp(seq(600, _ => 'x'));
  }

  /**
   * `calculateInterestScore` as the source computes it: a running total,
   * and a scan of the sections that stops at the first boosted label.
   */
  method CalculateInterestScore(a: Article, now: Timestamp) returns (score: int)
    ensures score == InterestScore(a, now)
  {
    score := 0;
    var daysOld := DaysBetween(a.publicationDate, now);
    var recencyScore := Max(0, 50 - daysOld * 2);
    score := score + recencyScore;
    if a.lead.Some? && |a.lead.value| != 0 {
      score := score + 5;
    }
    if a.body.Some? && Utf16Length(a.body.value) > 200 {
      score := score + 10;
    }
    if a.body.Some? && Utf16Length(a.body.value) > 500 {
      score := score + 5;
    }
    if a.sections.Some? {
      score := score + Min(15, |a.sections.value| * 5);
    }
    ghost var base := score;
    if a.sections.Some? {
      var sections := a.sections.value;
      var i := 0;
      while i < |sections|
        invariant 0 <= i <= |sections|
        invariant score == base
        invariant PriorityBonus(sections) == PriorityBonus(sections[i..])
      {
        assert sections[i..][1..] == sections[i + 1..];
        if IsBreakingLabel(sections[i]) {
          score := score + 15;
          break;
        }
        if IsMajorLabel(sections[i]) {
          score := score + 10;
          break;
        }
        i := i + 1;
      }
    }
  }

  // ---------------------------------------------------------------------
  // Plain top-N by interest
  // ---------------------------------------------------------------------

  /** The sort key of a `ScoredArticle`: the article's interest score at `now`. */
  function InterestKey(now: Timestamp): Article -> real {
    a => InterestScore(a, now) as real
  }

  /** `getInterestingArticles(limit)`: stable sort by descending score, then the first `limit`. */
  function InterestingArticles(articles: seq<Article>, now: Timestamp, limit: int): seq<Article>
    requires limit >= 0
  {
    TopN(articles, InterestKey(now), limit)
  }

  /**
   * The plain top-N returns min(limit, |articles|) articles of the snapshot,
   * none more often than it occurs there, and leaves out nothing that
   * scores above the last one returned.
   */
  lemma InterestingArticlesSelection(articles: seq<Article>, now: Timestamp, limit: int)
    requires limit >= 0
    ensures |InterestingArticles(articles, now, limit)| == Min(limit, |articles|)
    ensures multiset(InterestingArticles(articles, now, limit)) <= multiset(articles)
    ensures forall a :: a in articles && a !in InterestingArticles(articles, now, limit) && limit > 0 ==>
              InterestScore(a, now) <= InterestScore(InterestingArticles(articles, now, limit)[Min(limit, |articles|) - 1], now)
  {
    var key := InterestKey(now);
    var r := InterestingArticles(articles, now, limit);
    TopNProperties(articles, key, limit);
    forall a | a in articles && a !in r && limit > 0
      ensures InterestScore(a, now) <= InterestScore(r[|r| - 1], now)
    {
      assert key(a) <= key(r[|r| - 1]);
    }
  }

  /**
   * The plain top-N is ordered by non-increasing score, and articles with
   * equal scores appear in snapshot order.
   */
  lemma InterestingArticlesOrder(articles: seq<Article>, now: Timestamp, limit: int)
    requires limit >= 0
    ensures forall i, j :: 0 <= i < j < |InterestingArticles(articles, now, limit)| ==>
              InterestScore(InterestingArticles(articles, now, limit)[i], now)
              >= InterestScore(InterestingArticles(articles, now, limit)[j], now)
    ensures forall k :: Filter(InterestingArticles(articles, now, limit), HasKey(InterestKey(now), k))
                        <= Filter(articles, HasKey(InterestKey(now), k))
  {
    var key := InterestKey(now);
    var r := InterestingArticles(articles, now, limit);
    TopNProperties(articles, key, limit);
    forall i, j | 0 <= i < j < |r| ensures InterestScore(r[i], now) >= InterestScore(r[j], now) {
      assert key(r[i]) >= key(r[j]);
    }
  }

  // ---------------------------------------------------------------------
  // Grouping by primary section
  // ---------------------------------------------------------------------

  /** `getPrimarySection`: the first section label, or the fallback group. */
  function PrimarySection(a: Article): string {
    if a.sections.Some? && |a.sections.value| > 0 then a.sections.value[0] else FallbackSection
  }

  function PrimaryIs(section: string): Article -> bool {
    a => PrimarySection(a) == section
  }

  /** The articles of one group, in snapshot order. */
  function Group(articles: seq<Article>, section: string): seq<Article> {
    Filter(articles, PrimaryIs(section))
  }

  /**
   * The distinct primary sections in order of first appearance: the order
   * in which this model visits the groups, which the source leaves to
   * `HashMap`.
   */
  function PrimaryOrder(articles: seq<Article>): seq<string> {
    if |articles| == 0 then []
    else
      var order := PrimaryOrder(articles[..|articles| - 1]);
      var last := PrimarySection(articles[|articles| - 1]);
      if last in order then order else order + [last]
  }

  /**
   * The group order lists every primary section of the snapshot once and
   * nothing else; it is empty exactly when the snapshot is.
   */
  lemma {:induction false} PrimaryOrderProperties(articles: seq<Article>)
    ensures forall i, j :: 0 <= i < j < |PrimaryOrder(articles)| ==> PrimaryOrder(articles)[i] != PrimaryOrder(articles)[j]
    ensures forall a :: a in articles ==> PrimarySection(a) in PrimaryOrder(articles)
    ensures forall k :: k in PrimaryOrder(articles) ==> exists a :: a in articles && PrimarySection(a) == k
    ensures |PrimaryOrder(articles)| == 0 <==> |articles| == 0
    decreases |articles|
  {
    if |articles| > 0 {
      var init := articles[..|articles| - 1];
      var last := articles[|articles| - 1];
      assert articles == init + [last];
      PrimaryOrderProperties(init);
      forall k | k in PrimaryOrder(articles) ensures exists a :: a in articles && PrimarySection(a) == k {
        if k in PrimaryOrder(init) {
          var a :| a in init && PrimarySection(a) == k;
          assert a in articles;
        } else {
          assert PrimarySection(last) == k;
        }
      }
    }
  }

  /** Every article of the snapshot is in exactly one group: that of its primary section. */
  lemma GroupMembership(articles: seq<Article>, a: Article, k: string)
    ensures a in Group(articles, k) <==> a in articles && PrimarySection(a) == k
  {
    FilterMembers(articles, PrimaryIs(k), a);
  }

  lemma GroupStep(s: seq<Article>, a: Article, k: string)
    ensures Group(s + [a], k) == Group(s, k) + (if PrimarySection(a) == k then [a] else [])
  {
    assert (s + [a])[..|s|] == s;
  }

  lemma PrimaryOrderStep(s: seq<Article>, a: Article)
    ensures PrimaryOrder(s + [a]) == if PrimarySection(a) in PrimaryOrder(s) then PrimaryOrder(s)
                                     else PrimaryOrder(s) + [PrimarySection(a)]
  {
    assert (s + [a])[..|s|] == s;
  }

  /** A section that is no article's primary section has an empty group. */
  lemma GroupAbsent(s: seq<Article>, k: string)
    requires k !in PrimaryOrder(s)
    ensures Group(s, k) == []
  {
    PrimaryOrderProperties(s);
    forall i | 0 <= i < |s| ensures !PrimaryIs(k)(s[i]) {
      assert s[i] in s;
    }
    FilterEmpty(s, PrimaryIs(k));
  }

  /**
   * `groupByPrimarySection`: fills a map from primary section to the list of
   * its articles, one article at a time. Every article lands in exactly one
   * group, that of its primary section.
   */
  method GroupByPrimarySection(articles: seq<Article>)
    returns (grouped: map<string, seq<Article>>, order: seq<string>)
    ensures order == PrimaryOrder(articles)
    ensures forall k :: k in grouped <==> k in order
    ensures forall k :: k in grouped ==> grouped[k] == Group(articles, k)
  {
    grouped := map[];
    order := [];
    var i := 0;
    while i < |articles|
      invariant 0 <= i <= |articles|
      invariant order == PrimaryOrder(articles[..i])
      invariant forall k :: k in grouped <==> k in order
      invariant forall k :: k in grouped ==> grouped[k] == Group(articles[..i], k)
    {
      var article := articles[i];
      var primarySection := PrimarySection(article);
      ghost var done := articles[..i];
      assert articles[..i + 1] == done + [article];
      PrimaryOrderStep(done, article);
      forall k ensures Group(done + [article], k) == Group(done, k) + (if primarySection == k then [article] else []) {
        GroupStep(done, article, k);
      }
      if primarySection in grouped {
        grouped := grouped[primarySection := grouped[primarySection] + [article]];
      } else {
        GroupAbsent(done, primarySection);
        grouped := grouped[primarySection := [article]];
        order := order + [primarySection];
      }
      i := i + 1;
    }
    assert articles[..i] == articles;
  }

  // ---------------------------------------------------------------------
  // Diversified top-N
  // ---------------------------------------------------------------------

  /** The sort key of the final merge: the publication date. */
  function DateKey(a: Article): real {
    a.publicationDate as real
  }

  /** `Math.max(1, limit / groupCount)`: at least one article per group. */
  function ArticlesPerSection(limit: int, groupCount: int): (n: int)
    requires limit >= 0 && groupCount > 0
    ensures n >= 1
    ensures n == 1 || n * groupCount <= limit
    ensures limit >= groupCount ==> n * groupCount > limit - groupCount
  {
    Max(1, TruncDiv(limit, groupCount))
  }

  /** The top `perSection` articles of each listed group, groups one after another. */
  function Picks(articles: seq<Article>, now: Timestamp, sections: seq<string>, perSection: int): seq<Article>
    requires perSection >= 0
  {
    if |sections| == 0 then []
    else
      Picks(articles, now, sections[..|sections| - 1], perSection)
      + InterestingArticles(Group(articles, sections[|sections| - 1]), now, perSection)
  }

  /**
   * `getInterestingArticlesDiversified(limit)`: the division by the number of
   * groups throws on an empty snapshot; otherwise the per-group top
   * articles, merged, sorted by descending publication date and limited.
   */
  function Diversified(articles: seq<Article>, now: Timestamp, limit: int): Result<seq<Article>, Exception>
    requires limit >= 0
  {
    var order := PrimaryOrder(articles);
    if |order| == 0 then Failure(ArithmeticException)
    else Success(TopN(Picks(articles, now, order, ArticlesPerSection(limit, |order|)), DateKey, limit))
  }

  lemma PicksStep(articles: seq<Article>, now: Timestamp, sections: seq<string>, i: int, perSection: int)
    requires 0 <= i < |sections| && perSection >= 0
    ensures Picks(articles, now, sections[..i + 1], perSection)
         == Picks(articles, now, sections[..i], perSection)
            + InterestingArticles(Group(articles, sections[i]), now, perSection)
  {
    assert sections[..i + 1][..i] == sections[..i];
  }

  /** The source's loop over the groups, appending each group's top articles. */
  method InterestingArticlesDiversified(articles: seq<Article>, now: Timestamp, limit: int)
    returns (r: Result<seq<Article>, Exception>)
    requires limit >= 0
    ensures r == Diversified(articles, now, limit)
  {
    var articlesBySection, order := GroupByPrimarySection(articles);
    if |order| == 0 {
      return Failure(ArithmeticException);
    }
    var articlesPerSection := ArticlesPerSection(limit, |order|);
    var diversifiedArticles := [];
    var i := 0;
    while i < |order|
      invariant 0 <= i <= |order|
      invariant diversifiedArticles == Picks(articles, now, order[..i], articlesPerSection)
    {
      PicksStep(articles, now, order, i, articlesPerSection);
      diversifiedArticles := diversifiedArticles
        + InterestingArticles(articlesBySection[order[i]], now, articlesPerSection);
      i := i + 1;
    }
    assert order[..i] == order;
    r := Success(TopN(diversifiedArticles, DateKey, limit));
  }

  /** The diversified selection fails exactly on an empty snapshot. */
  lemma DiversifiedFailsOnlyWhenEmpty(articles: seq<Article>, now: Timestamp, limit: int)
    requires limit >= 0
    ensures Diversified(articles, now, limit).Failure? <==> |articles| == 0
  {
    PrimaryOrderProperties(articles);
  }

  /** How often an article occurs among the picks: as often as in its own group's top list. */
  lemma {:induction false} PicksCount(articles: seq<Article>, now: Timestamp, sections: seq<string>, perSection: int, x: Article)
    requires perSection >= 0
    requires forall i, j :: 0 <= i < j < |sections| ==> sections[i] != sections[j]
    ensures multiset(Picks(articles, now, sections, perSection))[x]
         == if PrimarySection(x) in sections
            then multiset(InterestingArticles(Group(articles, PrimarySection(x)), now, perSection))[x]
            else 0
    decreases |sections|
  {
    if |sections| > 0 {
      var init := sections[..|sections| - 1];
      var last := sections[|sections| - 1];
      assert sections == init + [last];
      PicksCount(articles, now, init, perSection, x);
      var g := Group(articles, last);
      InterestingArticlesSelection(g, now, perSection);
      FilterCount(articles, PrimaryIs(last), x);
      assert multiset(InterestingArticles(g, now, perSection))[x] <= multiset(g)[x];
    }
  }

  /** Each article occurs in the diversified list at most as often as in its group's top list. */
  lemma DiversifiedCount(articles: seq<Article>, now: Timestamp, limit: int, x: Article)
    requires limit >= 0 && |articles| > 0
    ensures Diversified(articles, now, limit).Success?
    ensures multiset(Diversified(articles, now, limit).value)[x]
         <= multiset(InterestingArticles(Group(articles, PrimarySection(x)), now,
                                         ArticlesPerSection(limit, |PrimaryOrder(articles)|)))[x]
  {
    PrimaryOrderProperties(articles);
    var order := PrimaryOrder(articles);
    var perSection := ArticlesPerSection(limit, |order|);
    var picks := Picks(articles, now, order, perSection);
    TopNProperties(picks, DateKey, limit);
    PicksCount(articles, now, order, perSection, x);
  }

  /**
   * With at least one article per group, a non-empty group order picks at
   * least one article: every listed section is the primary section of some
   * article of the snapshot.
   */
  lemma PicksNonEmpty(articles: seq<Article>, now: Timestamp, perSection: int)
    requires perSection >= 1 && |articles| > 0
    ensures |Picks(articles, now, PrimaryOrder(articles), perSection)| > 0
  {
    PrimaryOrderProperties(articles);
    var order := PrimaryOrder(articles);
    var k := order[|order| - 1];
    assert k in order;
    var a :| a in articles && PrimarySection(a) == k;
    GroupMembership(articles, a, k);
    InterestingArticlesSelection(Group(articles, k), now, perSection);
  }

  /**
   * The diversified list keeps `limit` of the merged picks (all of them when
   * there are fewer), newest first; a pick left out is no newer than the
   * last one kept, and a positive limit on a non-empty snapshot never gives
   * an empty list.
   */
  lemma DiversifiedOrder(articles: seq<Article>, now: Timestamp, limit: int)
    requires limit >= 0 && |articles| > 0
    ensures Diversified(articles, now, limit).Success?
    ensures |Diversified(articles, now, limit).value|
         == Min(limit, |Picks(articles, now, PrimaryOrder(articles), ArticlesPerSection(limit, |PrimaryOrder(articles)|))|)
    ensures forall i, j :: 0 <= i < j < |Diversified(articles, now, limit).value| ==>
              Diversified(articles, now, limit).value[i].publicationDate
              >= Diversified(articles, now, limit).value[j].publicationDate
    ensures forall x ::
              x in Picks(articles, now, PrimaryOrder(articles), ArticlesPerSection(limit, |PrimaryOrder(articles)|)) &&
              x !in Diversified(articles, now, limit).value && limit > 0 ==>
              x.publicationDate <= Diversified(articles, now, limit).value[|Diversified(articles, now, limit).value| - 1].publicationDate
    ensures limit > 0 ==> |Diversified(articles, now, limit).value| > 0
  {
    var order := PrimaryOrder(articles);
    assert |order| > 0;
    var picks := Picks(articles, now, order, ArticlesPerSection(limit, |order|));
    assert Diversified(articles, now, limit).value == TopN(picks, DateKey, limit);
    ByDate(picks, limit);
    ByDateCutoff(picks, limit);
    PicksNonEmpty(articles, now, ArticlesPerSection(limit, |order|));
  }

  /** `limit` articles, newest first. */
  lemma ByDate(s: seq<Article>, limit: int)
    requires limit >= 0
    ensures |TopN(s, DateKey, limit)| == Min(limit, |s|)
    ensures forall i, j :: 0 <= i < j < |TopN(s, DateKey, limit)| ==>
              TopN(s, DateKey, limit)[i].publicationDate >= TopN(s, DateKey, limit)[j].publicationDate
  {
    var r := TopN(s, DateKey, limit);
    TopNElements(s, DateKey, limit);
    TopNSorted(s, DateKey, limit);
    forall i, j | 0 <= i < j < |r| ensures r[i].publicationDate >= r[j].publicationDate {
      assert DateKey(r[i]) >= DateKey(r[j]);
    }
  }

  /** Nothing left out of a date top-N is newer than the last one kept. */
  lemma ByDateCutoff(s: seq<Article>, limit: int)
    requires limit >= 0
    ensures forall x :: x in s && x !in TopN(s, DateKey, limit) && limit > 0 ==>
              x.publicationDate <= TopN(s, DateKey, limit)[|TopN(s, DateKey, limit)| - 1].publicationDate
  {
    var r := TopN(s, DateKey, limit);
    TopNCutoff(s, DateKey, limit);
    forall x | x in s && x !in r && limit > 0
      ensures x.publicationDate <= r[|r| - 1].publicationDate
    {
      assert DateKey(x) <= DateKey(r[|r| - 1]);
    }
  }


  /** The diversified list takes articles from the snapshot, none more often than it occurs there. */
  lemma DiversifiedFromSnapshot(articles: seq<Article>, now: Timestamp, limit: int)
    requires limit >= 0 && |articles| > 0
    ensures Diversified(articles, now, limit).Success?
    ensures multiset(Diversified(articles, now, limit).value) <= multiset(articles)
  {
    PrimaryOrderProperties(articles);
    var r := Diversified(articles, now, limit).value;
    var perSection := ArticlesPerSection(limit, |PrimaryOrder(articles)|);
    forall x ensures multiset(r)[x] <= multiset(articles)[x] {
      DiversifiedCount(articles, now, limit, x);
      var g := Group(articles, PrimarySection(x));
      InterestingArticlesSelection(g, now, perSection);
      FilterCount(articles, PrimaryIs(PrimarySection(x)), x);
    }
  }

  /** Every diversified article is among the highest-scoring `articlesPerSection` of its group. */
  lemma DiversifiedFromGroupTops(articles: seq<Article>, now: Timestamp, limit: int)
    requires limit >= 0 && |articles| > 0
    ensures Diversified(articles, now, limit).Success?
    ensures forall a :: a in Diversified(articles, now, limit).value ==>
              a in InterestingArticles(Group(articles, PrimarySection(a)), now,
                                       ArticlesPerSection(limit, |PrimaryOrder(articles)|))
  {
    DiversifiedCount(articles, now, limit, articles[0]);
    var r := Diversified(articles, now, limit).value;
    var perSection := ArticlesPerSection(limit, |PrimaryOrder(articles)|);
    forall a | a in r
      ensures a in InterestingArticles(Group(articles, PrimarySection(a)), now, perSection)
    {
      DiversifiedCount(articles, now, limit, a);
      assert multiset(r)[a] > 0;
    }
  }

  /** The diversified articles of one group form a sub-multiset of that group's top list. */
  lemma DiversifiedGroupShare(articles: seq<Article>, now: Timestamp, limit: int, k: string)
    requires limit >= 0 && |articles| > 0
    ensures Diversified(articles, now, limit).Success?
    ensures multiset(Filter(Diversified(articles, now, limit).value, PrimaryIs(k)))
         <= multiset(InterestingArticles(Group(articles, k), now, ArticlesPerSection(limit, |PrimaryOrder(articles)|)))
  {
    PrimaryOrderProperties(articles);
    var r := Diversified(articles, now, limit).value;
    var top := InterestingArticles(Group(articles, k), now, ArticlesPerSection(limit, |PrimaryOrder(articles)|));
    forall x ensures multiset(Filter(r, PrimaryIs(k)))[x] <= multiset(top)[x] {
      FilterCount(r, PrimaryIs(k), x);
      DiversifiedCount(articles, now, limit, x);
    }
  }

  /** Diversification caps every group at `articlesPerSection` articles. */
  lemma DiversifiedPerSection(articles: seq<Article>, now: Timestamp, limit: int)
    requires limit >= 0 && |articles| > 0
    ensures Diversified(articles, now, limit).Success?
    ensures forall k :: |Filter(Diversified(articles, now, limit).value, PrimaryIs(k))|
                        <= ArticlesPerSection(limit, |PrimaryOrder(articles)|)
  {
    PrimaryOrderProperties(articles);
    var r := Diversified(articles, now, limit).value;
    var perSection := ArticlesPerSection(limit, |PrimaryOrder(articles)|);
    forall k ensures |Filter(r, PrimaryIs(k))| <= perSection {
      DiversifiedGroupShare(articles, now, limit, k);
      MultisetCardinality(Filter(r, PrimaryIs(k)), InterestingArticles(Group(articles, k), now, perSection));
      InterestingArticlesSelection(Group(articles, k), now, perSection);
    }
  }

  // ---------------------------------------------------------------------
  // Statistics
  // ---------------------------------------------------------------------

  /** The `ArticleStatistics` record. */
  datatype ArticleStatistics = ArticleStatistics(
    totalArticles: int,
    sectionDistribution: map<string, int>,
    oldestArticle: Timestamp,
    newestArticle: Timestamp,
    averageWordCount: int)

  /** All section entries of the snapshot, article after article, duplicates kept. */
  function SectionEntries(articles: seq<Article>): seq<string> {
    if |articles| == 0 then []
    else SectionEntries(articles[..|articles| - 1]) + SectionsOf(articles[|articles| - 1])
  }

  /** Labels folded into a count map one at a time, as `merge(label, 1L, Long::sum)` does. */
  function Tally(labels: seq<string>): map<string, int> {
    if |labels| == 0 then map[]
    else
      var counts := Tally(labels[..|labels| - 1]);
      var s := labels[|labels| - 1];
      counts[s := (if s in counts then counts[s] else 0) + 1]
  }

  /** The tally holds exactly the labels that occur, each with its number of occurrences. */
  lemma {:induction false} TallyCounts(labels: seq<string>)
    ensures forall s :: s in Tally(labels) <==> s in labels
    ensures forall s :: s in Tally(labels) ==> Tally(labels)[s] == multiset(labels)[s]
  {
    if |labels| > 0 {
      var init, last := labels[..|labels| - 1], labels[|labels| - 1];
      TallyCounts(init);
      assert labels == init + [last];
      assert multiset(labels) == multiset(init) + multiset{last};
    }
  }

  /** The distribution the statistics report: occurrences of each label over all section lists. */
  function SectionDistribution(articles: seq<Article>): map<string, int> {
    Tally(SectionEntries(articles))
  }

  /** The oldest publication date, folded from the seed `now` with a strict "is before". */
  function OldestDate(articles: seq<Article>, now: Timestamp): Timestamp {
    if |articles| == 0 then now
    else
      var oldest := OldestDate(articles[..|articles| - 1], now);
      var date := articles[|articles| - 1].publicationDate;
      if date < oldest then date else oldest
  }

  /** The newest publication date, folded from the seed `LocalDateTime.MIN` with a strict "is after". */
  function NewestDate(articles: seq<Article>): Timestamp {
    if |articles| == 0 then MinTimestamp
    else
      var newest := NewestDate(articles[..|articles| - 1]);
      var date := articles[|articles| - 1].publicationDate;
      if date > newest then date else newest
  }

  /** Words of a body as `split("\\s+").length` counts them; an absent body has none. */
  function BodyWords(a: Article): nat {
    if a.body.Some? then SplitWhitespaceCount(a.body.value) else 0
  }

  /** The exact number of words in the snapshot. */
  function TotalWords(articles: seq<Article>): nat {
    if |articles| == 0 then 0
    else TotalWords(articles[..|articles| - 1]) + BodyWords(articles[|articles| - 1])
  }

  /**
   * The reported average: the Java `int` total (which wraps past 2^31 - 1)
   * divided by the article count with truncation, or 0 for no articles.
   */
  function AverageWordCount(articles: seq<Article>): int {
    if |articles| == 0 then 0 else TruncDiv(Int32(TotalWords(articles)), |articles|)
  }

  lemma StatisticsStep(s: seq<Article>, a: Article, now: Timestamp)
    ensures SectionEntries(s + [a]) == SectionEntries(s) + SectionsOf(a)
    ensures OldestDate(s + [a], now) == if a.publicationDate < OldestDate(s, now) then a.publicationDate else OldestDate(s, now)
    ensures NewestDate(s + [a]) == if a.publicationDate > NewestDate(s) then a.publicationDate else NewestDate(s)
    ensures TotalWords(s + [a]) == TotalWords(s) + BodyWords(a)
  {
    assert (s + [a])[..|s|] == s;
  }

  lemma TallyStep(labels: seq<string>, s: string)
    ensures Tally(labels + [s]) == Tally(labels)[s := (if s in Tally(labels) then Tally(labels)[s] else 0) + 1]
  {
    assert (labels + [s])[..|labels|] == labels;
  }

  /** The inner loop of the statistics: merge one article's sections into the running tally. */
  method MergeSections(counts: map<string, int>, ghost seen: seq<string>, sections: seq<string>) returns (r: map<string, int>)
    requires counts == Tally(seen)
    ensures r == Tally(seen + sections)
  {
    r := counts;
    var j := 0;
    assert seen + sections[..j] == seen;
    while j < |sections|
      invariant 0 <= j <= |sections|
      invariant r == Tally(seen + sections[..j])
    {
      var section := sections[j];
      TallyStep(seen + sections[..j], section);
      assert seen + sections[..j + 1] == seen + sections[..j] + [section];
      r := r[section := (if section in r then r[section] else 0) + 1];
      j := j + 1;
    }
    assert sections[..j] == sections;
  }

  /** `totalWords += body.split("\\s+").length` on a Java `int`, skipped for an absent body. */
  method AddWords(total: int, ghost exact: int, a: Article) returns (r: int)
    requires total == Int32(exact)
    ensures r == Int32(exact + BodyWords(a))
  {
    r := total;
    if a.body.Some? {
      Int32AddWrapped(exact, SplitWhitespaceCount(a.body.value));
      r := Int32(total + SplitWhitespaceCount(a.body.value));
    }
  }

  /** The running values of `analyzeArticleDatabase` after the articles `done`. */
  ghost predicate Accumulated(done: seq<Article>, now: Timestamp, counts: map<string, int>, oldest: Timestamp, newest: Timestamp, total: int) {
    && counts == Tally(SectionEntries(done))
    && oldest == OldestDate(done, now)
    && newest == NewestDate(done)
    && total == Int32(TotalWords(done))
  }

  /** The body of the statistics loop: take one more article into the running values. */
  method AccumulateArticle(counts: map<string, int>, oldest: Timestamp, newest: Timestamp, total: int, ghost done: seq<Article>, a: Article, now: Timestamp)
    returns (counts': map<string, int>, oldest': Timestamp, newest': Timestamp, total': int)
    requires Accumulated(done, now, counts, oldest, newest, total)
    ensures Accumulated(done + [a], now, counts', oldest', newest', total')
  {
    StatisticsStep(done, a, now);
    counts' := counts;
    if a.sections.Some? {
      counts' := MergeSections(counts, SectionEntries(done), a.sections.value);
    } else {
      assert SectionEntries(done) + SectionsOf(a) == SectionEntries(done);
    }
    oldest' := if a.publicationDate < oldest then a.publicationDate else oldest;
    newest' := if a.publicationDate > newest then a.publicationDate else newest;
    total' := AddWords(total, TotalWords(done), a);
  }

  /**
   * `analyzeArticleDatabase`: one pass over the snapshot counting section
   * entries, tracking the date range and summing words in a Java `int`.
   */
  method AnalyzeArticleDatabase(articles: seq<Article>, now: Timestamp) returns (stats: ArticleStatistics)
    ensures stats.totalArticles == |articles|
    ensures stats.sectionDistribution == SectionDistribution(articles)
    ensures stats.oldestArticle == OldestDate(articles, now)
    ensures stats.newestArticle == NewestDate(articles)
    ensures stats.averageWordCount == AverageWordCount(articles)
  {
    var sectionCounts: map<string, int> := map[];
    var oldestDate := now;
    var newestDate: Timestamp := MinTimestamp;
    var totalWords := 0;
    var i := 0;
    while i < |articles|
      invariant 0 <= i <= |articles|
      invariant Accumulated(articles[..i], now, sectionCounts, oldestDate, newestDate, totalWords)
    {
      assert articles[..i + 1] == articles[..i] + [articles[i]];
      sectionCounts, oldestDate, newestDate, totalWords :=
        AccumulateArticle(sectionCounts, oldestDate, newestDate, totalWords, articles[..i], articles[i], now);
      i := i + 1;
    }
    assert articles[..i] == articles;
    var averageWordCount := if |articles| == 0 then 0 else TruncDiv(totalWords, |articles|);
    stats := ArticleStatistics(|articles|, sectionCounts, oldestDate, newestDate, averageWordCount);
  }

  /** Occurrences of `s` across the section lists of the snapshot, counted article by article. */
  function Occurrences(articles: seq<Article>, s: string): nat {
    if |articles| == 0 then 0
    else Occurrences(articles[..|articles| - 1], s) + multiset(SectionsOf(articles[|articles| - 1]))[s]
  }

  /** Number of section entries over all articles. */
  function EntryCount(articles: seq<Article>): nat {
    if |articles| == 0 then 0
    else EntryCount(articles[..|articles| - 1]) + |SectionsOf(articles[|articles| - 1])|
  }

  lemma {:induction false} SectionEntriesCounts(articles: seq<Article>, s: string)
    ensures multiset(SectionEntries(articles))[s] == Occurrences(articles, s)
    ensures |SectionEntries(articles)| == EntryCount(articles)
  {
    if |articles| > 0 {
      SectionEntriesCounts(articles[..|articles| - 1], s);
    }
  }

  /**
   * The distribution has a key for exactly the labels that occur, and
   * each value is the number of occurrences, so an article listing a
   * label twice contributes two.
   */
  lemma SectionDistributionCounts(articles: seq<Article>)
    ensures forall s :: s in SectionDistribution(articles) <==> Occurrences(articles, s) > 0
    ensures forall s :: s in SectionDistribution(articles) ==> SectionDistribution(articles)[s] == Occurrences(articles, s)
  {
    var e := SectionEntries(articles);
    TallyCounts(e);
    forall s ensures multiset(e)[s] == Occurrences(articles, s) {
      SectionEntriesCounts(articles, s);
    }
  }

  /** Sum of the values of `m` at the given keys. */
  function SumAt(m: map<string, int>, keys: seq<string>): int
    requires forall i :: 0 <= i < |keys| ==> keys[i] in m
  {
    if |keys| == 0 then 0 else SumAt(m, keys[..|keys| - 1]) + m[keys[|keys| - 1]]
  }

  /** Sum over the given keys of their number of occurrences in `labels`. */
  function CountAt(labels: seq<string>, keys: seq<string>): int {
    if |keys| == 0 then 0 else CountAt(labels, keys[..|keys| - 1]) + multiset(labels)[keys[|keys| - 1]]
  }

  predicate Distinct(keys: seq<string>) {
    forall i, j :: 0 <= i < j < |keys| ==> keys[i] != keys[j]
  }

  lemma {:induction false} SumAtTally(labels: seq<string>, keys: seq<string>)
    requires forall i :: 0 <= i < |keys| ==> keys[i] in labels
    ensures forall i :: 0 <= i < |keys| ==> keys[i] in Tally(labels)
    ensures SumAt(Tally(labels), keys) == CountAt(labels, keys)
  {
    TallyCounts(labels);
    if |keys| > 0 {
      SumAtTally(labels, keys[..|keys| - 1]);
    }
  }

  lemma {:induction false} CountAtEmpty(keys: seq<string>)
    ensures CountAt([], keys) == 0
  {
    if |keys| > 0 {
      CountAtEmpty(keys[..|keys| - 1]);
    }
  }

  lemma {:induction false} CountAtSnoc(labels: seq<string>, x: string, keys: seq<string>)
    requires Distinct(keys)
    ensures CountAt(labels + [x], keys) == CountAt(labels, keys) + (if x in keys then 1 else 0)
  {
    assert multiset(labels + [x]) == multiset(labels) + multiset{x};
    if |keys| > 0 {
      var init := keys[..|keys| - 1];
      CountAtSnoc(labels, x, init);
      assert x in keys <==> x in init || x == keys[|keys| - 1];
      assert x == keys[|keys| - 1] ==> x !in init;
    }
  }

  lemma {:induction false} CountAtAll(labels: seq<string>, keys: seq<string>)
    requires Distinct(keys)
    requires forall i :: 0 <= i < |labels| ==> labels[i] in keys
    ensures CountAt(labels, keys) == |labels|
  {
    if |labels| == 0 {
      CountAtEmpty(keys);
    } else {
      var init, last := labels[..|labels| - 1], labels[|labels| - 1];
      CountAtAll(init, keys);
      assert labels == init + [last];
      CountAtSnoc(init, last, keys);
    }
  }

  /**
   * Adding up the distribution over its keys, each taken once, gives the
   * total number of section entries in the snapshot.
   */
  lemma SectionDistributionSum(articles: seq<Article>, keys: seq<string>)
    requires Distinct(keys)
    requires forall s :: s in keys <==> s in SectionDistribution(articles)
    ensures forall i :: 0 <= i < |keys| ==> keys[i] in SectionDistribution(articles)
    ensures SumAt(SectionDistribution(articles), keys) == EntryCount(articles)
  {
    var e := SectionEntries(articles);
    TallyCounts(e);
    assert SectionDistribution(articles) == Tally(e);
    forall i | 0 <= i < |keys| ensures keys[i] in e {
      assert keys[i] in keys;
    }
    forall i | 0 <= i < |e| ensures e[i] in keys {
      assert e[i] in Tally(e);
    }
    SumAtTally(e, keys);
    CountAtAll(e, keys);
    SectionEntriesCounts(articles, "");
  }

  /**
   * The reported date range: the seeds come back for an empty snapshot;
   * otherwise every publication date lies between the two bounds, the
   * newest is some article's date, and the oldest is some article's date
   * unless every article is later than `now`, in which case it stays `now`.
   */
  lemma {:induction false} DateRange(articles: seq<Article>, now: Timestamp)
    ensures |articles| == 0 ==> OldestDate(articles, now) == now && NewestDate(articles) == MinTimestamp
    ensures OldestDate(articles, now) <= now
    ensures forall a :: a in articles ==> OldestDate(articles, now) <= a.publicationDate <= NewestDate(articles)
    ensures OldestDate(articles, now) == now || exists a :: a in articles && a.publicationDate == OldestDate(articles, now)
    ensures |articles| > 0 ==> exists a :: a in articles && a.publicationDate == NewestDate(articles)
    ensures (forall a :: a in articles ==> a.publicationDate > now) ==> OldestDate(articles, now) == now
  {
    if |articles| > 0 {
      var init, last := articles[..|articles| - 1], articles[|articles| - 1];
      DateRange(init, now);
      assert articles == init + [last];
      assert forall a :: a in articles <==> a in init || a == last;
    }
  }

  /**
   * The reported average is 0 for no articles; while the word total fits
   * in a Java `int` it is the truncated mean, the largest count whose
   * multiple by the number of articles does not exceed the total.
   */
  lemma AverageWordCountMean(articles: seq<Article>)
    ensures |articles| == 0 ==> AverageWordCount(articles) == 0
    ensures 0 < |articles| && TotalWords(articles) <= Int32Max ==>
              AverageWordCount(articles) * |articles| <= TotalWords(articles) < (AverageWordCount(articles) + 1) * |articles|
  {
    if 0 < |articles| && TotalWords(articles) <= Int32Max {
      Int32Exact(TotalWords(articles));
    }
  }

  /** A total of 2^31 words wraps to a negative `int`, so the average of one such article is -2^31. */
  lemma AverageWordCountWraps(a: Article)
    requires BodyWords(a) == 0x8000_0000
    ensures AverageWordCount([a]) == Int32Min
  {
    assert [a][..0] == [];
    assert TotalWords([a]) == 0x8000_0000;
  }

  /** An article listing "Sport" twice counts twice in the distribution, as the code counts entries. */
  lemma DuplicateSectionCountsTwice(a: Article)
    requires a.sections == Some(["Sport", "Sport"])
    ensures SectionDistribution([a]) == map["Sport" := 2]
  {
    assert [a][..0] == [];
    assert SectionEntries([a]) == ["Sport", "Sport"];
    assert ["Sport", "Sport"][..1] == ["Sport"];
    assert ["Sport"][..0] == [];
  }
}
