/**
 * The recommendation service: two aliases of the analysis rankings,
 * section and recency filters sorted by publication date, per-category
 * highlights, and "similar articles" ranked by a section-overlap and
 * time-proximity similarity.
 */
module Recommendation {
  import opened Wrappers
  import opened Seqs
  import opened JavaLang
  import opened Time
  import opened Persistence
  import opened Analysis

  /** The breaking-news label as the recommendation code spells it, correctly. */
  const BreakingNewsLabel: string := "Actualit\U{E9}s"
  /** The categories of the highlights page. */
  const MainCategories: seq<string> := ["Sport", "Culture", BreakingNewsLabel, "\U{C9}conomie"]
  /** Trending articles are those of the last 30 days. */
  const TrendingDays: int := 30
  /** The window of the time-proximity term, in days. */
  const ProximityDays: int := 7
  /** The number of articles of the daily digest. */
  const DailyDigestSize: int := 10

  // ---------------------------------------------------------------------
  // Aliases
  // ---------------------------------------------------------------------

  /** `getTopStories(count)`: the plain interest ranking. */
  function TopStories(articles: seq<Article>, now: Timestamp, count: int): (r: seq<Article>)
    requires count >= 0
    ensures r == InterestingArticles(articles, now, count)
    ensures |r| == Min(count, |articles|)
    ensures multiset(r) <= multiset(articles)
    ensures forall i, j :: 0 <= i < j < |r| ==> InterestScore(r[i], now) >= InterestScore(r[j], now)
  {
    InterestingArticlesSelection(articles, now, count);
    InterestingArticlesOrder(articles, now, count);
    InterestingArticles(articles, now, count)
  }

  /** `getDailyDigest()`: the diversified ranking with a limit of ten. */
  method DailyDigest(articles: seq<Article>, now: Timestamp) returns (r: Result<seq<Article>, Exception>)
    ensures r == Diversified(articles, now, DailyDigestSize)
    ensures r.Failure? <==> |articles| == 0
    ensures r.Success? ==> |r.value| <= DailyDigestSize && SortedDesc(r.value, DateKey)
  {
    r := InterestingArticlesDiversified(articles, now, DailyDigestSize);
    DiversifiedFailsOnlyWhenEmpty(articles, now, DailyDigestSize);
    if |articles| > 0 {
      DiversifiedOrder(articles, now, DailyDigestSize);
    }
  }

  // ---------------------------------------------------------------------
  // Filters
  // ---------------------------------------------------------------------

  /** `hasSection`: false without a section list, otherwise membership in it. */
  function HasSection(a: Article, section: string): (r: bool)
    ensures a.sections.None? ==> !r
    ensures a.sections.Some? ==> (r <==> exists i :: 0 <= i < |a.sections.value| && a.sections.value[i] == section)
  {
    a.sections.Some? && section in a.sections.value
  }

  /** `isRecent(article, days)`: published strictly after `now.minusDays(days)`. */
  function IsRecent(a: Article, now: Timestamp, days: int): (r: bool)
    ensures r <==> now - a.publicationDate < days * SecondsPerDay
  {
    a.publicationDate > MinusDays(now, days)
  }

  function InSection(section: string): Article -> bool {
    a => HasSection(a, section)
  }

  function RecentWithin(now: Timestamp, days: int): Article -> bool {
    a => IsRecent(a, now, days)
  }

  function PublishedAfter(cutoff: int): Article -> bool {
    (a: Article) => a.publicationDate > cutoff
  }

  // ---------------------------------------------------------------------
  // Trending and highlights
  // ---------------------------------------------------------------------

  /** The newest `count` articles of a section, newest first, equal dates in snapshot order. */
  function Latest(articles: seq<Article>, section: string, count: int): seq<Article>
    requires count >= 0
  {
    TopN(Filter(articles, InSection(section)), DateKey, count)
  }

  /** `getTrendingBySection(section, count)`: the newest `count` articles of the section from the last 30 days. */
  function TrendingBySection(articles: seq<Article>, section: string, now: Timestamp, count: int): seq<Article>
    requires count >= 0
  {
    TopN(Filter(Filter(articles, InSection(section)), RecentWithin(now, TrendingDays)), DateKey, count)
  }

  /** The articles a trending query chooses from. */
  predicate TrendingCandidate(a: Article, section: string, now: Timestamp) {
    HasSection(a, section) && IsRecent(a, now, TrendingDays)
  }

  /**
   * Trending returns at most `count` articles of the snapshot, each in the
   * section and published less than 30 days before `now`, newest first;
   * no candidate left out is newer than the last one returned, and when
   * fewer than `count` come back, every candidate is there.
   */
  lemma TrendingBySectionProperties(articles: seq<Article>, section: string, now: Timestamp, count: int)
    requires count >= 0
    ensures |TrendingBySection(articles, section, now, count)| <= count
    ensures multiset(TrendingBySection(articles, section, now, count)) <= multiset(articles)
    ensures forall a :: a in TrendingBySection(articles, section, now, count) ==> TrendingCandidate(a, section, now)
    ensures SortedDesc(TrendingBySection(articles, section, now, count), DateKey)
    ensures forall a :: a in articles && TrendingCandidate(a, section, now) && a !in TrendingBySection(articles, section, now, count) ==>
              && |TrendingBySection(articles, section, now, count)| == count
              && (count > 0 ==> a.publicationDate <= TrendingBySection(articles, section, now, count)[count - 1].publicationDate)
  {
    var candidates := Filter(Filter(articles, InSection(section)), RecentWithin(now, TrendingDays));
    TrendingCandidates(articles, section, now);
    TopNSelection(articles, candidates, (a: Article) => TrendingCandidate(a, section, now), DateKey, count);
    TopNProperties(candidates, DateKey, count);
  }

  /** The trending candidates are the snapshot's recent articles of the section, with their multiplicities. */
  lemma TrendingCandidates(articles: seq<Article>, section: string, now: Timestamp)
    ensures forall x :: multiset(Filter(Filter(articles, InSection(section)), RecentWithin(now, TrendingDays)))[x]
                        == if TrendingCandidate(x, section, now) then multiset(articles)[x] else 0
  {
    var inSection := Filter(articles, InSection(section));
    forall x ensures multiset(Filter(inSection, RecentWithin(now, TrendingDays)))[x]
                     == if TrendingCandidate(x, section, now) then multiset(articles)[x] else 0 {
      FilterCount(articles, InSection(section), x);
      FilterCount(inSection, RecentWithin(now, TrendingDays), x);
    }
  }

  /** A snapshot has articles of a section exactly when some article lists that section. */
  lemma InSectionNonEmpty(articles: seq<Article>, section: string)
    ensures |Filter(articles, InSection(section))| > 0 <==> exists a :: a in articles && HasSection(a, section)
  {
    var f := Filter(articles, InSection(section));
    if |f| > 0 {
      FilterMembers(articles, InSection(section), f[0]);
    }
    forall a | a in articles && HasSection(a, section) ensures a in f {
      FilterMembers(articles, InSection(section), a);
    }
  }

  /** The newest articles of a section: at most `count`, all of the section, newest first. */
  lemma LatestProperties(articles: seq<Article>, section: string, count: int)
    requires count >= 0
    ensures |Latest(articles, section, count)| == Min(count, |Filter(articles, InSection(section))|)
    ensures |Latest(articles, section, count)| > 0 <==> count > 0 && exists a :: a in articles && HasSection(a, section)
    ensures multiset(Latest(articles, section, count)) <= multiset(articles)
    ensures forall a :: a in Latest(articles, section, count) ==> HasSection(a, section)
    ensures SortedDesc(Latest(articles, section, count), DateKey)
  {
    var f := Filter(articles, InSection(section));
    var r := Latest(articles, section, count);
    TopNProperties(f, DateKey, count);
    InSectionNonEmpty(articles, section);
    forall x ensures multiset(f)[x] <= multiset(articles)[x] {
      FilterCount(articles, InSection(section), x);
    }
    forall a | a in r ensures HasSection(a, section) {
      assert multiset(r)[a] > 0;
      FilterCount(articles, InSection(section), a);
    }
  }

  /** Categories folded into the result map in the given order; a category without articles is not put. */
  function HighlightsOver(articles: seq<Article>, categories: seq<string>, perCategory: int): map<string, seq<Article>>
    requires perCategory >= 0
  {
    if |categories| == 0 then map[]
    else
      var highlights := HighlightsOver(articles, categories[..|categories| - 1], perCategory);
      var category := categories[|categories| - 1];
      var latest := Latest(articles, category, perCategory);
      if |latest| != 0 then highlights[category := latest] else highlights
  }

  /** `getHighlightsByCategory(articlesPerCategory)`, independent of the order the categories are visited in. */
  function CategoryHighlights(articles: seq<Article>, perCategory: int): map<string, seq<Article>>
    requires perCategory >= 0
  {
    HighlightsOver(articles, MainCategories, perCategory)
  }

  lemma {:induction false} HighlightsOverKeys(articles: seq<Article>, categories: seq<string>, perCategory: int)
    requires perCategory >= 0
    ensures forall c :: c in HighlightsOver(articles, categories, perCategory) <==> c in categories && |Latest(articles, c, perCategory)| > 0
    ensures forall c :: c in HighlightsOver(articles, categories, perCategory) ==> HighlightsOver(articles, categories, perCategory)[c] == Latest(articles, c, perCategory)
  {
    if |categories| > 0 {
      var init := categories[..|categories| - 1];
      HighlightsOverKeys(articles, init, perCategory);
      assert categories == init + [categories[|categories| - 1]];
    }
  }

  /**
   * The highlights have a key for exactly the main categories some article
   * lists (when at least one article per category is asked for); each
   * value is the newest `perCategory` articles of that category, newest first.
   */
  lemma CategoryHighlightsProperties(articles: seq<Article>, perCategory: int)
    requires perCategory >= 0
    ensures forall c :: c in CategoryHighlights(articles, perCategory) <==>
              c in MainCategories && perCategory > 0 && exists a :: a in articles && HasSection(a, c)
    ensures forall c :: c in CategoryHighlights(articles, perCategory) ==>
              && CategoryHighlights(articles, perCategory)[c] == Latest(articles, c, perCategory)
              && 0 < |CategoryHighlights(articles, perCategory)[c]| <= perCategory
              && multiset(CategoryHighlights(articles, perCategory)[c]) <= multiset(articles)
              && (forall a :: a in CategoryHighlights(articles, perCategory)[c] ==> HasSection(a, c))
              && SortedDesc(CategoryHighlights(articles, perCategory)[c], DateKey)
  {
    HighlightsOverKeys(articles, MainCategories, perCategory);
    forall c {
      LatestProperties(articles, c, perCategory);
    }
  }

  lemma HighlightsOverStep(articles: seq<Article>, categories: seq<string>, i: int, perCategory: int)
    requires 0 <= i < |categories| && perCategory >= 0
    ensures HighlightsOver(articles, categories[..i + 1], perCategory)
         == if |Latest(articles, categories[i], perCategory)| != 0
            then HighlightsOver(articles, categories[..i], perCategory)[categories[i] := Latest(articles, categories[i], perCategory)]
            else HighlightsOver(articles, categories[..i], perCategory)
  {
    var c := categories[..i + 1];
    assert c[..|c| - 1] == categories[..i];
    assert c[|c| - 1] == categories[i];
  }

  /** The source's loop over the categories, putting each non-empty list into the map. */
  method GetHighlightsByCategory(articles: seq<Article>, perCategory: int) returns (categoryMap: map<string, seq<Article>>)
    requires perCategory >= 0
    ensures categoryMap == CategoryHighlights(articles, perCategory)
  {
    categoryMap := map[];
    var i := 0;
    while i < |MainCategories|
      invariant 0 <= i <= |MainCategories|
      invariant categoryMap == HighlightsOver(articles, MainCategories[..i], perCategory)
    {
      var category := MainCategories[i];
      var categoryArticles := Latest(articles, category, perCategory);
      HighlightsOverStep(articles, MainCategories, i, perCategory);
      if |categoryArticles| != 0 {
        categoryMap := categoryMap[category := categoryArticles];
      }
      i := i + 1;
    }
    assert MainCategories[..i] == MainCategories;
  }

  // ---------------------------------------------------------------------
  // Breaking news
  // ---------------------------------------------------------------------

  /** `getRecentBreakingNews(hours)`: the correctly spelled breaking label, newer than `hours` ago, all of them, newest first. */
  function RecentBreakingNews(articles: seq<Article>, now: Timestamp, hours: int): seq<Article> {
    SortDesc(Filter(Filter(articles, PublishedAfter(MinusHours(now, hours))), InSection(BreakingNewsLabel)), DateKey)
  }

  /** Whether the breaking-news page shows an article. */
  predicate BreakingCandidate(a: Article, now: Timestamp, hours: int) {
    a.publicationDate > MinusHours(now, hours) && HasSection(a, BreakingNewsLabel)
  }

  /**
   * Breaking news holds each qualifying article exactly as often as the
   * snapshot does and nothing else, newest first, equal dates in
   * snapshot order.
   */
  lemma RecentBreakingNewsProperties(articles: seq<Article>, now: Timestamp, hours: int)
    ensures forall x :: multiset(RecentBreakingNews(articles, now, hours))[x] ==
              if BreakingCandidate(x, now, hours) then multiset(articles)[x] else 0
    ensures SortedDesc(RecentBreakingNews(articles, now, hours), DateKey)
    ensures forall k :: Filter(RecentBreakingNews(articles, now, hours), HasKey(DateKey, k))
                        == Filter(Filter(Filter(articles, PublishedAfter(MinusHours(now, hours))), InSection(BreakingNewsLabel)), HasKey(DateKey, k))
  {
    var recent := Filter(articles, PublishedAfter(MinusHours(now, hours)));
    var candidates := Filter(recent, InSection(BreakingNewsLabel));
    forall x ensures multiset(RecentBreakingNews(articles, now, hours))[x] ==
                     if BreakingCandidate(x, now, hours) then multiset(articles)[x] else 0 {
      FilterCount(articles, PublishedAfter(MinusHours(now, hours)), x);
      FilterCount(recent, InSection(BreakingNewsLabel), x);
    }
    SortDescSorted(candidates, DateKey);
    forall k ensures Filter(SortDesc(candidates, DateKey), HasKey(DateKey, k)) == Filter(candidates, HasKey(DateKey, k)) {
      SortDescStable(candidates, DateKey, k);
    }
  }

  /**
   * The page looks for "Actualités", which the scoring code does not
   * recognise: an article filed only there gets no priority bonus.
   */
  lemma BreakingLabelNotBoosted(a: Article)
    requires a.sections == Some([BreakingNewsLabel])
    ensures HasSection(a, BreakingNewsLabel)
    ensures !IsBreakingLabel(BreakingNewsLabel) && !IsMajorLabel(BreakingNewsLabel)
    ensures PriorityTerm(a) == 0
  {
    assert BreakingNewsLabel[8] != BreakingLabels[0][8];
    PriorityBonusFirstMatch([BreakingNewsLabel]);
  }

  // ---------------------------------------------------------------------
  // Similarity
  // ---------------------------------------------------------------------

  /** The distinct labels of a section list, as `new HashSet<>(Arrays.asList(sections))`. */
  function LabelSet(sections: seq<string>): set<string> {
    set s | s in sections
  }

  /** 70 times the Jaccard index of the two section sets; 0 when either list is absent or both are empty. */
  function OverlapTerm(a: Article, b: Article): real {
    if a.sections.None? || b.sections.None? then 0.0
    else
      var s1, s2 := LabelSet(a.sections.value), LabelSet(b.sections.value);
      if |s1 + s2| == 0 then 0.0 else (|s1 * s2| as real) / (|s1 + s2| as real) * 70.0
  }

  /** Whole days between the two publication dates, ignoring direction. */
  function DaysApart(a: Article, b: Article): nat {
    Abs(DaysBetween(a.publicationDate, b.publicationDate))
  }

  /** 30 points minus 4 per day apart, within seven days; nothing beyond. */
  function TimeTerm(a: Article, b: Article): int {
    var d := DaysApart(a, b);
    if d <= ProximityDays then 30 - d * 4 else 0
  }

  /** `calculateSimilarity`, with the Jaccard ratio as an exact rational. */
  function Similarity(a: Article, b: Article): real {
    OverlapTerm(a, b) + TimeTerm(a, b) as real
  }

  /** The source's computation: build the two sets, intersect and unite them, and accumulate. */
  method CalculateSimilarity(article1: Article, article2: Article) returns (similarity: real)
    ensures similarity == Similarity(article1, article2)
    ensures 0.0 <= similarity <= 100.0
  {
    similarity := 0.0;
    if article1.sections.Some? && article2.sections.Some? {
      var sections1 := LabelSet(article1.sections.value);
      var sections2 := LabelSet(article2.sections.value);
      var intersection := sections1;
      intersection := intersection * sections2;
      var union := sections1;
      union := union + sections2;
      if |union| != 0 {
        similarity := similarity + (|intersection| as real) / (|union| as real) * 70.0;
      }
    }
    var daysDifference := Abs(DaysBetween(article1.publicationDate, article2.publicationDate));
    if daysDifference <= ProximityDays {
      similarity := similarity + (30 - daysDifference * 4) as real;
    }
    SimilarityBounds(article1, article2);
  }

  lemma RatioBounds(i: nat, u: nat)
    requires i <= u && u > 0
    ensures 0.0 <= (i as real) / (u as real) * 70.0 <= 70.0
    ensures (i as real) / (u as real) * 70.0 > 0.0 <==> i > 0
    ensures (i as real) / (u as real) * 70.0 == 70.0 <==> i == u
  {
    var q := (i as real) / (u as real);
    assert q * (u as real) == i as real;
    if q == 1.0 {
      assert i as real == u as real;
    }
  }

  lemma SubsetSameSize(a: set<string>, b: set<string>)
    requires a <= b && |a| == |b|
    ensures a == b
  {
    assert |b - a| == |b| - |a|;
  }

  /**
   * The overlap is between 0 and 70, 0 when either list is absent, positive
   * exactly when the lists share a label, and 70 exactly when both are
   * present, not empty and name the same labels.
   */
  lemma OverlapTermBounds(a: Article, b: Article)
    ensures 0.0 <= OverlapTerm(a, b) <= 70.0
    ensures a.sections.None? || b.sections.None? ==> OverlapTerm(a, b) == 0.0
    ensures OverlapTerm(a, b) > 0.0 <==>
              a.sections.Some? && b.sections.Some? && exists s :: s in a.sections.value && s in b.sections.value
    ensures OverlapTerm(a, b) == 70.0 <==>
              && a.sections.Some? && b.sections.Some? && |a.sections.value| > 0
              && LabelSet(a.sections.value) == LabelSet(b.sections.value)
  {
    if a.sections.Some? && b.sections.Some? {
      var s1, s2 := LabelSet(a.sections.value), LabelSet(b.sections.value);
      assert |s1 - s2| + |s2 - s1| + |s1 * s2| == |s1 + s2|;
      if exists s :: s in a.sections.value && s in b.sections.value {
        var s :| s in a.sections.value && s in b.sections.value;
        assert s in s1 * s2;
      }
      if |s1 * s2| > 0 {
        var s :| s in s1 * s2;
        assert s in a.sections.value && s in b.sections.value;
      }
      if |a.sections.value| > 0 {
        assert a.sections.value[0] in s1;
      }
      if |s1 + s2| != 0 {
        RatioBounds(|s1 * s2|, |s1 + s2|);
        if |s1 * s2| == |s1 + s2| {
          SubsetSameSize(s1 * s2, s1 + s2);
          assert s1 == s2;
        }
        if s1 == s2 {
          assert s1 * s2 == s1 + s2;
        }
      } else {
        assert s1 == {};
      }
    }
  }

  /** Within seven days the time term is 30 - 4d, between 2 and 30; beyond it is 0. */
  lemma TimeTermBounds(a: Article, b: Article)
    ensures DaysApart(a, b) <= ProximityDays ==> TimeTerm(a, b) == 30 - 4 * DaysApart(a, b) && 2 <= TimeTerm(a, b) <= 30
    ensures DaysApart(a, b) > ProximityDays ==> TimeTerm(a, b) == 0
    ensures TimeTerm(a, b) > 0 <==> b.publicationDate - a.publicationDate < 8 * SecondsPerDay && a.publicationDate - b.publicationDate < 8 * SecondsPerDay
  {
  }

  /** The similarity lies between 0 and 100. */
  lemma SimilarityBounds(a: Article, b: Article)
    ensures 0.0 <= Similarity(a, b) <= 100.0
    ensures Similarity(a, b) > 0.0 <==> OverlapTerm(a, b) > 0.0 || DaysApart(a, b) <= ProximityDays
  {
    OverlapTermBounds(a, b);
    TimeTermBounds(a, b);
  }

  /** The similarity does not depend on which article is the target. */
  lemma SimilaritySymmetric(a: Article, b: Article)
    ensures Similarity(a, b) == Similarity(b, a)
  {
    DaysBetweenAntisymmetric(a.publicationDate, b.publicationDate);
    if a.sections.Some? && b.sections.Some? {
      var s1, s2 := LabelSet(a.sections.value), LabelSet(b.sections.value);
      assert s1 * s2 == s2 * s1 && s1 + s2 == s2 + s1;
    }
  }

  /** An article with at least one section is fully similar to itself. */
  lemma SelfSimilarity(a: Article)
    requires a.sections.Some? && |a.sections.value| > 0
    ensures Similarity(a, a) == 100.0
  {
    OverlapTermBounds(a, a);
    assert DaysBetween(a.publicationDate, a.publicationDate) == 0;
  }

  /** Two articles published two days apart with one label shared out of three score 70/3 + 22. */
  lemma SimilarityExample(a: Article, b: Article)
    requires a.sections == Some(["Sport", "Culture"]) && b.sections == Some(["Sport", "Suisse"])
    requires b.publicationDate == a.publicationDate + 2 * SecondsPerDay
    ensures Similarity(a, b) == 70.0 / 3.0 + 22.0
  {
    var s1, s2 := LabelSet(a.sections.value), LabelSet(b.sections.value);
    assert s1 == {"Sport", "Culture"};
    assert s2 == {"Sport", "Suisse"};
    assert s1 * s2 == {"Sport"};
    assert "Culture" != "Suisse";
    assert s1 + s2 == {"Sport", "Culture", "Suisse"};
    assert DaysBetween(a.publicationDate, b.publicationDate) == 2;
  }

  // ---------------------------------------------------------------------
  // Similar articles
  // ---------------------------------------------------------------------

  function OtherThan(articleId: int): Article -> bool {
    (a: Article) => a.id != articleId
  }

  function SimilarTo(target: Article): Article -> bool {
    a => Similarity(target, a) > 0.0
  }

  /** The sort key of the similar-articles ranking: the similarity to the target. */
  function SimilarityKey(target: Article): Article -> real {
    a => Similarity(target, a)
  }

  /**
   * `getSimilarArticles(articleId, count)`: nothing for an unknown id;
   * otherwise the other articles with a positive similarity to the target,
   * most similar first, equal similarities in snapshot order, at most `count`.
   */
  function SimilarArticles(articles: seq<Article>, articleId: int, count: int): seq<Article>
    requires count >= 0
  {
    match FindById(articles, articleId)
    case None => []
    case Some(target) =>
      TopN(Filter(Filter(articles, OtherThan(articleId)), SimilarTo(target)), SimilarityKey(target), count)
  }

  /** An unknown target id gives an empty list. */
  lemma SimilarArticlesUnknown(articles: seq<Article>, articleId: int, count: int)
    requires count >= 0
    requires forall i :: 0 <= i < |articles| ==> articles[i].id != articleId
    ensures SimilarArticles(articles, articleId, count) == []
  {
    assert FindById(articles, articleId).None?;
  }

  /** Whether the similar-articles query may return `a` for the target. */
  predicate SimilarCandidate(a: Article, target: Article, articleId: int) {
    a.id != articleId && Similarity(target, a) > 0.0
  }

  /**
   * For a known target: at most `count` articles of the snapshot, never the
   * target's id, each with a positive similarity, most similar first, and
   * no candidate left out is more similar than the last one returned.
   */
  lemma SimilarArticlesProperties(articles: seq<Article>, articleId: int, count: int, target: Article)
    requires count >= 0
    requires FindById(articles, articleId) == Some(target)
    ensures |SimilarArticles(articles, articleId, count)| <= count
    ensures multiset(SimilarArticles(articles, articleId, count)) <= multiset(articles)
    ensures forall a :: a in SimilarArticles(articles, articleId, count) ==> SimilarCandidate(a, target, articleId)
    ensures forall a :: a in articles && SimilarCandidate(a, target, articleId) && a !in SimilarArticles(articles, articleId, count) ==>
              && |SimilarArticles(articles, articleId, count)| == count
              && (count > 0 ==> Similarity(target, a) <= Similarity(target, SimilarArticles(articles, articleId, count)[count - 1]))
  {
    var candidates := Filter(Filter(articles, OtherThan(articleId)), SimilarTo(target));
    SimilarCandidates(articles, articleId, target);
    assert SimilarArticles(articles, articleId, count) == TopN(candidates, SimilarityKey(target), count);
    TopNSelection(articles, candidates, (a: Article) => SimilarCandidate(a, target, articleId), SimilarityKey(target), count);
  }

  /** Similar articles come most similar first. */
  lemma SimilarArticlesOrder(articles: seq<Article>, articleId: int, count: int, target: Article)
    requires count >= 0
    requires FindById(articles, articleId) == Some(target)
    ensures forall i, j :: 0 <= i < j < |SimilarArticles(articles, articleId, count)| ==>
              Similarity(target, SimilarArticles(articles, articleId, count)[i]) >= Similarity(target, SimilarArticles(articles, articleId, count)[j])
  {
    var candidates := Filter(Filter(articles, OtherThan(articleId)), SimilarTo(target));
    var key := SimilarityKey(target);
    var r := SimilarArticles(articles, articleId, count);
    assert r == TopN(candidates, key, count);
    TopNProperties(candidates, key, count);
    forall i, j | 0 <= i < j < |r| ensures Similarity(target, r[i]) >= Similarity(target, r[j]) {
      assert key(r[i]) >= key(r[j]);
    }
  }

  /** The similar-article candidates are the other articles with a positive similarity, with their multiplicities. */
  lemma SimilarCandidates(articles: seq<Article>, articleId: int, target: Article)
    ensures forall x :: multiset(Filter(Filter(articles, OtherThan(articleId)), SimilarTo(target)))[x]
                        == if SimilarCandidate(x, target, articleId) then multiset(articles)[x] else 0
  {
    var others := Filter(articles, OtherThan(articleId));
    forall x ensures multiset(Filter(others, SimilarTo(target)))[x]
                     == if SimilarCandidate(x, target, articleId) then multiset(articles)[x] else 0 {
      FilterCount(articles, OtherThan(articleId), x);
      FilterCount(others, SimilarTo(target), x);
    }
  }
}
