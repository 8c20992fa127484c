# Article scoring and recommendation, modelled in Dafny

This project models the scoring and ranking core of the RTS article CMS
gateway (the `ArticleAnalysisService` and `ArticleRecommendationService`
classes) and proves properties of it. The core works on a snapshot of all
articles. It scores each article for interest, ranks articles, groups them by
primary section, computes database statistics and recommends articles by
section, category, recency and similarity.

Modules, one per concern:

- `Wrappers`: `Option` and `Result`.
- `Seqs`: the stream stages the core uses, `filter`, `limit` and a *stable* sort by a descending key, with their properties.
- `JavaLang`: Java semantics the core depends on:
  - integer division truncating toward zero;
  - 32-bit `int` wrap-around;
  - `String.length()` in UTF-16 code units;
  - the element count of `String.split("\\s+")`.
- `Time`: `LocalDateTime` as whole seconds since the epoch, bounded by `LocalDateTime.MIN`/`MAX`, and `ChronoUnit.DAYS.between`.
- `Persistence`: the `Article` value and `findById` as a first-match lookup in the snapshot.
- `Analysis`: the interest score, the plain and the section-diversified top-N, the primary-section grouping and the statistics fold.
- `Recommendation`: top stories, daily digest, trending by section, category highlights, recent breaking news, similarity and similar articles.

Where the source mutates state step by step, the model does too:

- the section-loop of the interest score;
- the `HashMap` fill of the grouping;
- the append loop of the diversified selection;
- the statistics loop;
- the category loop of the highlights;
- the set building of the similarity.

Each of these is a `method`, proved equal to a specification function. The
properties are proved about that function. The stream pipelines are
functions.

The model follows the code as written, including where its behaviour is surprising:

- The diversified selection divides by the number of groups. On an empty snapshot this throws `ArithmeticException`, and `Analysis.Diversified` returns that failure instead of an empty list.
- The section distribution counts every occurrence of a label, so an article listing a label twice adds two (`Analysis.DuplicateSectionCountsTwice`), not one per article.
- The scoring code's breaking label is the mis-decoded `"Actualit√©s"`. The recommendation code's is `"Actualités"`. They are two constants, so an article filed only under `"Actualités"` gets no priority bonus (`Recommendation.BreakingLabelNotBoosted`).

## Model

| member | source | states |
|---|---|---|
| Analysis.RecencyTerm | src/main/java/ch/rts/interview/gateway/ArticleAnalysisService.java:61-63 | recency is never negative; it is 50 minus 2 per whole day of age up to 25 days, and 0 from 25 days on |
| Analysis.LeadTerm | src/main/java/ch/rts/interview/gateway/ArticleAnalysisService.java:66-68 | the lead adds 5 exactly when it is present and not empty, otherwise 0 |
| Analysis.BodyTerm | src/main/java/ch/rts/interview/gateway/ArticleAnalysisService.java:69-74 | the body adds 0, 10 or 15; 0 exactly when absent or at most 200 UTF-16 units, 15 exactly when over 500 |
| Analysis.SectionCountTerm | src/main/java/ch/rts/interview/gateway/ArticleAnalysisService.java:77-79 | the section term is min(15, 5 × number of sections), 0 without sections |
| Analysis.PriorityBonus | src/main/java/ch/rts/interview/gateway/ArticleAnalysisService.java:82-93 | the bonus scan over the sections: 15 on the first breaking label, 10 on the first major label, whichever comes first, else 0; its properties are `Analysis.PriorityBonusFirstMatch` |
| Analysis.PriorityBonusFirstMatch | src/main/java/ch/rts/interview/gateway/ArticleAnalysisService.java:82-93 | at most one bonus is added, 0, 10 or 15; it is 15 (resp. 10) exactly when the first section in either label set is a breaking (resp. major) label, and 0 exactly when no section is in either set |
| Analysis.PriorityScanOrder | src/main/java/ch/rts/interview/gateway/ArticleAnalysisService.java:83-92 | the scan follows the array order: ["Sport","Breaking"] gets 10, ["Breaking","Sport"] gets 15, and the correctly spelled "Actualités" gets nothing |
| Analysis.InterestScore | src/main/java/ch/rts/interview/gateway/ArticleAnalysisService.java:57-96 | the interest score as the sum of the recency, lead, body, section-count and priority terms; its properties are `Analysis.InterestScoreNonNegative`, `Analysis.InterestScoreExample` and those of the terms |
| Analysis.InterestScoreNonNegative | src/main/java/ch/rts/interview/gateway/ArticleAnalysisService.java:57-96 | the interest score is at least 0 |
| Analysis.InterestScoreExample | src/main/java/ch/rts/interview/gateway/ArticleAnalysisService.java:57-96 | a one-day-old article with a lead, a 600-character body and sections ["Sport","Culture"] scores 48 + 5 + 15 + 10 + 10 = 88 |
| Analysis.CalculateInterestScore | src/main/java/ch/rts/interview/gateway/ArticleAnalysisService.java:57-96 | the accumulating loop with its early `break`s computes exactly the interest score |
| Analysis.InterestingArticles | src/main/java/ch/rts/interview/gateway/ArticleAnalysisService.java:23-32 | the plain top-N: score, stable sort by descending score, limit; its properties are `Analysis.InterestingArticlesSelection` and `Analysis.InterestingArticlesOrder` |
| Analysis.InterestingArticlesSelection | src/main/java/ch/rts/interview/gateway/ArticleAnalysisService.java:23-32 | the plain top-N returns min(limit, n) articles drawn from the snapshot with no article more often than there, and leaves out nothing scoring above the last one kept |
| Analysis.InterestingArticlesOrder | src/main/java/ch/rts/interview/gateway/ArticleAnalysisService.java:26-31 | scores are non-increasing, and articles with equal scores keep their snapshot order |
| Analysis.PrimarySection | src/main/java/ch/rts/interview/gateway/ArticleAnalysisService.java:109-114 | an article's primary section is its first section, or "Divers" when it has none or an empty list; `Analysis.GroupMembership` groups by it |
| Analysis.GroupMembership | src/main/java/ch/rts/interview/gateway/ArticleAnalysisService.java:98-114 | an article is in the group of section k exactly when it is in the snapshot and k is its primary section (its first section, or "Divers") |
| Analysis.PrimaryOrderProperties | src/main/java/ch/rts/interview/gateway/ArticleAnalysisService.java:98-107 | the group keys are distinct, include every article's primary section and nothing else, and are empty exactly when the snapshot is |
| Analysis.GroupByPrimarySection | src/main/java/ch/rts/interview/gateway/ArticleAnalysisService.java:98-107 | the map filled article by article has a key for exactly the primary sections present, each mapped to its articles in snapshot order |
| Analysis.ArticlesPerSection | src/main/java/ch/rts/interview/gateway/ArticleAnalysisService.java:40 | the per-group quota is at least 1; unless it is 1, the quotas of all groups add up to at most the limit, and once the limit reaches the group count they fall short of it by less than the group count |
| Analysis.Picks | src/main/java/ch/rts/interview/gateway/ArticleAnalysisService.java:42-49 | the per-group top lists, by score and limited to the quota, appended group after group; `Analysis.PicksNonEmpty` and `Analysis.DiversifiedCount` state what they contain |
| Analysis.Diversified | src/main/java/ch/rts/interview/gateway/ArticleAnalysisService.java:34-55 | the diversified selection: a division-by-zero failure on an empty snapshot, otherwise the picks sorted newest first and limited; its properties are the `Analysis.Diversified*` lemmas |
| Analysis.InterestingArticlesDiversified | src/main/java/ch/rts/interview/gateway/ArticleAnalysisService.java:34-55 | the loop over the groups, appending each group's top articles, computes exactly the diversified selection, including the division-by-zero failure |
| Analysis.DiversifiedFailsOnlyWhenEmpty | src/main/java/ch/rts/interview/gateway/ArticleAnalysisService.java:37-40 | the diversified selection fails exactly when the snapshot is empty |
| Analysis.PicksNonEmpty | src/main/java/ch/rts/interview/gateway/ArticleAnalysisService.java:40-49 | with a quota of at least one per group, a non-empty snapshot yields at least one pick |
| Analysis.DiversifiedOrder | src/main/java/ch/rts/interview/gateway/ArticleAnalysisService.java:51-54 | on a non-empty snapshot the result keeps min(limit, number of picks) of the merged picks, by non-increasing publication date; a pick left out is no newer than the last one kept; a positive limit gives a non-empty result |
| Analysis.DiversifiedFromSnapshot | src/main/java/ch/rts/interview/gateway/ArticleAnalysisService.java:34-55 | every diversified article comes from the snapshot, none more often than there |
| Analysis.DiversifiedFromGroupTops | src/main/java/ch/rts/interview/gateway/ArticleAnalysisService.java:42-49 | every diversified article is among the top `articlesPerSection` by score of its own group |
| Analysis.DiversifiedCount | src/main/java/ch/rts/interview/gateway/ArticleAnalysisService.java:42-54 | each article occurs in the result at most as often as in its group's top list |
| Analysis.DiversifiedGroupShare | src/main/java/ch/rts/interview/gateway/ArticleAnalysisService.java:42-54 | the result's articles of one group are a sub-multiset of that group's top list |
| Analysis.DiversifiedPerSection | src/main/java/ch/rts/interview/gateway/ArticleAnalysisService.java:40-54 | no group contributes more than `articlesPerSection` articles |
| Analysis.Tally | src/main/java/ch/rts/interview/gateway/ArticleAnalysisService.java:126-130 | the `merge(label, 1, sum)` fold over a sequence of labels; `Analysis.TallyCounts` states its contents |
| Analysis.SectionDistribution | src/main/java/ch/rts/interview/gateway/ArticleAnalysisService.java:119-130 | the tally of every section entry of every article, in snapshot order; `Analysis.SectionDistributionCounts` and `Analysis.SectionDistributionSum` state its contents |
| Analysis.OldestDate | src/main/java/ch/rts/interview/gateway/ArticleAnalysisService.java:120-135 | the fold from `now` keeping a date only when strictly before the current one; `Analysis.DateRange` states its bounds |
| Analysis.NewestDate | src/main/java/ch/rts/interview/gateway/ArticleAnalysisService.java:121-138 | the fold from `LocalDateTime.MIN` keeping a date only when strictly after the current one; `Analysis.DateRange` states its bounds |
| Analysis.AverageWordCount | src/main/java/ch/rts/interview/gateway/ArticleAnalysisService.java:140-151 | 0 for no articles, else the 32-bit wrapped word total divided by the article count with truncation; `Analysis.AverageWordCountMean` and `Analysis.AverageWordCountWraps` state its value |
| Analysis.TallyCounts | src/main/java/ch/rts/interview/gateway/ArticleAnalysisService.java:127-128 | folding labels with `merge(label, 1, sum)` yields a key for exactly the labels seen, each mapped to its number of occurrences |
| Analysis.MergeSections | src/main/java/ch/rts/interview/gateway/ArticleAnalysisService.java:126-130 | the inner loop adds one article's section entries to the running tally |
| Analysis.AddWords | src/main/java/ch/rts/interview/gateway/ArticleAnalysisService.java:141-143 | adding a body's word count to the `int` total keeps it equal to the exact total wrapped to 32 bits; an absent body adds nothing |
| Analysis.AccumulateArticle | src/main/java/ch/rts/interview/gateway/ArticleAnalysisService.java:124-144 | one loop iteration extends the tally, the date bounds and the word total by one article |
| Analysis.AnalyzeArticleDatabase | src/main/java/ch/rts/interview/gateway/ArticleAnalysisService.java:116-153 | the statistics record holds the article count, the section distribution, the oldest and newest dates and the average word count |
| Analysis.SectionDistributionCounts | src/main/java/ch/rts/interview/gateway/ArticleAnalysisService.java:119-130 | the distribution has a key for exactly the labels that occur, each mapped to its number of occurrences over all section lists |
| Analysis.SectionDistributionSum | src/main/java/ch/rts/interview/gateway/ArticleAnalysisService.java:119-130 | summing the distribution over its keys gives the total number of section entries in the snapshot |
| Analysis.DuplicateSectionCountsTwice | src/main/java/ch/rts/interview/gateway/ArticleAnalysisService.java:126-130 | an article listing "Sport" twice yields the distribution {"Sport": 2} |
| Analysis.DateRange | src/main/java/ch/rts/interview/gateway/ArticleAnalysisService.java:120-138 | empty snapshot: oldest = now and newest = MIN; otherwise oldest ≤ every date ≤ newest, newest is some article's date, oldest is one too unless all are after now, and oldest ≤ now |
| Analysis.AverageWordCountMean | src/main/java/ch/rts/interview/gateway/ArticleAnalysisService.java:151 | the average is 0 for no articles and otherwise, while the total fits in an `int`, the mean truncated |
| Analysis.AverageWordCountWraps | src/main/java/ch/rts/interview/gateway/ArticleAnalysisService.java:140-151 | a total of 2^31 words overflows the `int` total, so the average is −2^31 |
| JavaLang.TruncDiv | src/main/java/ch/rts/interview/gateway/ArticleAnalysisService.java:151 | Java integer division: the remainder has the sign of the dividend and is smaller than the divisor |
| JavaLang.Int32AddWrapped | src/main/java/ch/rts/interview/gateway/ArticleAnalysisService.java:142 | adding to a wrapped `int` and wrapping again is the same as wrapping the exact sum |
| JavaLang.Utf16Length | src/main/java/ch/rts/interview/gateway/ArticleAnalysisService.java:69-72 | `length()` counts UTF-16 units: between the number of code points and twice it |
| JavaLang.Utf16LengthBmp | src/main/java/ch/rts/interview/gateway/ArticleAnalysisService.java:69-72 | without supplementary characters `length()` is the number of characters |
| JavaLang.SplitWhitespaceCount | src/main/java/ch/rts/interview/gateway/ArticleAnalysisService.java:142 | the token count of `split("\\s+")` is at most one more than the string's length |
| JavaLang.SplitWhitespaceCountCases | src/main/java/ch/rts/interview/gateway/ArticleAnalysisService.java:142 | `split("\\s+")` has length 1 for "", 0 for all-whitespace, 1 for a single word; leading whitespace adds an empty token and trailing ones are dropped (" one two " gives 3) |
| Time.DaysBetween | src/main/java/ch/rts/interview/gateway/ArticleAnalysisService.java:61 | the number of complete days between two instants, truncated toward zero in both directions |
| Time.DaysBetweenAntisymmetric | src/main/java/ch/rts/interview/gateway/ArticleRecommendationService.java:116-121 | swapping the instants negates the day count |
| Persistence.FindById | src/main/java/ch/rts/interview/gateway/ArticleRecommendationService.java:77-83 | the lookup is empty exactly when no article has the id, and otherwise returns the first one that has it |
| Seqs.SortDescStable | src/main/java/ch/rts/interview/gateway/ArticleAnalysisService.java:28 | the sort keeps the relative order of elements with equal keys |
| Seqs.TopNProperties | src/main/java/ch/rts/interview/gateway/ArticleAnalysisService.java:28-29 | sort-then-limit returns min(n, size) input elements, sorted by descending key, ties in input order, leaving out nothing ranked above the last kept |
| Recommendation.TopStories | src/main/java/ch/rts/interview/gateway/ArticleRecommendationService.java:25-27 | top stories are the plain interest ranking: min(count, n) snapshot articles by non-increasing score |
| Recommendation.DailyDigest | src/main/java/ch/rts/interview/gateway/ArticleRecommendationService.java:29-31 | the digest is the diversified selection with limit 10: it fails exactly on an empty snapshot, and otherwise has at most 10 articles, newest first |
| Recommendation.HasSection | src/main/java/ch/rts/interview/gateway/ArticleRecommendationService.java:130-135 | false without sections, otherwise true exactly when some position holds the label |
| Recommendation.IsRecent | src/main/java/ch/rts/interview/gateway/ArticleRecommendationService.java:137-140 | recent exactly when published less than `days` × 24 h before now |
| Recommendation.TrendingBySection | src/main/java/ch/rts/interview/gateway/ArticleRecommendationService.java:33-42 | the section's articles from the last 30 days, stable-sorted newest first and limited to `count`; `Recommendation.TrendingBySectionProperties` states its properties |
| Recommendation.TrendingBySectionProperties | src/main/java/ch/rts/interview/gateway/ArticleRecommendationService.java:33-42 | at most `count` snapshot articles, each in the section and published strictly after now − 30 days, newest first; a candidate left out means the list is full and no newer than its last |
| Recommendation.Latest | src/main/java/ch/rts/interview/gateway/ArticleRecommendationService.java:51-55 | one category's articles, stable-sorted newest first and limited; `Recommendation.LatestProperties` states its properties |
| Recommendation.CategoryHighlights | src/main/java/ch/rts/interview/gateway/ArticleRecommendationService.java:44-63 | the map from each main category to its non-empty latest list; `Recommendation.CategoryHighlightsProperties` states its keys and values |
| Recommendation.LatestProperties | src/main/java/ch/rts/interview/gateway/ArticleRecommendationService.java:51-55 | one category's list: min(count, matches) of its articles, newest first, non-empty exactly when count > 0 and some article has the category |
| Recommendation.CategoryHighlightsProperties | src/main/java/ch/rts/interview/gateway/ArticleRecommendationService.java:44-63 | keys are exactly the main categories some article has (for a positive count); each value is non-empty, at most the count, only that category's articles, newest first |
| Recommendation.GetHighlightsByCategory | src/main/java/ch/rts/interview/gateway/ArticleRecommendationService.java:44-63 | the loop over the categories, putting each non-empty list, computes exactly the highlights map |
| Recommendation.RecentBreakingNews | src/main/java/ch/rts/interview/gateway/ArticleRecommendationService.java:65-74 | the articles after now − hours filed under "Actualités", stable-sorted newest first, unlimited; `Recommendation.RecentBreakingNewsProperties` states its contents |
| Recommendation.RecentBreakingNewsProperties | src/main/java/ch/rts/interview/gateway/ArticleRecommendationService.java:65-74 | exactly the snapshot articles dated after now − hours and filed under "Actualités", each as often as in the snapshot, newest first, equal dates in snapshot order, none cut |
| Recommendation.BreakingLabelNotBoosted | src/main/java/ch/rts/interview/gateway/ArticleRecommendationService.java:71 | an article filed only under the recommendation's "Actualités" has that section yet gets no priority bonus from the scoring |
| Recommendation.OverlapTerm | src/main/java/ch/rts/interview/gateway/ArticleRecommendationService.java:99-113 | the Jaccard ratio of the two label sets times 70, or 0 when either list is absent or both are empty; `Recommendation.OverlapTermBounds` states its range |
| Recommendation.TimeTerm | src/main/java/ch/rts/interview/gateway/ArticleRecommendationService.java:115-126 | 30 minus 4 per whole day apart within 7 days, else 0; `Recommendation.TimeTermBounds` states its range |
| Recommendation.Similarity | src/main/java/ch/rts/interview/gateway/ArticleRecommendationService.java:96-128 | the overlap term plus the time term; `Recommendation.SimilarityBounds`, `Recommendation.SimilaritySymmetric` and `Recommendation.SelfSimilarity` state its properties |
| Recommendation.CalculateSimilarity | src/main/java/ch/rts/interview/gateway/ArticleRecommendationService.java:96-128 | building the sets with `retainAll`/`addAll` and accumulating computes the similarity, which lies in [0, 100] |
| Recommendation.OverlapTermBounds | src/main/java/ch/rts/interview/gateway/ArticleRecommendationService.java:99-113 | the overlap is in [0, 70]; 0 when either list is absent; positive exactly when the lists share a label; 70 exactly when both are non-empty with the same labels |
| Recommendation.TimeTermBounds | src/main/java/ch/rts/interview/gateway/ArticleRecommendationService.java:115-126 | within 7 days the term is 30 − 4d, in [2, 30]; beyond, 0; positive exactly when the dates are less than 8 days apart |
| Recommendation.SimilarityBounds | src/main/java/ch/rts/interview/gateway/ArticleRecommendationService.java:96-128 | the similarity is in [0, 100], positive exactly when the overlap is or the dates are within 7 days |
| Recommendation.SimilaritySymmetric | src/main/java/ch/rts/interview/gateway/ArticleRecommendationService.java:96-128 | the similarity of a to b equals that of b to a |
| Recommendation.SelfSimilarity | src/main/java/ch/rts/interview/gateway/ArticleRecommendationService.java:96-128 | an article with a section is 100 similar to itself |
| Recommendation.SimilarityExample | src/main/java/ch/rts/interview/gateway/ArticleRecommendationService.java:96-128 | ["Sport","Culture"] vs ["Sport","Suisse"], two days apart, scores 70/3 + 22 |
| Recommendation.SimilarArticles | src/main/java/ch/rts/interview/gateway/ArticleRecommendationService.java:76-94 | empty for an unknown id, else the other articles with positive similarity to the target, stable-sorted by descending similarity and limited; `Recommendation.SimilarArticlesProperties` and `Recommendation.SimilarArticlesOrder` state its properties |
| Recommendation.SimilarArticlesUnknown | src/main/java/ch/rts/interview/gateway/ArticleRecommendationService.java:77-81 | an unknown target id gives an empty list |
| Recommendation.SimilarArticlesProperties | src/main/java/ch/rts/interview/gateway/ArticleRecommendationService.java:76-94 | at most `count` snapshot articles, none with the target's id, each with positive similarity; a candidate left out means the list is full and no more similar than its last |
| Recommendation.SimilarArticlesOrder | src/main/java/ch/rts/interview/gateway/ArticleRecommendationService.java:89-92 | similarities to the target are non-increasing |

## Left out

- Spring and JPA: the controller, the repository interface, transactions, annotations and the `Article` fields the core does not read (`title`, `createdAt`, `updatedAt`) are not modelled. The repository's `findAll` is the `seq<Article>` passed to every operation, and `findById` is `Persistence.FindById` over that same snapshot.
- Clock: the source reads `LocalDateTime.now()` once per article (interest score, `isRecent`) and once per call. The model takes one `now` parameter for the whole call.
- Timestamps are whole seconds. Fractions of a second are not represented, so an age that falls within a second of a whole day, or two dates within the same second, are not distinguished as `LocalDateTime` would distinguish them.
- `DateTimeException`: `minusDays`/`minusHours` can throw when the cut-off falls outside `LocalDateTime.MIN`–`MAX` (a negative `hours` moves it forward). The model computes cut-offs as unbounded integers instead, so such a call returns a result where the source throws. (`DAYS.between` never throws, and `Time.DaysBetween` models it over the whole range.)
- Analysis.InterestingArticles, Recommendation.TrendingBySection, Recommendation.Latest, Recommendation.CategoryHighlights, Recommendation.SimilarArticles, Analysis.Diversified: require a non-negative limit or count. A negative one makes `Stream.limit` throw `IllegalArgumentException`, and that path is not modelled.
- Group order: `HashMap.values()` decides the order the groups are visited in before the date sort. The model visits them in first-appearance order. Nothing is proved about how articles with equal dates from different groups are ordered.
- Category order: `Set.of` leaves the order of the four categories unspecified. The resulting map does not depend on it, and the model visits them in the listed order.
- Analysis.InterestScore: the score is a `double` in the source. Every term is a whole number, so the model uses `int`.
- Recommendation.Similarity: the Jaccard ratio is an exact rational, not an IEEE `double`. Rounding of `intersection / union × 70` is not modelled.
- Null elements: a `null` entry inside a section array is not representable. Sections are `Option<seq<string>>` of non-null labels.
- `List.size()` and `int` overflow: snapshots of more than 2^31 − 1 articles are not considered. The only integer wrap-around modelled is the running word total.
