/**
 * The article entity as the core reads it, and the repository's lookup by
 * identifier over a snapshot of all articles.
 */
module Persistence {
  import opened Wrappers
  import opened Time

  /**
   * An article: its identifier, optional lead and body texts, publication
   * date and optional ordered list of section labels (duplicates allowed).
   */
  datatype Article = Article(
    id: int,
    lead: Option<string>,
    body: Option<string>,
    publicationDate: Timestamp,
    sections: Option<seq<string>>)

  /** Position `i` holds the first article of the snapshot carrying `id`. */
  predicate FirstWithId(articles: seq<Article>, id: int, i: int) {
    0 <= i < |articles| && articles[i].id == id && forall j :: 0 <= j < i ==> articles[j].id != id
  }

  /** `findById` over the snapshot: the first article carrying `id`, if any. */
  function FindById(articles: seq<Article>, id: int): (r: Option<Article>)
    ensures r.None? <==> forall i :: 0 <= i < |articles| ==> articles[i].id != id
    ensures r.Some? ==> exists i :: FirstWithId(articles, id, i) && articles[i] == r.value
  {
    if |articles| == 0 then None
    else if articles[0].id == id then Some(articles[0])
    else
      var r := FindById(articles[1..], id);
      assert forall i :: FirstWithId(articles[1..], id, i) ==> FirstWithId(articles, id, i + 1);
      r
  }
}
