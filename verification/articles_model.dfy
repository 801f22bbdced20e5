/** `selectArticleById`: the existence guard for a single article, over an
    abstract article table. */
module ArticlesModel {
  import opened Results
  import opened Tables

  datatype Article = Article(articleId: int, title: string, topic: string, author: string,
                             body: string, createdAt: int, votes: int)

  function ArticleIdOf(a: Article): int { a.articleId }

  /** The table's key column holds no value twice. */
  predicate UniqueIds(articles: seq<Article>)
  {
    forall i, j :: 0 <= i < |articles| && 0 <= j < |articles| && articles[i].articleId == articles[j].articleId ==> i == j
  }

  const InvalidIdMsg := "400 Bad Request - Invalid ID"
  const ArticleNotFoundMsg := "404 Article Not Found"

  /** A non-numeric id is a 400 whatever the table holds; an id the database
      cannot read as a key is a driver failure; a key no row carries is a
      404; otherwise the result is the earliest row carrying that key. */
  function SelectArticleById(ids: IdReading, articles: seq<Article>, articleId: string): (r: Result<Article>)
    ensures !ids.numeric(articleId) ==> r == Reject(400, InvalidIdMsg)
    ensures ids.numeric(articleId) && ids.asKey(articleId).None? ==> r == Fault
    ensures ids.numeric(articleId) && ids.asKey(articleId).Some? ==>
              var k := ids.asKey(articleId).value;
              && (r == Reject(404, ArticleNotFoundMsg) <==> forall a :: a in articles ==> a.articleId != k)
              && (r != Reject(404, ArticleNotFoundMsg) ==> r.Ok?)
              && (r.Ok? ==> exists i :: 0 <= i < |articles| && articles[i] == r.value && r.value.articleId == k
                                     && forall j :: 0 <= j < i ==> articles[j].articleId != k)
  {
    if !ids.numeric(articleId) then Reject(400, InvalidIdMsg)
    else match ids.asKey(articleId)
      case None => Fault
      case Some(k) =>
        var rows := Where(articles, ArticleIdOf, k);
        if |rows| == 0 then
          Reject(404, ArticleNotFoundMsg)
        else
          FirstMatch(articles, ArticleIdOf, k);
          Ok(rows[0])
  }

  /** With unique ids, the guard hands back precisely the row whose id the
      request names. */
  lemma SelectFindsTheArticle(ids: IdReading, articles: seq<Article>, articleId: string, i: int)
    requires UniqueIds(articles)
    requires 0 <= i < |articles|
    requires ids.numeric(articleId) && ids.asKey(articleId) == Some(articles[i].articleId)
    ensures SelectArticleById(ids, articles, articleId) == Ok(articles[i])
  {
  }
}
