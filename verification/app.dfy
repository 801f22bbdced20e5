/** The boundary of the application: the catch-all route, the two error
    middlewares, and the two modelled endpoints composed with them. */
module App {
  import opened Results
  import opened ArticlesModel
  import opened CommentsModel

  /** Whatever reaches the error middleware: an object whose `status` and
      `msg` fields may be missing. */
  datatype ErrorValue = ErrorValue(status: Option<int>, msg: Option<string>)

  datatype Body = Message(text: string) | ArticleBody(article: Article) | NoContent

  datatype Response = Response(status: int, body: Body)

  const RouteNotFoundMsg := "404 Route Not Found"
  const BadServerMsg := "500 Bad Server"

  /** JavaScript truthiness of the two fields: a missing field, a status of
      0 and an empty message are all false. */
  predicate Truthy(err: ErrorValue)
  {
    && err.status.Some? && err.status.value != 0
    && err.msg.Some? && err.msg.value != ""
  }

  /** The error object a rejected model call hands to `next`. A driver
      failure carries neither field. */
  function Thrown<T>(r: Result<T>): (e: ErrorValue)
    requires !r.Ok?
    ensures Truthy(e) <==> r.Reject? && r.status != 0 && r.msg != ""
    ensures Truthy(e) ==> e.status == Some(r.status) && e.msg == Some(r.msg)
    ensures r.Fault? ==> e == ErrorValue(None, None)
  {
    match r
    case Reject(status, msg) => ErrorValue(Some(status), Some(msg))
    case Fault => ErrorValue(None, None)
  }

  /** The two error middlewares: an error with a truthy `status` and `msg`
      is answered with exactly those, anything else with a 500. */
  function HandleError(err: ErrorValue): (r: Response)
    ensures Truthy(err) ==> r == Response(err.status.value, Message(err.msg.value))
    ensures !Truthy(err) ==> r == Response(500, Message(BadServerMsg))
    ensures Some(r.status) == err.status || r.status == 500
  {
    if Truthy(err) then Response(err.status.value, Message(err.msg.value))
    else Response(500, Message(BadServerMsg))
  }

  /** A structured rejection with a non-zero status and a message reaches
      the client unchanged; a driver failure becomes a 500. */
  lemma RejectionsReachClient<T>(r: Result<T>)
    requires !r.Ok?
    ensures r.Reject? && r.status != 0 && r.msg != "" ==>
              HandleError(Thrown(r)) == Response(r.status, Message(r.msg))
    ensures r.Reject? && (r.status == 0 || r.msg == "") ==>
              HandleError(Thrown(r)) == Response(500, Message(BadServerMsg))
    ensures r.Fault? ==> HandleError(Thrown(r)) == Response(500, Message(BadServerMsg))
  {
  }

  datatype Store = Store(articles: seq<Article>, comments: seq<Comment>)

  /** A request as the router sees it: one of the two modelled endpoints, or
      a method and path no registered route matches. */
  datatype Request =
    | GetArticleById(articleId: string)
    | DeleteCommentById(commentId: string)
    | Unrouted(verb: string, path: string)

  datatype Exchange = Exchange(store: Store, response: Response)

  /** Routes a request to its controller, or to the catch-all, and maps a
      rejection through the error middlewares. */
  function Serve(ids: IdReading, store: Store, req: Request): (x: Exchange)
    ensures req.Unrouted? ==> x == Exchange(store, Response(404, Message(RouteNotFoundMsg)))
    ensures x.store.articles == store.articles
  {
    match req
    case GetArticleById(id) =>
      var r := SelectArticleById(ids, store.articles, id);
      var resp := if r.Ok? then Response(200, ArticleBody(r.value)) else HandleError(Thrown(r));
      Exchange(store, resp)
    case DeleteCommentById(id) =>
      var d := RemoveCommentById(ids, store.comments, id);
      var resp := if d.outcome.Ok? then Response(204, NoContent) else HandleError(Thrown(d.outcome));
      Exchange(store.(comments := d.comments), resp)
    case Unrouted(_, _) =>
      Exchange(store, Response(404, Message(RouteNotFoundMsg)))
  }

  /** GET /api/articles/:article_id end to end: the store is untouched and
      the status is 400, 500, 404 or 200 exactly as the id and the table
      decide; a 200 carries the row with the requested key. */
  lemma GetArticleStatuses(ids: IdReading, store: Store, id: string)
    ensures var x := Serve(ids, store, GetArticleById(id));
            && x.store == store
            && (!ids.numeric(id) <==> x.response == Response(400, Message(InvalidIdMsg)))
            && (ids.numeric(id) && ids.asKey(id).None? <==> x.response == Response(500, Message(BadServerMsg)))
            && (ids.numeric(id) && ids.asKey(id).Some? ==>
                  var k := ids.asKey(id).value;
                  && ((forall a :: a in store.articles ==> a.articleId != k) <==>
                        x.response == Response(404, Message(ArticleNotFoundMsg)))
                  && (x.response.status == 200 <==> exists a :: a in store.articles && a.articleId == k)
                  && (x.response.status == 200 ==>
                        x.response.body.ArticleBody? && x.response.body.article.articleId == k
                        && x.response.body.article in store.articles))
  {
  }

  /** DELETE /api/comments/:comment_id end to end: 400 and 500 change
      nothing; a 204 means some row had the key, and afterwards none has;
      a 404 means none had it and the store is unchanged. */
  lemma DeleteCommentStatuses(ids: IdReading, store: Store, id: string)
    ensures var x := Serve(ids, store, DeleteCommentById(id));
            && (!ids.numeric(id) ==> x == Exchange(store, Response(400, Message(InvalidCommentIdMsg))))
            && (ids.numeric(id) && ids.asKey(id).None? ==> x == Exchange(store, Response(500, Message(BadServerMsg))))
            && (ids.numeric(id) && ids.asKey(id).Some? ==>
                  var k := ids.asKey(id).value;
                  && (x.response == Response(204, NoContent) <==> exists c :: c in store.comments && c.commentId == k)
                  && (x.response == Response(204, NoContent) ==> forall c :: c in x.store.comments ==> c.commentId != k)
                  && (x.response != Response(204, NoContent) ==>
                        x == Exchange(store, Response(404, Message(CommentNotFoundMsg)))))
  {
  }

  /** Deleting a comment twice over HTTP: 204, then 404 with the store left
      as the first call made it. */
  lemma DeleteTwiceIs204Then404(ids: IdReading, store: Store, id: string)
    requires Serve(ids, store, DeleteCommentById(id)).response.status == 204
    ensures var first := Serve(ids, store, DeleteCommentById(id));
            Serve(ids, first.store, DeleteCommentById(id))
              == Exchange(first.store, Response(404, Message(CommentNotFoundMsg)))
  {
  }
}
