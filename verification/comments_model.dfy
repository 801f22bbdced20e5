/** `removeCommentById`: a guarded delete by key from an abstract comment
    table. */
module CommentsModel {
  import opened Results
  import opened Tables

  datatype Comment = Comment(commentId: int, articleId: int, author: string, body: string,
                             votes: int, createdAt: int)

  function CommentIdOf(c: Comment): int { c.commentId }

  /** The comment table after the call, and what the call resolves or
      rejects with (the deleted rows on success). */
  datatype Deletion = Deletion(comments: seq<Comment>, outcome: Result<seq<Comment>>)

  const InvalidCommentIdMsg := "400 Bad request - invalid comment id given"
  const CommentNotFoundMsg := "404 comment not found"

  /** A non-numeric id is a 400 and an id the database cannot read is a
      driver failure, both before anything is deleted; otherwise every row
      with that key is deleted and returned, and an empty deletion is a 404
      that leaves the table as it was. */
  function RemoveCommentById(ids: IdReading, comments: seq<Comment>, commentId: string): (d: Deletion)
    ensures !ids.numeric(commentId) ==> d == Deletion(comments, Reject(400, InvalidCommentIdMsg))
    ensures ids.numeric(commentId) && ids.asKey(commentId).None? ==> d == Deletion(comments, Fault)
    ensures ids.numeric(commentId) && ids.asKey(commentId).Some? ==>
              var k := ids.asKey(commentId).value;
              && (d.outcome.Ok? <==> exists c :: c in comments && c.commentId == k)
              && (!d.outcome.Ok? ==> d == Deletion(comments, Reject(404, CommentNotFoundMsg)))
              && (d.outcome.Ok? ==>
                    && |d.outcome.value| > 0
                    && (forall c :: c in d.outcome.value ==> c in comments && c.commentId == k)
                    && (forall c :: c in comments && c.commentId == k ==> c in d.outcome.value)
                    && (forall c :: c in d.comments ==> c.commentId != k)
                    && multiset(d.outcome.value) + multiset(d.comments) == multiset(comments))
              && (forall c :: c in comments && c.commentId != k ==> c in d.comments)
  {
    if !ids.numeric(commentId) then Deletion(comments, Reject(400, InvalidCommentIdMsg))
    else match ids.asKey(commentId)
      case None => Deletion(comments, Fault)
      case Some(k) =>
        var removed := Where(comments, CommentIdOf, k);
        var kept := WhereNot(comments, CommentIdOf, k);
        Partition(comments, CommentIdOf, k);
        if |removed| == 0 then
          NoMatchKeepsAll(comments, CommentIdOf, k);
          Deletion(kept, Reject(404, CommentNotFoundMsg))
        else
          assert removed[0] in removed;
          Deletion(kept, Ok(removed))
  }

  /** Deleting the same id twice: the first call succeeds, the second finds
      nothing and is a 404 that changes nothing. */
  lemma RemoveTwice(ids: IdReading, comments: seq<Comment>, commentId: string)
    requires RemoveCommentById(ids, comments, commentId).outcome.Ok?
    ensures var after := RemoveCommentById(ids, comments, commentId).comments;
            RemoveCommentById(ids, after, commentId) == Deletion(after, Reject(404, CommentNotFoundMsg))
  {
  }
}
