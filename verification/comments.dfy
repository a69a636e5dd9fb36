/** Comments on articles: the validation a new comment must pass, the
    two-level threading it guarantees for new comments, the approved-replies query and the
    moderation permission. */
module Comments {
  import opened Results
  import opened Text
  import Rows
  import Users
  import Articles

  type CommentId = nat

  /** A comment row; `parent` is the nullable self-reference used for
      threading, and `createdAt` the creation stamp the row was stored with. */
  datatype Comment = Comment(
    id: CommentId,
    article: Articles.ArticleId,
    author: Users.UserId,
    parent: Option<CommentId>,
    content: string,
    isApproved: bool,
    createdAt: int)

  /** The validation errors `Comment.clean` raises, in the order it checks them. */
  datatype CommentError = ContentTooShort | ContentEmpty | ParentOnOtherArticle | NestingTooDeep

  /** The shortest stripped content a comment may have. */
  const MinContentLength: nat := 3

  /** `parent` is the record the comment's `parent` field refers to: absent for
      a top-level comment, the row with that id for a reply. */
  predicate ParentResolved(c: Comment, parent: Option<Comment>) {
    match c.parent
    case None => parent.None?
    case Some(p) => parent.Some? && parent.value.id == p
  }

  /** `Comment.clean`. The content length is checked first, then the parent's
      article, then the parent's own parent. The separate empty-content error
      can never be raised: the length check already rejects every content
      that strips to nothing. */
  function Clean(c: Comment, parent: Option<Comment>): (r: Outcome<CommentError>)
    requires ParentResolved(c, parent)
    ensures r == Fail(ContentTooShort) <==> |Strip(c.content)| < MinContentLength
    ensures r != Fail(ContentEmpty)
    ensures r == Fail(ParentOnOtherArticle) <==>
              |Strip(c.content)| >= MinContentLength && parent.Some? && parent.value.article != c.article
    ensures r == Fail(NestingTooDeep) <==>
              && |Strip(c.content)| >= MinContentLength
              && parent.Some? && parent.value.article == c.article && parent.value.parent.Some?
    ensures r == Pass <==>
              && |Strip(c.content)| >= MinContentLength
              && (parent.Some? ==> parent.value.article == c.article && parent.value.parent.None?)
    ensures r == Pass ==> Strip(c.content) != []
  {
    if |Strip(c.content)| < MinContentLength then Fail(ContentTooShort)
    else if Strip(c.content) == [] then Fail(ContentEmpty)
    else if parent.Some? then
      if parent.value.article != c.article then Fail(ParentOnOtherArticle)
      else if parent.value.parent.Some? then Fail(NestingTooDeep)
      else Pass
    else Pass
  }

  /** A top-level comment is accepted exactly when its content is long enough. */
  lemma TopLevelAcceptedOnContent(c: Comment)
    requires c.parent.None?
    ensures Clean(c, None) == Pass <==> |Strip(c.content)| >= MinContentLength
  {
  }

  /** `Comment.is_reply`: the comment has a parent. */
  function IsReply(c: Comment): (r: bool)
    ensures r <==> exists p :: c.parent == Some(p)
  {
    c.parent.Some?
  }

  /** No two rows of the comment table share an id. */
  ghost predicate UniqueIds(rows: seq<Comment>) {
    forall i, j :: 0 <= i < |rows| && 0 <= j < |rows| && rows[i].id == rows[j].id ==> i == j
  }

  /** The row with id `id`, if the table has one (the first, were there several). */
  function Find(rows: seq<Comment>, id: CommentId): (r: Option<Comment>)
    ensures r.Some? ==> r.value in rows && r.value.id == id
    ensures r.None? <==> forall i :: 0 <= i < |rows| ==> rows[i].id != id
  {
    if rows == [] then None
    else if rows[0].id == id then Some(rows[0])
    else Find(rows[1..], id)
  }

  /** The record a comment's parent field refers to in `rows`. */
  function ParentIn(rows: seq<Comment>, c: Comment): Option<Comment> {
    match c.parent
    case None => None
    case Some(p) => Find(rows, p)
  }

  /** The threading invariant: every reply's parent is in the table, on the
      same article, and is itself top-level, so no thread is deeper than two
      levels. */
  ghost predicate Threaded(rows: seq<Comment>) {
    forall i :: 0 <= i < |rows| && rows[i].parent.Some? ==>
      match ParentIn(rows, rows[i])
      case None => false
      case Some(p) => p.article == rows[i].article && p.parent.None?
  }

  lemma {:induction false} FindAppend(rows: seq<Comment>, c: Comment, id: CommentId)
    ensures Find(rows + [c], id) == if Find(rows, id).Some? then Find(rows, id) else if c.id == id then Some(c) else None
  {
    if rows != [] {
      assert (rows + [c])[1..] == rows[1..] + [c];
      FindAppend(rows[1..], c, id);
    }
  }

  lemma {:induction false} FindUnique(rows: seq<Comment>, c: Comment)
    requires UniqueIds(rows) && c in rows
    ensures Find(rows, c.id) == Some(c)
  {
    if rows[0] != c {
      assert c in rows[1..];
      FindUnique(rows[1..], c);
    }
  }

  /** Inserting a comment that `Clean` accepts into a threaded table (with a
      fresh id, and its parent present) keeps the table threaded: validation
      alone guarantees nesting depth at most two. */
  lemma {:induction false} CleanKeepsThreaded(rows: seq<Comment>, c: Comment)
    requires Threaded(rows)
    requires forall i :: 0 <= i < |rows| ==> rows[i].id != c.id
    requires c.parent.Some? ==> Find(rows, c.parent.value).Some?
    requires Clean(c, ParentIn(rows, c)) == Pass
    ensures Threaded(rows + [c])
  {
    var rows' := rows + [c];
    forall i | 0 <= i < |rows'| && rows'[i].parent.Some?
      ensures match ParentIn(rows', rows'[i])
              case None => false
              case Some(p) => p.article == rows'[i].article && p.parent.None?
    {
      FindAppend(rows, c, rows'[i].parent.value);
      if i < |rows| {
        assert rows'[i] == rows[i];
      }
    }
  }

  /** Validation looks at the new parent only, never at the comment's own
      replies: turning a top-level comment that already has a reply into a
      reply of another top-level comment passes `Clean`, yet the table it
      leaves holds a thread three levels deep. So the depth guarantee of
      `CleanKeepsThreaded` covers inserting comments, not re-parenting them. */
  lemma EditedParentCanDeepenThread(article: Articles.ArticleId, author: Users.UserId, content: string)
    requires |Strip(content)| >= MinContentLength
    ensures var a := Comment(1, article, author, None, content, true, 0);
            var b := Comment(2, article, author, Some(1), content, true, 0);
            var c := Comment(3, article, author, None, content, true, 0);
            var edited := a.(parent := Some(3));
            && Threaded([a, b, c])
            && ParentResolved(edited, Some(c)) && Clean(edited, Some(c)) == Pass
            && !Threaded([edited, b, c])
  {
    var a := Comment(1, article, author, None, content, true, 0);
    var b := Comment(2, article, author, Some(1), content, true, 0);
    var c := Comment(3, article, author, None, content, true, 0);
    var edited := a.(parent := Some(3));
    assert Find([a, b, c], 1) == Some(a);
    assert Find([edited, b, c], 1) == Some(edited);
    assert [edited, b, c][1] == b;
  }

  /** `Comment.get_replies`: the approved comments whose parent is `c`, in table order. */
  function GetReplies(rows: seq<Comment>, c: Comment): (r: seq<Comment>)
    ensures forall x :: x in r <==> x in rows && x.parent == Some(c.id) && x.isApproved
  {
    Rows.Filter(rows, (x: Comment) => x.parent == Some(c.id) && x.isApproved)
  }

  /** In a threaded table with unique ids, a reply has no replies of its own. */
  lemma ReplyHasNoReplies(rows: seq<Comment>, c: Comment)
    requires Threaded(rows) && UniqueIds(rows)
    requires c in rows && IsReply(c)
    ensures GetReplies(rows, c) == []
  {
    if GetReplies(rows, c) != [] {
      var x := GetReplies(rows, c)[0];
      assert x in GetReplies(rows, c);
      var i :| 0 <= i < |rows| && rows[i] == x;
      FindUnique(rows, c);
    }
  }

  /** `Comment.can_be_moderated_by`: staff and admins may moderate every
      comment; the article's author may moderate the comments on it only if
      the author's own role is author or admin. `profile` is the user's profile. */
  function CanBeModeratedBy(articleAuthor: Users.UserId, user: Users.Account, profile: Users.Profile): (r: bool)
    requires profile.owner == user.id
    ensures r <==> user.isStaff || profile.role == Users.Admin
                   || (user.id == articleAuthor && profile.role in {Users.Author, Users.Admin})
    ensures user.id == articleAuthor && profile.role == Users.User && !user.isStaff ==> !r
  {
    if user.isStaff || Users.IsAdmin(profile) then true
    else if articleAuthor == user.id && Users.IsAuthor(profile) then true
    else false
  }

  /** Raising a user's role or granting the staff flag never takes a
      moderation permission away. */
  lemma ModerationMonotone(articleAuthor: Users.UserId, user: Users.Account, p: Users.Profile, q: Users.Profile, staff: bool)
    requires p.owner == user.id && q.owner == user.id
    requires Users.Rank(p.role) <= Users.Rank(q.role)
    requires user.isStaff ==> staff
    ensures CanBeModeratedBy(articleAuthor, user, p) ==> CanBeModeratedBy(articleAuthor, user.(isStaff := staff), q)
  {
  }
}
