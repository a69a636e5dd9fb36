/** The comment admin: the content preview column and the two bulk
    moderation actions. An action receives the table and the ids the
    administrator selected, and returns the new table with the number of rows
    it updated (the number shown in the confirmation message). */
module CommentsAdmin {
  import Results
  import Rows
  import Comments

  /** The longest content the preview column shows before truncating. */
  const PreviewLength: nat := 50

  /** `CommentAdmin.content_preview`: the content itself when it has at most
      50 characters, otherwise its first 50 characters followed by "...". */
  function ContentPreview(content: string): (r: string)
    ensures |r| <= PreviewLength + 3
    ensures |content| <= PreviewLength ==> r == content
    ensures |content| > PreviewLength ==> r == content[..PreviewLength] + "..." && |r| == PreviewLength + 3
  {
    if |content| > PreviewLength then content[..PreviewLength] + "..." else content
  }

  /** Previewing a preview changes nothing: the truncated text keeps the same
      first 50 characters. */
  lemma ContentPreviewIdempotent(content: string)
    ensures ContentPreview(ContentPreview(content)) == ContentPreview(content)
  {
    if |content| > PreviewLength {
      assert ContentPreview(content)[..PreviewLength] == content[..PreviewLength];
    }
  }

  /** The rows an action applies to: those whose id was selected. */
  function Selected(ids: set<Comments.CommentId>): Comments.Comment -> bool {
    (c: Comments.Comment) => c.id in ids
  }

  /** `approve_comments`: every selected comment becomes approved, no other
      field of it changes, and every unselected comment is left as it was. */
  function ApproveComments(rows: seq<Comments.Comment>, ids: set<Comments.CommentId>): (r: Rows.Updated<Comments.Comment>)
    ensures |r.rows| == |rows|
    ensures forall i :: 0 <= i < |rows| && rows[i].id in ids ==> r.rows[i] == rows[i].(isApproved := true)
    ensures forall i :: 0 <= i < |rows| && rows[i].id !in ids ==> r.rows[i] == rows[i]
    ensures r.count == Rows.Count(rows, Selected(ids))
  {
    Rows.UpdateWhere(rows, Selected(ids), (c: Comments.Comment) => c.(isApproved := true))
  }

  /** `disapprove_comments`: every selected comment becomes unapproved, no
      other field of it changes, and every unselected comment is left as it was. */
  function DisapproveComments(rows: seq<Comments.Comment>, ids: set<Comments.CommentId>): (r: Rows.Updated<Comments.Comment>)
    ensures |r.rows| == |rows|
    ensures forall i :: 0 <= i < |rows| && rows[i].id in ids ==> r.rows[i] == rows[i].(isApproved := false)
    ensures forall i :: 0 <= i < |rows| && rows[i].id !in ids ==> r.rows[i] == rows[i]
    ensures r.count == Rows.Count(rows, Selected(ids))
  {
    Rows.UpdateWhere(rows, Selected(ids), (c: Comments.Comment) => c.(isApproved := false))
  }

  /** Running either action twice on the same selection gives the table that
      running it once gives. */
  lemma ModerationActionsIdempotent(rows: seq<Comments.Comment>, ids: set<Comments.CommentId>)
    ensures ApproveComments(ApproveComments(rows, ids).rows, ids).rows == ApproveComments(rows, ids).rows
    ensures DisapproveComments(DisapproveComments(rows, ids).rows, ids).rows == DisapproveComments(rows, ids).rows
  {
  }

  /** The later of two moderation actions on the same selection wins. */
  lemma LastModerationWins(rows: seq<Comments.Comment>, ids: set<Comments.CommentId>)
    ensures DisapproveComments(ApproveComments(rows, ids).rows, ids).rows == DisapproveComments(rows, ids).rows
    ensures ApproveComments(DisapproveComments(rows, ids).rows, ids).rows == ApproveComments(rows, ids).rows
  {
  }

  /** After approving a reply, the replies query of its parent returns it. */
  lemma ApprovedReplyIsListed(rows: seq<Comments.Comment>, ids: set<Comments.CommentId>, parent: Comments.Comment, i: nat)
    requires i < |rows| && rows[i].id in ids && rows[i].parent == Results.Some(parent.id)
    ensures rows[i].(isApproved := true) in Comments.GetReplies(ApproveComments(rows, ids).rows, parent)
  {
    assert ApproveComments(rows, ids).rows[i] == rows[i].(isApproved := true);
  }

  /** After disapproving a selection, the replies query returns none of it. */
  lemma DisapprovedRepliesHidden(rows: seq<Comments.Comment>, ids: set<Comments.CommentId>, parent: Comments.Comment)
    ensures forall x :: x in Comments.GetReplies(DisapproveComments(rows, ids).rows, parent) ==> x.id !in ids
  {
  }
}
