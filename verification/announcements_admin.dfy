/** The announcement admin: the save hook that records the creator, and the
    three bulk actions. The bulk actions are single UPDATE statements, so they
    do not go through `Announcement.save` and its auto-deactivation. */
module AnnouncementsAdmin {
  import opened Results
  import Rows
  import Users
  import Announcements

  type Announcement = Announcements.Announcement

  /** `AnnouncementAdmin.save_model`: on creation the requesting user becomes
      the creator; on a change the creator stays whatever it was. The record is
      then stored through `Announcement.save`, which deactivates it if it has
      expired; the creating save inserts the row, so it also stamps the
      creation time with `now`, whatever the form's instance held. */
  function SaveModel(a: Announcement, requester: Users.UserId, change: bool, now: int): (r: Announcement)
    ensures !change ==> r.createdBy == Some(requester) && r.createdAt == Some(now)
    ensures change ==> r.createdBy == a.createdBy
    ensures change && a.createdAt.Some? ==> r.createdAt == a.createdAt
    ensures r.isActive <==> a.isActive && !Announcements.IsExpired(a, now)
    ensures r.(isActive := a.isActive, createdBy := a.createdBy, createdAt := a.createdAt) == a
  {
    var toStore := if change then a else a.(createdBy := Some(requester), createdAt := None);
    Announcements.Save(toStore, now)
  }

  /** Saving a record again as a change keeps the creator and the creation
      time recorded when it was created. */
  lemma CreatorSurvivesEdits(a: Announcement, creator: Users.UserId, editor: Users.UserId, now: int, later: int)
    ensures SaveModel(SaveModel(a, creator, false, now), editor, true, later).createdBy == Some(creator)
    ensures SaveModel(SaveModel(a, creator, false, now), editor, true, later).createdAt == Some(now)
  {
  }

  /** The rows an action applies to: those whose id was selected. */
  function Selected(ids: set<Announcements.AnnouncementId>): Announcement -> bool {
    (a: Announcement) => a.id in ids
  }

  /** `activate_announcements`: every selected row becomes active, whether or
      not it has expired; nothing else changes. */
  function ActivateAnnouncements(rows: seq<Announcement>, ids: set<Announcements.AnnouncementId>): (r: Rows.Updated<Announcement>)
    ensures |r.rows| == |rows|
    ensures forall i :: 0 <= i < |rows| && rows[i].id in ids ==> r.rows[i] == rows[i].(isActive := true)
    ensures forall i :: 0 <= i < |rows| && rows[i].id !in ids ==> r.rows[i] == rows[i]
    ensures r.count == Rows.Count(rows, Selected(ids))
  {
    Rows.UpdateWhere(rows, Selected(ids), (a: Announcement) => a.(isActive := true))
  }

  /** `deactivate_announcements`: every selected row becomes inactive; nothing else changes. */
  function DeactivateAnnouncements(rows: seq<Announcement>, ids: set<Announcements.AnnouncementId>): (r: Rows.Updated<Announcement>)
    ensures |r.rows| == |rows|
    ensures forall i :: 0 <= i < |rows| && rows[i].id in ids ==> r.rows[i] == rows[i].(isActive := false)
    ensures forall i :: 0 <= i < |rows| && rows[i].id !in ids ==> r.rows[i] == rows[i]
    ensures r.count == Rows.Count(rows, Selected(ids))
  {
    Rows.UpdateWhere(rows, Selected(ids), (a: Announcement) => a.(isActive := false))
  }

  /** `pin_announcements`: every selected row becomes pinned; nothing else
      changes. There is no action that unpins. */
  function PinAnnouncements(rows: seq<Announcement>, ids: set<Announcements.AnnouncementId>): (r: Rows.Updated<Announcement>)
    ensures |r.rows| == |rows|
    ensures forall i :: 0 <= i < |rows| && rows[i].id in ids ==> r.rows[i] == rows[i].(isPinned := true)
    ensures forall i :: 0 <= i < |rows| && rows[i].id !in ids ==> r.rows[i] == rows[i]
    ensures r.count == Rows.Count(rows, Selected(ids))
  {
    Rows.UpdateWhere(rows, Selected(ids), (a: Announcement) => a.(isPinned := true))
  }

  /** Each action applied twice to the same selection gives the table it gives once. */
  lemma BulkActionsIdempotent(rows: seq<Announcement>, ids: set<Announcements.AnnouncementId>)
    ensures ActivateAnnouncements(ActivateAnnouncements(rows, ids).rows, ids).rows == ActivateAnnouncements(rows, ids).rows
    ensures DeactivateAnnouncements(DeactivateAnnouncements(rows, ids).rows, ids).rows == DeactivateAnnouncements(rows, ids).rows
    ensures PinAnnouncements(PinAnnouncements(rows, ids).rows, ids).rows == PinAnnouncements(rows, ids).rows
  {
  }

  /** Pinning never unpins: every row pinned before the action is pinned after it. */
  lemma PinningIsMonotone(rows: seq<Announcement>, ids: set<Announcements.AnnouncementId>)
    ensures forall i :: 0 <= i < |rows| && rows[i].isPinned ==> PinAnnouncements(rows, ids).rows[i].isPinned
  {
  }

  /** Activation bypasses `save`: an expired row it activates stays active, so
      the save-time guarantee "active implies not expired" can be broken. Yet
      the row is still invisible and still absent from the active query,
      because both test the expiry date themselves. */
  lemma ActivatedExpiredStaysHidden(rows: seq<Announcement>, ids: set<Announcements.AnnouncementId>, now: int, i: nat)
    requires i < |rows| && rows[i].id in ids && Announcements.IsExpired(rows[i], now)
    ensures ActivateAnnouncements(rows, ids).rows[i].isActive
    ensures Announcements.IsExpired(ActivateAnnouncements(rows, ids).rows[i], now)
    ensures !Announcements.IsVisible(ActivateAnnouncements(rows, ids).rows[i], now)
    ensures ActivateAnnouncements(rows, ids).rows[i] !in Announcements.GetActive(ActivateAnnouncements(rows, ids).rows, now)
    ensures Announcements.Save(ActivateAnnouncements(rows, ids).rows[i], now) != ActivateAnnouncements(rows, ids).rows[i]
  {
  }

  /** Deactivation hides every selected row from the active and pinned queries. */
  lemma DeactivatedRowsHidden(rows: seq<Announcement>, ids: set<Announcements.AnnouncementId>, now: int)
    ensures forall x :: x in Announcements.GetActive(DeactivateAnnouncements(rows, ids).rows, now) ==> x.id !in ids
    ensures forall x :: x in Announcements.GetPinned(DeactivateAnnouncements(rows, ids).rows, now) ==> x.id !in ids
  {
  }
}
