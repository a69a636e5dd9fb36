/** Site-wide announcements: validation, the clock-driven expiry and
    visibility rules, the auto-deactivating save, the two listing queries, the
    badge lookup and the default display order. The clock is the parameter
    `now`; date-times are integers on one time line. */
module Announcements {
  import opened Results
  import opened Text
  import Rows
  import Users

  type AnnouncementId = nat

  /** An announcement row. `kind` is the `type` column: one of 'info',
      'warning', 'success', 'danger' when it comes through a form, but stored
      as free text. `createdAt` is the creation stamp: `None` until the save
      that inserts the row. */
  datatype Announcement = Announcement(
    id: AnnouncementId,
    title: string,
    content: string,
    kind: string,
    isActive: bool,
    isPinned: bool,
    createdBy: Option<Users.UserId>,
    createdAt: Option<int>,
    expiresAt: Option<int>)

  /** A freshly constructed announcement: type 'info', active, not pinned, no
      creator and no creation stamp yet. */
  function NewAnnouncement(id: AnnouncementId, title: string, content: string, expiresAt: Option<int>): (a: Announcement)
    ensures a.kind == "info" && a.isActive && !a.isPinned && a.createdBy == None && a.createdAt == None
    ensures a.title == title && a.content == content && a.expiresAt == expiresAt
  {
    Announcement(id, title, content, "info", true, false, None, None, expiresAt)
  }

  /** The validation errors `Announcement.clean` raises, in the order it checks them. */
  datatype AnnouncementError = ExpiryNotInFuture | TitleTooShort | ContentTooShort

  const MinTitleLength: nat := 5
  const MinContentLength: nat := 10

  /** `Announcement.clean`: an expiry date, when set, must lie strictly after
      `now`; then the stripped title needs 5 characters; then the stripped
      content needs 10. */
  function Clean(a: Announcement, now: int): (r: Outcome<AnnouncementError>)
    ensures r == Fail(ExpiryNotInFuture) <==> a.expiresAt.Some? && a.expiresAt.value <= now
    ensures r == Fail(TitleTooShort) <==>
              (a.expiresAt.Some? ==> a.expiresAt.value > now) && |Strip(a.title)| < MinTitleLength
    ensures r == Fail(ContentTooShort) <==>
              && (a.expiresAt.Some? ==> a.expiresAt.value > now)
              && |Strip(a.title)| >= MinTitleLength && |Strip(a.content)| < MinContentLength
    ensures r == Pass <==>
              && (a.expiresAt.Some? ==> a.expiresAt.value > now)
              && |Strip(a.title)| >= MinTitleLength && |Strip(a.content)| >= MinContentLength
  {
    if a.expiresAt.Some? && a.expiresAt.value <= now then Fail(ExpiryNotInFuture)
    else if |Strip(a.title)| < MinTitleLength then Fail(TitleTooShort)
    else if |Strip(a.content)| < MinContentLength then Fail(ContentTooShort)
    else Pass
  }

  /** `Announcement.is_expired`: never without an expiry date; otherwise only
      once `now` is strictly past it, so not yet at the expiry instant itself. */
  function IsExpired(a: Announcement, now: int): (r: bool)
    ensures r <==> a.expiresAt.Some? && now > a.expiresAt.value
    ensures a.expiresAt.None? ==> !r
    ensures a.expiresAt == Some(now) ==> !r
  {
    match a.expiresAt
    case None => false
    case Some(t) => now > t
  }

  /** Expiry is permanent: once expired, an announcement stays expired. */
  lemma ExpiryIsPermanent(a: Announcement, now: int, later: int)
    requires IsExpired(a, now) && later >= now
    ensures IsExpired(a, later)
  {
  }

  /** `Announcement.is_visible`: active and not expired. */
  function IsVisible(a: Announcement, now: int): (r: bool)
    ensures r <==> a.isActive && (a.expiresAt.None? || now <= a.expiresAt.value)
  {
    a.isActive && !IsExpired(a, now)
  }

  /** An announcement `Clean` accepts at `now` is not expired at `now`, so it
      is visible exactly when it is active, and saving it changes nothing. */
  lemma CleanMeansNotExpired(a: Announcement, now: int)
    ensures Clean(a, now) == Pass ==> !IsExpired(a, now) && IsVisible(a, now) == a.isActive
  {
  }

  /** `get_type_badge_class`: `badge-<type>` for the four known types,
      `badge-secondary` for anything else. */
  function BadgeClass(kind: string): (r: string)
    ensures kind in {"info", "warning", "success", "danger"} ==> r == "badge-" + kind
    ensures kind !in {"info", "warning", "success", "danger"} ==> r == "badge-secondary"
  {
    if kind == "info" then "badge-info"
    else if kind == "warning" then "badge-warning"
    else if kind == "success" then "badge-success"
    else if kind == "danger" then "badge-danger"
    else "badge-secondary"
  }

  /** Distinct known types get distinct badges, and none of them gets the fallback. */
  lemma BadgeClassInjectiveOnKnownTypes(k1: string, k2: string)
    requires k1 in {"info", "warning", "success", "danger"} && k2 in {"info", "warning", "success", "danger"}
    ensures BadgeClass(k1) == BadgeClass(k2) <==> k1 == k2
    ensures BadgeClass(k1) != "badge-secondary"
  {
    if BadgeClass(k1) == BadgeClass(k2) {
      assert ("badge-" + k1)[6..] == k1;
      assert ("badge-" + k2)[6..] == k2;
    }
  }

  /** `Announcement.save`: an expired announcement is forced inactive before
      it is stored; an unexpired one keeps its flag. The save that inserts the
      row stamps its creation time with `now`. Nothing else changes, so saving
      never changes whether the announcement is visible. */
  function Save(a: Announcement, now: int): (r: Announcement)
    ensures r.isActive <==> a.isActive && !IsExpired(a, now)
    ensures a.createdAt.None? ==> r.createdAt == Some(now)
    ensures a.createdAt.Some? ==> r.createdAt == a.createdAt
    ensures r.(isActive := a.isActive, createdAt := a.createdAt) == a
    ensures IsVisible(r, now) == IsVisible(a, now)
    ensures r.isActive ==> !IsExpired(r, now)
  {
    a.(isActive := a.isActive && !IsExpired(a, now), createdAt := Rows.StampOnInsert(a.createdAt, now))
  }

  /** Saving twice at the same instant is the same as saving once; a later
      save keeps the creation stamp of the first; and a saved announcement
      that was expired stays inactive at every later save. */
  lemma SaveIdempotent(a: Announcement, now: int, later: int)
    requires later >= now
    ensures Save(Save(a, now), now) == Save(a, now)
    ensures Save(Save(a, now), later).createdAt == Save(a, now).createdAt
    ensures IsExpired(a, now) ==> !Save(Save(a, now), later).isActive
  {
  }

  /** The filter of `get_active_announcements`: active, and no expiry date or
      one strictly after `now`. */
  predicate ActiveAt(a: Announcement, now: int) {
    a.isActive && (a.expiresAt.None? || a.expiresAt.value > now)
  }

  /** `get_active_announcements`: the active, unexpired rows in table order. */
  function GetActive(rows: seq<Announcement>, now: int): (r: seq<Announcement>)
    ensures forall x :: x in r <==> x in rows && x.isActive && (x.expiresAt.None? || x.expiresAt.value > now)
  {
    Rows.Filter(rows, (x: Announcement) => ActiveAt(x, now))
  }

  /** `get_pinned_announcements`: the active rows that are pinned, in table order. */
  function GetPinned(rows: seq<Announcement>, now: int): (r: seq<Announcement>)
    ensures forall x :: x in r <==> x in GetActive(rows, now) && x.isPinned
    ensures r == Rows.Filter(rows, (x: Announcement) => ActiveAt(x, now) && x.isPinned)
  {
    Rows.FilterFilter(rows, (x: Announcement) => ActiveAt(x, now), (x: Announcement) => x.isPinned,
                      (x: Announcement) => ActiveAt(x, now) && x.isPinned);
    Rows.Filter(GetActive(rows, now), (x: Announcement) => x.isPinned)
  }

  /** Every row the active query returns is visible, and a visible row is
      missing from it only when it expires exactly at `now`: the query
      treats the expiry instant as past, `is_expired` does not. */
  lemma ActiveVersusVisible(rows: seq<Announcement>, now: int)
    ensures forall x :: x in GetActive(rows, now) ==> IsVisible(x, now)
    ensures forall x :: x in rows && IsVisible(x, now) && x !in GetActive(rows, now) ==> x.expiresAt == Some(now)
  {
  }

  /** The disagreement happens: an active announcement expiring exactly at
      `now` is visible but not listed as active. */
  lemma VisibleButNotActiveAtExpiryInstant(a: Announcement, now: int)
    requires a.isActive && a.expiresAt == Some(now)
    ensures IsVisible(a, now) && !IsExpired(a, now)
    ensures GetActive([a], now) == []
    ensures Clean(a, now) == Fail(ExpiryNotInFuture)
  {
    assert a !in GetActive([a], now);
  }

  /** `-created_at` on creation stamps: the later stamp first. Every stored
      row has a stamp; a record that was never stored has none and is placed
      after every stamped one. */
  predicate NewerOrSame(x: Option<int>, y: Option<int>) {
    match (x, y)
    case (_, None) => true
    case (None, Some(_)) => false
    case (Some(s), Some(t)) => s >= t
  }

  /** The default ordering `['-is_pinned', '-created_at']`: pinned rows first,
      then newer before older. */
  predicate ComesFirst(a: Announcement, b: Announcement) {
    (a.isPinned && !b.isPinned) || (a.isPinned == b.isPinned && NewerOrSame(a.createdAt, b.createdAt))
  }

  ghost predicate InDisplayOrder(s: seq<Announcement>) {
    forall i, j :: 0 <= i < j < |s| ==> ComesFirst(s[i], s[j])
  }

  /** The order is total: of two announcements, one may come first. */
  lemma ComesFirstTotal(a: Announcement, b: Announcement)
    ensures ComesFirst(a, b) || ComesFirst(b, a)
  {
  }

  /** A row that comes before every row of an ordered sequence may head it. */
  lemma ConsInDisplayOrder(x: Announcement, rest: seq<Announcement>)
    requires InDisplayOrder(rest)
    requires forall k :: 0 <= k < |rest| ==> ComesFirst(x, rest[k])
    ensures InDisplayOrder([x] + rest)
  {
    var s := [x] + rest;
    forall i, j | 0 <= i < j < |s| ensures ComesFirst(s[i], s[j]) {
      assert s[j] == rest[j - 1];
      if i > 0 {
        assert s[i] == rest[i - 1];
      }
    }
  }

  /** Places `a` into a sequence already in display order. */
  function InsertInOrder(a: Announcement, s: seq<Announcement>): (r: seq<Announcement>)
    requires InDisplayOrder(s)
    ensures InDisplayOrder(r)
    ensures forall x :: x in r <==> x == a || x in s
    ensures multiset(r) == multiset(s) + multiset{a}
  {
    if s == [] then [a]
    else if ComesFirst(a, s[0]) then
      ConsInDisplayOrder(a, s);
      [a] + s
    else
      var rest := InsertInOrder(a, s[1..]);
      ComesFirstTotal(a, s[0]);
      assert forall k :: 0 <= k < |rest| ==> ComesFirst(s[0], rest[k]) by {
        forall k | 0 <= k < |rest| ensures ComesFirst(s[0], rest[k]) {
          assert rest[k] in rest;
          if rest[k] != a {
            var m :| 0 <= m < |s[1..]| && s[1..][m] == rest[k];
            assert s[m + 1] == rest[k];
          }
        }
      }
      ConsInDisplayOrder(s[0], rest);
      assert s == [s[0]] + s[1..];
      [s[0]] + rest
  }

  /** The rows of `rows` in the model's default order. */
  function DisplayOrder(rows: seq<Announcement>): (r: seq<Announcement>)
    ensures InDisplayOrder(r)
    ensures multiset(r) == multiset(rows)
  {
    if rows == [] then []
    else
      assert rows == [rows[0]] + rows[1..];
      InsertInOrder(rows[0], DisplayOrder(rows[1..]))
  }

  /** In display order every pinned announcement precedes every unpinned one,
      and within each group newer announcements come first. */
  lemma DisplayOrderPinnedThenNewest(rows: seq<Announcement>, i: nat, j: nat)
    requires i < j < |DisplayOrder(rows)|
    ensures DisplayOrder(rows)[j].isPinned ==> DisplayOrder(rows)[i].isPinned
    ensures DisplayOrder(rows)[i].isPinned == DisplayOrder(rows)[j].isPinned ==>
              NewerOrSame(DisplayOrder(rows)[i].createdAt, DisplayOrder(rows)[j].createdAt)
    ensures DisplayOrder(rows)[i].isPinned == DisplayOrder(rows)[j].isPinned
            && DisplayOrder(rows)[i].createdAt.Some? && DisplayOrder(rows)[j].createdAt.Some? ==>
              DisplayOrder(rows)[i].createdAt.value >= DisplayOrder(rows)[j].createdAt.value
  {
  }
}
