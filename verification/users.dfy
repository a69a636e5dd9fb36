/** User profiles: the role attached to every account, the capability checks
    derived from it, and the rule that each account gets exactly one profile,
    created when the account is created. */
module Users {
  import opened Results

  type UserId = nat

  /** An authentication identity as this core sees it: an opaque id and the
      framework's staff flag. */
  datatype Account = Account(id: UserId, isStaff: bool)

  /** The role choices of a profile: 'user', 'author', 'admin'. */
  datatype Role = User | Author | Admin

  /** A profile extends exactly one account. The avatar file is reduced to
      whether one is set. */
  datatype Profile = Profile(owner: UserId, bio: string, hasAvatar: bool, role: Role)

  /** The capability ladder the two checks below climb: a plain user has no
      capability, an author may write, an admin may also administer. */
  function Rank(role: Role): nat {
    match role
    case User => 0
    case Author => 1
    case Admin => 2
  }

  /** `Profile.is_author`: true for the author and the admin role. */
  function IsAuthor(p: Profile): (r: bool)
    ensures r <==> Rank(p.role) >= 1
    ensures r <==> p.role != User
  {
    p.role in {Author, Admin}
  }

  /** `Profile.is_admin`: true for the admin role only; every admin is an author. */
  function IsAdmin(p: Profile): (r: bool)
    ensures r <==> Rank(p.role) >= 2
    ensures r ==> IsAuthor(p)
  {
    p.role == Admin
  }

  /** The profile created for a new account: empty bio, no avatar, and the
      default role 'user', so neither author nor admin. */
  function NewProfile(owner: UserId): (p: Profile)
    ensures p.owner == owner && p.bio == [] && !p.hasAvatar
    ensures !IsAuthor(p) && !IsAdmin(p)
  {
    Profile(owner, [], false, User)
  }

  /** Why the profile hooks can fail: the one-to-one constraint rejects a
      second profile for an account, and reading the profile of an account
      that has none raises. */
  datatype ProfileError = DuplicateProfile | MissingProfile

  /** The number of rows of the profile table that belong to `u`. */
  function ProfilesOf(ps: seq<Profile>, u: UserId): (n: nat)
    ensures n <= |ps|
    ensures n == 0 <==> forall i :: 0 <= i < |ps| ==> ps[i].owner != u
  {
    if ps == [] then 0
    else (if ps[0].owner == u then 1 else 0) + ProfilesOf(ps[1..], u)
  }

  /** The table invariant the one-to-one field keeps: no account has two profiles. */
  ghost predicate OneProfileEach(ps: seq<Profile>) {
    forall u :: ProfilesOf(ps, u) <= 1
  }

  lemma {:induction false} ProfilesOfAppend(ps: seq<Profile>, p: Profile, u: UserId)
    ensures ProfilesOf(ps + [p], u) == ProfilesOf(ps, u) + (if p.owner == u then 1 else 0)
  {
    if ps != [] {
      assert (ps + [p])[1..] == ps[1..] + [p];
      ProfilesOfAppend(ps[1..], p, u);
    }
  }

  /** Every row of `p`'s account replaced by `p`; every other row kept. */
  function ReplaceOwned(ps: seq<Profile>, p: Profile): (r: seq<Profile>)
    ensures |r| == |ps|
    ensures forall i :: 0 <= i < |ps| && ps[i].owner == p.owner ==> r[i] == p
    ensures forall i :: 0 <= i < |ps| && ps[i].owner != p.owner ==> r[i] == ps[i]
  {
    if ps == [] then []
    else [if ps[0].owner == p.owner then p else ps[0]] + ReplaceOwned(ps[1..], p)
  }

  /** Replacing rows by a profile of the same account moves no row to another account. */
  lemma {:induction false} ReplaceOwnedKeepsCounts(ps: seq<Profile>, p: Profile, v: UserId)
    ensures ProfilesOf(ReplaceOwned(ps, p), v) == ProfilesOf(ps, v)
  {
    if ps != [] {
      var r := ReplaceOwned(ps, p);
      assert r[1..] == ReplaceOwned(ps[1..], p);
      ReplaceOwnedKeepsCounts(ps[1..], p, v);
    }
  }

  /** Saving a profile object loaded earlier: its account's row is overwritten
      with it, or, when that row has meanwhile disappeared, the object is
      inserted again (a save updates by primary key and inserts when the update
      matched nothing). Either way the account ends with the object's contents. */
  function StoreProfile(ps: seq<Profile>, p: Profile): (r: seq<Profile>)
    ensures ProfilesOf(ps, p.owner) >= 1 ==> |r| == |ps|
    ensures ProfilesOf(ps, p.owner) >= 1 ==>
              forall i :: 0 <= i < |ps| ==> r[i] == (if ps[i].owner == p.owner then p else ps[i])
    ensures ProfilesOf(ps, p.owner) == 0 ==> r == ps + [p]
    ensures forall v :: v != p.owner ==> ProfilesOf(r, v) == ProfilesOf(ps, v)
    ensures ProfilesOf(r, p.owner) == if ProfilesOf(ps, p.owner) == 0 then 1 else ProfilesOf(ps, p.owner)
  {
    if ProfilesOf(ps, p.owner) == 0 then
      assert forall v :: ProfilesOf(ps + [p], v) == ProfilesOf(ps, v) + (if p.owner == v then 1 else 0) by {
        forall v ensures ProfilesOf(ps + [p], v) == ProfilesOf(ps, v) + (if p.owner == v then 1 else 0) {
          ProfilesOfAppend(ps, p, v);
        }
      }
      ps + [p]
    else
      assert forall v :: ProfilesOf(ReplaceOwned(ps, p), v) == ProfilesOf(ps, v) by {
        forall v ensures ProfilesOf(ReplaceOwned(ps, p), v) == ProfilesOf(ps, v) {
          ReplaceOwnedKeepsCounts(ps, p, v);
        }
      }
      ReplaceOwned(ps, p)
  }

  /** The two post-save hooks on an account, run in registration order.
      `create_user_profile` inserts a fresh profile when the account was just
      created; creating it also caches it on the account, so the save that
      follows writes it back unchanged. `save_user_profile`
      then saves the account's profile object: `loaded` is the one the account
      already holds in memory (`None` when it holds none, in which case the
      stored row is read and written back unchanged, and reading fails when the
      account has no profile). A profile held in memory is written back over
      the stored row, so edits made to it reach the table. */
  function OnAccountSaved(ps: seq<Profile>, u: UserId, created: bool, loaded: Option<Profile>): (r: Result<seq<Profile>, ProfileError>)
    requires loaded.Some? ==> loaded.value.owner == u
    ensures created ==> (r.Success? <==> ProfilesOf(ps, u) == 0)
    ensures created && r.Success? ==> r.value == ps + [NewProfile(u)]
    ensures !created && loaded.None? ==> (r.Success? <==> ProfilesOf(ps, u) >= 1)
    ensures !created && loaded.None? && r.Success? ==> r.value == ps
    ensures !created && loaded.Some? ==> r.Success?
    ensures !created && loaded.Some? && ProfilesOf(ps, u) >= 1 ==>
              |r.value| == |ps|
              && forall i :: 0 <= i < |ps| ==> r.value[i] == (if ps[i].owner == u then loaded.value else ps[i])
    ensures !created && loaded.Some? && ProfilesOf(ps, u) == 0 ==> r.value == ps + [loaded.value]
    ensures r.Failure? ==> r.error == (if created then DuplicateProfile else MissingProfile)
  {
    if created then
      if ProfilesOf(ps, u) > 0 then Failure(DuplicateProfile)
      else Success(ps + [NewProfile(u)])
    else if loaded.Some? then Success(StoreProfile(ps, loaded.value))
    else if ProfilesOf(ps, u) == 0 then Failure(MissingProfile)
    else Success(ps)
  }

  /** Creating an account gives it exactly one profile and leaves every other
      account's profiles alone; a later save adds none, and writing back the
      profile as created changes nothing. */
  lemma CreateGivesOneProfile(ps: seq<Profile>, u: UserId)
    requires ProfilesOf(ps, u) == 0
    ensures OnAccountSaved(ps, u, true, None).Success?
    ensures ProfilesOf(OnAccountSaved(ps, u, true, None).value, u) == 1
    ensures forall v :: v != u ==> ProfilesOf(OnAccountSaved(ps, u, true, None).value, v) == ProfilesOf(ps, v)
    ensures OnAccountSaved(OnAccountSaved(ps, u, true, None).value, u, false, None) == OnAccountSaved(ps, u, true, None)
    ensures OnAccountSaved(OnAccountSaved(ps, u, true, None).value, u, false, Some(NewProfile(u))) == OnAccountSaved(ps, u, true, None)
  {
    var after := ps + [NewProfile(u)];
    forall v ensures ProfilesOf(after, v) == ProfilesOf(ps, v) + (if v == u then 1 else 0) {
      ProfilesOfAppend(ps, NewProfile(u), v);
    }
    var again := StoreProfile(after, NewProfile(u));
    assert again == after by {
      forall i | 0 <= i < |after| ensures again[i] == after[i] {
        if i < |ps| {
          assert after[i] == ps[i];
        }
      }
    }
  }

  /** A later save of an account whose profile was loaded and edited leaves
      that account with exactly one row, holding the edited profile, and every
      other row as it was. */
  lemma LaterSaveWritesLoadedProfile(ps: seq<Profile>, u: UserId, p: Profile)
    requires OneProfileEach(ps) && ProfilesOf(ps, u) == 1 && p.owner == u
    ensures OnAccountSaved(ps, u, false, Some(p)).Success?
    ensures ProfilesOf(OnAccountSaved(ps, u, false, Some(p)).value, u) == 1
    ensures p in OnAccountSaved(ps, u, false, Some(p)).value
    ensures forall i :: 0 <= i < |ps| && ps[i].owner != u ==> OnAccountSaved(ps, u, false, Some(p)).value[i] == ps[i]
  {
    var k :| 0 <= k < |ps| && ps[k].owner == u;
    assert OnAccountSaved(ps, u, false, Some(p)).value[k] == p;
  }

  /** Every successful run of the hooks keeps the one-profile-per-account
      invariant and leaves the saved account with exactly one profile. */
  lemma HooksKeepOneProfileEach(ps: seq<Profile>, u: UserId, created: bool, loaded: Option<Profile>)
    requires loaded.Some? ==> loaded.value.owner == u
    requires OneProfileEach(ps)
    ensures OnAccountSaved(ps, u, created, loaded).Success? ==>
              OneProfileEach(OnAccountSaved(ps, u, created, loaded).value)
              && ProfilesOf(OnAccountSaved(ps, u, created, loaded).value, u) == 1
  {
    if created && OnAccountSaved(ps, u, created, loaded).Success? {
      forall v ensures ProfilesOf(ps + [NewProfile(u)], v) == ProfilesOf(ps, v) + (if v == u then 1 else 0) {
        ProfilesOfAppend(ps, NewProfile(u), v);
      }
    }
  }
}
