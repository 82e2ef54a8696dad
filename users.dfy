/** User profiles (users/models.py): the admin role and the profile that is
    created together with a user and re-saved whenever the user is saved.
    The two post-save signal handlers become one explicit method. */
module Users {
  import opened Common

  type UserId = nat

  const RoleAdmin: string := "admin"
  const RoleMember: string := "member"

  /** The one-to-one profile of a user; `role` defaults to member. */
  datatype UserProfile = UserProfile(user: UserId, role: string)

  /** The person making a request: Django's `is_staff` flag (used by the REST
      views) and the profile (whose role the HTML views consult). */
  datatype Requester = Requester(id: UserId, isStaff: bool, profile: UserProfile)

  /** `UserProfile.is_admin`. */
  predicate IsAdmin(p: UserProfile)
  {
    p.role == RoleAdmin
  }

  /** The profile made for a newly created user: every field at its default. */
  function NewProfile(u: UserId): (p: UserProfile)
    ensures p.user == u && p.role == RoleMember
    ensures !IsAdmin(p)
  {
    UserProfile(u, RoleMember)
  }

  /** What saving a user does to the profile table. */
  datatype SaveOutcome =
    | Saved
      /** the creation handler met an existing profile (one-to-one violated) */
    | DuplicateProfile
      /** the save handler found no profile to save */
    | MissingProfile

  /** The profile table. */
  class ProfileTable {
    var profiles: map<UserId, UserProfile>

    /** Every profile is filed under its own user. */
    ghost predicate Valid()
      reads this
    {
      forall u :: u in profiles ==> profiles[u].user == u
    }

    constructor ()
      ensures Valid() && profiles == map[]
    {
      profiles := map[];
    }

    /** Both post-save handlers, in registration order: when the user was just
        created a default profile is created; then the user's profile is saved,
        which fails when there is none. Saving never changes the role. */
    method OnUserSaved(u: UserId, created: bool) returns (outcome: SaveOutcome)
      requires Valid()
      modifies this
      ensures Valid()
      ensures created && u !in old(profiles) ==>
        outcome == Saved && profiles == old(profiles)[u := NewProfile(u)]
      ensures created && u in old(profiles) ==>
        outcome == DuplicateProfile && profiles == old(profiles)
      ensures !created && u in old(profiles) ==>
        outcome == Saved && profiles == old(profiles)
      ensures !created && u !in old(profiles) ==>
        outcome == MissingProfile && profiles == old(profiles)
    {
      if created {
        if u in profiles {
          return DuplicateProfile;
        }
        profiles := profiles[u := NewProfile(u)];
      }
      if u !in profiles {
        return MissingProfile;
      }
      outcome := Saved;
    }
  }

  /** Creating a user and saving it again leaves exactly one profile, a member
      one, whatever the table held for other users. */
  method CreateThenSave(t: ProfileTable, u: UserId)
    requires t.Valid() && u !in t.profiles
    modifies t
    ensures t.Valid()
    ensures t.profiles == old(t.profiles)[u := NewProfile(u)]
    ensures !IsAdmin(t.profiles[u])
  {
    var first := t.OnUserSaved(u, true);
    assert first == Saved;
    var second := t.OnUserSaved(u, false);
    assert second == Saved;
  }
}
