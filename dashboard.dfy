/** The dashboard's state and its event handlers: loading the user list, editing a
    profile field and submitting the profile. Remote calls are parameters that give
    their outcome; the current username is fixed at construction. */
module DashboardController {
  import opened Wrappers
  import opened Text
  import opened DashboardRules

  datatype MessageKind = Success | Error

  /** The banner: nothing, or a text with its kind. Only the last value set is kept. */
  datatype Message = NoMessage | Shown(text: string, kind: MessageKind)

  const LoadFailedText := "Failed to load user data"
  const UpdatedText := "\U{2705} Profile updated successfully!"
  const CreatedText := "\U{2705} Profile created successfully!"
  const SaveFailedText := "\U{274C} Failed to save profile. Please try again."

  /** The body of a create or update call: the profile fields, the username and the
      client's clock reading (`new Date().toISOString()`). */
  datatype ProfileData = ProfileData(profile: Profile, username: string, updatedAt: string)

  /** The write a submit issued, if any. */
  datatype Request = NoRequest | CreateRequest(data: ProfileData) | UpdateRequest(id: RecordId, data: ProfileData)

  /** `users[i]` is the first record whose username is `username`. */
  ghost predicate FirstMatch(users: seq<UserRecord>, username: string, i: int) {
    && 0 <= i < |users| && users[i].username == Some(username)
    && forall j :: 0 <= j < i ==> users[j].username != Some(username)
  }

  /** The profile and profile id after a successful fetch of `users`: seeded from the
      first record carrying the current username, or kept when there is none. */
  function Reseed(users: seq<UserRecord>, username: string, profile: Profile, profileId: Option<RecordId>)
    : (r: (Profile, Option<RecordId>))
    ensures (forall j :: 0 <= j < |users| ==> users[j].username != Some(username)) ==> r == (profile, profileId)
    ensures forall i :: FirstMatch(users, username, i) ==> r == (SeedFrom(users[i]), Some(users[i].id))
    ensures profileId.Some? ==> r.1.Some?
  {
    match FindByUsername(users, username)
    case None => (profile, profileId)
    case Some(k) =>
      assert forall i :: FirstMatch(users, username, i) ==> !(i < k) && !(k < i);
      (SeedFrom(users[k]), Some(users[k].id))
  }

  class Dashboard {
    const username: string
    var profile: Profile
    var users: seq<UserRecord>
    var profileId: Option<RecordId>
    var loading: bool
    var message: Message

    constructor (username: string)
      ensures this.username == username
      ensures profile == EmptyProfile && users == [] && profileId == None
      ensures !loading && message == NoMessage
    {
      this.username := username;
      profile := EmptyProfile;
      users := [];
      profileId := None;
      loading := false;
      message := NoMessage;
    }

    /** The statistics the dashboard shows for the current state. */
    function CurrentStats(today: Day): (s: Stats)
      reads this
      ensures s.totalUsers == |users| && s.newUsersToday <= |users| && s.profileCompletion <= 100
      ensures s.newUsersToday == CountCreatedOn(users, today)
      ensures s.profileCompletion == CompletionPercent(FilledCount(profile))
      ensures s.newUsersToday == |users| <==> forall i :: 0 <= i < |users| ==> users[i].createdDay == Some(today)
      ensures s.profileCompletion == 100 <==> forall f :: !AllSpace(profile.Get(f))
    {
      CountCreatedOnExtremes(users, today);
      ComputeStats(profile, users, today)
    }

    /** `handleInputChange`: only the named field changes. */
    method HandleInputChange(f: Field, v: string)
      modifies this`profile
      ensures profile == old(profile).With(f, v)
    {
      profile := profile.With(f, v);
    }

    /** `fetchUsers`: a success replaces the list and reseeds the profile; a failure
        only sets the error banner. */
    method FetchUsers(response: Remote<seq<UserRecord>>)
      modifies this`users, this`profile, this`profileId, this`message
      ensures response.Ok? ==>
        && users == response.value
        && (profile, profileId) == Reseed(response.value, username, old(profile), old(profileId))
        && message == old(message)
      ensures response.Failed? ==>
        && users == old(users) && profile == old(profile) && profileId == old(profileId)
        && message == Shown(LoadFailedText, Error)
      ensures old(profileId).Some? ==> profileId.Some?
    {
      match response
      case Ok(data) =>
        users := data;
        var found := FindByUsername(data, username);
        if found.Some? {
          var rec := data[found.value];
          profile := SeedFrom(rec);
          profileId := Some(rec.id);
        }
      case Failed =>
        message := Shown(LoadFailedText, Error);
    }

    /** `handleProfileSubmit`. `save` is the outcome of the create or update call (for
        a create, the id it returns); `refetch` is that of the list call made after a
        successful save; `clock` is the client time sent as `updated_at`. */
    method HandleProfileSubmit(save: Remote<RecordId>, refetch: Remote<seq<UserRecord>>, clock: string)
      returns (request: Request)
      modifies this`users, this`profile, this`profileId, this`message, this`loading
      // A failed validation issues nothing and changes nothing but the banner.
      ensures ValidateProfile(old(profile)).Fail? ==>
        && request == NoRequest
        && message == Shown(ValidateProfile(old(profile)).error.Message(), Error)
        && users == old(users) && profile == old(profile) && profileId == old(profileId)
        && loading == old(loading)
      // A validated submit creates when there is no profile id and updates otherwise,
      // and always ends with loading cleared.
      ensures ValidateProfile(old(profile)).Pass? ==>
        && !loading
        && request == (if old(profileId).Some?
                       then UpdateRequest(old(profileId).value, ProfileData(old(profile), username, clock))
                       else CreateRequest(ProfileData(old(profile), username, clock)))
      ensures ValidateProfile(old(profile)).Pass? && save.Failed? ==>
        && users == old(users) && profile == old(profile) && profileId == old(profileId)
        && message == Shown(SaveFailedText, Error)
      ensures ValidateProfile(old(profile)).Pass? && save.Ok? ==>
        var adopted := if old(profileId).Some? then old(profileId) else Some(save.value);
        var saved := Shown(if old(profileId).Some? then UpdatedText else CreatedText, Success);
        && (refetch.Ok? ==>
              && users == refetch.value
              && (profile, profileId) == Reseed(refetch.value, username, old(profile), adopted)
              && message == saved)
        && (refetch.Failed? ==>
              && users == old(users) && profile == old(profile) && profileId == adopted
              && message == Shown(LoadFailedText, Error))
      // The profile id is never cleared, and a saved profile always has one.
      ensures old(profileId).Some? ==> profileId.Some?
      ensures ValidateProfile(old(profile)).Pass? && save.Ok? ==> profileId.Some?
    {
      var verdict := ValidateProfile(profile);
      if verdict.Fail? {
        message := Shown(verdict.error.Message(), Error);
        request := NoRequest;
        return;
      }
      loading := true;
      var data := ProfileData(profile, username, clock);
      if profileId.Some? {
        request := UpdateRequest(profileId.value, data);
        if save.Ok? {
          message := Shown(UpdatedText, Success);
        }
      } else {
        request := CreateRequest(data);
        if save.Ok? {
          profileId := Some(save.value);
          message := Shown(CreatedText, Success);
        }
      }
      if save.Ok? {
        FetchUsers(refetch);
      } else {
        message := Shown(SaveFailedText, Error);
      }
      loading := false;
    }
  }

  /** A fresh dashboard whose first submit succeeds issues a create, and a later submit
      never issues a second create, whatever the fetches return. */
  method CreateThenUpdate(
    username: string, name: string, newId: RecordId,
    refetch1: Remote<seq<UserRecord>>, save2: Remote<RecordId>, refetch2: Remote<seq<UserRecord>>,
    clock1: string, clock2: string)
    returns (first: Request, second: Request)
    requires !AllSpace(name)
    ensures first.CreateRequest? && first.data.profile.name == name
    ensures !second.CreateRequest?
  {
    var d := new Dashboard(username);
    d.HandleInputChange(Name, name);
    assert d.profile == EmptyProfile.(name := name);
    first := d.HandleProfileSubmit(Ok(newId), refetch1, clock1);
    second := d.HandleProfileSubmit(save2, refetch2, clock2);
  }
}
