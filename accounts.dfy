/** `UnifiedUserSerializer`: the object-level check of a registration or user update, the
    creation of a user with its profile and optional doctor row, and the update merge, over an
    in-memory directory of users, profiles and doctor rows. Password hashing is abstracted: a
    user row holds the password last set. */
module Accounts {
  import opened Common
  import Records

  const PasswordMismatchMessage: string := "Passwords do not match"
  const DoctorDataMessage: string := "Doctor data is required for user_type 'doctor'"

  /** The validated data; each key may be missing (always so for keys left out of a partial
      update). Nested profile and doctor data are attribute maps. */
  datatype UserData = UserData(
    username: Supplied<string>, email: Supplied<string>,
    firstName: Supplied<string>, lastName: Supplied<string>,
    userType: Supplied<string>, password: Supplied<string>, password2: Supplied<string>,
    profile: Supplied<map<string, Val>>, doctorProfile: Supplied<map<string, Val>>)

  /** A rejection keyed by field, or an exception the serializer does not catch. */
  datatype Failure = Rejected(field: string, message: string) | KeyErrorRaised(key: string)

  /** `validate`: the passwords are read first (a missing one raises KeyError), a mismatch is
      refused, then a doctor without a `doctor_profile` key in the raw request is refused;
      otherwise the data passes unchanged. */
  function Validate(attrs: UserData, initialKeys: set<string>): (r: Result<UserData, Failure>)
    ensures attrs.password.Absent? ==> r == Err(KeyErrorRaised("password"))
    ensures attrs.password.Given? && attrs.password2.Absent? ==> r == Err(KeyErrorRaised("password2"))
    ensures r.Ok? <==> (&& attrs.password.Given? && attrs.password2.Given?
                        && attrs.password.value == attrs.password2.value
                        && (attrs.userType == Given("doctor") ==> "doctor_profile" in initialKeys))
    ensures r.Ok? ==> r.value == attrs
    ensures (attrs.password.Given? && attrs.password2.Given? && attrs.password.value != attrs.password2.value)
            ==> r == Err(Rejected("password", PasswordMismatchMessage))
    ensures r == Err(Rejected("doctor_profile", DoctorDataMessage)) <==>
            (&& attrs.password.Given? && attrs.password2.Given?
             && attrs.password.value == attrs.password2.value
             && attrs.userType == Given("doctor") && "doctor_profile" !in initialKeys)
  {
    if attrs.password.Absent? then Err(KeyErrorRaised("password"))
    else if attrs.password2.Absent? then Err(KeyErrorRaised("password2"))
    else if attrs.password.value != attrs.password2.value then Err(Rejected("password", PasswordMismatchMessage))
    else if attrs.userType == Given("doctor") && "doctor_profile" !in initialKeys then
      Err(Rejected("doctor_profile", DoctorDataMessage))
    else Ok(attrs)
  }

  /** A stored `CustomUser`. */
  datatype UserRow = UserRow(
    username: string, email: string, firstName: string, lastName: string,
    userType: Option<string>, password: string)

  /** A stored `Doctor`, linked by a foreign key to its user. */
  datatype DoctorRow = DoctorRow(user: nat, attrs: map<string, Val>)

  /** The keys `create` needs: the fields a full (non-partial) validation makes required. */
  predicate CreateReady(vd: UserData) {
    && vd.username.Given? && vd.email.Given? && vd.userType.Given?
    && vd.password.Given? && vd.password2.Given? && vd.profile.Given?
  }

  /** The user `create` stores: names default to empty, and the password is set last. */
  function NewUser(vd: UserData): (u: UserRow)
    requires CreateReady(vd)
    ensures u.username == vd.username.value && u.email == vd.email.value
    ensures u.userType == Some(vd.userType.value) && u.password == vd.password.value
    ensures u.firstName == vd.firstName.GetOr("") && u.lastName == vd.lastName.GetOr("")
  {
    UserRow(vd.username.value, vd.email.value, vd.firstName.GetOr(""), vd.lastName.GetOr(""),
            Some(vd.userType.value), vd.password.value)
  }

  /** Whether `create` adds a doctor row: the type is doctor and the doctor data is non-empty. */
  predicate MakesDoctor(vd: UserData) {
    vd.userType == Given("doctor") && vd.doctorProfile.Given? && vd.doctorProfile.value != map[]
  }

  /** The user row after `update`: username, email and type are kept unless supplied, the
      password is reset only to a supplied non-empty value, and the names never change. */
  function Merged(u: UserRow, vd: UserData): (m: UserRow)
    ensures m.username == (if vd.username.Given? then vd.username.value else u.username)
    ensures m.email == (if vd.email.Given? then vd.email.value else u.email)
    ensures m.userType == (if vd.userType.Given? then Some(vd.userType.value) else u.userType)
    ensures m.password == (if vd.password.Given? && vd.password.value != "" then vd.password.value else u.password)
    ensures m.firstName == u.firstName && m.lastName == u.lastName
  {
    UserRow(
      vd.username.GetOr(u.username), vd.email.GetOr(u.email), u.firstName, u.lastName,
      if vd.userType.Given? then Some(vd.userType.value) else u.userType,
      if vd.password.Given? && vd.password.value != "" then vd.password.value else u.password)
  }

  /** An update that supplies nothing leaves the user as it was, and merging the same data
      twice is merging it once. */
  lemma MergedLaws(u: UserRow, vd: UserData)
    ensures Merged(u, UserData(Absent, Absent, Absent, Absent, Absent, Absent, Absent, Absent, Absent)) == u
    ensures Merged(Merged(u, vd), vd) == Merged(u, vd)
  {
  }

  /** How `update` ends. The doctor branch reads `instance.doctor_profile`, the reverse side
      of the doctor's foreign key: a related manager rather than one row, so its `save()`
      raises AttributeError after the user and the profile have been saved. */
  datatype UpdateOutcome = Updated | DoctorSaveFailed

  class Directory {
    var users: map<nat, UserRow>
    /** The one-to-one profile of each user. */
    var profiles: map<nat, Records.Instance>
    var doctors: seq<DoctorRow>
    var nextUser: nat

    /** Every user has its own profile object, every doctor row a user, and ids come from
        the counter. */
    predicate Valid()
      reads this
    {
      && users.Keys == profiles.Keys
      && (forall k :: k in users ==> k < nextUser)
      && (forall a, b :: a in profiles && b in profiles && a != b ==> profiles[a] != profiles[b])
      && (forall i :: 0 <= i < |doctors| ==> doctors[i].user in users)
    }

    constructor ()
      ensures Valid() && users == map[] && profiles == map[] && doctors == []
    {
      users, profiles, doctors, nextUser := map[], map[], [], 0;
    }

    /** `create`: store the user with its password, exactly one profile with the profile
        data, and a doctor row only when `MakesDoctor`. */
    method Create(vd: UserData) returns (id: nat)
      requires Valid() && CreateReady(vd)
      modifies this
      ensures Valid()
      ensures id == old(nextUser) && id !in old(users)
      ensures users == old(users)[id := NewUser(vd)]
      ensures profiles.Keys == old(profiles).Keys + {id} && fresh(profiles[id])
      ensures profiles[id].attrs == vd.profile.value
      ensures forall k :: k in old(profiles) ==> profiles[k] == old(profiles)[k]
      ensures doctors == old(doctors) + if MakesDoctor(vd) then [DoctorRow(id, vd.doctorProfile.value)] else []
    {
      id := nextUser;
      var profile := new Records.Instance(vd.profile.value);
      users := users[id := NewUser(vd)];
      profiles := profiles[id := profile];
      nextUser := nextUser + 1;
      if vd.userType.value == "doctor" && vd.doctorProfile.Given? && vd.doctorProfile.value != map[] {
        doctors := doctors + [DoctorRow(id, vd.doctorProfile.value)];
      }
    }

    /** `update` as written: merge the user row, set the supplied profile attributes, and
        fail in the doctor branch. Doctor rows are never changed. */
    method Update(id: nat, vd: UserData) returns (outcome: UpdateOutcome)
      requires Valid() && id in users
      modifies this, profiles[id]
      ensures Valid()
      ensures users == old(users)[id := Merged(old(users)[id], vd)]
      ensures profiles == old(profiles) && doctors == old(doctors) && nextUser == old(nextUser)
      ensures profiles[id].attrs == old(profiles[id].attrs) + vd.profile.GetOr(map[])
      ensures forall k :: k in profiles && k != id ==> profiles[k].attrs == old(profiles[k].attrs)
      ensures outcome == if users[id].userType == Some("doctor") then DoctorSaveFailed else Updated
    {
      users := users[id := Merged(users[id], vd)];
      var profile := profiles[id];
      profile.SetAttributes(vd.profile.GetOr(map[]));
      if users[id].userType == Some("doctor") {
        outcome := DoctorSaveFailed;
      } else {
        outcome := Updated;
      }
    }
  }
}
