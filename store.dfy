/** The local-storage gateway (services/db.ts): users, drugs and
    notifications kept as JSON arrays under fixed keys.  The JSON round trip
    through storage is the identity, so a stored array is a sequence here;
    each operation computes the new array with a function below and the
    `LocalStore` class writes it back. */
module Store {
  import opened Wrappers
  import opened Types
  import opened Seqs
  import opened Sorting

  datatype DbError = LoginTaken | LoginInUse | RootUndeletable

  /** The messages the store throws. */
  function ErrorMessage(e: DbError): string {
    match e
    case LoginTaken => "اسم المستخدم أو البريد الإلكتروني موجود مسبقاً"
    case LoginInUse => "اسم المستخدم أو البريد الإلكتروني مستخدم بالفعل من قبل شخص آخر"
    case RootUndeletable => "لا يمكن حذف المدير الرئيسي"
  }

  /** The seeded administrator account, with its demo password. */
  const RootAdmin := User("admin-1", "root", "admin@pharma.com", Admin, "المدير العام",
                          None, None, Some("966500000000"), Some("root1"))

  /** The seeded welcome notification, dated when the store is first opened. */
  function WelcomeNote(now: int): (n: Notification)
    ensures !n.read && n.date == now
  {
    Notification("note-1", "مرحباً بك في PharmaEye",
                 "تم تثبيت النظام بنجاح. يمكنك الآن البدء بإضافة الأدوية.", false, now)
  }

  // ---------------------------------------------------------------------
  // Users.
  // ---------------------------------------------------------------------

  /** Two accounts that share a username or an email. */
  predicate SharesLogin(u: User, v: User) {
    u.username == v.username || u.email == v.email
  }

  /** No two accounts share a username or an email. */
  ghost predicate UniqueLogins(users: seq<User>) {
    forall i, j :: 0 <= i < j < |users| ==> !SharesLogin(users[i], users[j])
  }

  /** No two accounts share an id. */
  ghost predicate UniqueIds(users: seq<User>) {
    forall i, j :: 0 <= i < j < |users| ==> users[i].id != users[j].id
  }

  /** `addUser`: refused when an account already has the username or the
      email, otherwise appended. */
  function AddUserTo(users: seq<User>, user: User): (r: Result<seq<User>, DbError>)
    ensures r.Err? <==> exists i :: 0 <= i < |users| && SharesLogin(users[i], user)
    ensures r.Err? ==> r.error == LoginTaken
    ensures r.Ok? ==> |r.value| == |users| + 1 && r.value[..|users|] == users && r.value[|users|] == user
  {
    if exists i :: 0 <= i < |users| && SharesLogin(users[i], user) then Err(LoginTaken)
    else Ok(users + [user])
  }

  /** Adding a user keeps usernames and emails unique. */
  lemma AddUserKeepsUnique(users: seq<User>, user: User)
    requires UniqueLogins(users) && AddUserTo(users, user).Ok?
    ensures UniqueLogins(AddUserTo(users, user).value)
  {
    var r := AddUserTo(users, user).value;
    forall i, j | 0 <= i < j < |r|
      ensures !SharesLogin(r[i], r[j])
    {
      if j == |users| {
        assert r[j] == user && r[i] == users[i];
      } else {
        assert r[i] == users[i] && r[j] == users[j];
      }
    }
  }

  /** A string property that is present and not empty. */
  predicate Filled(o: Option<string>) {
    o.Some? && o.value != ""
  }

  /** Another account already holding a username or email the patch supplies. */
  predicate ClashesWith(u: User, p: UserPatch) {
    u.id != p.id
    && ((Filled(p.username) && u.username == p.username.value)
        || (Filled(p.email) && u.email == p.email.value))
  }

  /** `{ ...user, ...patch }`, except that an empty or absent password keeps
      the stored one. */
  function MergeUser(u: User, p: UserPatch): (r: User)
    ensures r.id == p.id
    ensures Filled(p.password) ==> r.password == p.password
    ensures !Filled(p.password) ==> r.password == u.password
    ensures r.username == if p.username.Some? then p.username.value else u.username
    ensures r.email == if p.email.Some? then p.email.value else u.email
    ensures r.role == if p.role.Some? then p.role.value else u.role
    ensures r.fullName == if p.fullName.Some? then p.fullName.value else u.fullName
    ensures r.biometricCredentialId == if p.biometricCredentialId.Some? then p.biometricCredentialId else u.biometricCredentialId
    ensures r.avatar == if p.avatar.Some? then p.avatar else u.avatar
    ensures r.phone == if p.phone.Some? then p.phone else u.phone
  {
    User(p.id,
         p.username.GetOr(u.username),
         p.email.GetOr(u.email),
         p.role.GetOr(u.role),
         p.fullName.GetOr(u.fullName),
         if p.biometricCredentialId.Some? then p.biometricCredentialId else u.biometricCredentialId,
         if p.avatar.Some? then p.avatar else u.avatar,
         if p.phone.Some? then p.phone else u.phone,
         if Filled(p.password) then p.password else u.password)
  }

  datatype UpdateOutcome = NoSuchUser | Clash | Updated(users: seq<User>, safe: User)

  /** `updateUser`: nothing when no account has the id; a clash when the
      patch supplies a username or email another account holds; otherwise
      the first account with the id is replaced by the merge, and the merge
      is returned without its password. */
  function UpdateUserIn(users: seq<User>, p: UserPatch): (r: UpdateOutcome)
    ensures r.NoSuchUser? <==> forall i :: 0 <= i < |users| ==> users[i].id != p.id
    ensures r.Clash? ==> exists j :: 0 <= j < |users| && ClashesWith(users[j], p)
    ensures r.Updated? ==> forall j :: 0 <= j < |users| ==> !ClashesWith(users[j], p)
    ensures r.Updated? ==>
              exists i :: 0 <= i < |users| && users[i].id == p.id
                          && (forall j :: 0 <= j < i ==> users[j].id != p.id)
                          && r.users == users[i := MergeUser(users[i], p)]
                          && r.safe == WithoutPassword(MergeUser(users[i], p))
  {
    match FindFirst(users, (u: User) => u.id == p.id)
    case None => NoSuchUser
    case Some(i) =>
      if (Filled(p.username) || Filled(p.email))
         && exists j :: 0 <= j < |users| && ClashesWith(users[j], p)
      then Clash
      else
        var merged := MergeUser(users[i], p);
        Updated(users[i := merged], WithoutPassword(merged))
  }

  /** Merging a patch that clashes with no other account into account `i`
      keeps usernames and emails unique, when the patch supplies no empty
      username or email and ids are unique. */
  lemma MergeKeepsUnique(users: seq<User>, p: UserPatch, i: nat)
    requires UniqueLogins(users) && UniqueIds(users)
    requires i < |users| && users[i].id == p.id
    requires p.username.Some? ==> p.username.value != ""
    requires p.email.Some? ==> p.email.value != ""
    requires forall j :: 0 <= j < |users| ==> !ClashesWith(users[j], p)
    ensures UniqueLogins(users[i := MergeUser(users[i], p)])
  {
    var m := MergeUser(users[i], p);
    var r := users[i := m];
    forall o | 0 <= o < |users| && o != i
      ensures !SharesLogin(m, users[o]) && !SharesLogin(users[o], m)
    {
      assert users[o].id != p.id by {
        if o < i { assert users[o].id != users[i].id; } else { assert users[i].id != users[o].id; }
      }
      assert !ClashesWith(users[o], p);
      assert !SharesLogin(users[i], users[o]) by {
        if o < i { assert !SharesLogin(users[o], users[i]); }
      }
    }
    forall a, b | 0 <= a < b < |r|
      ensures !SharesLogin(r[a], r[b])
    {
      if a != i && b != i {
        assert r[a] == users[a] && r[b] == users[b];
      }
    }
  }

  /** An update whose supplied username and email are not empty keeps
      usernames and emails unique, provided ids are unique. */
  lemma UpdateUserKeepsUnique(users: seq<User>, p: UserPatch)
    requires UniqueLogins(users) && UniqueIds(users)
    requires p.username.Some? ==> p.username.value != ""
    requires p.email.Some? ==> p.email.value != ""
    requires UpdateUserIn(users, p).Updated?
    ensures UniqueLogins(UpdateUserIn(users, p).users)
  {
    var i :| 0 <= i < |users| && users[i].id == p.id
             && UpdateUserIn(users, p).users == users[i := MergeUser(users[i], p)];
    MergeKeepsUnique(users, p, i);
  }

  /** `deleteUser`: refused when the first account with the id is named
      `root`; otherwise every account with the id is removed.  No other
      account is protected, administrators included. */
  function DeleteUserFrom(users: seq<User>, id: string): (r: Result<seq<User>, DbError>)
    ensures r.Err? <==> exists i :: 0 <= i < |users| && users[i].id == id && users[i].username == "root"
                                    && forall j :: 0 <= j < i ==> users[j].id != id
    ensures r.Err? ==> r.error == RootUndeletable
  {
    match FindFirst(users, (u: User) => u.id == id)
    case Some(i) =>
      if users[i].username == "root" then Err(RootUndeletable)
      else Ok(Filter(users, (u: User) => u.id != id))
    case None => Ok(Filter(users, (u: User) => u.id != id))
  }

  /** A successful delete removes exactly the accounts with the id and keeps
      every other account, each as often as before, in its order. */
  lemma DeleteUserRemovesExactly(users: seq<User>, id: string, u: User)
    requires DeleteUserFrom(users, id).Ok?
    ensures forall k :: 0 <= k < |DeleteUserFrom(users, id).value| ==> DeleteUserFrom(users, id).value[k].id != id
    ensures multiset(DeleteUserFrom(users, id).value)[u] == if u.id == id then 0 else multiset(users)[u]
  {
    FilterCount(users, (u: User) => u.id != id, u);
  }

  /** With unique ids, deleting the id of account `k` (not `root`) removes
      that account and keeps the others in their order. */
  lemma DeleteUserKeepsOrder(users: seq<User>, id: string, k: nat)
    requires UniqueIds(users) && k < |users| && users[k].id == id && users[k].username != "root"
    ensures DeleteUserFrom(users, id) == Ok(users[..k] + users[k + 1..])
  {
    FindFirstAt(users, (u: User) => u.id == id, k);
    FilterDropsOne(users, (u: User) => u.id != id, k);
  }

  /** Deleting an id no account has leaves the list as it was. */
  lemma DeleteAbsentUser(users: seq<User>, id: string)
    requires forall i :: 0 <= i < |users| ==> users[i].id != id
    ensures DeleteUserFrom(users, id) == Ok(users)
  {
    FilterKeepsAll(users, (u: User) => u.id != id);
  }

  /** The code has no last-administrator guard: the only administrator can be
      deleted when it is not named `root`. */
  lemma LastAdminDeletable()
    ensures var admin := User("a-2", "manager", "m@pharma.com", Admin, "M", None, None, None, None);
            DeleteUserFrom([admin], "a-2") == Ok([])
  {
    var admin := User("a-2", "manager", "m@pharma.com", Admin, "M", None, None, None, None);
    assert FindFirst([admin], (u: User) => u.id == "a-2") == Some(0);
    assert [admin][1..] == [];
  }

  /** Accepted credentials: the identifier is the username or the email and
      the stored password is the one given. */
  predicate Accepts(u: User, identifier: string, pass: string) {
    (u.username == identifier || u.email == identifier) && u.password == Some(pass)
  }

  /** `authenticate`: the first account accepting the credentials, without
      its password, or `null`. */
  function Authenticate(users: seq<User>, identifier: string, pass: string): (r: Option<User>)
    ensures r.None? <==> forall i :: 0 <= i < |users| ==> !Accepts(users[i], identifier, pass)
    ensures r.Some? ==> r.value.password.None?
    ensures r.Some? ==> exists i :: 0 <= i < |users| && Accepts(users[i], identifier, pass)
                                    && r.value == WithoutPassword(users[i])
                                    && forall j :: 0 <= j < i ==> !Accepts(users[j], identifier, pass)
  {
    match FindFirst(users, (u: User) => Accepts(u, identifier, pass))
    case Some(i) => Some(WithoutPassword(users[i]))
    case None => None
  }

  /** The seeded account logs in with its demo password, by name or email. */
  lemma RootLogsIn()
    ensures Authenticate([RootAdmin], "root", "root1") == Some(WithoutPassword(RootAdmin))
    ensures Authenticate([RootAdmin], "admin@pharma.com", "root1") == Some(WithoutPassword(RootAdmin))
  {
    assert Accepts(RootAdmin, "root", "root1");
    assert Accepts(RootAdmin, "admin@pharma.com", "root1");
  }

  /** `registerDeviceForBiometrics` on the arrays: the first account with the
      id gets the credential; `None` when there is none. */
  function RegisterCredential(users: seq<User>, userId: string, credentialId: string): (r: Option<seq<User>>)
    ensures r.None? <==> forall i :: 0 <= i < |users| ==> users[i].id != userId
    ensures r.Some? ==>
              exists i :: 0 <= i < |users| && users[i].id == userId
                          && (forall j :: 0 <= j < i ==> users[j].id != userId)
                          && r.value == users[i := users[i].(biometricCredentialId := Some(credentialId))]
  {
    match FindFirst(users, (u: User) => u.id == userId)
    case Some(i) => Some(users[i := users[i].(biometricCredentialId := Some(credentialId))])
    case None => None
  }

  /** `authenticateWithDeviceToken`: `null` for an empty credential, otherwise
      the first account holding it, without its password. */
  function AuthenticateWithDeviceToken(users: seq<User>, credentialId: string): (r: Option<User>)
    ensures credentialId == "" ==> r.None?
    ensures credentialId != "" ==>
              (r.None? <==> forall i :: 0 <= i < |users| ==> users[i].biometricCredentialId != Some(credentialId))
    ensures r.Some? ==> exists i :: 0 <= i < |users| && users[i].biometricCredentialId == Some(credentialId)
                                    && r.value == WithoutPassword(users[i])
                                    && forall j :: 0 <= j < i ==> users[j].biometricCredentialId != Some(credentialId)
  {
    if credentialId == "" then None
    else match FindFirst(users, (u: User) => u.biometricCredentialId == Some(credentialId))
      case Some(i) => Some(WithoutPassword(users[i]))
      case None => None
  }

  /** A credential registered for an account, and held by no other account,
      logs that account in. */
  lemma RegisteredCredentialLogsIn(users: seq<User>, userId: string, credentialId: string)
    requires credentialId != "" && RegisterCredential(users, userId, credentialId).Some?
    requires forall i :: 0 <= i < |users| ==> users[i].biometricCredentialId != Some(credentialId)
    ensures var after := RegisterCredential(users, userId, credentialId).value;
            exists i :: 0 <= i < |users| && users[i].id == userId
                        && AuthenticateWithDeviceToken(after, credentialId)
                           == Some(WithoutPassword(users[i].(biometricCredentialId := Some(credentialId))))
  {
    var after := RegisterCredential(users, userId, credentialId).value;
    var i :| 0 <= i < |users| && users[i].id == userId
             && after == users[i := users[i].(biometricCredentialId := Some(credentialId))];
    FindFirstAt(after, (u: User) => u.biometricCredentialId == Some(credentialId), i);
  }

  // ---------------------------------------------------------------------
  // Drugs.
  // ---------------------------------------------------------------------

  /** `updateDrug`: the first drug with the id merged with the patch; the
      list unchanged when no drug has the id. */
  function UpdateDrugIn(drugs: seq<Drug>, id: string, p: DrugPatch): (r: Option<seq<Drug>>)
    ensures r.None? <==> forall i :: 0 <= i < |drugs| ==> drugs[i].id != id
    ensures r.Some? ==>
              exists i :: 0 <= i < |drugs| && drugs[i].id == id
                          && (forall j :: 0 <= j < i ==> drugs[j].id != id)
                          && r.value == drugs[i := MergeDrug(drugs[i], p)]
  {
    match FindFirst(drugs, (d: Drug) => d.id == id)
    case Some(i) => Some(drugs[i := MergeDrug(drugs[i], p)])
    case None => None
  }

  /** `deleteDrug`: every drug with the id removed. */
  function RemoveDrug(drugs: seq<Drug>, id: string): (r: seq<Drug>)
    ensures forall k :: 0 <= k < |r| ==> r[k].id != id
  {
    Filter(drugs, (d: Drug) => d.id != id)
  }

  /** Deleting keeps every drug with another id, as often as before. */
  lemma RemoveDrugKeepsOthers(drugs: seq<Drug>, id: string, d: Drug)
    ensures multiset(RemoveDrug(drugs, id))[d] == if d.id == id then 0 else multiset(drugs)[d]
  {
    FilterCount(drugs, (e: Drug) => e.id != id, d);
  }

  /** Deleting an id no drug has changes nothing. */
  lemma RemoveAbsentDrug(drugs: seq<Drug>, id: string)
    requires forall i :: 0 <= i < |drugs| ==> drugs[i].id != id
    ensures RemoveDrug(drugs, id) == drugs
  {
    FilterKeepsAll(drugs, (d: Drug) => d.id != id);
  }

  // ---------------------------------------------------------------------
  // Notifications.
  // ---------------------------------------------------------------------

  /** The comparator `(a, b) => b.date - a.date`. */
  function NewestFirst(a: Notification, b: Notification): int {
    b.date - a.date
  }

  lemma NewestFirstIsComparator()
    ensures IsComparator(NewestFirst)
  {
  }

  /** `getNotifications`: the stored notes, newest first; notes with the same
      date keep their stored order. */
  function SortedNotes(notes: seq<Notification>): (r: seq<Notification>)
    ensures multiset(r) == multiset(notes)
  {
    SortBy(notes, NewestFirst)
  }

  lemma SortedNotesNewestFirst(notes: seq<Notification>)
    ensures forall i, j :: 0 <= i < j < |SortedNotes(notes)| ==> SortedNotes(notes)[i].date >= SortedNotes(notes)[j].date
  {
    NewestFirstIsComparator();
    SortBySorted(notes, NewestFirst);
    var r := SortedNotes(notes);
    forall i, j | 0 <= i < j < |r|
      ensures r[i].date >= r[j].date
    {
      assert NewestFirst(r[i], r[j]) <= 0;
    }
  }

  /** Every note marked read (`{ ...n, read: true }`). */
  function MarkRead(notes: seq<Notification>): (r: seq<Notification>)
    ensures |r| == |notes|
    ensures forall i :: 0 <= i < |r| ==> r[i] == notes[i].(read := true)
  {
    seq(|notes|, i requires 0 <= i < |notes| => notes[i].(read := true))
  }

  /** `markAllNotificationsRead` stores every note read, newest first, and
      no note is added or lost. */
  lemma MarkAllReadKeepsNotes(notes: seq<Notification>)
    ensures |MarkRead(SortedNotes(notes))| == |notes|
    ensures forall i :: 0 <= i < |notes| ==> MarkRead(SortedNotes(notes))[i].read
    ensures forall i, j :: 0 <= i < j < |notes| ==>
              MarkRead(SortedNotes(notes))[i].date >= MarkRead(SortedNotes(notes))[j].date
  {
    SortedNotesNewestFirst(notes);
  }

  // ---------------------------------------------------------------------
  // The store.
  // ---------------------------------------------------------------------

  /** The application's `localStorage`: one array per key, and whether the
      key is present at all (`getItem` returning `null`, which the getters
      read as `[]`). */
  class LocalStore {
    var users: seq<User>
    var drugs: seq<Drug>
    var notifications: seq<Notification>
    var usersStored: bool
    var drugsStored: bool
    var notificationsStored: bool
    /** The device marker `pharma_bio_cred_id`. */
    var deviceCredential: Option<string>

    /** An absent key reads as the empty array. */
    ghost predicate Valid()
      reads this
    {
      (!usersStored ==> users == [])
      && (!drugsStored ==> drugs == [])
      && (!notificationsStored ==> notifications == [])
    }

    /** A browser that has never run the application. */
    constructor Empty()
      ensures Valid()
      ensures !usersStored && !drugsStored && !notificationsStored && deviceCredential.None?
    {
      users, drugs, notifications := [], [], [];
      usersStored, drugsStored, notificationsStored := false, false, false;
      deviceCredential := None;
    }

    /** `seedData`: the root account and the welcome note only when the users
      key is absent, and an empty drug list only when the drugs key is. */
    method SeedData(now: int)
      requires Valid()
      modifies this
      ensures Valid() && usersStored && drugsStored
      ensures old(usersStored) ==> users == old(users) && notifications == old(notifications)
                                   && notificationsStored == old(notificationsStored)
      ensures !old(usersStored) ==> users == [RootAdmin] && notifications == [WelcomeNote(now)]
                                    && notificationsStored
      ensures drugs == old(drugs) && deviceCredential == old(deviceCredential)
    {
      if !usersStored {
        users := [RootAdmin];
        usersStored := true;
        notifications := [WelcomeNote(now)];
        notificationsStored := true;
      }
      if !drugsStored {
        drugs := [];
        drugsStored := true;
      }
    }

    method AddUser(user: User) returns (r: Outcome<DbError>)
      requires Valid()
      modifies this
      ensures Valid()
      ensures AddUserTo(old(users), user).Err? ==>
                r == Fail(LoginTaken) && users == old(users) && usersStored == old(usersStored)
      ensures AddUserTo(old(users), user).Ok? ==>
                r == Pass && users == AddUserTo(old(users), user).value && usersStored
      ensures drugs == old(drugs) && notifications == old(notifications)
      ensures drugsStored == old(drugsStored) && notificationsStored == old(notificationsStored)
      ensures deviceCredential == old(deviceCredential)
    {
      match AddUserTo(users, user)
      case Err(e) => r := Fail(e);
      case Ok(next) =>
        users := next;
        usersStored := true;
        r := Pass;
    }

    /** `updateUser`: `Ok(None)` is the `null` for an unknown id. */
    method UpdateUser(p: UserPatch) returns (r: Result<Option<User>, DbError>)
      requires Valid()
      modifies this
      ensures Valid()
      ensures UpdateUserIn(old(users), p).NoSuchUser? ==>
                r == Ok(None) && users == old(users) && usersStored == old(usersStored)
      ensures UpdateUserIn(old(users), p).Clash? ==>
                r == Err(LoginInUse) && users == old(users) && usersStored == old(usersStored)
      ensures UpdateUserIn(old(users), p).Updated? ==>
                r == Ok(Some(UpdateUserIn(old(users), p).safe))
                && users == UpdateUserIn(old(users), p).users && usersStored
      ensures drugs == old(drugs) && notifications == old(notifications)
      ensures drugsStored == old(drugsStored) && notificationsStored == old(notificationsStored)
      ensures deviceCredential == old(deviceCredential)
    {
      match UpdateUserIn(users, p)
      case NoSuchUser => r := Ok(None);
      case Clash => r := Err(LoginInUse);
      case Updated(next, safe) =>
        users := next;
        usersStored := true;
        r := Ok(Some(safe));
    }

    /** `deleteUser`: the users key is written back even when nothing matched. */
    method DeleteUser(id: string) returns (r: Outcome<DbError>)
      requires Valid()
      modifies this
      ensures Valid()
      ensures DeleteUserFrom(old(users), id).Err? ==>
                r == Fail(RootUndeletable) && users == old(users) && usersStored == old(usersStored)
      ensures DeleteUserFrom(old(users), id).Ok? ==>
                r == Pass && users == DeleteUserFrom(old(users), id).value && usersStored
      ensures drugs == old(drugs) && notifications == old(notifications)
      ensures drugsStored == old(drugsStored) && notificationsStored == old(notificationsStored)
      ensures deviceCredential == old(deviceCredential)
    {
      match DeleteUserFrom(users, id)
      case Err(e) => r := Fail(e);
      case Ok(next) =>
        users := next;
        usersStored := true;
        r := Pass;
    }

    /** `registerDeviceForBiometrics`: also sets the device marker, and
      writes nothing when no account has the id. */
    method RegisterDeviceForBiometrics(userId: string, credentialId: string)
      requires Valid()
      modifies this
      ensures Valid()
      ensures RegisterCredential(old(users), userId, credentialId).None? ==>
                users == old(users) && usersStored == old(usersStored)
                && deviceCredential == old(deviceCredential)
      ensures RegisterCredential(old(users), userId, credentialId).Some? ==>
                users == RegisterCredential(old(users), userId, credentialId).value && usersStored
                && deviceCredential == Some(credentialId)
      ensures drugs == old(drugs) && notifications == old(notifications)
      ensures drugsStored == old(drugsStored) && notificationsStored == old(notificationsStored)
    {
      match RegisterCredential(users, userId, credentialId)
      case None =>
      case Some(next) =>
        users := next;
        usersStored := true;
        deviceCredential := Some(credentialId);
    }

    method AddDrug(drug: Drug)
      requires Valid()
      modifies this
      ensures Valid() && drugsStored
      ensures drugs == old(drugs) + [drug]
      ensures users == old(users) && notifications == old(notifications)
      ensures usersStored == old(usersStored) && notificationsStored == old(notificationsStored)
      ensures deviceCredential == old(deviceCredential)
    {
      drugs := drugs + [drug];
      drugsStored := true;
    }

    method AddDrugsBatch(newDrugs: seq<Drug>)
      requires Valid()
      modifies this
      ensures Valid() && drugsStored
      ensures drugs == old(drugs) + newDrugs
      ensures users == old(users) && notifications == old(notifications)
      ensures usersStored == old(usersStored) && notificationsStored == old(notificationsStored)
      ensures deviceCredential == old(deviceCredential)
    {
      drugs := drugs + newDrugs;
      drugsStored := true;
    }

    /** `updateDrug`: writes only when a drug has the id. */
    method UpdateDrug(id: string, p: DrugPatch)
      requires Valid()
      modifies this
      ensures Valid()
      ensures UpdateDrugIn(old(drugs), id, p).None? ==> drugs == old(drugs) && drugsStored == old(drugsStored)
      ensures UpdateDrugIn(old(drugs), id, p).Some? ==> drugs == UpdateDrugIn(old(drugs), id, p).value && drugsStored
      ensures users == old(users) && notifications == old(notifications)
      ensures usersStored == old(usersStored) && notificationsStored == old(notificationsStored)
      ensures deviceCredential == old(deviceCredential)
    {
      match UpdateDrugIn(drugs, id, p)
      case None =>
      case Some(next) =>
        drugs := next;
        drugsStored := true;
    }

    method DeleteDrug(id: string)
      requires Valid()
      modifies this
      ensures Valid() && drugsStored
      ensures drugs == RemoveDrug(old(drugs), id)
      ensures users == old(users) && notifications == old(notifications)
      ensures usersStored == old(usersStored) && notificationsStored == old(notificationsStored)
      ensures deviceCredential == old(deviceCredential)
    {
      drugs := RemoveDrug(drugs, id);
      drugsStored := true;
    }

    /** `markAllNotificationsRead`: the sorted list, every note read, is what
      is stored afterwards. */
    method MarkAllNotificationsRead()
      requires Valid()
      modifies this
      ensures Valid() && notificationsStored
      ensures notifications == MarkRead(SortedNotes(old(notifications)))
      ensures users == old(users) && drugs == old(drugs)
      ensures usersStored == old(usersStored) && drugsStored == old(drugsStored)
      ensures deviceCredential == old(deviceCredential)
    {
      notifications := MarkRead(SortedNotes(notifications));
      notificationsStored := true;
    }

    /** `addNotification`: the new note in front of the sorted list. */
    method AddNotification(note: Notification)
      requires Valid()
      modifies this
      ensures Valid() && notificationsStored
      ensures notifications == [note] + SortedNotes(old(notifications))
      ensures users == old(users) && drugs == old(drugs)
      ensures usersStored == old(usersStored) && drugsStored == old(drugsStored)
      ensures deviceCredential == old(deviceCredential)
    {
      notifications := [note] + SortedNotes(notifications);
      notificationsStored := true;
    }
  }

  /** A fresh browser, once seeded, lets the root account log in. */
  method SeededStoreAcceptsRoot(now: int) returns (r: Option<User>)
    ensures r == Some(WithoutPassword(RootAdmin))
  {
    var store := new LocalStore.Empty();
    store.SeedData(now);
    RootLogsIn();
    r := Authenticate(store.users, "root", "root1");
  }
}
