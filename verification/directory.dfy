/** The `User` collection the controllers read and write, as an abstract
    store: the users in the collection's natural order and the id the next
    created user receives. The Mongoose schema file is not part of this model;
    only the fields the controllers touch are kept. */
module Directory {
  import opened JsValue

  type UserId = nat

  datatype User = User(
    id: UserId,
    name: Option<string>,
    email: Option<string>,
    mobileNo: Option<string>,
    password: string,   // as stored: a bcrypt hash unless an update wrote it directly
    isBlocked: bool)

  datatype Store = Store(users: seq<User>, nextId: UserId)

  /** Ids are unique and below the next id to hand out. */
  predicate Wf(d: Store) {
    && (forall i :: 0 <= i < |d.users| ==> d.users[i].id < d.nextId)
    && (forall i, j :: 0 <= i < j < |d.users| ==> d.users[i].id != d.users[j].id)
  }

  predicate HasId(users: seq<User>, id: UserId) {
    exists i :: 0 <= i < |users| && users[i].id == id
  }

  /** `User.findById(id)`. */
  function FindById(users: seq<User>, id: UserId): (r: Option<User>)
    ensures r.None? <==> !HasId(users, id)
    ensures r.Some? ==> r.value in users && r.value.id == id
  {
    if |users| == 0 then None
    else if users[0].id == id then Some(users[0])
    else
      assert HasId(users, id) ==> HasId(users[1..], id) by {
        if HasId(users, id) {
          var i :| 0 <= i < |users| && users[i].id == id;
          assert users[1..][i - 1].id == id;
        }
      }
      FindById(users[1..], id)
  }

  /** Index of the user with id `id` (the first, and in a well-formed store the only one). */
  function IndexOfId(users: seq<User>, id: UserId): (k: int)
    requires HasId(users, id)
    ensures 0 <= k < |users| && users[k].id == id
    ensures forall i :: 0 <= i < k ==> users[i].id != id
    ensures FindById(users, id) == Some(users[k])
  {
    if users[0].id == id then 0
    else
      assert HasId(users[1..], id) by {
        var i :| 0 <= i < |users| && users[i].id == id;
        assert users[1..][i - 1].id == id;
      }
      1 + IndexOfId(users[1..], id)
  }

  /** `u` matches `{ $or: [{ email }, { mobileNo }] }`. */
  predicate SharesContact(u: User, email: Option<string>, mobileNo: Option<string>) {
    u.email == email || u.mobileNo == mobileNo
  }

  /** `User.findOne({ $or: [{ email }, { mobileNo }] })`: the first user, in
      natural order, with that email or that mobile number. */
  function FindByContact(users: seq<User>, email: Option<string>, mobileNo: Option<string>): (r: Option<User>)
    ensures r.None? <==> forall u :: u in users ==> !SharesContact(u, email, mobileNo)
    ensures r.Some? ==> r.value in users && SharesContact(r.value, email, mobileNo)
  {
    if |users| == 0 then None
    else if SharesContact(users[0], email, mobileNo) then Some(users[0])
    else
      assert forall u :: u in users ==> u == users[0] || u in users[1..];
      FindByContact(users[1..], email, mobileNo)
  }

  /** `User.findOne({ email })`. */
  function FindByEmail(users: seq<User>, email: Option<string>): (r: Option<User>)
    ensures r.None? <==> forall u :: u in users ==> u.email != email
    ensures r.Some? ==> r.value in users && r.value.email == email
  {
    if |users| == 0 then None
    else if users[0].email == email then Some(users[0])
    else
      assert forall u :: u in users ==> u == users[0] || u in users[1..];
      FindByEmail(users[1..], email)
  }

  /** `new User({...}).save()` / `User.create({...})`: a new user with a fresh
      id, not blocked, appended to the collection. */
  function Create(d: Store, name: Option<string>, email: Option<string>, mobileNo: Option<string>,
                  password: string): (r: Store)
    requires Wf(d)
    ensures Wf(r)
    ensures r.users == d.users + [User(d.nextId, name, email, mobileNo, password, false)]
    ensures !HasId(d.users, d.nextId)
  {
    Store(d.users + [User(d.nextId, name, email, mobileNo, password, false)], d.nextId + 1)
  }

  /** No two users share an email or a mobile number: what the uniqueness
      checks of sign-up, `addUser` and the import keep. */
  predicate UniqueContacts(users: seq<User>) {
    forall i, j :: 0 <= i < j < |users| ==> !SharesContact(users[i], users[j].email, users[j].mobileNo)
  }

  /** Adding a user nobody shares a contact with keeps contacts unique. */
  lemma CreateKeepsUniqueContacts(d: Store, name: Option<string>, email: Option<string>,
                                  mobileNo: Option<string>, password: string)
    requires Wf(d) && UniqueContacts(d.users)
    requires FindByContact(d.users, email, mobileNo).None?
    ensures UniqueContacts(Create(d, name, email, mobileNo, password).users)
  {
    var r := Create(d, name, email, mobileNo, password).users;
    forall i, j | 0 <= i < j < |r| ensures !SharesContact(r[i], r[j].email, r[j].mobileNo) {
      if j == |d.users| {
        assert r[i] == d.users[i] && r[i] in d.users;
      } else {
        assert r[i] == d.users[i] && r[j] == d.users[j];
      }
    }
  }
}
