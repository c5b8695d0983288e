/** The admin controller: listing, adding, updating, deleting and
    (un)blocking users, and importing users from an uploaded spreadsheet whose
    rows have already been read. Password hashing is a parameter. */
module Admin {
  import opened JsValue
  import opened JsText
  import opened Directory
  import opened Upload
  import opened Seqs
  import Chat

  // ---------------------------------------------------------------------------
  // getUsers

  datatype ListOutcome = NoUsers | Listed(users: seq<User>)

  function ListStatus(o: ListOutcome): (r: int)
    ensures r == 200 <==> o.Listed?
    ensures r == 404 <==> o.NoUsers?
  {
    if o.NoUsers? then 404 else 200
  }

  /** `getUsers`: every user, or 404 when there are none. */
  function GetUsers(d: Store): (r: ListOutcome)
    ensures r.NoUsers? <==> |d.users| == 0
    ensures r.Listed? ==> r.users == d.users
  {
    if |d.users| == 0 then NoUsers else Listed(d.users)
  }

  // ---------------------------------------------------------------------------
  // addUser

  datatype AddOutcome = MissingFields | ContactTaken | Added(store: Store, user: User)

  /** Both refusals share 400. */
  function AddStatus(o: AddOutcome): (r: int)
    ensures r == 201 <==> o.Added?
    ensures r == 400 <==> !o.Added?
  {
    match o
    case MissingFields => 400
    case ContactTaken => 400
    case Added(_, _) => 201
  }

  /** `addUser`: email, mobile number and password must be non-empty (the
      name is not checked, although the refusal message lists it); no user may
      already have that email or that mobile number; the new user stores the
      hash of the password. */
  function AddUser(d: Store, name: Option<string>, email: Option<string>, mobileNo: Option<string>,
                   password: Option<string>, hash: string -> string): (r: AddOutcome)
    requires Wf(d)
    ensures r.MissingFields? <==> !Truthy(email) || !Truthy(mobileNo) || !Truthy(password)
    ensures r.ContactTaken? <==>
              Truthy(email) && Truthy(mobileNo) && Truthy(password) &&
              exists u :: u in d.users && SharesContact(u, email, mobileNo)
    ensures r.Added? ==> Wf(r.store) && |r.store.users| == |d.users| + 1 && r.store.users[..|d.users|] == d.users
    ensures r.Added? ==> r.user == r.store.users[|d.users|] && !HasId(d.users, r.user.id)
    ensures r.Added? ==> r.user == User(r.user.id, name, email, mobileNo, hash(password.value), false)
  {
    if !Truthy(email) || !Truthy(mobileNo) || !Truthy(password) then MissingFields
    else if FindByContact(d.users, email, mobileNo).Some? then ContactTaken
    else
      var s := Create(d, name, email, mobileNo, hash(password.value));
      assert s.users[..|d.users|] == d.users;
      Added(s, s.users[|d.users|])
  }

  /** Adding keeps emails and mobile numbers unique. */
  lemma AddUserKeepsUniqueContacts(d: Store, name: Option<string>, email: Option<string>,
                                   mobileNo: Option<string>, password: Option<string>, hash: string -> string)
    requires Wf(d) && UniqueContacts(d.users)
    ensures var r := AddUser(d, name, email, mobileNo, password, hash);
            r.Added? ==> UniqueContacts(r.store.users)
  {
    if Truthy(email) && Truthy(mobileNo) && Truthy(password) && FindByContact(d.users, email, mobileNo).None? {
      CreateKeepsUniqueContacts(d, name, email, mobileNo, hash(password.value));
    }
  }

  /** A user without a name is added. */
  lemma AddUserWithoutName(d: Store, email: string, mobileNo: string, password: string, hash: string -> string)
    requires Wf(d) && email != "" && mobileNo != "" && password != ""
    requires forall u :: u in d.users ==> u.email != Some(email) && u.mobileNo != Some(mobileNo)
    ensures AddUser(d, None, Some(email), Some(mobileNo), Some(password), hash).Added?
  {
  }

  // ---------------------------------------------------------------------------
  // updateUser

  /** The fields of a request body: an absent field is left alone; a present
      one, `null` included, is written as given. */
  datatype UserPatch = UserPatch(
    name: Option<Option<string>>,
    email: Option<Option<string>>,
    mobileNo: Option<Option<string>>,
    password: Option<string>,
    isBlocked: Option<bool>)

  function ApplyPatch(u: User, p: UserPatch): (v: User)
    ensures v.id == u.id
    ensures p == UserPatch(None, None, None, None, None) ==> v == u
  {
    User(u.id,
      if p.name.Some? then p.name.value else u.name,
      if p.email.Some? then p.email.value else u.email,
      if p.mobileNo.Some? then p.mobileNo.value else u.mobileNo,
      if p.password.Some? then p.password.value else u.password,
      if p.isBlocked.Some? then p.isBlocked.value else u.isBlocked)
  }

  /** Sending the same body again changes nothing more. */
  lemma ApplyPatchTwice(u: User, p: UserPatch)
    ensures ApplyPatch(ApplyPatch(u, p), p) == ApplyPatch(u, p)
  {
  }

  datatype UpdateOutcome = UpdateNotFound | Updated(store: Store, user: User)

  function UpdateStatus(o: UpdateOutcome): (r: int)
    ensures r == 200 <==> o.Updated?
    ensures r == 404 <==> o.UpdateNotFound?
  {
    if o.UpdateNotFound? then 404 else 200
  }

  /** `updateUser`: `findByIdAndUpdate(id, body, { new: true })`. The body is
      written as given: no uniqueness check, no hashing of a new password. */
  function UpdateUser(d: Store, id: UserId, p: UserPatch): (r: UpdateOutcome)
    requires Wf(d)
    ensures r.UpdateNotFound? <==> !HasId(d.users, id)
    ensures r.Updated? ==> Wf(r.store) && |r.store.users| == |d.users| && r.store.nextId == d.nextId
    ensures r.Updated? ==> forall i :: 0 <= i < |d.users| ==>
              r.store.users[i] == if d.users[i].id == id then ApplyPatch(d.users[i], p) else d.users[i]
    ensures r.Updated? ==> r.user.id == id && r.user in r.store.users
  {
    if !HasId(d.users, id) then UpdateNotFound
    else
      var k := IndexOfId(d.users, id);
      var v := ApplyPatch(d.users[k], p);
      var s := Store(d.users[k := v], d.nextId);
      assert forall i :: 0 <= i < |d.users| && i != k ==> d.users[i].id != id;
      Updated(s, v)
  }

  /** A new password sent to `updateUser` is stored as sent, not hashed. */
  lemma UpdateStoresPasswordVerbatim(d: Store, id: UserId, password: string)
    requires Wf(d) && HasId(d.users, id)
    ensures var r := UpdateUser(d, id, UserPatch(None, None, None, Some(password), None));
            r.Updated? && r.user.password == password
  {
  }

  /** An update can give two users the same email. */
  lemma UpdateMayDuplicateContact()
    ensures var a := User(0, None, Some("a@x"), Some("1"), "h", false);
            var b := User(1, None, Some("b@x"), Some("2"), "h", false);
            var d := Store([a, b], 2);
            Wf(d) && UniqueContacts(d.users) &&
            var r := UpdateUser(d, 1, UserPatch(None, Some(Some("a@x")), None, None, None));
            r.Updated? && !UniqueContacts(r.store.users)
  {
    var a := User(0, None, Some("a@x"), Some("1"), "h", false);
    var b := User(1, None, Some("b@x"), Some("2"), "h", false);
    var d := Store([a, b], 2);
    assert Some("a@x") != Some("b@x") by { assert "a@x"[0] != "b@x"[0]; }
    assert Some("1") != Some("2") by { assert "1"[0] != "2"[0]; }
    assert d.users[1].id == 1;
    var r := UpdateUser(d, 1, UserPatch(None, Some(Some("a@x")), None, None, None));
    assert r.store.users[0] == a;
    assert r.store.users[1].email == Some("a@x");
  }

  // ---------------------------------------------------------------------------
  // deleteUser

  datatype DeleteOutcome = DeleteNotFound | Deleted(store: Store)

  function DeleteStatus(o: DeleteOutcome): (r: int)
    ensures r == 200 <==> o.Deleted?
    ensures r == 404 <==> o.DeleteNotFound?
  {
    if o.DeleteNotFound? then 404 else 200
  }

  /** In a well-formed store, removing the user at `k` removes exactly the
      users with that id. */
  lemma RemoveAtMembers(d: Store, k: int)
    requires Wf(d) && 0 <= k < |d.users|
    ensures forall u :: u in RemoveAt(d.users, k) <==> u in d.users && u.id != d.users[k].id
  {
    var r := RemoveAt(d.users, k);
    forall u ensures u in r <==> u in d.users && u.id != d.users[k].id {
      if u in r {
        var i :| 0 <= i < |r| && r[i] == u;
        assert u == d.users[if i < k then i else i + 1];
      }
      if u in d.users && u.id != d.users[k].id {
        var i :| 0 <= i < |d.users| && d.users[i] == u;
        assert r[if i < k then i else i - 1] == u;
      }
    }
  }

  lemma RemoveAtWf(d: Store, k: int)
    requires Wf(d) && 0 <= k < |d.users|
    ensures Wf(Store(RemoveAt(d.users, k), d.nextId))
  {
  }

  /** `deleteUser`: `findByIdAndDelete(id)`, 404 when no user has that id. The
      user's messages are kept. */
  function DeleteUser(d: Store, id: UserId): (r: DeleteOutcome)
    requires Wf(d)
    ensures r.DeleteNotFound? <==> !HasId(d.users, id)
    ensures r.Deleted? ==> Wf(r.store) && r.store.nextId == d.nextId
    ensures r.Deleted? ==> forall u :: u in r.store.users <==> u in d.users && u.id != id
    ensures r.Deleted? ==> |r.store.users| == |d.users| - 1
  {
    if !HasId(d.users, id) then DeleteNotFound
    else
      var k := IndexOfId(d.users, id);
      RemoveAtMembers(d, k);
      RemoveAtWf(d, k);
      Deleted(Store(RemoveAt(d.users, k), d.nextId))
  }

  /** Deleting a user keeps their messages, so the other participant's
      history of that conversation fails from then on. */
  lemma DeleteBreaksHistory(d: Store, store: Chat.MessageStore, a: UserId, b: UserId)
    requires Wf(d) && Chat.StoreWf(store) && HasId(d.users, b)
    requires Chat.Conversation(store, a, b) != []
    ensures var r := DeleteUser(d, b);
            r.Deleted? && Chat.GetMessages(r.store.users, store, a, b) == Chat.ServerError
  {
    var r := DeleteUser(d, b).store.users;
    var m := Chat.Conversation(store, a, b)[0];
    assert m in Chat.Conversation(store, a, b);
    assert !Chat.Resolvable(r, m);
  }

  // ---------------------------------------------------------------------------
  // blockUser

  datatype BlockOutcome = BlockNotFound | Toggled(store: Store, user: User, message: string)

  function BlockStatus(o: BlockOutcome): (r: int)
    ensures r == 200 <==> o.Toggled?
    ensures r == 404 <==> o.BlockNotFound?
  {
    if o.BlockNotFound? then 404 else 200
  }

  /** The answer's message for the new value of `isBlocked`. */
  function BlockMessage(blocked: bool): (m: string)
    ensures m == "User blocked successfully" <==> blocked
    ensures m == "User unblocked successfully" <==> !blocked
  {
    var m := "User " + (if blocked then "blocked" else "unblocked") + " successfully";
    assert "User blocked successfully"[5] != "User unblocked successfully"[5];
    m
  }

  /** `blockUser`: flips the user's `isBlocked` and says which way it went. */
  function BlockUser(d: Store, id: UserId): (r: BlockOutcome)
    requires Wf(d)
    ensures r.BlockNotFound? <==> !HasId(d.users, id)
    ensures r.Toggled? ==> Wf(r.store) && |r.store.users| == |d.users| && r.store.nextId == d.nextId
    ensures r.Toggled? ==> forall i :: 0 <= i < |d.users| ==>
              r.store.users[i] == if d.users[i].id == id then d.users[i].(isBlocked := !d.users[i].isBlocked) else d.users[i]
    ensures r.Toggled? ==> r.user.id == id && r.user in r.store.users
    ensures r.Toggled? ==> (r.message == "User blocked successfully" <==> r.user.isBlocked)
    ensures r.Toggled? ==> (r.message == "User unblocked successfully" <==> !r.user.isBlocked)
  {
    if !HasId(d.users, id) then BlockNotFound
    else
      var k := IndexOfId(d.users, id);
      var v := d.users[k].(isBlocked := !d.users[k].isBlocked);
      var s := Store(d.users[k := v], d.nextId);
      assert forall i :: 0 <= i < |d.users| && i != k ==> d.users[i].id != id;
      Toggled(s, v, BlockMessage(v.isBlocked))
  }

  /** Blocking twice gives back the store. */
  lemma {:induction false} BlockTwiceRestores(d: Store, id: UserId)
    requires Wf(d) && HasId(d.users, id)
    ensures var once := BlockUser(d, id);
            once.Toggled? && BlockUser(once.store, id).Toggled? && BlockUser(once.store, id).store == d
  {
    var once := BlockUser(d, id).store;
    var twice := BlockUser(once, id).store;
    assert HasId(once.users, id) by {
      var k := IndexOfId(d.users, id);
      assert once.users[k].id == id;
    }
    forall i | 0 <= i < |d.users| ensures twice.users[i] == d.users[i] {
      assert once.users[i].id == d.users[i].id;
    }
  }

  // ---------------------------------------------------------------------------
  // importUsers: the upload filter

  /** `/xlsx|xls|csv/.test(s)`: unanchored, so any occurrence counts. */
  predicate MentionsSpreadsheet(s: string) {
    Contains(s, "xlsx") || Contains(s, "xls") || Contains(s, "csv")
  }

  /** The import filter as written: both the lower-cased extension and the
      MIME type are searched for `xlsx`, `xls` or `csv`. Neither Excel MIME
      type contains any of the three, so both are refused. */
  function ImportFilterAsWritten(originalname: string, mimetype: string): (r: bool)
    ensures r ==> mimetype != XlsxMime && mimetype != XlsMime
  {
    ExcelMimesMentionNoSpreadsheet();
    MentionsSpreadsheet(Lower(Extname(originalname))) && MentionsSpreadsheet(mimetype)
  }

  /** The MIME types of the two Excel formats. */
  const ExcelMimes: set<string> := {XlsxMime, XlsMime}

  /** The import filter as evidently intended: the extension test as
      written, and a MIME type that mentions a spreadsheet word or is one of
      the two Excel types. It accepts everything the filter as written
      accepts, and beyond that only the Excel types. */
  function ImportFilter(originalname: string, mimetype: string): (r: bool)
    ensures ImportFilterAsWritten(originalname, mimetype) ==> r
    ensures r && !ImportFilterAsWritten(originalname, mimetype) ==> mimetype in ExcelMimes
  {
    MentionsSpreadsheet(Lower(Extname(originalname))) && (MentionsSpreadsheet(mimetype) || mimetype in ExcelMimes)
  }

  /** In both Excel MIME types the only `x` is at index 20 and the only `v`
      at index 12. */
  lemma XlsxMimeLetters(i: int)
    requires 0 <= i < |XlsxMime|
    ensures XlsxMime[i] == 'x' ==> i == 20
    ensures XlsxMime[i] == 'v' ==> i == 12
  {
  }

  lemma XlsMimeLetters(i: int)
    requires 0 <= i < |XlsMime|
    ensures XlsMime[i] == 'x' ==> i == 20
    ensures XlsMime[i] == 'v' ==> i == 12
  {
  }

  /** Neither Excel MIME type mentions `xlsx`, `xls` or `csv`. */
  lemma ExcelMimesMentionNoSpreadsheet()
    ensures !MentionsSpreadsheet(XlsxMime)
    ensures !MentionsSpreadsheet(XlsMime)
  {
    var s := XlsxMime;
    forall i | 0 <= i <= |s| - 3 ensures !OccursAt(s, "xls", i) && !OccursAt(s, "csv", i) && !OccursAt(s, "xlsx", i) {
      XlsxMimeLetters(i);
      XlsxMimeLetters(i + 2);
      if s[i] == 'x' { Mismatch(s, "xls", i, 1); } else { Mismatch(s, "xls", i, 0); }
      if i + 4 <= |s| {
        if s[i] == 'x' { Mismatch(s, "xlsx", i, 1); } else { Mismatch(s, "xlsx", i, 0); }
      }
      if s[i + 2] == 'v' { Mismatch(s, "csv", i, 0); } else { Mismatch(s, "csv", i, 2); }
    }
    var t := XlsMime;
    forall i | 0 <= i <= |t| - 3 ensures !OccursAt(t, "xls", i) && !OccursAt(t, "csv", i) && !OccursAt(t, "xlsx", i) {
      XlsMimeLetters(i);
      XlsMimeLetters(i + 2);
      if t[i] == 'x' { Mismatch(t, "xls", i, 1); } else { Mismatch(t, "xls", i, 0); }
      if i + 4 <= |t| {
        if t[i] == 'x' { Mismatch(t, "xlsx", i, 1); } else { Mismatch(t, "xlsx", i, 0); }
      }
      if t[i + 2] == 'v' { Mismatch(t, "csv", i, 0); } else { Mismatch(t, "csv", i, 2); }
    }
  }

  /** As written, the import refuses every genuine Excel upload: neither
      Excel MIME type contains any of the three words. */
  lemma ExcelImportRefusedAsWritten(originalname: string)
    ensures !ImportFilterAsWritten(originalname, XlsxMime)
    ensures !ImportFilterAsWritten(originalname, XlsMime)
  {
    ExcelMimesMentionNoSpreadsheet();
  }

  /** The folded extension of a plain name `x.e` contains `e`, folded. */
  lemma FoldedExtContains(x: string, e: string)
    requires x != "" && e != "" && '/' !in x && '/' !in e && '.' !in e
    ensures Contains(Lower(Extname(x + "." + e)), Lower(e))
  {
    ExtnameOfName(x, e);
    FoldedDotContains(e);
  }

  lemma SpreadsheetMimesAccepted()
    ensures XlsxMime in ExcelMimes && XlsMime in ExcelMimes && MentionsSpreadsheet(CsvMime)
  {
    assert OccursAt(CsvMime, "csv", 5);
  }

  lemma SpreadsheetExtPasses(x: string, w: string)
    requires x != "" && '/' !in x
    requires w == "xlsx" || w == "xls" || w == "csv"
    ensures MentionsSpreadsheet(Lower(Extname(x + "." + w)))
  {
    assert Lower(w) == w;
    FoldedExtContains(x, w);
  }

  /** The corrected filter takes each spreadsheet format with its own MIME
      type. */
  lemma ImportFilterAcceptsSpreadsheets(x: string)
    requires x != "" && '/' !in x
    ensures ImportFilter(x + "." + "xlsx", XlsxMime)
    ensures ImportFilter(x + "." + "xls", XlsMime)
    ensures ImportFilter(x + "." + "csv", CsvMime)
  {
    SpreadsheetMimesAccepted();
    SpreadsheetExtPasses(x, "xlsx");
    SpreadsheetExtPasses(x, "xls");
    SpreadsheetExtPasses(x, "csv");
  }

  /** On CSV uploads the two filters agree. */
  lemma ImportFiltersAgreeOnCsv(originalname: string)
    ensures ImportFilter(originalname, CsvMime) <==> ImportFilterAsWritten(originalname, CsvMime)
  {
    assert OccursAt(CsvMime, "csv", 5);
  }

  // ---------------------------------------------------------------------------
  // importUsers: the rows

  /** A spreadsheet row, as `sheet_to_json` gives it (text cells). */
  datatype Row = Row(name: Option<string>, email: Option<string>, mobileNo: Option<string>, password: Option<string>)

  predicate Complete(row: Row) {
    Truthy(row.name) && Truthy(row.email) && Truthy(row.mobileNo) && Truthy(row.password)
  }

  datatype ImportState = ImportState(store: Store, imported: nat, skipped: nat)

  /** One iteration of the loop: an incomplete row, or one whose email or
      mobile number is already taken (by an earlier row too), is skipped;
      otherwise the user is created with the hashed password. */
  function ImportRow(s: ImportState, row: Row, hash: string -> string): (r: ImportState)
    requires Wf(s.store)
    ensures s.imported <= r.imported <= s.imported + 1
    ensures r.imported + r.skipped == s.imported + s.skipped + 1
    ensures |r.store.users| == |s.store.users| + (r.imported - s.imported)
    ensures Wf(r.store) && r.store.users[..|s.store.users|] == s.store.users
    ensures r.imported == s.imported + 1 <==>
              Complete(row) && forall u :: u in s.store.users ==> !SharesContact(u, row.email, row.mobileNo)
    ensures r.imported == s.imported + 1 ==>
              r.store.users[|s.store.users|] ==
                User(s.store.nextId, row.name, row.email, row.mobileNo, hash(row.password.value), false)
  {
    if !Complete(row) then ImportState(s.store, s.imported, s.skipped + 1)
    else if FindByContact(s.store.users, row.email, row.mobileNo).Some? then
      ImportState(s.store, s.imported, s.skipped + 1)
    else
      var d := Create(s.store, row.name, row.email, row.mobileNo, hash(row.password.value));
      assert d.users[..|s.store.users|] == s.store.users;
      ImportState(d, s.imported + 1, s.skipped)
  }

  /** The loop over the rows, in sheet order. */
  function ImportRows(d: Store, rows: seq<Row>, hash: string -> string): (r: ImportState)
    requires Wf(d)
    ensures r.imported + r.skipped == |rows|
    ensures |r.store.users| == |d.users| + r.imported
    ensures Wf(r.store) && r.store.users[..|d.users|] == d.users
  {
    if |rows| == 0 then ImportState(d, 0, 0)
    else
      var s := ImportRows(d, rows[..|rows| - 1], hash);
      var r := ImportRow(s, rows[|rows| - 1], hash);
      assert r.store.users[..|d.users|] == r.store.users[..|s.store.users|][..|d.users|];
      r
  }

  /** The import keeps emails and mobile numbers unique. */
  lemma {:induction false} ImportKeepsUniqueContacts(d: Store, rows: seq<Row>, hash: string -> string)
    requires Wf(d) && UniqueContacts(d.users)
    ensures UniqueContacts(ImportRows(d, rows, hash).store.users)
  {
    if |rows| > 0 {
      var s := ImportRows(d, rows[..|rows| - 1], hash);
      ImportKeepsUniqueContacts(d, rows[..|rows| - 1], hash);
      var row := rows[|rows| - 1];
      if Complete(row) && FindByContact(s.store.users, row.email, row.mobileNo).None? {
        CreateKeepsUniqueContacts(s.store, row.name, row.email, row.mobileNo, hash(row.password.value));
      }
    }
  }

  /** `u` is the user created from `row`. */
  predicate CreatedFrom(u: User, row: Row, hash: string -> string) {
    Complete(row) && u.name == row.name && u.email == row.email && u.mobileNo == row.mobileNo &&
    u.password == hash(row.password.value) && !u.isBlocked
  }

  predicate FromSomeRow(u: User, rows: seq<Row>, hash: string -> string) {
    exists k :: 0 <= k < |rows| && CreatedFrom(u, rows[k], hash)
  }

  /** The imported user at index `i` was created from one of the rows. */
  lemma {:induction false} ImportedUserFromRow(d: Store, rows: seq<Row>, hash: string -> string, i: int)
    requires Wf(d) && |d.users| <= i < |ImportRows(d, rows, hash).store.users|
    ensures FromSomeRow(ImportRows(d, rows, hash).store.users[i], rows, hash)
    decreases |rows|
  {
    assert |rows| > 0;
    var init := rows[..|rows| - 1];
    var last := rows[|rows| - 1];
    var s := ImportRows(d, init, hash);
    var r := ImportRow(s, last, hash);
    assert ImportRows(d, rows, hash) == r;
    if i < |s.store.users| {
      ImportedUserFromRow(d, init, hash, i);
      assert r.store.users[i] == r.store.users[..|s.store.users|][i];
      var k :| 0 <= k < |init| && CreatedFrom(s.store.users[i], init[k], hash);
      assert rows[k] == init[k];
    } else {
      assert CreatedFrom(r.store.users[i], last, hash);
    }
  }

  /** Every imported user was created from a complete row. */
  lemma ImportedFromCompleteRows(d: Store, rows: seq<Row>, hash: string -> string)
    requires Wf(d)
    ensures var r := ImportRows(d, rows, hash).store.users;
            forall i :: |d.users| <= i < |r| ==> FromSomeRow(r[i], rows, hash)
  {
    forall i | |d.users| <= i < |ImportRows(d, rows, hash).store.users|
      ensures FromSomeRow(ImportRows(d, rows, hash).store.users[i], rows, hash)
    {
      ImportedUserFromRow(d, rows, hash, i);
    }
  }

  /** The handler's loop, with the counters it reports. */
  method ImportLoop(d: Store, rows: seq<Row>, hash: string -> string) returns (store: Store, imported: nat, skipped: nat)
    requires Wf(d)
    ensures ImportState(store, imported, skipped) == ImportRows(d, rows, hash)
    ensures imported + skipped == |rows|
  {
    var s := ImportState(d, 0, 0);
    var i := 0;
    while i < |rows|
      invariant 0 <= i <= |rows|
      invariant Wf(s.store)
      invariant s == ImportRows(d, rows[..i], hash)
    {
      assert rows[..i + 1][..i] == rows[..i];
      s := ImportRow(s, rows[i], hash);
      i := i + 1;
    }
    assert rows[..i] == rows;
    store, imported, skipped := s.store, s.imported, s.skipped;
  }

  // ---------------------------------------------------------------------------
  // importUsers: the handler

  /** Multer's `limits.fileSize` for imports: 5 MB. */
  const MaxImportBytes: nat := 5 * 1024 * 1024

  /** `import-${Date.now()}-${file.originalname}`. */
  function ImportFilename(now: nat, originalname: string): (f: string)
    ensures ParseStoredFilename(f) == Some(StoredName("import", now, originalname))
  {
    StoredFilenameRoundTrip("import", now, originalname);
    StoredFilename("import", now, originalname)
  }

  datatype ImportOutcome = FileRefused | NoFile | Imported(store: Store, imported: nat, skipped: nat)

  /** The upload error reaches the default error handler: 500. */
  function ImportStatus(o: ImportOutcome): (r: int)
    ensures r == 200 <==> o.Imported?
    ensures r == 400 <==> o.NoFile?
    ensures r == 500 <==> o.FileRefused?
  {
    match o
    case FileRefused => 500
    case NoFile => 400
    case Imported(_, _, _) => 200
  }

  /** The handler once the upload has been judged: without a file the answer
      is 400; a file the filter refused or one over the size limit reaches
      the error handler; otherwise the rows are imported and counted. */
  function ImportJudged(d: Store, file: Option<IncomingFile>, accepted: bool, rows: seq<Row>,
                        hash: string -> string): (r: ImportOutcome)
    requires Wf(d)
    ensures r.NoFile? <==> file.None?
    ensures r.FileRefused? <==> file.Some? && (!accepted || file.value.size > MaxImportBytes)
    ensures r.Imported? ==> ImportState(r.store, r.imported, r.skipped) == ImportRows(d, rows, hash)
  {
    if file.None? then NoFile
    else if !accepted || file.value.size > MaxImportBytes then FileRefused
    else
      var s := ImportRows(d, rows, hash);
      Imported(s.store, s.imported, s.skipped)
  }

  /** `importUsers` as written: the upload must pass the filter as written
      and the size limit, so a genuine Excel workbook is refused. */
  function ImportUsers(d: Store, file: Option<IncomingFile>, rows: seq<Row>, hash: string -> string): (r: ImportOutcome)
    requires Wf(d)
    ensures r.FileRefused? <==>
              file.Some? && (!ImportFilterAsWritten(file.value.originalname, file.value.mimetype) || file.value.size > MaxImportBytes)
    ensures r.NoFile? <==> file.None?
    ensures r.Imported? ==> r.imported + r.skipped == |rows| && |r.store.users| == |d.users| + r.imported
    ensures r.Imported? ==> Wf(r.store) && r.store.users[..|d.users|] == d.users
    ensures r.Imported? ==> ImportState(r.store, r.imported, r.skipped) == ImportRows(d, rows, hash)
  {
    ImportJudged(d, file, file.Some? && ImportFilterAsWritten(file.value.originalname, file.value.mimetype), rows, hash)
  }

  /** `importUsers` with the corrected filter. */
  function ImportUsersIntended(d: Store, file: Option<IncomingFile>, rows: seq<Row>, hash: string -> string): (r: ImportOutcome)
    requires Wf(d)
    ensures r.FileRefused? <==>
              file.Some? && (!ImportFilter(file.value.originalname, file.value.mimetype) || file.value.size > MaxImportBytes)
    ensures r.NoFile? <==> file.None?
    ensures r.Imported? ==> r.imported + r.skipped == |rows| && |r.store.users| == |d.users| + r.imported
    ensures r.Imported? ==> Wf(r.store) && r.store.users[..|d.users|] == d.users
    ensures r.Imported? ==> ImportState(r.store, r.imported, r.skipped) == ImportRows(d, rows, hash)
  {
    ImportJudged(d, file, file.Some? && ImportFilter(file.value.originalname, file.value.mimetype), rows, hash)
  }

  /** Every upload the handler as written imports, the corrected one imports
      the same way; it differs only on Excel uploads, which the handler as
      written answers with 500. */
  lemma ImportCorrectionOnlyAddsExcel(d: Store, file: Option<IncomingFile>, rows: seq<Row>, hash: string -> string)
    requires Wf(d)
    ensures ImportUsers(d, file, rows, hash).Imported? ==>
              ImportUsersIntended(d, file, rows, hash) == ImportUsers(d, file, rows, hash)
    ensures ImportUsers(d, file, rows, hash) != ImportUsersIntended(d, file, rows, hash) ==>
              file.Some? && file.value.mimetype in ExcelMimes &&
              ImportStatus(ImportUsers(d, file, rows, hash)) == 500 &&
              ImportUsersIntended(d, file, rows, hash).Imported?
  {
  }

  /** A workbook `x.xlsx` within the size limit: the handler as written
      answers 500, the corrected one imports its rows. */
  lemma XlsxImportAsWrittenAndIntended(d: Store, x: string, size: nat, rows: seq<Row>, hash: string -> string)
    requires Wf(d) && x != "" && '/' !in x && size <= MaxImportBytes
    ensures var f := Some(IncomingFile(x + "." + "xlsx", XlsxMime, size));
            ImportStatus(ImportUsers(d, f, rows, hash)) == 500 &&
            ImportUsersIntended(d, f, rows, hash).Imported?
  {
    ImportFilterAcceptsSpreadsheets(x);
  }
}
