/**
 * The web server's copy of the user database (web/user.go). Deleting and
 * validating behave as in the command-line tool. Adding differs in two ways:
 * there is no minimum password length, and the existing list is never read
 * back, because json.Unmarshal is handed the slice itself instead of a
 * pointer to it and therefore always reports an error. The stored list is
 * then just the new user.
 */
module WebUsers {

  import opened Wrappers
  import opened Text
  import opened CmdUsers

  /**
   * The update loop of web addUser: `u` is a copy of each element, so setting
   * its seed and hash changes nothing in the list; only `exist` is set.
   */
  method UpdateCopies(users: seq<UserRecord>, name: Bytes, seed: Bytes, hashed: Bytes)
    returns (users': seq<UserRecord>, exist: bool)
    ensures users' == users
    ensures exist == FirstMatch(users, name).Some?
  {
    users' := users;
    exist := false;
    var i := 0;
    while i < |users'|
      invariant 0 <= i <= |users'|
      invariant users' == users
      invariant !exist ==> forall j :: 0 <= j < i ==> users[j].user != name
      invariant exist ==> FirstMatch(users, name) == Some(i)
      decreases if exist then 0 else |users'| - i + 1
    {
      var u := users'[i];
      if u.user == name {
        u := UserRecord(u.user, seed, hashed);
        exist := true;
        break;
      }
      i := i + 1;
    }
  }

  /** The list web addUser marshals: always exactly the new record. */
  function StoredAsWritten(name: Bytes, seed: Bytes, hashed: Bytes): (r: seq<UserRecord>)
    ensures |r| == 1 && r[0].user == name
  {
    [UserRecord(name, seed, hashed)]
  }

  /**
   * addUser as written: json.Unmarshal(file, users) with a non-pointer
   * argument never succeeds, so the update loop is skipped, `users` stays nil
   * and only the new record is written, whatever the file held.
   */
  method AddUserFile(db: Option<Bytes>, name: Bytes, passwd: Bytes, seed: Bytes,
                     sha: Bytes -> Bytes, enc: UserEncoder) returns (db': Option<Bytes>)
    ensures var stored := StoredAsWritten(name, seed, HashPassword(sha, seed, passwd));
      db' == if stored in enc then Some(enc[stored]) else db
  {
    var hashed := HashPassword(sha, seed, passwd);
    var users: seq<UserRecord> := [];
    var exist := false;
    // json.Unmarshal into a non-pointer reports an InvalidUnmarshalError
    var unmarshalled := false;
    if db.Some? && unmarshalled {
      users, exist := UpdateCopies(users, name, seed, hashed);
    }
    if !exist {
      users := users + [UserRecord(name, seed, hashed)];
    }
    assert users == StoredAsWritten(name, seed, hashed);
    if users !in enc {
      return db;
    }
    db' := Some(enc[users]);
  }

  /**
   * The defect, on a concrete list: a store holding alice, after adding bob,
   * holds only bob, whereas the command-line addUser keeps alice.
   */
  lemma AddDiscardsExisting(seed: Bytes, hashed: Bytes)
    ensures var alice := UserRecord([0x61], seed, hashed);
      var asWritten := StoredAsWritten([0x62], seed, hashed);
      var intended := AddOrUpdate([alice], [0x62], seed, hashed);
      && alice !in asWritten
      && intended == [alice, UserRecord([0x62], seed, hashed)]
      && asWritten != intended
  {
    var alice := UserRecord([0x61], seed, hashed);
    assert FirstMatch([alice], [0x62]).None? by {
      assert [alice][0].user != [0x62];
    }
  }

  /**
   * In general the as-written list agrees with the intended one only when the
   * store was empty or held nothing but an earlier record of the same user.
   */
  lemma AddAgreesOnlyWhenAlone(users: seq<UserRecord>, name: Bytes, seed: Bytes, hashed: Bytes)
    ensures StoredAsWritten(name, seed, hashed) == AddOrUpdate(users, name, seed, hashed)
        <==> users == [] || (|users| == 1 && users[0].user == name)
  {
    AddOrUpdateShape(users, name, seed, hashed);
    if users != [] && FirstMatch(users, name).None? {
      assert |AddOrUpdate(users, name, seed, hashed)| == |users| + 1;
    }
  }

  /**
   * AddUser: a failed read or a differing confirmation stops before the store
   * is touched; there is no length check, so any password, even an empty one,
   * is stored.
   */
  method AddUser(name: Bytes, pw1: Option<Bytes>, pw2: Option<Bytes>, db: Option<Bytes>, seed: Bytes,
                 sha: Bytes -> Bytes, enc: UserEncoder) returns (outcome: AddOutcome, db': Option<Bytes>)
    ensures outcome == (if pw1.None? || pw2.None? then ReadFailed
                        else if pw1 != pw2 then Mismatch
                        else Stored)
    ensures outcome != Stored ==> db' == db
    ensures outcome == Stored ==>
      var stored := StoredAsWritten(name, seed, HashPassword(sha, seed, pw1.value));
      db' == if stored in enc then Some(enc[stored]) else db
  {
    if pw1.None? {
      return ReadFailed, db;
    }
    if pw2.None? {
      return ReadFailed, db;
    }
    if pw1.value != pw2.value {
      return Mismatch, db;
    }
    db' := AddUserFile(db, name, pw1.value, seed, sha, enc);
    outcome := Stored;
  }

  /** DelUser: the same first-match splice as the command-line tool. */
  method DelUser(name: Bytes, db: Option<Bytes>, dec: UserDecoder, enc: UserEncoder) returns (db': Option<Bytes>)
    ensures db.None? || db.value !in dec ==> db' == db
    ensures db.Some? && db.value in dec ==>
      var users := dec[db.value];
      var kept := RemoveFirst(users, name);
      db' == if FirstMatch(users, name).Some? && kept in enc then Some(enc[kept]) else db
  {
    db' := CmdUsers.DelUser(name, db, dec, enc);
  }

  /** ValidateUser: the same first-match check as the command-line tool. */
  method ValidateUser(name: Bytes, passwd: Bytes, db: Option<Bytes>, sha: Bytes -> Bytes, dec: UserDecoder) returns (ok: bool)
    ensures ok <==> db.Some? && db.value in dec && Validates(dec[db.value], name, passwd, sha)
  {
    ok := CmdUsers.ValidateUser(name, passwd, db, sha, dec);
  }
}
