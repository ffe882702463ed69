/**
 * The user database of the command-line tool (cmd/user.go): a JSON list of
 * user records, each a name, a random seed and the SHA-256 of seed followed
 * by password. Adding updates the first record with that name or appends a
 * new one; deleting removes the first such record; validation checks the
 * first such record.
 */
module CmdUsers {

  import opened Wrappers
  import opened Text

  /** UserRecord: "Username", "Seed" and the 32-byte "Password" hash. */
  datatype UserRecord = UserRecord(user: Bytes, seed: Bytes, passwd: Bytes)

  /** json.Unmarshal into []UserRecord, as a partial map. */
  type UserDecoder = imap<Bytes, seq<UserRecord>>

  /** json.Marshal of []UserRecord, as a partial map. */
  type UserEncoder = imap<seq<UserRecord>, Bytes>

  /** hashPassword: sha256.Sum256 of the seed followed by the password. */
  function HashPassword(sha: Bytes -> Bytes, seed: Bytes, passwd: Bytes): Bytes
  {
    sha(seed + passwd)
  }

  /** The index of the first record with the given name, if any. */
  function FirstMatch(users: seq<UserRecord>, name: Bytes): (r: Option<nat>)
    ensures r.Some? ==> r.value < |users| && users[r.value].user == name
    ensures r.Some? ==> forall j :: 0 <= j < r.value ==> users[j].user != name
    ensures r.None? <==> forall j :: 0 <= j < |users| ==> users[j].user != name
    decreases |users|
  {
    if users == [] then None
    else if users[0].user == name then Some(0)
    else
      match FirstMatch(users[1..], name)
      case None => None
      case Some(i) => Some(i + 1)
  }

  /** The list addUser stores: the first match gets the new seed and hash, or a new record is appended. */
  function AddOrUpdate(users: seq<UserRecord>, name: Bytes, seed: Bytes, hashed: Bytes): seq<UserRecord>
  {
    match FirstMatch(users, name)
    case Some(i) => users[i := UserRecord(users[i].user, seed, hashed)]
    case None => users + [UserRecord(name, seed, hashed)]
  }

  /**
   * Adding a name that is present changes only the seed and hash of its
   * first record, keeping the length; adding a new name appends exactly one
   * record at the end.
   */
  lemma AddOrUpdateShape(users: seq<UserRecord>, name: Bytes, seed: Bytes, hashed: Bytes)
    ensures var r := AddOrUpdate(users, name, seed, hashed);
      match FirstMatch(users, name)
      case Some(i) =>
        && |r| == |users|
        && r[i] == UserRecord(name, seed, hashed)
        && forall j :: 0 <= j < |users| && j != i ==> r[j] == users[j]
      case None =>
        && r[..|users|] == users
        && r == users + [UserRecord(name, seed, hashed)]
  {
    var r := AddOrUpdate(users, name, seed, hashed);
    if FirstMatch(users, name).None? {
      assert r[..|users|] == users;
    }
  }

  /** Whether the name and password pass ValidateUser against this list. */
  predicate Validates(users: seq<UserRecord>, name: Bytes, passwd: Bytes, sha: Bytes -> Bytes)
  {
    match FirstMatch(users, name)
    case None => false
    case Some(i) => HashPassword(sha, users[i].seed, passwd) == users[i].passwd
  }

  /** After adding, the first record with the name carries the new seed and hash. */
  lemma AddedIsFirst(users: seq<UserRecord>, name: Bytes, seed: Bytes, hashed: Bytes)
    ensures var r := AddOrUpdate(users, name, seed, hashed);
      && FirstMatch(r, name).Some?
      && r[FirstMatch(r, name).value] == UserRecord(name, seed, hashed)
  {
    var r := AddOrUpdate(users, name, seed, hashed);
    AddOrUpdateShape(users, name, seed, hashed);
    match FirstMatch(users, name) {
      case Some(i) =>
        assert FirstMatch(r, name) == Some(i) by {
          forall j | 0 <= j < i ensures r[j].user != name {
            assert r[j] == users[j];
          }
        }
      case None =>
        assert r[|users|].user == name;
        assert FirstMatch(r, name) == Some(|users|) by {
          forall j | 0 <= j < |users| ensures r[j].user != name {
            assert r[j] == users[j];
          }
        }
    }
  }

  /** After adding a user with hash(seed, passwd), that user validates with passwd. */
  lemma ValidatesAfterAdd(users: seq<UserRecord>, name: Bytes, seed: Bytes, passwd: Bytes, sha: Bytes -> Bytes)
    ensures Validates(AddOrUpdate(users, name, seed, HashPassword(sha, seed, passwd)), name, passwd, sha)
  {
    AddedIsFirst(users, name, seed, HashPassword(sha, seed, passwd));
  }

  /**
   * With a collision-free hash, the added user validates with its own
   * password and with no other: the seed is hashed in front of the password,
   * so different passwords give different hash inputs.
   */
  lemma ValidatesOnlyWithPassword(users: seq<UserRecord>, name: Bytes, seed: Bytes, passwd: Bytes, other: Bytes,
                                  sha: Bytes -> Bytes)
    requires forall a, b :: sha(a) == sha(b) ==> a == b
    ensures Validates(AddOrUpdate(users, name, seed, HashPassword(sha, seed, passwd)), name, other, sha)
        <==> other == passwd
  {
    AddedIsFirst(users, name, seed, HashPassword(sha, seed, passwd));
    if other != passwd {
      assert (seed + other)[|seed|..] == other && (seed + passwd)[|seed|..] == passwd;
      assert seed + other != seed + passwd;
    }
  }

  /** After adding one user, every other name validates exactly as before. */
  lemma AddKeepsOthers(users: seq<UserRecord>, name: Bytes, other: Bytes, seed: Bytes, hashed: Bytes,
                       passwd: Bytes, sha: Bytes -> Bytes)
    requires other != name
    ensures Validates(AddOrUpdate(users, name, seed, hashed), other, passwd, sha) == Validates(users, other, passwd, sha)
  {
    var r := AddOrUpdate(users, name, seed, hashed);
    AddOrUpdateShape(users, name, seed, hashed);
    assert forall j :: 0 <= j < |users| ==> r[j].user == users[j].user && (r[j].user == other ==> r[j] == users[j]);
    if FirstMatch(users, other).None? {
      assert FirstMatch(r, other).None? by {
        forall j | 0 <= j < |r| ensures r[j].user != other {
          if j == |users| {
            assert FirstMatch(users, name).None? && r[j].user == name;
          }
        }
      }
    } else {
      var i := FirstMatch(users, other).value;
      assert r[i].user == other;
      assert FirstMatch(r, other) == Some(i);
    }
  }

  /** The update loop of addUser: set the seed and hash of the first match and stop, else append. */
  method AddUserRecord(users: seq<UserRecord>, name: Bytes, seed: Bytes, hashed: Bytes) returns (users': seq<UserRecord>)
    ensures users' == AddOrUpdate(users, name, seed, hashed)
  {
    users' := users;
    var exist := false;
    var i := 0;
    while i < |users'|
      invariant 0 <= i <= |users'| == |users|
      invariant !exist ==> users' == users && forall j :: 0 <= j < i ==> users[j].user != name
      invariant exist ==> users' == AddOrUpdate(users, name, seed, hashed)
      decreases if exist then 0 else |users'| - i + 1
    {
      if users'[i].user == name {
        assert FirstMatch(users, name) == Some(i);
        users' := users'[i := UserRecord(users'[i].user, seed, hashed)];
        exist := true;
        break;
      }
      i := i + 1;
    }
    if !exist {
      users' := users' + [UserRecord(name, seed, hashed)];
    }
  }

  /**
   * addUser on the stored file: an unreadable or unparsable file counts as
   * an empty list; the new list replaces the file unless it cannot be marshalled.
   */
  method AddUserFile(db: Option<Bytes>, name: Bytes, passwd: Bytes, seed: Bytes,
                     sha: Bytes -> Bytes, dec: UserDecoder, enc: UserEncoder) returns (db': Option<Bytes>)
    ensures var users := if db.Some? && db.value in dec then dec[db.value] else [];
      var stored := AddOrUpdate(users, name, seed, HashPassword(sha, seed, passwd));
      db' == if stored in enc then Some(enc[stored]) else db
  {
    var hashed := HashPassword(sha, seed, passwd);
    var users: seq<UserRecord> := [];
    if db.Some? && db.value in dec {
      users := dec[db.value];
    }
    users := AddUserRecord(users, name, seed, hashed);
    if users !in enc {
      // failed to marshal passwords
      return db;
    }
    db' := Some(enc[users]);
  }

  /** What the password prompts led to. */
  datatype AddOutcome = ReadFailed | TooShort | Mismatch | Stored

  const MinPasswordLength: nat := 12

  /**
   * AddUser: a failed read, a password shorter than 12 bytes or a differing
   * confirmation stops before the store is touched; otherwise addUser runs.
   * The confirmation is only read once the first password is long enough.
   */
  method AddUser(name: Bytes, pw1: Option<Bytes>, pw2: Option<Bytes>, db: Option<Bytes>, seed: Bytes,
                 sha: Bytes -> Bytes, dec: UserDecoder, enc: UserEncoder) returns (outcome: AddOutcome, db': Option<Bytes>)
    ensures outcome == (if pw1.None? then ReadFailed
                        else if |pw1.value| < MinPasswordLength then TooShort
                        else if pw2.None? then ReadFailed
                        else if pw1 != pw2 then Mismatch
                        else Stored)
    ensures outcome != Stored ==> db' == db
    ensures outcome == Stored ==>
      var users := if db.Some? && db.value in dec then dec[db.value] else [];
      var stored := AddOrUpdate(users, name, seed, HashPassword(sha, seed, pw1.value));
      db' == if stored in enc then Some(enc[stored]) else db
  {
    if pw1.None? {
      return ReadFailed, db;
    }
    if |pw1.value| < MinPasswordLength {
      return TooShort, db;
    }
    if pw2.None? {
      return ReadFailed, db;
    }
    if pw1.value != pw2.value {
      return Mismatch, db;
    }
    db' := AddUserFile(db, name, pw1.value, seed, sha, dec, enc);
    outcome := Stored;
  }

  /** The list DelUser stores when the name is present: the first match spliced out. */
  function RemoveFirst(users: seq<UserRecord>, name: Bytes): seq<UserRecord>
  {
    match FirstMatch(users, name)
    case None => users
    case Some(i) => users[..i] + users[i + 1..]
  }

  /** Deleting removes exactly one record, the first one with the name, and keeps the rest in order. */
  lemma RemoveFirstShape(users: seq<UserRecord>, name: Bytes)
    ensures var r := RemoveFirst(users, name);
      match FirstMatch(users, name)
      case None => r == users
      case Some(i) =>
        && |r| == |users| - 1
        && (forall j :: 0 <= j < i ==> r[j] == users[j])
        && (forall j :: i <= j < |r| ==> r[j] == users[j + 1])
        && multiset(r) + multiset{users[i]} == multiset(users)
  {
    match FirstMatch(users, name) {
      case None =>
      case Some(i) => Splice(users, i);
    }
  }

  lemma Splice(users: seq<UserRecord>, i: nat)
    requires i < |users|
    ensures var r := users[..i] + users[i + 1..];
      && |r| == |users| - 1
      && (forall j :: 0 <= j < i ==> r[j] == users[j])
      && (forall j :: i <= j < |r| ==> r[j] == users[j + 1])
      && multiset(r) + multiset{users[i]} == multiset(users)
  {
    var a, b := users[..i], users[i + 1..];
    assert users == a + [users[i]] + b;
    assert multiset(users) == multiset(a) + multiset{users[i]} + multiset(b);
  }

  /** After deleting a name that occurred once, it no longer validates with any password. */
  lemma DeletedDoesNotValidate(users: seq<UserRecord>, name: Bytes, passwd: Bytes, sha: Bytes -> Bytes)
    requires forall j, k :: 0 <= j < k < |users| && users[j].user == name ==> users[k].user != name
    ensures !Validates(RemoveFirst(users, name), name, passwd, sha)
  {
    var r := RemoveFirst(users, name);
    RemoveFirstShape(users, name);
    if FirstMatch(users, name).Some? {
      var i := FirstMatch(users, name).value;
      forall j | 0 <= j < |r| ensures r[j].user != name {
        if j >= i {
          assert r[j] == users[j + 1];
        }
      }
    }
  }

  /** The splice loop of DelUser; `exist` tells whether a record was removed. */
  method RemoveUserRecord(users: seq<UserRecord>, name: Bytes) returns (users': seq<UserRecord>, exist: bool)
    ensures exist == FirstMatch(users, name).Some?
    ensures users' == RemoveFirst(users, name)
  {
    users' := users;
    exist := false;
    var i := 0;
    while i < |users'|
      invariant 0 <= i <= |users|
      invariant !exist ==> users' == users && forall j :: 0 <= j < i ==> users[j].user != name
      invariant exist ==> FirstMatch(users, name).Some? && users' == RemoveFirst(users, name)
      decreases if exist then 0 else |users| - i + 1
    {
      if users'[i].user == name {
        assert FirstMatch(users, name) == Some(i);
        users' := users'[..i] + users'[i + 1..];
        exist := true;
        break;
      }
      i := i + 1;
    }
  }

  /**
   * DelUser: nothing is written when the file cannot be read or parsed, when
   * the name is absent or when the new list cannot be marshalled.
   */
  method DelUser(name: Bytes, db: Option<Bytes>, dec: UserDecoder, enc: UserEncoder) returns (db': Option<Bytes>)
    ensures db.None? || db.value !in dec ==> db' == db
    ensures db.Some? && db.value in dec ==>
      var users := dec[db.value];
      var kept := RemoveFirst(users, name);
      db' == if FirstMatch(users, name).Some? && kept in enc then Some(enc[kept]) else db
  {
    if db.None? {
      // failed to read users file
      return db;
    }
    if db.value !in dec {
      // failed to parse json format
      return db;
    }
    var users, exist := RemoveUserRecord(dec[db.value], name);
    if exist {
      if users !in enc {
        return db;
      }
      return Some(enc[users]);
    }
    db' := db;
  }

  /** The search loop of ValidateUser: the first record with the name decides. */
  method CheckUsers(users: seq<UserRecord>, name: Bytes, passwd: Bytes, sha: Bytes -> Bytes) returns (ok: bool)
    ensures ok == Validates(users, name, passwd, sha)
  {
    var i := 0;
    while i < |users|
      invariant 0 <= i <= |users|
      invariant forall j :: 0 <= j < i ==> users[j].user != name
    {
      var u := users[i];
      if u.user == name {
        assert FirstMatch(users, name) == Some(i);
        var hashed := HashPassword(sha, u.seed, passwd);
        return hashed == u.passwd;
      }
      i := i + 1;
    }
    return false;
  }

  /** ValidateUser: false when the file cannot be read or parsed, else the first match decides. */
  method ValidateUser(name: Bytes, passwd: Bytes, db: Option<Bytes>, sha: Bytes -> Bytes, dec: UserDecoder) returns (ok: bool)
    ensures ok <==> db.Some? && db.value in dec && Validates(dec[db.value], name, passwd, sha)
  {
    if db.None? || db.value !in dec {
      return false;
    }
    ok := CheckUsers(dec[db.value], name, passwd, sha);
  }
}
