/** The user table of auth.py: the users file is a header `username;password`
    followed by one row per registered user, whose `password` column holds the
    stored `salt:digest` value of module Passwords (never the plain password).
    Registration appends a row when the username is new; login decides by the
    first row carrying the username. */
module Users {
  import opened Passwords

  /** One data row of the users file. */
  datatype Row = Row(username: string, stored: string)

  /** Some row of the table carries this username (exact, case-sensitive match). */
  predicate HasUser(rows: seq<Row>, username: string) {
    exists i :: 0 <= i < |rows| && rows[i].username == username
  }

  /** No username appears on two rows. */
  predicate UniqueUsernames(rows: seq<Row>) {
    forall i, j :: 0 <= i < j < |rows| ==> rows[i].username != rows[j].username
  }

  /** The index of the first row carrying the username, if there is one. */
  function FirstMatch(rows: seq<Row>, username: string): (r: Option<nat>)
    ensures r.None? <==> !HasUser(rows, username)
    ensures r.Some? ==> r.value < |rows| && rows[r.value].username == username
    ensures r.Some? ==> forall j :: 0 <= j < r.value ==> rows[j].username != username
  {
    if |rows| == 0 then None
    else if rows[0].username == username then Some(0)
    else
      match FirstMatch(rows[1..], username)
      case None =>
        assert forall i :: 1 <= i < |rows| ==> rows[i] == rows[1..][i - 1];
        None
      case Some(k) =>
        assert forall j :: 1 <= j < k + 1 ==> rows[j] == rows[1..][j - 1];
        Some(k + 1)
  }

  /** The dictionary a reader builds from the rows, in file order: each username
      maps to the stored value of its last row. */
  function UserMap(rows: seq<Row>): map<string, string>
  {
    if rows == [] then map[]
    else
      var last := rows[|rows| - 1];
      UserMap(rows[..|rows| - 1])[last.username := last.stored]
  }

  /** What a login decides against a table: false when no row carries the
      username, otherwise the password check against the first such row alone. */
  function Login(hash: string -> string, rows: seq<Row>, username: string, password: string): bool
  {
    match FirstMatch(rows, username)
    case None => false
    case Some(i) => VerifyPassword(hash, rows[i].stored, password)
  }

  /** The usernames of the dictionary are exactly the usernames of the rows. */
  lemma {:induction false} UserMapKeys(rows: seq<Row>, username: string)
    ensures username in UserMap(rows) <==> HasUser(rows, username)
  {
    if rows != [] {
      var init := rows[..|rows| - 1];
      UserMapKeys(init, username);
      if HasUser(init, username) {
        var i :| 0 <= i < |init| && init[i].username == username;
        assert rows[i].username == username;
      }
      if HasUser(rows, username) && rows[|rows| - 1].username != username {
        var i :| 0 <= i < |rows| && rows[i].username == username;
        assert init[i].username == username;
      }
    }
  }

  /** A username's dictionary entry is the stored value of its last row. */
  lemma {:induction false} UserMapLastRow(rows: seq<Row>, i: nat)
    requires i < |rows|
    requires forall j :: i < j < |rows| ==> rows[j].username != rows[i].username
    ensures rows[i].username in UserMap(rows)
    ensures UserMap(rows)[rows[i].username] == rows[i].stored
  {
    if i < |rows| - 1 {
      var init := rows[..|rows| - 1];
      UserMapLastRow(init, i);
    }
  }

  /** Reads the rows in order into a dictionary from username to stored value. */
  method LoadUsers(rows: seq<Row>) returns (users: map<string, string>)
    ensures users == UserMap(rows)
  {
    users := map[];
    var i := 0;
    while i < |rows|
      invariant 0 <= i <= |rows|
      invariant users == UserMap(rows[..i])
    {
      assert rows[..i + 1][..i] == rows[..i];
      users := users[rows[i].username := rows[i].stored];
      i := i + 1;
    }
    assert rows[..|rows|] == rows;
  }

  /** Scans the rows in order and answers from the first row carrying the
      username; false when no row does. */
  method ScanRows(rows: seq<Row>, username: string, password: string, hash: string -> string)
    returns (ok: bool)
    ensures ok == Login(hash, rows, username, password)
  {
    var i := 0;
    while i < |rows|
      invariant 0 <= i <= |rows|
      invariant forall j :: 0 <= j < i ==> rows[j].username != username
    {
      if rows[i].username == username {
        ok := VerifyPassword(hash, rows[i].stored, password);
        return;
      }
      i := i + 1;
    }
    ok := false;
  }

  /** A login by a username no row carries fails. */
  lemma LoginUnknownUser(hash: string -> string, rows: seq<Row>, username: string, password: string)
    requires !HasUser(rows, username)
    ensures !Login(hash, rows, username, password)
  {
  }

  /** A login by a username some row carries is the password check against the
      first such row: later rows with the same username are never consulted. */
  lemma LoginFirstRow(hash: string -> string, rows: seq<Row>, i: nat, password: string)
    requires i < |rows|
    requires forall j :: 0 <= j < i ==> rows[j].username != rows[i].username
    ensures Login(hash, rows, rows[i].username, password) == VerifyPassword(hash, rows[i].stored, password)
  {
    assert HasUser(rows, rows[i].username);
  }

  /** Rows appended after a row for the username do not change its login. */
  lemma LoginIgnoresLaterRows(hash: string -> string, rows: seq<Row>, extra: seq<Row>, username: string, password: string)
    requires HasUser(rows, username)
    ensures Login(hash, rows + extra, username, password) == Login(hash, rows, username, password)
  {
    var i := FirstMatch(rows, username).value;
    assert forall j :: 0 <= j <= i ==> (rows + extra)[j] == rows[j];
    LoginFirstRow(hash, rows, i, password);
    LoginFirstRow(hash, rows + extra, i, password);
  }

  /** Appending a row for another username does not change a login. */
  lemma LoginIgnoresOtherUser(hash: string -> string, rows: seq<Row>, row: Row, username: string, password: string)
    requires row.username != username
    ensures Login(hash, rows + [row], username, password) == Login(hash, rows, username, password)
  {
    if HasUser(rows, username) {
      LoginIgnoresLaterRows(hash, rows, [row], username, password);
    }
  }

  /** Appending the stored form of a password for a new username makes that
      username and password log in. */
  lemma LoginAfterCreate(hash: string -> string, rows: seq<Row>, username: string, password: string, salt: string)
    requires IsHexSalt(salt)
    requires !HasUser(rows, username)
    ensures Login(hash, rows + [Row(username, HashPassword(hash, salt, password))], username, password)
  {
    var table := rows + [Row(username, HashPassword(hash, salt, password))];
    LoginFirstRow(hash, table, |rows|, password);
    RoundTrip(hash, salt, password);
  }

  /** The users file, which may be missing. */
  class UsersFile {
    /** Whether the file exists. */
    var present: bool
    /** Its data rows, in file order, below the header. */
    var rows: seq<Row>

    /** The rows a reader sees: none when the file is missing. */
    function Table(): seq<Row>
      reads this
    {
      if present then rows else []
    }

    constructor (present: bool, rows: seq<Row>)
      ensures this.present == present && this.rows == rows
    {
      this.present := present;
      this.rows := rows;
    }

    /** Creates the file with its header alone when it is missing. */
    method EnsureExists()
      modifies this
      ensures present
      ensures rows == old(Table())
      ensures !old(present) ==> rows == []
    {
      if !present {
        present := true;
        rows := [];
      }
    }

    /** Registers a user: refused, with the table unchanged, when a row already
        carries the username; otherwise exactly one row holding the username and
        the stored form of the password under `salt` is appended. */
    method CreateUser(username: string, password: string, salt: string, hash: string -> string)
      returns (created: bool)
      requires IsHexSalt(salt)
      modifies this
      ensures present
      ensures created <==> !HasUser(old(Table()), username)
      ensures created ==> rows == old(Table()) + [Row(username, HashPassword(hash, salt, password))]
      ensures !created ==> rows == old(Table())
      ensures UniqueUsernames(old(Table())) ==> UniqueUsernames(rows)
    {
      EnsureExists();
      var users := LoadUsers(rows);
      UserMapKeys(rows, username);
      if username in users {
        return false;
      }
      var stored := HashPassword(hash, salt, password);
      rows := rows + [Row(username, stored)];
      created := true;
    }

    /** Answers whether the username and password log in, creating the file
        with its header alone first when it is missing. */
    method CheckLogin(username: string, password: string, hash: string -> string)
      returns (ok: bool)
      modifies this
      ensures present
      ensures rows == old(Table())
      ensures ok == Login(hash, rows, username, password)
    {
      EnsureExists();
      ok := ScanRows(rows, username, password, hash);
    }
  }

  /** A registration that succeeds is followed by a login that succeeds with the
      same username and password; one that is refused leaves the earlier user's
      login as it was. */
  method RegisterThenLogin(file: UsersFile, username: string, password: string, salt: string, hash: string -> string)
    returns (created: bool, ok: bool)
    requires IsHexSalt(salt)
    modifies file
    ensures created ==> ok
    ensures !created ==> ok == Login(hash, old(file.Table()), username, password)
  {
    ghost var before := file.Table();
    created := file.CreateUser(username, password, salt, hash);
    ok := file.CheckLogin(username, password, hash);
    if created {
      LoginAfterCreate(hash, before, username, password, salt);
    }
  }
}
