/**
 * The sqlite metadata store.  `users` has a UNIQUE `email` column; `files` has an
 * AUTOINCREMENT `id`.  Each table is a sequence in rowid order, and the id
 * counter is never reset: sqlite does not reuse AUTOINCREMENT ids after a
 * DELETE, not even after `DELETE FROM files`.
 */
module Database {
  import opened Common

  /** The `status` column. `Processing` is the handlers' initial value and is never stored. */
  datatype Status = Processing | Done | Error

  /** A row of `users` (its own `id` is never read and is not modelled). */
  datatype User = User(fullName: string, email: string, passwordHash: string)

  /** A row of `files`. */
  datatype FileRecord = FileRecord(id: nat, fileName: string, uploadTime: string, rowCount: nat,
                                   parquetPath: string, status: Status, userEmail: string)
  {
    /** The five columns the endpoints return: the row without `id` and `user_email`. */
    function View(): FileView {
      FileView(fileName, uploadTime, rowCount, parquetPath, status)
    }
  }

  /** The dictionary built for each row by `get_all_files` and `convert_file`. */
  datatype FileView = FileView(fileName: string, uploadTime: string, rowCount: nat,
                               parquetPath: string, status: Status)

  predicate UniqueEmails(users: seq<User>) {
    forall i, j :: 0 <= i < j < |users| ==> users[i].email != users[j].email
  }

  predicate EmailTaken(users: seq<User>, email: string) {
    exists i :: 0 <= i < |users| && users[i].email == email
  }

  predicate IdsAscending(files: seq<FileRecord>) {
    forall i, j :: 0 <= i < j < |files| ==> files[i].id < files[j].id
  }

  predicate IdsDescending(rows: seq<FileRecord>) {
    forall i, j :: 0 <= i < j < |rows| ==> rows[i].id > rows[j].id
  }

  predicate IdsBelow(files: seq<FileRecord>, bound: nat) {
    forall x :: x in files ==> x.id < bound
  }

  /** `WHERE file_name = ? AND user_email = ?` */
  predicate Matches(r: FileRecord, fileName: string, email: string) {
    r.fileName == fileName && r.userEmail == email
  }

  /** The number of rows owned by `email`. */
  function CountOwned(files: seq<FileRecord>, email: string): nat {
    if files == [] then 0
    else (if files[0].userEmail == email then 1 else 0) + CountOwned(files[1..], email)
  }

  lemma {:induction false} CountOwnedSnoc(files: seq<FileRecord>, x: FileRecord, email: string)
    ensures CountOwned(files + [x], email) == CountOwned(files, email) + (if x.userEmail == email then 1 else 0)
  {
    if files == [] {
      assert [x][1..] == [];
    } else {
      assert (files + [x])[1..] == files[1..] + [x];
      CountOwnedSnoc(files[1..], x, email);
    }
  }

  // ---------------------------------------------------------------- users

  /**
   * `SELECT full_name, email, password_hash FROM users WHERE email = ?` and
   * `fetchone()`: the first user with that email, if any.
   */
  function GetUserByEmail(users: seq<User>, email: string): (r: Option<User>)
    ensures r.None? <==> !EmailTaken(users, email)
    ensures r.Some? ==> r.value in users && r.value.email == email
  {
    if users == [] then None
    else if users[0].email == email then Some(users[0])
    else
      assert forall i :: 0 < i < |users| ==> users[i] == users[1..][i - 1];
      GetUserByEmail(users[1..], email)
  }

  /** With unique emails the lookup finds THE user that has the email. */
  lemma {:induction false} GetUserByEmailFinds(users: seq<User>, i: nat)
    requires UniqueEmails(users)
    requires i < |users|
    ensures GetUserByEmail(users, users[i].email) == Some(users[i])
  {
    if i > 0 {
      assert users[0].email != users[i].email;
      GetUserByEmailFinds(users[1..], i - 1);
    }
  }

  /** A user added under a fresh email is found by that email; other lookups are unaffected. */
  lemma {:induction false} GetUserByEmailAfterAdd(users: seq<User>, u: User, email: string)
    requires !EmailTaken(users, u.email)
    ensures GetUserByEmail(users + [u], email) ==
            if email == u.email then Some(u) else GetUserByEmail(users, email)
  {
    if users == [] {
      assert [u][1..] == [];
    } else {
      assert (users + [u])[1..] == users[1..] + [u];
      if users[0].email != email {
        assert !EmailTaken(users[1..], u.email) by {
          forall i | 0 <= i < |users[1..]| ensures users[1..][i].email != u.email {
            assert users[1..][i] == users[i + 1];
          }
        }
        GetUserByEmailAfterAdd(users[1..], u, email);
      }
    }
  }

  // ---------------------------------------------------------------- files

  /**
   * `SELECT ... FROM files WHERE user_email = ? ORDER BY id DESC`: the rows
   * owned by `email`, newest first.
   */
  function SelectOwned(files: seq<FileRecord>, email: string): (rows: seq<FileRecord>)
    ensures |rows| == CountOwned(files, email)
    ensures forall x :: x in rows <==> x in files && x.userEmail == email
    ensures IdsAscending(files) ==> IdsDescending(rows)
    decreases |files|
  {
    if files == [] then []
    else
      var n := |files| - 1;
      var older := SelectOwned(files[..n], email);
      assert files[..n] + [files[n]] == files;
      CountOwnedSnoc(files[..n], files[n], email);
      if files[n].userEmail == email then
        assert IdsAscending(files) ==> IdsDescending([files[n]] + older) by {
          if IdsAscending(files) { NewestOnTop(files, older); }
        }
        [files[n]] + older
      else
        older
  }

  /** Rows taken from before the last one all have smaller ids than it. */
  lemma NewestOnTop(files: seq<FileRecord>, older: seq<FileRecord>)
    requires files != [] && IdsAscending(files)
    requires forall x :: x in older ==> x in files[..|files| - 1]
    requires IdsAscending(files[..|files| - 1]) ==> IdsDescending(older)
    ensures IdsDescending([files[|files| - 1]] + older)
  {
    var n := |files| - 1;
    forall x | x in older ensures x.id < files[n].id {
      var i :| 0 <= i < n && files[..n][i] == x;
    }
    var rows := [files[n]] + older;
    forall i, j | 0 <= i < j < |rows| ensures rows[i].id > rows[j].id {
      assert rows[j] == older[j - 1];
      assert older[j - 1] in older;
      if i > 0 {
        assert rows[i] == older[i - 1];
      }
    }
  }

  /** Each row's five-column dictionary, in order (the list comprehension of `get_all_files`). */
  function Views(rows: seq<FileRecord>): (views: seq<FileView>)
    ensures |views| == |rows|
    ensures forall k :: 0 <= k < |rows| ==> views[k] == rows[k].View()
  {
    seq(|rows|, k requires 0 <= k < |rows| => rows[k].View())
  }

  /**
   * `get_all_files(user_email)`: the five-column view of every row owned by
   * `email` and of no other row, one entry per row.
   */
  function GetAllFiles(files: seq<FileRecord>, email: string): (views: seq<FileView>)
    ensures |views| == CountOwned(files, email)
    ensures OnlyOwned(files, email, views) && AllOwnedListed(files, email, views)
  {
    var views := Views(SelectOwned(files, email));
    OwnedViews(files, email, views);
    views
  }

  /** Every entry is the view of a row owned by `email`. */
  predicate OnlyOwned(files: seq<FileRecord>, email: string, views: seq<FileView>) {
    forall k :: 0 <= k < |views| ==>
      exists i :: 0 <= i < |files| && files[i].userEmail == email && views[k] == files[i].View()
  }

  /** The view of every row owned by `email` is an entry. */
  predicate AllOwnedListed(files: seq<FileRecord>, email: string, views: seq<FileView>) {
    forall i :: 0 <= i < |files| && files[i].userEmail == email ==> files[i].View() in views
  }

  lemma OwnedViews(files: seq<FileRecord>, email: string, views: seq<FileView>)
    requires views == Views(SelectOwned(files, email))
    ensures OnlyOwned(files, email, views) && AllOwnedListed(files, email, views)
  {
    var rows := SelectOwned(files, email);
    forall k | 0 <= k < |rows|
      ensures exists i :: 0 <= i < |files| && files[i].userEmail == email && views[k] == files[i].View()
    {
      assert rows[k] in rows;
      var i :| 0 <= i < |files| && files[i] == rows[k];
    }
    forall i | 0 <= i < |files| && files[i].userEmail == email
      ensures files[i].View() in views
    {
      assert files[i] in files;
      var k :| 0 <= k < |rows| && rows[k] == files[i];
      assert views[k] == files[i].View();
    }
  }

  /**
   * The listing is newest first: of two entries, the earlier one comes from a
   * row stored later (and so with the larger id).
   */
  lemma GetAllFilesNewestFirst(files: seq<FileRecord>, email: string, k: nat, l: nat)
    requires IdsAscending(files)
    requires k < l < |GetAllFiles(files, email)|
    ensures exists i, j :: 0 <= j < i < |files| && files[i].userEmail == email && files[j].userEmail == email
                           && GetAllFiles(files, email)[k] == files[i].View()
                           && GetAllFiles(files, email)[l] == files[j].View()
  {
    var rows := SelectOwned(files, email);
    assert rows[k] in files && rows[l] in files;
    var i :| 0 <= i < |files| && files[i] == rows[k];
    var j :| 0 <= j < |files| && files[j] == rows[l];
    assert rows[k].id > rows[l].id;
    assert j < i;
  }

  /** A row just appended heads its owner's listing. */
  lemma AppendedListedFirst(files: seq<FileRecord>, rec: FileRecord)
    ensures GetAllFiles(files + [rec], rec.userEmail) == [rec.View()] + GetAllFiles(files, rec.userEmail)
  {
    assert (files + [rec])[..|files|] == files;
    assert SelectOwned(files + [rec], rec.userEmail) == [rec] + SelectOwned(files, rec.userEmail);
    ViewsCons(rec, SelectOwned(files, rec.userEmail));
  }

  lemma ViewsCons(x: FileRecord, rows: seq<FileRecord>)
    ensures Views([x] + rows) == [x.View()] + Views(rows)
  {
    var a, b := Views([x] + rows), [x.View()] + Views(rows);
    forall k | 0 <= k < |a| ensures a[k] == b[k] {
      if k > 0 {
        assert ([x] + rows)[k] == rows[k - 1];
      }
    }
  }

  /** A row just appended does not change anyone else's listing. */
  lemma AppendedInvisibleToOthers(files: seq<FileRecord>, rec: FileRecord, email: string)
    requires email != rec.userEmail
    ensures GetAllFiles(files + [rec], email) == GetAllFiles(files, email)
  {
    assert (files + [rec])[..|files|] == files;
  }

  /** `DELETE FROM files WHERE file_name = ? AND user_email = ?`, rows kept in order. */
  function Without(files: seq<FileRecord>, fileName: string, email: string): (rest: seq<FileRecord>)
    ensures forall x :: x in rest <==> x in files && !Matches(x, fileName, email)
    ensures IdsAscending(files) ==> IdsAscending(rest)
    decreases |files|
  {
    if files == [] then []
    else
      var n := |files| - 1;
      var kept := Without(files[..n], fileName, email);
      assert files[..n] + [files[n]] == files;
      assert IdsAscending(files) ==> forall x :: x in kept ==> x.id < files[n].id;
      if Matches(files[n], fileName, email) then kept else kept + [files[n]]
  }

  /** After the delete, the owner's listing holds no entry with that file name. */
  lemma DeletedNotListed(files: seq<FileRecord>, fileName: string, email: string)
    ensures forall v :: v in GetAllFiles(Without(files, fileName, email), email) ==> v.fileName != fileName
  {
    var rest := Without(files, fileName, email);
    var views := GetAllFiles(rest, email);
    forall v | v in views ensures v.fileName != fileName {
      var k :| 0 <= k < |views| && views[k] == v;
      var i :| 0 <= i < |rest| && rest[i].userEmail == email && v == rest[i].View();
      assert rest[i] in rest;
    }
  }

  /** The delete does not change another user's listing. */
  lemma {:induction false} DeleteKeepsOthersListing(files: seq<FileRecord>, fileName: string, email: string, other: string)
    requires other != email
    ensures GetAllFiles(Without(files, fileName, email), other) == GetAllFiles(files, other)
  {
    SelectOwnedWithout(files, fileName, email, other);
  }

  lemma {:induction false} SelectOwnedWithout(files: seq<FileRecord>, fileName: string, email: string, other: string)
    requires other != email
    ensures SelectOwned(Without(files, fileName, email), other) == SelectOwned(files, other)
    decreases |files|
  {
    if files != [] {
      var n := |files| - 1;
      var kept := Without(files[..n], fileName, email);
      SelectOwnedWithout(files[..n], fileName, email, other);
      if !Matches(files[n], fileName, email) {
        assert (kept + [files[n]])[..|kept|] == kept;
      }
    }
  }

  /**
   * `UPDATE files SET row_count=?, parquet_path=?, status=? WHERE file_name=?
   * AND user_email=?`
   */
  function Updated(files: seq<FileRecord>, fileName: string, email: string,
                   rowCount: nat, parquetPath: string, status: Status): (r: seq<FileRecord>)
    ensures |r| == |files|
    ensures forall i :: 0 <= i < |files| ==>
              && r[i].id == files[i].id && r[i].fileName == files[i].fileName
              && r[i].uploadTime == files[i].uploadTime && r[i].userEmail == files[i].userEmail
    ensures forall i :: 0 <= i < |files| && Matches(files[i], fileName, email) ==>
              r[i].rowCount == rowCount && r[i].parquetPath == parquetPath && r[i].status == status
    ensures forall i :: 0 <= i < |files| && !Matches(files[i], fileName, email) ==> r[i] == files[i]
    decreases |files|
  {
    if files == [] then []
    else
      var n := |files| - 1;
      var last := files[n];
      var patched := if Matches(last, fileName, email)
                     then last.(rowCount := rowCount, parquetPath := parquetPath, status := status)
                     else last;
      Updated(files[..n], fileName, email, rowCount, parquetPath, status) + [patched]
  }

  /** The update keeps the ids, so it keeps them ascending and below the counter. */
  lemma UpdatedKeepsIds(files: seq<FileRecord>, fileName: string, email: string,
                        rowCount: nat, parquetPath: string, status: Status, bound: nat)
    requires IdsAscending(files) && IdsBelow(files, bound)
    ensures IdsAscending(Updated(files, fileName, email, rowCount, parquetPath, status))
    ensures IdsBelow(Updated(files, fileName, email, rowCount, parquetPath, status), bound)
  {
    var r := Updated(files, fileName, email, rowCount, parquetPath, status);
    forall x | x in r ensures x.id < bound {
      var i :| 0 <= i < |r| && r[i] == x;
      assert files[i] in files;
    }
  }

  /**
   * `fetchone()` after `SELECT ... WHERE file_name=? AND user_email=?` with no
   * ORDER BY: the index of the first matching row in rowid order.
   */
  function FirstMatch(files: seq<FileRecord>, fileName: string, email: string): (r: Option<nat>)
    ensures r.None? <==> forall i :: 0 <= i < |files| ==> !Matches(files[i], fileName, email)
    ensures r.Some? ==> r.value < |files| && Matches(files[r.value], fileName, email)
    ensures r.Some? ==> forall j :: 0 <= j < r.value ==> !Matches(files[j], fileName, email)
  {
    if files == [] then None
    else if Matches(files[0], fileName, email) then Some(0)
    else match FirstMatch(files[1..], fileName, email)
      case None => None
      case Some(i) => Some(i + 1)
  }

  /** The update changes no file name or owner, so the same row is found first afterwards. */
  lemma UpdatedFirstMatch(files: seq<FileRecord>, fileName: string, email: string,
                          rowCount: nat, parquetPath: string, status: Status)
    ensures FirstMatch(Updated(files, fileName, email, rowCount, parquetPath, status), fileName, email)
            == FirstMatch(files, fileName, email)
  {
    SameMatchesSameFirst(Updated(files, fileName, email, rowCount, parquetPath, status), files, fileName, email);
  }

  lemma {:induction false} SameMatchesSameFirst(a: seq<FileRecord>, b: seq<FileRecord>, fileName: string, email: string)
    requires |a| == |b|
    requires forall i :: 0 <= i < |a| ==> (Matches(a[i], fileName, email) <==> Matches(b[i], fileName, email))
    ensures FirstMatch(a, fileName, email) == FirstMatch(b, fileName, email)
    decreases |a|
  {
    if a != [] {
      SameMatchesSameFirst(a[1..], b[1..], fileName, email);
    }
  }

  // ---------------------------------------------------------------- the store

  /** The two tables and the AUTOINCREMENT counter of `files`. */
  class Store {
    var users: seq<User>
    var files: seq<FileRecord>
    var nextId: nat

    ghost predicate Valid()
      reads this
    {
      UniqueEmails(users) && IdsAscending(files) && IdsBelow(files, nextId) && 1 <= nextId
    }

    /** `init_db()` on a fresh database: both tables exist and are empty. */
    constructor ()
      ensures Valid()
      ensures users == [] && files == [] && nextId == 1
    {
      users, files, nextId := [], [], 1;
    }

    /** `add_file_metadata`: one INSERT; the new row gets the next id. */
    method AddFileMetadata(fileName: string, uploadTime: string, rowCount: nat,
                           parquetPath: string, status: Status, userEmail: string)
      requires Valid()
      modifies this
      ensures Valid()
      ensures files == old(files) + [FileRecord(old(nextId), fileName, uploadTime, rowCount,
                                                parquetPath, status, userEmail)]
      ensures forall x :: x in old(files) ==> x.id < old(nextId)
      ensures nextId == old(nextId) + 1 && users == old(users)
    {
      files := files + [FileRecord(nextId, fileName, uploadTime, rowCount, parquetPath, status, userEmail)];
      nextId := nextId + 1;
    }

    /**
     * `add_user`: stores the hash of the password, never the password; the
     * UNIQUE constraint makes the INSERT fail, and the call return false, when
     * the email is already present.
     */
    method AddUser(fullName: string, email: string, password: string, sha256: Hasher) returns (ok: bool)
      requires Valid()
      modifies this
      ensures Valid()
      ensures ok <==> !EmailTaken(old(users), email)
      ensures users == if ok then old(users) + [User(fullName, email, sha256(password))] else old(users)
      ensures files == old(files) && nextId == old(nextId)
    {
      var passwordHash := sha256(password);
      if GetUserByEmail(users, email).Some? {
        ok := false;
      } else {
        users := users + [User(fullName, email, passwordHash)];
        ok := true;
      }
    }

    /** `DELETE FROM files WHERE file_name = ? AND user_email = ?` */
    method DeleteFile(fileName: string, email: string)
      requires Valid()
      modifies this
      ensures Valid()
      ensures files == Without(old(files), fileName, email)
      ensures users == old(users) && nextId == old(nextId)
    {
      files := Without(files, fileName, email);
    }

    /** `UPDATE files SET row_count=?, parquet_path=?, status=? WHERE file_name=? AND user_email=?` */
    method UpdateFile(fileName: string, email: string, rowCount: nat, parquetPath: string, status: Status)
      requires Valid()
      modifies this
      ensures Valid()
      ensures files == Updated(old(files), fileName, email, rowCount, parquetPath, status)
      ensures users == old(users) && nextId == old(nextId)
    {
      UpdatedKeepsIds(files, fileName, email, rowCount, parquetPath, status, nextId);
      files := Updated(files, fileName, email, rowCount, parquetPath, status);
    }

    /** `DELETE FROM files`: every user's rows; the id counter is kept. */
    method DeleteAllFiles()
      requires Valid()
      modifies this
      ensures Valid()
      ensures files == [] && users == old(users) && nextId == old(nextId)
    {
      files := [];
    }
  }
}
