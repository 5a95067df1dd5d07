/**
 * The HTTP endpoints: what each handler decides and what it does to the
 * metadata store and to the two directories (raw uploads and parquet outputs).
 * Each directory is the set of file names it holds.  Saving an upload and
 * converting it are outside the model; their outcomes arrive as parameters.
 */
module App {
  import opened Common
  import opened PyStr
  import opened Database
  import Auth

  const UploadDir := "./backend/uploads/"
  const ParquetDir := "./backend/parquet/"

  const InvalidCredentials := HttpError(401, "Invalid credentials")
  const EmailExists := HttpError(400, "Email already exists")
  const RegistrationFailed := HttpError(500, "Registration failed")
  const EmailHeaderMissing := HttpError(400, "User email header missing")
  const OnlyCsvAllowed := HttpError(400, "Only CSV files are allowed.")
  const SaveFailed := HttpError(500, "Failed to save file.")
  const FieldsMissing := HttpError(400, "User email or file name missing")
  const CsvNotFound := HttpError(404, "CSV file not found")
  const MetadataNotFound := HttpError(404, "File metadata not found")

  /** The body `/login` returns. */
  datatype Session = Session(token: string, fullName: string)

  /**
   * `file_name.replace('.csv', '.parquet')`: the name of the converted file.
   * It is never shorter than the upload's name.
   */
  function ParquetName(fileName: string): (name: string)
    ensures |name| >= |fileName|
  {
    ReplaceLength(fileName, ".csv", ".parquet");
    Replace(fileName, ".csv", ".parquet")
  }

  /**
   * `os.path.join(PARQUET_DIR, ...)`: the `parquet_path` recorded for a file
   * name.  It lies in the parquet directory unless the name is absolute, in
   * which case the directory is discarded.
   */
  function ParquetPath(fileName: string): (path: string)
    ensures !StartsWith(fileName, "/") ==> path == ParquetDir + ParquetName(fileName)
    ensures StartsWith(fileName, "/") ==> path == ParquetName(fileName)
  {
    // the parquet name is absolute exactly when the upload's name is: a name
    // that starts with ".csv" gets ".parquet" in front, any other keeps its first character
    assert StartsWith(ParquetName(fileName), "/") <==> StartsWith(fileName, "/") by {
      if |fileName| > 0 && !StartsWith(fileName, ".csv") {
        assert ParquetName(fileName)[0] == fileName[0];
      }
    }
    JoinPath(ParquetDir, ParquetName(fileName))
  }

  /** Appending ".csv" to any stem appends ".parquet" to the stem's parquet name. */
  lemma {:induction false} ParquetNameOfCsv(stem: string)
    ensures ParquetName(stem + ".csv") == ParquetName(stem) + ".parquet"
    decreases |stem|
  {
    var s := stem + ".csv";
    // ".csv" cannot overlap itself, so an occurrence at the front of `s` that
    // is not the appended one lies wholly inside the stem
    assert 1 <= |stem| < 4 ==> s[..4] != ".csv" by {
      if 1 <= |stem| < 4 {
        assert s[|stem|] == '.' && ".csv"[|stem|] != '.';
      }
    }
    if stem == [] {
      assert s == ".csv";
      assert s[4..] == [];
    } else if s[..4] == ".csv" {
      assert stem[..4] == ".csv";
      assert s[4..] == stem[4..] + ".csv";
      ParquetNameOfCsv(stem[4..]);
    } else {
      assert s[1..] == stem[1..] + ".csv";
      ParquetNameOfCsv(stem[1..]);
      if |stem| >= 4 {
        assert stem[..4] == s[..4];
      } else {
        assert Replace(stem[1..], ".csv", ".parquet") == stem[1..];
        assert [stem[0]] + stem[1..] == stem;
      }
    }
  }

  /** Every accepted upload name yields a parquet name ending in ".parquet". */
  lemma CsvNameYieldsParquet(fileName: string)
    requires EndsWith(fileName, ".csv")
    ensures EndsWith(ParquetName(fileName), ".parquet")
  {
    var stem := fileName[..|fileName| - 4];
    assert fileName == stem + ".csv";
    ParquetNameOfCsv(stem);
  }

  /** A name without ".csv" anywhere is its own parquet name. */
  lemma NonCsvNameUnchanged(fileName: string)
    requires !Contains(fileName, ".csv")
    ensures ParquetName(fileName) == fileName
  {
    ReplaceAbsent(fileName, ".csv", ".parquet");
  }

  /** ".parquet" holds no ".csv", so it is its own parquet name. */
  lemma ParquetIsOwnParquetName()
    ensures ParquetName(".parquet") == ".parquet"
  {
    var s := ".parquet";
    forall i: nat | i <= |s| ensures !OccursAt(s, ".csv", i) {
      if i + 4 <= |s| {
        assert s[i..i + 4][0] == s[i] && s[i..i + 4][1] == s[i + 1];
      }
    }
    NonCsvNameUnchanged(s);
  }

  /** Appending ".parquet" to a stem appends it to the stem's parquet name: no ".csv" straddles the seam. */
  lemma {:induction false} ParquetNameOfParquet(stem: string)
    ensures ParquetName(stem + ".parquet") == ParquetName(stem) + ".parquet"
    decreases |stem|
  {
    var s := stem + ".parquet";
    if stem == [] {
      ParquetIsOwnParquetName();
      assert s == ".parquet";
    } else {
      assert 1 <= |stem| < 4 ==> s[..4] != ".csv" by {
        if 1 <= |stem| < 4 {
          assert s[|stem|] == '.' && ".csv"[|stem|] != '.';
        }
      }
      if s[..4] == ".csv" {
        assert stem[..4] == ".csv";
        assert s[4..] == stem[4..] + ".parquet";
        ParquetNameOfParquet(stem[4..]);
        assert ParquetName(s) == ".parquet" + ParquetName(s[4..]);
        assert ParquetName(stem) == ".parquet" + ParquetName(stem[4..]);
      } else {
        assert s[1..] == stem[1..] + ".parquet";
        ParquetNameOfParquet(stem[1..]);
        assert ParquetName(s) == [s[0]] + ParquetName(s[1..]);
        if |stem| >= 4 {
          assert stem[..4] == s[..4];
          assert ParquetName(stem) == [stem[0]] + ParquetName(stem[1..]);
        } else {
          assert ParquetName(stem) == stem;
          assert ParquetName(stem[1..]) == stem[1..];
          assert [stem[0]] + stem[1..] == stem;
        }
      }
    }
  }

  /**
   * Every ".csv" is replaced, not just the suffix, so two different uploads
   * -- "x.csv.csv" and "x.parquet.csv" -- share one parquet file.
   */
  lemma ParquetNamesCollide(stem: string)
    ensures ParquetName(stem + ".csv.csv") == ParquetName(stem + ".parquet.csv")
                                           == ParquetName(stem) + ".parquet.parquet"
  {
    assert stem + ".csv.csv" == stem + ".csv" + ".csv";
    assert stem + ".parquet.csv" == stem + ".parquet" + ".csv";
    ParquetNameOfCsv(stem + ".csv");
    ParquetNameOfCsv(stem);
    ParquetNameOfCsv(stem + ".parquet");
    ParquetNameOfParquet(stem);
  }

  /** The try/except around `convert_csv_to_parquet`: the row count and status recorded. */
  datatype Outcome = Outcome(rowCount: nat, status: Status)

  /**
   * `None` stands for the conversion raising.  The status is "Done" exactly
   * when rows were counted, so a header-only file is an error too.
   */
  function ConversionOutcome(converted: Option<nat>): (o: Outcome)
    ensures o.status == Done <==> converted.Some? && converted.value > 0
    ensures o.status == Error <==> !(converted.Some? && converted.value > 0)
    ensures o.rowCount == if converted.Some? then converted.value else 0
  {
    match converted
    case Some(n) => Outcome(n, if n > 0 then Done else Error)
    case None => Outcome(0, Error)
  }

  /** The service: the store, the two directories and the digest it hashes passwords with. */
  class Service {
    const db: Store
    const sha256: Hasher
    var uploads: set<string>
    var parquets: set<string>

    ghost predicate Valid()
      reads this, db
    {
      db.Valid()
    }

    /** Start-up: `init_db()` on a fresh database, and both directories created empty. */
    constructor (sha256: Hasher)
      ensures Valid() && fresh(db) && this.sha256 == sha256
      ensures db.users == [] && db.files == [] && db.nextId == 1 && uploads == {} && parquets == {}
    {
      this.sha256 := sha256;
      db := new Store();
      uploads, parquets := {}, {};
    }

    /** `Depends(get_current_token)` lets the request through. */
    predicate Authorized(authorization: Option<string>)
      ensures Authorized(authorization) <==> authorization == Some(Auth.BearerPrefix + Auth.StaticToken)
    {
      Auth.GetCurrentToken(authorization).Ok?
    }

    /**
     * `/login`: the static token and the full name when the credentials check
     * out -- and the full name is non-empty, because the handler tests the
     * name's truthiness.
     */
    function Login(email: string, password: string): (r: Result<Session>)
      requires Valid()
      reads this, db
      ensures r.Err? ==> r.error == InvalidCredentials
      ensures r.Ok? <==> exists i :: 0 <= i < |db.users| && db.users[i].email == email
                                    && db.users[i].passwordHash == sha256(password) && db.users[i].fullName != ""
      ensures r.Ok? ==> r.value.token == Auth.StaticToken &&
                        exists i :: 0 <= i < |db.users| && db.users[i] == User(r.value.fullName, email, sha256(password))
    {
      var authenticated := Auth.AuthenticateUser(db.users, sha256, email, password);
      Auth.AuthenticatedWithName(db.users, sha256, email, password);
      if authenticated.Some? && authenticated.value != "" then
        Ok(Session(Auth.StaticToken, authenticated.value))
      else
        Err(InvalidCredentials)
    }

    /** `/register`: refused with 400 when the email is taken, otherwise one user is added. */
    method Register(fullName: string, email: string, password: string) returns (r: Result<string>)
      requires Valid()
      modifies db
      ensures Valid()
      ensures db.files == old(db.files) && db.nextId == old(db.nextId)
      ensures EmailTaken(old(db.users), email) ==> r == Err(EmailExists) && db.users == old(db.users)
      ensures !EmailTaken(old(db.users), email) ==>
                r == Ok("User registered successfully")
                && db.users == old(db.users) + [User(fullName, email, sha256(password))]
    {
      if GetUserByEmail(db.users, email).Some? {
        return Err(EmailExists);
      }
      var added := db.AddUser(fullName, email, password, sha256);
      if added {
        r := Ok("User registered successfully");
      } else {
        r := Err(RegistrationFailed);
      }
    }

    /**
     * `/upload`: checks the token, the email header and the ".csv" suffix, saves
     * the file, converts it, and records one row whatever the conversion did.
     * `saved` is whether saving succeeded, `converted` the conversion's row
     * count (`None` if it raised); `recordTime` and `replyTime` are the two
     * clock reads.
     */
    method UploadFile(authorization: Option<string>, userEmail: Option<string>, fileName: string,
                      saved: bool, converted: Option<nat>, recordTime: string, replyTime: string)
      returns (r: Result<FileView>)
      requires Valid()
      modifies this, db
      ensures Valid() && db.users == old(db.users)
      ensures !Authorized(authorization) ==> r == Err(Auth.InvalidToken)
      ensures Authorized(authorization) && !Truthy(userEmail) ==> r == Err(EmailHeaderMissing)
      ensures Authorized(authorization) && Truthy(userEmail) && !EndsWith(fileName, ".csv") ==>
                r == Err(OnlyCsvAllowed)
      ensures Authorized(authorization) && Truthy(userEmail) && EndsWith(fileName, ".csv") && !saved ==>
                r == Err(SaveFailed)
      ensures r.Ok? <==> Authorized(authorization) && Truthy(userEmail) && EndsWith(fileName, ".csv") && saved
      ensures r.Err? ==> db.files == old(db.files) && db.nextId == old(db.nextId)
                         && uploads == old(uploads) && parquets == old(parquets)
      ensures r.Ok? ==>
                var o := ConversionOutcome(converted);
                && uploads == old(uploads) + {fileName}
                && parquets == (if converted.Some? then old(parquets) + {ParquetName(fileName)} else old(parquets))
                && db.files == old(db.files) + [FileRecord(old(db.nextId), fileName, recordTime, o.rowCount,
                                                           ParquetPath(fileName), o.status, userEmail.value)]
                && db.nextId == old(db.nextId) + 1
                && r.value == FileView(fileName, replyTime, o.rowCount, ParquetPath(fileName), o.status)
    {
      var token := Auth.GetCurrentToken(authorization);
      if token.Err? {
        return Err(token.error);
      }
      if !Truthy(userEmail) {
        return Err(EmailHeaderMissing);
      }
      if !EndsWith(fileName, ".csv") {
        return Err(OnlyCsvAllowed);
      }
      if !saved {
        return Err(SaveFailed);
      }
      uploads := uploads + {fileName};
      var parquetPath := ParquetPath(fileName);
      var status := Processing;
      var rowCount := 0;
      match converted {
        case Some(n) =>
          rowCount := n;
          parquets := parquets + {ParquetName(fileName)};
          status := if rowCount > 0 then Done else Error;
        case None =>
          status := Error;
      }
      db.AddFileMetadata(fileName, recordTime, rowCount, parquetPath, status, userEmail.value);
      r := Ok(FileView(fileName, replyTime, rowCount, parquetPath, status));
    }

    /**
     * `/clear`: every entry of both directories is removed and the files table
     * is emptied for all users; the users table is untouched.
     */
    method ClearMemory(authorization: Option<string>) returns (r: Result<string>)
      requires Valid()
      modifies this, db
      ensures Valid() && db.users == old(db.users) && db.nextId == old(db.nextId)
      ensures !Authorized(authorization) ==>
                r == Err(Auth.InvalidToken) && db.files == old(db.files)
                && uploads == old(uploads) && parquets == old(parquets)
      ensures Authorized(authorization) ==>
                r == Ok("All files and metadata cleared.") && db.files == [] && uploads == {} && parquets == {}
    {
      var token := Auth.GetCurrentToken(authorization);
      if token.Err? {
        return Err(token.error);
      }
      while uploads != {}
        modifies this
        invariant parquets == old(parquets)
        decreases uploads
      {
        var name :| name in uploads;
        uploads := uploads - {name};
      }
      while parquets != {}
        modifies this
        invariant uploads == {}
        decreases parquets
      {
        var name :| name in parquets;
        parquets := parquets - {name};
      }
      db.DeleteAllFiles();
      r := Ok("All files and metadata cleared.");
    }

    /** `/files`: the caller's files, newest first. */
    function ListFiles(authorization: Option<string>, userEmail: Option<string>): (r: Result<seq<FileView>>)
      reads this, db
      ensures !Authorized(authorization) ==> r == Err(Auth.InvalidToken)
      ensures Authorized(authorization) && !Truthy(userEmail) ==> r == Err(EmailHeaderMissing)
      ensures r.Ok? <==> Authorized(authorization) && Truthy(userEmail)
      ensures r.Ok? ==> |r.value| == CountOwned(db.files, userEmail.value)
                        && OnlyOwned(db.files, userEmail.value, r.value)
                        && AllOwnedListed(db.files, userEmail.value, r.value)
    {
      var token := Auth.GetCurrentToken(authorization);
      if token.Err? then Err(token.error)
      else if !Truthy(userEmail) then Err(EmailHeaderMissing)
      else Ok(GetAllFiles(db.files, userEmail.value))
    }

    /**
     * `/delete_file`: removes the raw file and the derived parquet file, then
     * exactly the rows with that file name and owner.
     */
    method DeleteFile(authorization: Option<string>, userEmail: Option<string>, fileName: Option<string>)
      returns (r: Result<string>)
      requires Valid()
      modifies this, db
      ensures Valid() && db.users == old(db.users) && db.nextId == old(db.nextId)
      ensures !Authorized(authorization) ==> r == Err(Auth.InvalidToken)
      ensures Authorized(authorization) && !(Truthy(userEmail) && Truthy(fileName)) ==> r == Err(FieldsMissing)
      ensures r.Err? ==> db.files == old(db.files) && uploads == old(uploads) && parquets == old(parquets)
      ensures r.Ok? <==> Authorized(authorization) && Truthy(userEmail) && Truthy(fileName)
      ensures r.Ok? ==>
                && r.value == "File " + fileName.value + " deleted."
                && uploads == old(uploads) - {fileName.value}
                && parquets == old(parquets) - {ParquetName(fileName.value)}
                && db.files == Without(old(db.files), fileName.value, userEmail.value)
    {
      var token := Auth.GetCurrentToken(authorization);
      if token.Err? {
        return Err(token.error);
      }
      if !Truthy(userEmail) || !Truthy(fileName) {
        return Err(FieldsMissing);
      }
      var name := fileName.value;
      uploads := uploads - {name};
      parquets := parquets - {ParquetName(name)};
      db.DeleteFile(name, userEmail.value);
      r := Ok("File " + name + " deleted.");
    }

    /**
     * `/convert_file`: re-runs the conversion on the saved raw file (404 when
     * there is none), updates every matching row, and returns the first
     * matching row as it now reads (404 when no row matches).
     */
    method ConvertFile(authorization: Option<string>, userEmail: Option<string>, fileName: Option<string>,
                       converted: Option<nat>)
      returns (r: Result<FileView>)
      requires Valid()
      modifies this, db
      ensures Valid() && db.users == old(db.users) && db.nextId == old(db.nextId) && uploads == old(uploads)
      ensures !Authorized(authorization) ==> r == Err(Auth.InvalidToken)
      ensures Authorized(authorization) && !(Truthy(userEmail) && Truthy(fileName)) ==> r == Err(FieldsMissing)
      ensures Authorized(authorization) && Truthy(userEmail) && Truthy(fileName) && fileName.value !in old(uploads) ==>
                r == Err(CsvNotFound)
      ensures !(Authorized(authorization) && Truthy(userEmail) && Truthy(fileName) && fileName.value in old(uploads)) ==>
                db.files == old(db.files) && parquets == old(parquets)
      ensures Authorized(authorization) && Truthy(userEmail) && Truthy(fileName) && fileName.value in old(uploads) ==>
                var name, email, o := fileName.value, userEmail.value, ConversionOutcome(converted);
                && parquets == (if converted.Some? then old(parquets) + {ParquetName(name)} else old(parquets))
                && db.files == Updated(old(db.files), name, email, o.rowCount, ParquetPath(name), o.status)
                && r == match FirstMatch(old(db.files), name, email)
                        case None => Err(MetadataNotFound)
                        case Some(i) => Ok(FileView(name, old(db.files)[i].uploadTime, o.rowCount,
                                                    ParquetPath(name), o.status))
    {
      var token := Auth.GetCurrentToken(authorization);
      if token.Err? {
        return Err(token.error);
      }
      if !Truthy(userEmail) || !Truthy(fileName) {
        return Err(FieldsMissing);
      }
      var name, email := fileName.value, userEmail.value;
      var parquetPath := ParquetPath(name);
      if name !in uploads {
        return Err(CsvNotFound);
      }
      // the try/except around `convert_csv_to_parquet`
      var o := ConversionOutcome(converted);
      if converted.Some? {
        parquets := parquets + {ParquetName(name)};
      }
      ghost var before := db.files;
      db.UpdateFile(name, email, o.rowCount, parquetPath, o.status);
      UpdatedFirstMatch(before, name, email, o.rowCount, parquetPath, o.status);
      match FirstMatch(db.files, name, email) {
        case Some(i) =>
          assert Matches(before[i], name, email);
          r := Ok(db.files[i].View());
        case None =>
          r := Err(MetadataNotFound);
      }
    }
  }
}
