# CSV ingestion service: metadata store, authentication and endpoints

A Dafny model of the core of a small FastAPI service. Users register and log in,
upload CSV files, and the service converts each upload to Parquet and records one
metadata row per upload. The model covers three parts:

- **The sqlite metadata store** (`database.dfy`, module `Database`). The `users`
  table keeps `email` unique. The `files` table has an AUTOINCREMENT `id`. Each
  table is a sequence in rowid order, held in the class `Store` together with the
  id counter. Rows are inserted by `add_file_metadata` and `add_user`. They
  are deleted and updated by the SQL written inline in the `/delete_file`,
  `/convert_file` and `/clear` handlers. Reads are `get_user_by_email`,
  `get_all_files`, the duplicate check of `/register` and the `fetchone()` in
  `/convert_file`. The queries are functions over the table sequences. Inserts,
  deletes and updates are methods that reassign the sequences. The store
  invariant `Store.Valid` says that emails are unique, ids ascend in rowid order
  and every id is below the counter.
- **Authentication** (`auth.dfy`, module `Auth`). `authenticate_user` compares
  the SHA-256 hex digest of the password with the stored digest. SHA-256 is an
  uninterpreted `Hasher` (`string -> string`) chosen when the service is built.
  `get_current_token` checks for the case-sensitive `Bearer ` prefix, which is a
  stricter form of the header in section 2.1 of RFC 6750. It then splits the
  header at its first space and accepts only the static token `abc123`.
- **The endpoints** (`app.dfy`, module `App`). The class `Service` holds the
  store and two directories. Each directory is the set of file names it holds:
  `uploads` for raw CSV files and `parquets` for converted files.
  - `/login` and `/files` only read, so they are functions.
  - `/register`, `/upload`, `/clear`, `/delete_file` and `/convert_file` are
    methods.
  - The outcome of saving the upload (`saved: bool`) is a parameter.
  - The outcome of the pandas conversion (`converted: Option<nat>`) is a
    parameter. `None` means the conversion raised.
  - The two clock reads in `/upload` are parameters.
  - A failing request returns `Err(HttpError(status, detail))` with the
    handler's own status code and detail text.

`common.dfy` holds `Option`, `Result`, `HttpError` and Python's truthiness test
for optional strings. `pystr.dfy` holds the Python string operations the
handlers use: `startswith`, `endswith`, `split(sep, 1)` (through a `find`
helper), `replace` and `os.path.join`.

Behaviours of the code worth knowing:

- The parquet name comes from `str.replace('.csv', '.parquet')`. That replaces
  every occurrence, not only the suffix. So the uploads `x.csv.csv` and
  `x.parquet.csv` share the parquet file `x.parquet.parquet`
  (`App.ParquetNamesCollide`). Deleting either one removes the other's
  converted file.
- The password digest is one unsalted SHA-256 pass.
- `/convert_file` updates every row matching `(file_name, user_email)`. It then
  returns the first row `fetchone()` yields. The `SELECT` has no `ORDER BY`; the
  model takes rowid order, so that row is the oldest (see "## Left out").
- `/login` tests the full name for truthiness. A user registered with an empty
  full name therefore gets 401 even with the right password (`App.Service.Login`).
- `/clear` needs a valid token like every other endpoint except `/login` and
  `/register`.
- The id counter is not reset by `/clear`, because sqlite's AUTOINCREMENT never
  reuses ids.

## Model

| member | source | states |
|---|---|---|
| `Common.Truthy` | backend/app.py:73 | `not x` is false exactly for a present, non-empty string: both `None` and `""` are falsy |
| `PyStr.StartsWith` | backend/auth.py:14 | `startswith` holds exactly when the prefix fits and agrees with the string character by character |
| `PyStr.EndsWith` | backend/app.py:75 | `endswith` holds exactly when the suffix fits and agrees with the end of the string character by character |
| `PyStr.Replace` | backend/app.py:82 | replacing a pattern by itself gives the string back |
| `PyStr.ReplaceLength` | backend/app.py:82 | a replacement at least as long as the pattern never shortens the string, and one of equal length keeps its length |
| `PyStr.JoinPath` | backend/app.py:82 | `os.path.join` returns an absolute name as it is; otherwise the result starts with the directory, ends with the name, and puts exactly one `/` between them unless the directory is empty or already ends with `/` |
| `PyStr.SplitOnce` | backend/auth.py:16 | `split(' ', 1)` gives two parts exactly when the separator occurs; the parts rejoined with the separator give back the string, and the first part holds no separator; otherwise the one part is the string |
| `PyStr.ReplaceAbsent` | backend/app.py:82 | `replace` leaves a string in which the pattern never occurs unchanged |
| `Database.GetUserByEmail` | backend/database.py:64-70 | the lookup returns a stored user with exactly that email, and returns none exactly when no stored user has it |
| `Database.GetUserByEmailFinds` | backend/database.py:64-70 | with unique emails, looking up a stored user's email returns that very user |
| `Database.GetUserByEmailAfterAdd` | backend/database.py:43-54 | after a user is inserted under a fresh email, a lookup of that email finds the new user and every other lookup gives what it gave before |
| `Database.SelectOwned` | backend/database.py:75 | the `WHERE user_email = ? ORDER BY id DESC` rows are exactly the stored rows of that owner, one per owned row, with ids strictly descending whenever the table's ids ascend |
| `Database.GetAllFiles` | backend/database.py:72-88 | `get_all_files(u)` has one entry per row owned by `u`; every entry is the five-column view of a row owned by `u`, and every such row's view is listed |
| `Database.GetAllFilesNewestFirst` | backend/database.py:75 | of two listed entries, the earlier comes from a row stored later, so the newest upload is listed first |
| `Database.AppendedListedFirst` | backend/database.py:75 | a row just inserted is listed first for its owner, ahead of that owner's previous listing |
| `Database.AppendedInvisibleToOthers` | backend/database.py:75 | a row just inserted leaves every other user's listing unchanged |
| `Database.Without` | backend/app.py:158 | the delete keeps exactly the rows that do not match both `file_name` and `user_email`, and keeps their ids in ascending order |
| `Database.DeletedNotListed` | backend/app.py:158 | after the delete, the owner's listing holds no entry with the deleted name |
| `Database.DeleteKeepsOthersListing` | backend/app.py:158 | the delete leaves the listing of every other user unchanged |
| `Database.Updated` | backend/app.py:183 | the update keeps the number of rows and every row's id, name, upload time and owner; matching rows get the new row count, parquet path and status; other rows are unchanged |
| `Database.UpdatedKeepsIds` | backend/app.py:183 | the update keeps the ids ascending and below the id counter |
| `Database.FirstMatch` | backend/app.py:185-186 | `fetchone()` finds a matching row with no earlier matching row, and finds none exactly when no row matches |
| `Database.UpdatedFirstMatch` | backend/app.py:183-186 | the row found by the read-back after the update is the row that matched first before it |
| `Database.Store.constructor` | backend/database.py:7-31 | `init_db` on a fresh database: both tables empty, the id counter at 1, the store invariant established |
| `Database.Store.AddFileMetadata` | backend/database.py:33-41 | one row is appended with the counter's id, which is greater than every existing id; earlier rows and the users table are unchanged |
| `Database.Store.AddUser` | backend/database.py:43-54 | returns false and changes nothing when the email is taken; otherwise returns true and appends one user whose stored hash is the digest of the password |
| `Database.Store.DeleteFile` | backend/app.py:155-160 | the files table becomes the rows that do not match; the users table and the id counter are unchanged |
| `Database.Store.UpdateFile` | backend/app.py:180-184 | the files table becomes its update; the users table and the id counter are unchanged |
| `Database.Store.DeleteAllFiles` | backend/app.py:122-127 | the files table is emptied for every user; the users table and the id counter are unchanged |
| `Auth.AuthenticateUser` | backend/auth.py:5-11 | a returned name belongs to a stored user with that email and with the digest of that password; an unknown email gives none |
| `Auth.AuthenticateUserIff` | backend/auth.py:5-11 | with unique emails, authentication returns `fullName` exactly when a user with that name, that email and that password's digest is stored |
| `Auth.AuthenticatedWithName` | backend/app.py:38-42 | with unique emails, authentication yields a non-empty name exactly when a matching user with a non-empty name is stored |
| `Auth.WrongPasswordRefused` | backend/auth.py:8-11 | a known email with a password whose digest differs from the stored one is refused |
| `Auth.AuthenticateAfterAddUser` | backend/database.py:46-48 | after `add_user` under a fresh email, the same password authenticates as the new user |
| `Auth.GetCurrentToken` | backend/auth.py:13-19 | the header is accepted exactly when it is `Bearer abc123`; an accepted token is `abc123` and every refusal is the 401 |
| `Auth.BearerSplit` | backend/auth.py:16 | for a header that starts with `Bearer `, the token is the header without its 7-character prefix |
| `Auth.TokenRoundTrip` | backend/auth.py:14-19 | `Bearer ` followed by `t` yields `t` when `t` is `abc123` and is refused with 401 otherwise |
| `App.ParquetName` | backend/app.py:82 | the parquet name of an upload is never shorter than the upload's name |
| `App.ParquetPath` | backend/app.py:170 | the recorded `parquet_path` is the parquet directory followed by the parquet name, except for an absolute name, which discards the directory |
| `App.ParquetIsOwnParquetName` | backend/app.py:82 | `.parquet` holds no `.csv`, so it is its own parquet name |
| `App.ParquetNameOfCsv` | backend/app.py:82 | the parquet name of a stem followed by `.csv` is the stem's parquet name followed by `.parquet` |
| `App.CsvNameYieldsParquet` | backend/app.py:75-82 | every name the upload accepts yields a parquet name that ends in `.parquet` |
| `App.NonCsvNameUnchanged` | backend/app.py:147 | a name without `.csv` anywhere is its own parquet name, so `/delete_file` then targets the same name in both directories |
| `App.ParquetNameOfParquet` | backend/app.py:82 | appending `.parquet` to a stem appends it to the stem's parquet name |
| `App.ParquetNamesCollide` | backend/app.py:82 | `x.csv.csv` and `x.parquet.csv` have the same parquet name |
| `App.ConversionOutcome` | backend/app.py:83-90 | the status is Done exactly when the conversion returned a positive count and Error otherwise; the row count is the returned count, or 0 when the conversion raised |
| `App.Service.constructor` | backend/app.py:13-29 | start-up: an empty store with its id counter at 1, and two empty directories |
| `App.Service.Authorized` | backend/app.py:71 | `Depends(get_current_token)` lets a request through exactly when its header is `Bearer abc123` |
| `App.Service.Login` | backend/app.py:35-42 | succeeds exactly when a stored user has that email, that password's digest and a non-empty full name; success returns the static token and that user's name, failure the 401 |
| `App.Service.Register` | backend/app.py:49-62 | a taken email gives 400 and changes nothing; a fresh one adds exactly one user with the password's digest; the files table is untouched |
| `App.Service.UploadFile` | backend/app.py:70-108 | a bad token, a missing email header, a name not ending in `.csv` or a failed save is refused with its status before anything changes; otherwise the name is saved, one row is appended whatever the conversion did, with the status and row count of `ConversionOutcome`, and the parquet name is added when the conversion returned |
| `App.Service.ClearMemory` | backend/app.py:110-128 | with a valid token both directories and the whole files table are emptied; the users table is untouched; with an invalid token nothing changes |
| `App.Service.ListFiles` | backend/app.py:130-137 | with a valid token and an email header, the result is one entry per row of that user and nothing of anyone else; otherwise the 401 or the 400 |
| `App.Service.DeleteFile` | backend/app.py:139-161 | with both fields present, the raw file and the derived parquet file are removed, and exactly the rows with that name and owner are deleted; otherwise nothing changes |
| `App.Service.ConvertFile` | backend/app.py:163-191 | with no raw file it answers 404 and changes nothing; otherwise every matching row gets the new count, path and status with its name, time and owner kept, and the result is the first matching row as updated, or 404 when none matches |

## Left out

- File saving (`save_upload_file`) and conversion (`convert_csv_to_parquet`, `get_row_count`) are I/O over pandas and pyarrow. They are parameters of the endpoints. A partial file left behind by a failed save or a failed conversion is not modelled.
- The directories are sets of file names. `os.path.join` with an absolute name or one holding `..` reaches outside the directories in the source. The model treats every name as an entry of its directory. The recorded `parquet_path` string does follow `os.path.join`.
- The swallowed `OSError`s of `/delete_file` and `/clear` are not modelled: removal from a set always succeeds. `os.path.isfile` in `/clear` is not modelled either; the directories hold only files.
- A `file_name` in the JSON body that is not a string makes `os.path.join(UPLOAD_DIR, file_name)` raise `TypeError`, which gives a 500. It is not modelled, because `file_name` is an optional string.
- FastAPI routing, CORS, pydantic validation (422 answers) and the `{"message": "File uploaded"}` wrapper around the upload reply are not modelled. The reply is its `file` object.
- `datetime.utcnow()` is not modelled. Both clock reads of `/upload` are opaque parameters.
- `print` and `logging` calls are left out. This includes the password printed by `/login`.
- `get_user` (backend/database.py:56-62) is left out. It queries a column that does not exist and nothing calls it.
- `get_user_email_from_token` (backend/app.py:65-68) is left out. Nothing calls it.
- Concurrent requests are not modelled. Each call is atomic. In particular, the 500 "Registration failed" branch of `/register` cannot be reached in this sequential model.
- Start-up on an existing database or on non-empty directories is not modelled. `init_db` is modelled only as the creation of an empty store.
- The order of `fetchone()` without ORDER BY is assumed to be rowid order. sqlite does not promise it.
- Database.Store.AddUser: does not state that the stored digest differs from the plaintext password, because SHA-256 is uninterpreted.
- PyStr.Replace: its own contract states only that replacing a pattern by itself changes nothing. The left-to-right, non-overlapping scan is its definition, and its consequences are stated by `PyStr.ReplaceAbsent`, `PyStr.ReplaceLength` and the `App.ParquetName...` lemmas. More clauses on the function itself make every proof that unfolds it too costly.
- App.ParquetName: its own contract states only that the name never gets shorter. What it does to `.csv` and `.parquet` endings is stated by `App.ParquetNameOfCsv`, `App.CsvNameYieldsParquet`, `App.NonCsvNameUnchanged`, `App.ParquetNameOfParquet` and `App.ParquetNamesCollide`.
