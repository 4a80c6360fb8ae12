# Barangku item API: a Dafny model

Barangku is a small HTTP API for tracking inventory items ("barang"). A caller
names themself in the `Authorization` header. The header value is trusted
as-is. The identity `__admin__` may see and change every record. Everyone
else may read, change and delete only the records they created, with
identities compared exactly. The listing query compares them in the
database's collation (see "Left out"). Records live in one table. An uploaded image is saved under `static/uploads/`, and its path is
stored on the record.

This project models the table logic of `main.py`. The database becomes plain
state and the file system becomes a set of stored paths:

- `wrappers.dfy`: `Option` (Python's `None`) and `Result` (a value or an
  error to report).
- `text.dfy`: the Python string operations the code uses. These are
  `lower()`, `rsplit('.', 1)`, `split('@')[0]`, single-character
  `replace` and `rstrip('/')`.
- `upload.dfy`: `allowed_file`, the `FileStorage` truthiness test, and how
  `save_image` builds the stored file name. The timestamp is a parameter.
- `items.dfy`: the record, `to_dict` with its `imageUrl`, the error messages
  and status codes, `get_user_email_or_401`, `get_barang_or_404`, the guard in
  front of every single-record handler, the listing filter, and the table
  invariant.
- `store.dfy`: `class Store` holds the table in storage order (`rows`), the
  auto-increment counter (`nextId`) and the set of recorded image paths
  (`uploads`).
  Each route handler is a method. Its `ensures` give the status code, the
  body, and the whole new state for every branch.

The table invariant (`Items.TableInvariant`, kept by every method) says:

- ids grow in storage order, so they are unique;
- every id is below `nextId`;
- every owner is non-empty;
- every stored image path starts with `static/uploads/`, then the owner's
  sanitised prefix, then `_`, and ends in `.jpg`, `.jpeg` or `.png`.

Three details of the code that the model keeps:

- The three form fields are checked first (`main.py:171`), and the image
  extension only after them (`main.py:176-182`).
- The stored extension is lowercased (`main.py:86`).
- A quantity of `0` is refused like a missing one, because `all([...])`
  treats `0` as false (`main.py:171`).

## Model

| member | source | states |
|---|---|---|
| `Text.LastIndexOf` | main.py:61 | the index found holds the character and no later position does; `None` exactly when the character does not occur (where `rsplit(c, 1)` splits) |
| `Text.Before` | main.py:91 | `split('@')[0]` is a prefix of the input without `@`, ending at the first `@` or at the end |
| `Text.Lower` | main.py:61 | `lower()` keeps the length and lowers each character by itself |
| `Text.LowerChar` | main.py:61 | an upper-case ASCII letter becomes the matching lower-case letter; every other character is unchanged |
| `Text.Replace` | main.py:91 | `replace(a, b)` keeps the length; each position holding `a` now holds `b`, and every other position is unchanged |
| `Text.StripTrailing` | main.py:46 | `rstrip('/')` is a prefix of the input that does not end in `/`; everything it dropped is `/` |
| `Upload.Extension` | main.py:61 | the text after the last dot contains no dot, and the name ends in a dot followed by it; `None` exactly when there is no dot |
| `Upload.AllowedFile` | main.py:60-61 | an accepted name has an extension and is at least four characters long (the shortest is `.png`); the full rule is stated by the lemmas below |
| `Upload.AllowedFileBySuffix` | main.py:58-61 | `allowed_file` holds exactly when the name ends in `.jpg`, `.jpeg` or `.png`, ignoring case |
| `Upload.SuffixFromAllowedFile` | main.py:58-61 | an accepted name ends in a dot and an allowed extension, ignoring case |
| `Upload.AllowedFileFromSuffix` | main.py:58-61 | a name ending in `.jpg`, `.jpeg` or `.png`, ignoring case, is accepted |
| `Upload.ExtensionOfFoldedSuffix` | main.py:61 | if the name ends in a dot and then text that lowers to a dot-free `x`, its extension lowers to `x` |
| `Upload.AcceptedExamples` | main.py:58-61 | `photo.JPG` and `.png` are accepted |
| `Upload.RejectedExamples` | main.py:58-61 | `photo.gif` and `png` are refused |
| `Upload.HasFile` | main.py:176 | an image counts as attached exactly when a file part is present and its name is not empty |
| `Upload.Sanitize` | main.py:91 | the filename prefix has no `@`, `.` or `-`; it is the part of the identity before the first `@`, with each `.` and `-` replaced by `_` |
| `Upload.UploadPath` | main.py:92-97 | the stored path starts with `static/uploads/`; its length is the folder, prefix, stamp and extension plus the `_` and the `.` |
| `Upload.UploadPathShape` | main.py:91-97 | a stored path starts with `static/uploads/`, the caller's prefix and `_`, and ends in `.jpg`, `.jpeg` or `.png` |
| `Upload.SaveImage` | main.py:84-98 | a path is produced exactly when there is a file with a non-empty, allowed name; it has the upload shape for the caller and equals `static/uploads/` + prefix + `_` + timestamp + `.` + lowercased extension |
| `Items.StatusCode` | main.py:68-81 | every error has a 4xx code; it is 400 exactly for the two validation errors of creation |
| `Items.Message` | main.py:68-182 | every error has a non-empty message |
| `Items.Failure` | main.py:68-69 | an error is answered with its own status code and an error body |
| `Items.ImageUrl` | main.py:46 | `null` exactly when the path is absent or empty; otherwise the URL ends in `/` and the path |
| `Items.ImageUrlJoin` | main.py:46 | the URL is a prefix of the host URL with no trailing `/`, then exactly one `/`, then the path; only `/` was dropped from the host URL |
| `Items.ToDict` | main.py:43-50 | the representation carries the record's id, name, category and quantity; `imageUrl` is null exactly when there is no non-empty image path |
| `Items.Views` | main.py:136 | one representation per row, in the same order, each the row's `to_dict` |
| `Items.MissingIdentity` | main.py:67 | the identity is missing exactly when the header is absent or empty |
| `Items.Identity` | main.py:65-70 | a missing or empty header gives 401; otherwise the identity is the non-empty header value |
| `Items.Find` | main.py:73 | the position found holds the id and no earlier row does; `None` exactly when no row has the id |
| `Items.MayAccess` | main.py:77 | the admin may access every record; any other caller only the records they own |
| `Items.Authorize` | main.py:72-81 | 404 exactly when no row has the id; for the first row with that id, success (with its position) exactly when the caller owns it or is the admin, 403 otherwise |
| `Items.Access` | main.py:142-149 | 401 for a missing identity whatever the table holds; then 404 for a missing id whoever the caller is; then success exactly for the owner or the admin, 403 otherwise |
| `Items.ForeignRecordForbidden` | main.py:77-81 | with unique ids, a non-admin caller who does not own the record is refused with 403 |
| `Items.OwnerAndAdminAllowed` | main.py:77-78 | with unique ids, the owner and the admin get the record |
| `Items.Owned` | main.py:132-134 | the filtered rows are exactly the caller's rows, each as often as in the table, in storage order |
| `Items.Listing` | main.py:124-134 | no identity gives `[]`; the admin gets every row in storage order; anyone else gets exactly the rows they own, each as often as in the table, in storage order |
| `Items.AdminListingContainsAll` | main.py:129-132 | every row in any caller's listing is also in the admin's listing |
| `Items.RemoveAt` | main.py:237 | the table after a removal is one row shorter |
| `Items.RemoveAtKeepsOthers` | main.py:237-238 | removing the record at a position removes exactly the record with that id; the others keep their relative order, and ids stay increasing |
| `Items.RemoveAtInvariant` | main.py:237-238 | removing a record keeps the table invariant |
| `Api.FieldsPresent` | main.py:171 | the fields pass exactly when the name and the category are present and non-empty and the quantity is present and not `0` |
| `Api.Store.constructor` | main.py:53-54 | a freshly created, empty table whose first id is 1, and no recorded files |
| `Api.Store.GetAll` | main.py:122-136 | 200 with the representations of the listing for the caller (`[]` without an identity) |
| `Api.Store.Get` | main.py:140-154 | the access guard's error as its status and message, or 200 with the record's representation |
| `Api.Store.Create` | main.py:158-196 | 401, then 400 for a missing or falsy field, then 400 for a disallowed image, each leaving the store unchanged; otherwise the image path is stored in the upload set, exactly one record owned by the caller is appended with the next id, the counter grows by one, and 201 is returned with an id no earlier record has |
| `Api.Store.Update` | main.py:200-218 | on 401, 404 or 403 the table is unchanged; otherwise only that record's name, category and quantity are replaced by the submitted values, present or absent; ids, owners and image paths never change, and there are no other effects |
| `Api.Store.Delete` | main.py:222-241 | on 401, 404 or 403 nothing changes; otherwise the record's recorded image path leaves the upload set and the record leaves the table; the other records stay, in order |
| `Api.ForeignDeleteRefused` | main.py:228-230 | on a valid store, a delete by a caller who is neither the admin nor the owner returns 403 and leaves the table and the recorded paths as they were |
| `Api.CreateThenGet` | main.py:140-196 | a record created without an image and read back under the same identity shows the submitted fields, the returned id and a null `imageUrl` |

## Left out

- Flask, SQLAlchemy, CORS and `dotenv` set-up, and the database URI and configuration (`main.py:1-32`). These are framework plumbing.
- Api.Store.constructor: stands for a freshly created database. `db.create_all()` (`main.py:53-54`) keeps the rows of a table that already exists, and the model does not start from such a table.
- The welcome route `home` (`main.py:114-118`) and JSON encoding. Responses are modelled as a status code plus a body datatype.
- Reading the clock (`main.py:89`). The `strftime` timestamp is a parameter of `Upload.SaveImage` and `Api.Store.Create`.
- Writing the uploaded bytes (`image.save`, `main.py:95`). The model only adds the stored path to `uploads`.
- Removing the file in `delete_image_file` (`main.py:101-108`). It becomes removing the path from `uploads`. The join with the application root and `lstrip('/')` are not modelled; stored paths never start with `/`. The `abort(500)` failure path is not modelled.
- Integer parsing in `request.form.get('jumlah', type=int)`. The quantity arrives already converted: `None` means absent or not an integer.
- Unicode case folding. `lower()` is modelled on ASCII letters only. No other character lowercases to a letter of `jpg`, `jpeg` or `png`, so `allowed_file` is still decided exactly.
- Database column rules. The `String(225)` length limits are not modelled. The NOT NULL constraint is not modelled either: when an update writes `None`, the model stores `None`, where the database could refuse the commit.
- Api.Store.Create: does not model the 32-bit signed `Integer` column behind `jumlah`. In MySQL, a quantity outside -2^31..2^31-1 makes the commit at `main.py:194` fail in strict mode, giving 500 after the image was written, or else it is clamped. The model's unbounded `int` returns 201 and stores the value unchanged. `Api.Store.Update` has the same gap.
- Items.Owned: compares owners exactly. `filter_by(user_id=email)` (`main.py:132`) compares in the column's collation, which is case-insensitive by default in MySQL. The source's listing under `BOB@x.com` therefore also includes the rows of `bob@x.com`, and GET then refuses those rows with 403, because `main.py:77` uses exact `==`. `Items.Listing` and `Api.Store.GetAll` inherit the exact comparison.
- Where the file really lands. The model assumes the image is written at the path it records. The source writes to `os.path.join(UPLOAD_FOLDER, filename)` relative to the working directory (`main.py:94`). It records `'static/uploads/' + filename` (`main.py:97`), and `delete_image_file` resolves that path against `app.root_path` (`main.py:103`). The sanitiser changes only `.` and `-`, so a `/` in the trusted header survives into the name. With the header `/tmp/x`, the file is written at `/tmp/x_<stamp>.jpg`, but `static/uploads//tmp/x_<stamp>.jpg` is recorded, so a later delete removes nothing. With the header `a/b@x.com`, `image.save` fails on the missing directory and the source answers 500 without storing a record, where the model answers 201. The header thus chooses where the file is written. `uploads` is the set of recorded paths, not the file system.
- Storage order. It is taken to be insertion order, which is also increasing auto-increment id order. Ids start at 1 and are never reused.
- The unused `index` count query (`main.py:178`) and the unreachable re-check in `get_barang` (`main.py:151-152`).
- Concurrent requests and transaction semantics. Each handler is one atomic step on the store.
- The Flask `<int:id>` converter accepts only non-negative integers, so ids are `nat`. A request with any other path never reaches a handler.
