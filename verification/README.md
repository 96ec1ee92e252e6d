# Bangre resource catalogue, modelled in Dafny

Bangre is a small Flask application (`bangre/app.py`). It publishes a catalogue of
teaching resources: PDF documents, images and videos, grouped into categories. Anyone
can list the resources, filter them by category, and view or download them. An
administrator logs in with a password. The administrator can then create categories,
upload files and delete resources, and can filter the admin listing by file type.

This project models that logic in Dafny 4 and proves properties of the model:

- `wrappers.dfy` (`Wrappers`): the `Option` type. It stands for form fields and query
  arguments that may be absent, and for lookups that may miss.
- `text.dfy` (`Text`): the Python string operations the application relies on.
  `str.lower` is modelled on ASCII letters. `str.strip()` uses exactly the characters for
  which `str.isspace` holds. The last index of a character is where `rsplit(c, 1)` cuts.
- `upload.dfy` (`Upload`): the `ALLOWED_EXTENSIONS` table, `allowed_file` and
  `get_file_type_from_ext`. It proves that the table and the function agree, that the
  function ignores case, and that an accepted name always has a file type.
- `app.dfy` (`App`): the state behind the routes. The class `Catalogue` holds:
  - the `category` table and the `resource` table, as sequences in row order;
  - the upload folder, as the set of stored file names;
  - the session's admin flag.
  
  Each route is a method. Each method's postcondition gives the new state through pure
  functions (`WithCategory`, `WithUpload`, `Select`, `AdminListing`, `ClientListing`,
  `Find`). Lemmas about those functions prove the invariants:
  - category names are unique, non-empty and stripped;
  - resource ids increase in row order;
  - a filter returns exactly the matching rows, in stored order;
  - a delete removes exactly one row.

Row ids follow SQLite's rule for an `INTEGER PRIMARY KEY` column: a new row gets one
more than the largest id present, or 1 in an empty table. So ids stay strictly
increasing in row order. The model lists rows in that order wherever the source calls
`query.all()` or `filter_by(...).all()` (see Left out).

Behaviour of the source that the model makes explicit:

- A wrong password leaves the admin flag as it was. It does not log out an
  administrator who is already logged in (bangre/app.py:104-107).
- The admin page reads the category list before it handles the POST (bangre/app.py:121).
  So the page rendered right after a category is created does not show the new
  category. `Catalogue.Admin` states this: `reply.categories == old(categories)`.
- An upload does not check that the submitted category exists. SQLite does not enforce
  foreign keys by default, so the resource is stored with whatever id was submitted.
- Stored file names come from `secure_filename`, so two uploads can share a name. The
  second upload overwrites the first file. Deleting either resource then removes the
  shared file. After that, `Catalogue.Send` answers 404 for the other resource.
- The "type not supported" branch of the upload handler (bangre/app.py:151-152) cannot
  be reached. `Upload.AllowedFileHasType` proves it, and `Catalogue.UploadResource`
  keeps the branch but promises a flash that is never `TypeUnsupported`.

The werkzeug function `secure_filename` is a parameter `secure: string -> string` of the
upload. Request parsing, templates, redirects and the file system are abstracted as
result values and a set of file names.

## Model

| member | source | states |
|---|---|---|
| `Text.Lower` | bangre/app.py:56 | lower-casing keeps the length; each capital A-Z becomes its small letter and every other character stays as it is, so no capital is left (ASCII letters only, see Left out) |
| `Text.LowerIdempotent` | bangre/app.py:59 | lower-casing an already lower-cased extension changes nothing |
| `Text.LowerKeepsLowercase` | bangre/app.py:18-22 | a string without capitals, like every key of the table, is its own lower-case form |
| `Text.Strip` | bangre/app.py:129 | `strip()` leaves no whitespace at either end, and its result is empty exactly when the input is all whitespace |
| `Text.StripRemovesOnlyEnds` | bangre/app.py:129 | the stripped text is a contiguous middle part of the input, and everything cut off on either side is whitespace |
| `Text.StripKeepsTrimmed` | bangre/app.py:129 | a text with no whitespace at either end is its own strip |
| `Text.StripIdempotent` | bangre/app.py:129 | stripping twice is stripping once |
| `Text.LastIndexOf` | bangre/app.py:56 | the index returned holds the character and no later position does; None exactly when the character does not occur |
| `Upload.Extension` | bangre/app.py:56 | `rsplit('.', 1)[1]` exists exactly when the name has a dot; it holds no dot, and the name is the text before it, a dot, then it |
| `Upload.ExtensionOfJoin` | bangre/app.py:56 | the extension of `stem.ext` is `ext` for every stem when `ext` has no dot |
| `Upload.AllowedFile` | bangre/app.py:55-56 | a name without a dot is never accepted |
| `Upload.AllowedFileByExtension` | bangre/app.py:55-56 | the verdict depends only on the lower-cased text after the last dot: accepted iff that text is a key of `ALLOWED_EXTENSIONS` |
| `Upload.FileTypeFromExt` | bangre/app.py:58-66 | alignment with the table: a kind is returned iff the lower-cased extension is a key, and the kind is that key's value |
| `Upload.TableAligned` | bangre/app.py:17-22 | for every key of `ALLOWED_EXTENSIONS`, `get_file_type_from_ext` returns exactly that key's value |
| `Upload.FileTypeCaseInsensitive` | bangre/app.py:59 | `get_file_type_from_ext(ext) == get_file_type_from_ext(ext.lower())` |
| `Upload.AllowedFileHasType` | bangre/app.py:146-152 | every name `allowed_file` accepts has a kind, so the "type not supported" branch is unreachable |
| `App.NextId` | bangre/app.py:34 | a new primary key is above every existing id: 1 in an empty table, otherwise one more than the largest id present |
| `App.NextCategoryId` | bangre/app.py:34 | a new category id is above the id of every existing category |
| `App.NextResourceId` | bangre/app.py:38 | a new resource id is above the id of every existing resource |
| `App.WithCategory` | bangre/app.py:129-135 | the category table is unchanged unless the stripped name is non-empty and unused; otherwise exactly one row with that name and a fresh, largest id is appended |
| `App.AcceptsCategory` | bangre/app.py:130 | a submitted name is accepted iff it is not all whitespace and no existing category carries its stripped form |
| `App.CategoryCreationKeepsValid` | bangre/app.py:35 | creating a category keeps names unique, non-empty and stripped, and ids increasing |
| `App.UploadedType` | bangre/app.py:149-150 | the lower-cased extension of an accepted file is a key of `ALLOWED_EXTENSIONS`, and the kind recorded is that key's value |
| `App.UploadVerdict` | bangre/app.py:144-153 | the flash is "all fields required" iff the title, category or file is missing or empty; it is "resource added" iff all three are present and `allowed_file` accepts the name, and then the lower-cased extension is a key of `ALLOWED_EXTENSIONS` with a kind; it is never "type not supported" |
| `App.WithUpload` | bangre/app.py:144-166 | a missing field or a refused extension leaves the resource table unchanged; otherwise exactly one row is appended, holding the form's values, `secure_filename` of the name, the extension's kind and a fresh, largest id |
| `App.UploadKeepsOrder` | bangre/app.py:165-166 | uploading keeps resource ids increasing in row order |
| `App.Select` | bangre/app.py:77 | `filter_by(...).all()` returns exactly the rows that meet the condition, and no more rows than the table holds |
| `App.SelectKeepsOrder` | bangre/app.py:173-174 | the filtered rows stay in stored order |
| `App.SameRowsSameTable` | bangre/app.py:174 | two tables in row order that hold the same rows are equal |
| `App.SelectIsTheMatchingRowsInOrder` | bangre/app.py:76-78 | a filter's result is the only list in row order that holds exactly the matching rows |
| `App.DeleteRemovesOnlyTarget` | bangre/app.py:189-190 | deleting by id removes exactly the row with that id and keeps every other row, in order |
| `App.Find` | bangre/app.py:184 | `get_or_404` finds a row with the requested id, or reports that none has it |
| `App.IdsAreKeys` | bangre/app.py:38 | in a table with increasing ids, two rows with the same id are the same row |
| `App.AdminListing` | bangre/app.py:170-174 | with `type` in {pdf, image, video}, exactly the resources of that file type in stored order; with any other value or none, all resources |
| `App.ClientListing` | bangre/app.py:72-78 | with a `cat` argument, exactly the resources of that category in stored order; without one, all resources |
| `App.Catalogue.constructor` | bangre/app.py:25-52 | the password comes from the environment, or `@dmin123` when it is unset; "Général" is created when there is no category; no one is logged in |
| `App.Catalogue.Login` | bangre/app.py:102-108 | the admin flag is set only when the password equals `ADMIN_PASSWORD`; a wrong password leaves the flag as it was; a missing field gets 400 |
| `App.Catalogue.Logout` | bangre/app.py:111-113 | the admin flag is cleared |
| `App.Catalogue.CreateCategory` | bangre/app.py:128-135 | the category table becomes `WithCategory` of the submitted text, with the matching flash message; a missing field gets 400 and changes nothing |
| `App.Catalogue.UploadResource` | bangre/app.py:138-167 | the resource table becomes `WithUpload`; the stored name joins the upload folder only on success; the flash message follows the validation cascade and is never "type not supported" |
| `App.Catalogue.Admin` | bangre/app.py:116-176 | without the admin flag nothing changes and the reply is the login redirect; otherwise the named action runs: `create_category` sets the categories to `WithCategory` with the flash that `AcceptsCategory` decides, `upload_resource` sets the resources to `WithUpload`, adds the stored file to the upload folder exactly when the verdict is "resource added", and flashes that verdict; a GET or an unknown action changes nothing; the page lists `AdminListing` of the new resources beside the categories read before the action |
| `App.Catalogue.Index` | bangre/app.py:70-80 | the index shows every category, and its resources are exactly `ClientListing` of the table: the resources of the `cat` category (all without one), in stored order |
| `App.Catalogue.Send` | bangre/app.py:82-98 | a file is sent iff a resource has that id and its file is still in the upload folder; the file sent is that resource's, with the requested disposition |
| `App.Catalogue.DeleteResource` | bangre/app.py:179-192 | without the admin flag, or for an unknown id, nothing changes; otherwise exactly the row with that id is removed, its file leaves the upload folder, and everything else stays |

## Left out

- `Text.Lower`: only ASCII letters are lower-cased. Python's `str.lower` also maps other
  characters, and some of them map to ASCII. For example, KELVIN SIGN lowers to `k`, so
  Python accepts `film.mKv` where the model refuses it.
- `Text.Strip`: the whitespace it removes is fixed at the 29 characters for which
  `str.isspace` holds in current Python versions. A Python built on another Unicode
  version may disagree.
- Form and query values that carry ids are modelled as `Option<nat>`, where None is an
  absent or empty field. Parsing decimal text, and how SQLite's type affinity compares
  text with integers, are not modelled.
- The column length limits (`String(50)`, `String(100)`, `String(200)`, `String(20)`) are
  not modelled. SQLite does not enforce them.
- `MAX_CONTENT_LENGTH` (a request over 500 MB is refused before any route runs) is not
  modelled, because file contents and sizes are not part of the model.
- `secure_filename` is a function parameter. Its own rules are not modelled.
- The upload folder is a set of names. File contents, `os.makedirs`, `os.path.exists`,
  and the I/O errors of `file.save` and `os.remove` are not modelled.
- `send_from_directory` is reduced to "the file is there or 404". MIME types and the
  HTTP headers are not modelled.
- The GET forms of `/admin/login`, `render_template`, `flash` rendering and redirects are
  not modelled as pages. The routes return result values instead.
- Session signing with `SECRET_KEY` is not modelled. The session is one flag of one
  client.
- Concurrency across the gunicorn workers is left out, as are database transactions and
  commit failures. Every operation runs alone and completes.
- `app.run` (bangre/app.py:195-196) is I/O.
- Row order of queries: every listing assumes rows come back in rowid order, that is in
  insertion order. SQL does not promise any order without `ORDER BY`, and the source
  has none (bangre/app.py:71-77, 121, 170-174); SQLite returns rowid order for these
  plain table scans in practice.
- bangre/gunicorn_config.py holds only constant settings and is not part of this model.
- The repository's provisioning shell scripts install packages and configure nginx and
  systemd. They are not part of this model.
