/**
 * The catalogue behind the routes of bangre/app.py, without Flask,
 * SQLAlchemy or the file system: two tables (categories and resources) as
 * sequences in row order, the upload folder as the set of stored file
 * names, and the session's admin flag. Each route is a method of
 * `Catalogue`; what it changes is stated through the pure functions
 * below, and what those functions guarantee is proved about them.
 */
module App {
  import opened Wrappers
  import opened Text
  import opened Upload

  /** A row of the `category` table. */
  datatype Category = Category(id: nat, name: string)

  /** A row of the `resource` table. */
  datatype Resource = Resource(
    id: nat,
    title: string,
    description: Option<string>,
    filename: string,
    fileType: FileType,
    categoryId: nat)

  /** The category created when the database holds none. */
  const DefaultCategoryName: string := "Général"

  /** The password used when the environment does not set `ADMIN_PASSWORD`. */
  const DefaultAdminPassword: string := "@dmin123"

  function CategoryIds(cs: seq<Category>): seq<nat> {
    seq(|cs|, i requires 0 <= i < |cs| => cs[i].id)
  }

  function ResourceIds(rs: seq<Resource>): seq<nat> {
    seq(|rs|, i requires 0 <= i < |rs| => rs[i].id)
  }

  /** Category ids in row order are strictly increasing (so they are also distinct). */
  predicate CategoryIdsIncrease(cs: seq<Category>) {
    forall i, j :: 0 <= i < j < |cs| ==> cs[i].id < cs[j].id
  }

  /** Resource ids in row order are strictly increasing (so they are also distinct). */
  predicate ResourceIdsIncrease(rs: seq<Resource>) {
    forall i, j :: 0 <= i < j < |rs| ==> rs[i].id < rs[j].id
  }

  /**
   * The id SQLite gives a new row of an `INTEGER PRIMARY KEY` table: one more
   * than the largest id present, or 1 in an empty table.
   */
  function NextId(ids: seq<nat>): (n: nat)
    ensures n >= 1
    ensures forall i :: 0 <= i < |ids| ==> ids[i] < n
    ensures ids == [] ==> n == 1
    ensures ids != [] ==> n - 1 in ids
  {
    if ids == [] then 1
    else
      var m := NextId(ids[1..]);
      if ids[0] + 1 > m then ids[0] + 1 else m
  }

  /** The id of a new category: above every existing one. */
  function NextCategoryId(cs: seq<Category>): (n: nat)
    ensures forall c :: c in cs ==> c.id < n
  {
    var ids := CategoryIds(cs);
    assert forall i :: 0 <= i < |cs| ==> ids[i] == cs[i].id;
    NextId(ids)
  }

  /** The id of a new resource: above every existing one. */
  function NextResourceId(rs: seq<Resource>): (n: nat)
    ensures forall r :: r in rs ==> r.id < n
  {
    var ids := ResourceIds(rs);
    assert forall i :: 0 <= i < |rs| ==> ids[i] == rs[i].id;
    NextId(ids)
  }

  /** `Category.query.filter_by(name=name).first()` finds a row. */
  predicate NameTaken(cs: seq<Category>, name: string) {
    exists c :: c in cs && c.name == name
  }

  /** The `unique=True` constraint on `Category.name`. */
  predicate NamesUnique(cs: seq<Category>) {
    forall i, j :: 0 <= i < j < |cs| ==> cs[i].name != cs[j].name
  }

  /**
   * What the category table keeps true: ids increase in row order, names are
   * unique, and every name is non-empty and already stripped.
   */
  predicate CategoriesValid(cs: seq<Category>) {
    CategoryIdsIncrease(cs) && NamesUnique(cs) &&
    forall c :: c in cs ==> c.name != [] && IsTrimmed(c.name)
  }

  // ---------------------------------------------------------------------------
  // create_category

  /** `create_category` accepts the submitted text: stripped, it is non-empty and not yet a name. */
  predicate AcceptsCategory(cs: seq<Category>, raw: string)
    ensures AcceptsCategory(cs, raw) <==>
      !IsBlank(raw) && forall c :: c in cs ==> c.name != Strip(raw)
  {
    Strip(raw) != [] && !NameTaken(cs, Strip(raw))
  }

  /**
   * The category table after `create_category` with the submitted text `raw`:
   * either unchanged, or one more row at the end carrying the stripped text
   * and an id larger than every existing one.
   */
  function WithCategory(cs: seq<Category>, raw: string): (r: seq<Category>)
    ensures !AcceptsCategory(cs, raw) ==> r == cs
    ensures AcceptsCategory(cs, raw) ==>
      |r| == |cs| + 1 && r[..|cs|] == cs && r[|cs|].name == Strip(raw) &&
      forall c :: c in cs ==> c.id < r[|cs|].id
  {
    if AcceptsCategory(cs, raw) then cs + [Category(NextCategoryId(cs), Strip(raw))] else cs
  }

  /** Creating a category keeps names unique and stripped and ids increasing. */
  lemma CategoryCreationKeepsValid(cs: seq<Category>, raw: string)
    requires CategoriesValid(cs)
    ensures CategoriesValid(WithCategory(cs, raw))
  {
    if AcceptsCategory(cs, raw) {
      var n := Category(NextCategoryId(cs), Strip(raw));
      var r := cs + [n];
      assert r == WithCategory(cs, raw);
      forall i, j | 0 <= i < j < |r| ensures r[i].id < r[j].id && r[i].name != r[j].name {
        assert r[i] == cs[i] && cs[i] in cs;
        if j < |cs| {
          assert r[j] == cs[j];
        }
      }
      forall c | c in r ensures c.name != [] && IsTrimmed(c.name) {
        if c != n {
          assert c in cs;
        }
      }
    }
  }

  // ---------------------------------------------------------------------------
  // upload_resource

  /** The flash messages the admin page can show. */
  datatype Flash =
    | CategoryCreated    // success: the category was created
    | CategoryRejected   // error: the name is empty or already used
    | FieldsMissing      // error: title, category or file is missing
    | FileRejected       // error: the file's extension is not accepted
    | TypeUnsupported    // error: the extension has no kind (never shown, see UploadResource)
    | ResourceAdded      // success: the resource was stored

  /**
   * Python truthiness of a text form field: present and non-empty. For the
   * uploaded file the text is its client-side file name, which is what a
   * werkzeug `FileStorage` tests when used as a condition.
   */
  predicate Present(field: Option<string>) {
    field.Some? && field.value != []
  }

  /** The outcome of the validation cascade of `upload_resource`. */
  function UploadVerdict(title: Option<string>, category: Option<nat>, file: Option<string>): (v: Flash)
    ensures v == FieldsMissing || v == FileRejected || v == ResourceAdded
    ensures v == FieldsMissing <==> !(Present(title) && category.Some? && Present(file))
    ensures v == ResourceAdded <==>
      Present(title) && category.Some? && Present(file) && AllowedFile(file.value)
    ensures v == ResourceAdded ==>
      '.' in file.value && Lower(Extension(file.value).value) in AllowedExtensions &&
      FileTypeFromExt(Lower(Extension(file.value).value)).Some?
  {
    if !(Present(title) && category.Some? && Present(file)) then FieldsMissing
    else if !AllowedFile(file.value) then FileRejected
    else
      AllowedFileHasType(file.value);
      ResourceAdded
  }

  /** The kind recorded for an accepted file: that of its lower-cased extension. */
  function UploadedType(filename: string): (t: FileType)
    requires AllowedFile(filename)
    ensures Lower(Extension(filename).value) in AllowedExtensions
    ensures t == AllowedExtensions[Lower(Extension(filename).value)]
  {
    AllowedFileHasType(filename);
    LowerIdempotent(Extension(filename).value);
    FileTypeFromExt(Lower(Extension(filename).value)).value
  }

  /**
   * The resource table after `upload_resource`: unchanged unless the cascade
   * accepts the upload, and otherwise one more row at the end that records
   * the form's fields, the stored file name, the kind of the extension and a
   * fresh, largest id.
   */
  function WithUpload(
    rs: seq<Resource>, title: Option<string>, description: Option<string>,
    category: Option<nat>, file: Option<string>, secure: string -> string): (r: seq<Resource>)
    ensures UploadVerdict(title, category, file) != ResourceAdded ==> r == rs
    ensures UploadVerdict(title, category, file) == ResourceAdded ==>
      |r| == |rs| + 1 && r[..|rs|] == rs &&
      var x := r[|rs|];
      x.title == title.value && x.title != [] && x.description == description &&
      x.filename == secure(file.value) && x.categoryId == category.value &&
      Some(x.fileType) == FileTypeFromExt(Lower(Extension(file.value).value)) &&
      forall y :: y in rs ==> y.id < x.id
  {
    if UploadVerdict(title, category, file) == ResourceAdded then
      rs + [Resource(NextResourceId(rs), title.value, description, secure(file.value),
                     UploadedType(file.value), category.value)]
    else rs
  }

  /** Uploading keeps resource ids increasing in row order. */
  lemma UploadKeepsOrder(
    rs: seq<Resource>, title: Option<string>, description: Option<string>,
    category: Option<nat>, file: Option<string>, secure: string -> string)
    requires ResourceIdsIncrease(rs)
    ensures ResourceIdsIncrease(WithUpload(rs, title, description, category, file, secure))
  {
    var r := WithUpload(rs, title, description, category, file, secure);
    if r != rs {
      assert forall i :: 0 <= i < |rs| ==> r[i] == rs[i] && rs[i] in rs;
    }
  }

  // ---------------------------------------------------------------------------
  // Queries

  /** The `filter_by` conditions the routes use. */
  datatype Criterion = OfType(t: FileType) | InCategory(c: nat) | IdOtherThan(id: nat)

  predicate Matches(r: Resource, k: Criterion) {
    match k
    case OfType(t) => r.fileType == t
    case InCategory(c) => r.categoryId == c
    case IdOtherThan(id) => r.id != id
  }

  /** `query.filter_by(...).all()`: the rows that meet the condition, in row order. */
  function Select(rs: seq<Resource>, k: Criterion): (out: seq<Resource>)
    ensures |out| <= |rs|
    ensures forall r :: r in out <==> r in rs && Matches(r, k)
  {
    if rs == [] then []
    else (if Matches(rs[0], k) then [rs[0]] else []) + Select(rs[1..], k)
  }

  /** Selecting keeps row order. */
  lemma {:induction false} SelectKeepsOrder(rs: seq<Resource>, k: Criterion)
    ensures ResourceIdsIncrease(rs) ==> ResourceIdsIncrease(Select(rs, k))
  {
    if rs != [] && ResourceIdsIncrease(rs) {
      var tail := rs[1..];
      assert ResourceIdsIncrease(tail) by {
        forall i, j | 0 <= i < j < |tail| ensures tail[i].id < tail[j].id {
          assert tail[i] == rs[i + 1] && tail[j] == rs[j + 1];
        }
      }
      SelectKeepsOrder(tail, k);
      var s := Select(tail, k);
      var out := Select(rs, k);
      if Matches(rs[0], k) {
        assert out == [rs[0]] + s;
        forall i, j | 0 <= i < j < |out| ensures out[i].id < out[j].id {
          assert out[j] == s[j - 1] && s[j - 1] in s && s[j - 1] in tail;
          var m :| 0 <= m < |tail| && tail[m] == s[j - 1];
          assert tail[m] == rs[m + 1];
          if i > 0 {
            assert out[i] == s[i - 1];
          }
        }
      } else {
        assert out == s;
      }
    }
  }

  lemma TailKeepsOrder(rs: seq<Resource>)
    requires ResourceIdsIncrease(rs) && rs != []
    ensures ResourceIdsIncrease(rs[1..])
  {
    forall i, j | 0 <= i < j < |rs| - 1 ensures rs[1..][i].id < rs[1..][j].id {
      assert rs[1..][i] == rs[i + 1] && rs[1..][j] == rs[j + 1];
    }
  }

  /** Of two tables in row order with the same rows, the first rows agree. */
  lemma SameRowsSameFirst(a: seq<Resource>, b: seq<Resource>)
    requires ResourceIdsIncrease(a) && ResourceIdsIncrease(b)
    requires forall r :: r in a <==> r in b
    requires a != []
    ensures b != [] && a[0] == b[0]
  {
    assert a[0] in a;
    assert b != [] && b[0] in b;
    var i :| 0 <= i < |a| && a[i] == b[0];
    var j :| 0 <= j < |b| && b[j] == a[0];
    assert a[0].id <= a[i].id && b[0].id <= b[j].id;
  }

  /** A later row of one table is a later row of the other when both start with the same row. */
  lemma SameRowsLaterRow(a: seq<Resource>, b: seq<Resource>, r: Resource)
    requires ResourceIdsIncrease(a) && a != [] && b != [] && a[0] == b[0]
    requires forall x :: x in a ==> x in b
    requires r in a[1..]
    ensures r in b[1..]
  {
    var m :| 0 <= m < |a| - 1 && a[1..][m] == r;
    assert a[m + 1] == r && a[0].id < r.id;
    assert r in b;
    var n :| 0 <= n < |b| && b[n] == r;
    assert n != 0;
    assert b[1..][n - 1] == r;
  }

  /** Two tables with increasing ids and the same rows are the same table. */
  lemma {:induction false} SameRowsSameTable(a: seq<Resource>, b: seq<Resource>)
    requires ResourceIdsIncrease(a) && ResourceIdsIncrease(b)
    requires forall r :: r in a <==> r in b
    ensures a == b
    decreases |a|
  {
    assert b != [] ==> b[0] in b;
    if a != [] {
      SameRowsSameFirst(a, b);
      TailKeepsOrder(a);
      TailKeepsOrder(b);
      forall r ensures r in a[1..] <==> r in b[1..] {
        if r in a[1..] {
          SameRowsLaterRow(a, b, r);
        }
        if r in b[1..] {
          SameRowsLaterRow(b, a, r);
        }
      }
      SameRowsSameTable(a[1..], b[1..]);
      assert a == [a[0]] + a[1..] && b == [b[0]] + b[1..];
    }
  }

  /**
   * The filter's result is the only table in row order that holds exactly
   * the matching rows: the matching resources, in stored order.
   */
  lemma SelectIsTheMatchingRowsInOrder(rs: seq<Resource>, k: Criterion, out: seq<Resource>)
    requires ResourceIdsIncrease(rs) && ResourceIdsIncrease(out)
    requires forall r :: r in out <==> r in rs && Matches(r, k)
    ensures out == Select(rs, k)
  {
    SelectKeepsOrder(rs, k);
    SameRowsSameTable(out, Select(rs, k));
  }

  /** Taking one row out of a table in row order leaves a table in row order. */
  lemma RemoveAtKeepsOrder(rs: seq<Resource>, k: nat)
    requires ResourceIdsIncrease(rs) && k < |rs|
    ensures ResourceIdsIncrease(rs[..k] + rs[k + 1..])
  {
    var rest := rs[..k] + rs[k + 1..];
    forall i, j | 0 <= i < j < |rest| ensures rest[i].id < rest[j].id {
      var i' := if i < k then i else i + 1;
      var j' := if j < k then j else j + 1;
      assert rest[i] == rs[i'] && rest[j] == rs[j'];
    }
  }

  /** Taking out row `k` leaves exactly the rows whose id differs from its id. */
  lemma RemoveAtMembers(rs: seq<Resource>, k: nat)
    requires ResourceIdsIncrease(rs) && k < |rs|
    ensures forall r :: r in rs[..k] + rs[k + 1..] <==> r in rs && r.id != rs[k].id
  {
    var rest := rs[..k] + rs[k + 1..];
    forall r ensures r in rest <==> r in rs && r.id != rs[k].id {
      if r in rest {
        var m :| 0 <= m < |rest| && rest[m] == r;
        var m' := if m < k then m else m + 1;
        assert rest[m] == rs[m'] && m' != k;
      }
      if r in rs && r.id != rs[k].id {
        var m :| 0 <= m < |rs| && rs[m] == r;
        assert rest[if m < k then m else m - 1] == r;
      }
    }
  }

  /**
   * Deleting by id removes exactly the row with that id and leaves every
   * other row, in its order.
   */
  lemma DeleteRemovesOnlyTarget(rs: seq<Resource>, k: nat)
    requires ResourceIdsIncrease(rs) && k < |rs|
    ensures Select(rs, IdOtherThan(rs[k].id)) == rs[..k] + rs[k + 1..]
  {
    RemoveAtKeepsOrder(rs, k);
    RemoveAtMembers(rs, k);
    SelectIsTheMatchingRowsInOrder(rs, IdOtherThan(rs[k].id), rs[..k] + rs[k + 1..]);
  }

  /** `Resource.query.get(id)`: the row with that id, if any. */
  function Find(rs: seq<Resource>, id: nat): (r: Option<Resource>)
    ensures r.Some? ==> r.value in rs && r.value.id == id
    ensures r.None? ==> forall x :: x in rs ==> x.id != id
  {
    if rs == [] then None
    else if rs[0].id == id then Some(rs[0])
    else Find(rs[1..], id)
  }

  /** Where `Find` found its row. */
  lemma {:induction false} FoundAt(rs: seq<Resource>, id: nat) returns (k: nat)
    requires Find(rs, id).Some?
    ensures k < |rs| && rs[k] == Find(rs, id).value
  {
    if rs[0].id == id {
      k := 0;
    } else {
      var k' := FoundAt(rs[1..], id);
      k := k' + 1;
    }
  }

  /** Ids are keys: in a table with increasing ids, two rows with one id are one row. */
  lemma {:induction false} IdsAreKeys(rs: seq<Resource>, x: Resource, y: Resource)
    requires ResourceIdsIncrease(rs) && x in rs && y in rs && x.id == y.id
    ensures x == y
  {
    var i :| 0 <= i < |rs| && rs[i] == x;
    var j :| 0 <= j < |rs| && rs[j] == y;
    assert i == j;
  }

  /** The `?type=` values the admin page filters on. */
  predicate IsTypeFilter(f: Option<string>) {
    f == Some("pdf") || f == Some("image") || f == Some("video")
  }

  /**
   * The resources the admin page lists: with a known `type` argument, the
   * resources whose stored `file_type` is that text, in row order; with any
   * other argument or none, all of them.
   */
  function AdminListing(rs: seq<Resource>, typeFilter: Option<string>): (out: seq<Resource>)
    ensures IsTypeFilter(typeFilter) ==>
      forall r :: r in out <==> r in rs && Some(TypeName(r.fileType)) == typeFilter
    ensures !IsTypeFilter(typeFilter) ==> out == rs
    ensures ResourceIdsIncrease(rs) ==> ResourceIdsIncrease(out)
  {
    var k := if typeFilter == Some("pdf") then OfType(Pdf)
             else if typeFilter == Some("image") then OfType(Image)
             else OfType(Video);
    if IsTypeFilter(typeFilter) then
      SelectKeepsOrder(rs, k); Select(rs, k)
    else rs
  }

  /**
   * The resources the public index lists: with a `cat` argument, those of that
   * category, in row order; without one, all of them.
   */
  function ClientListing(rs: seq<Resource>, cat: Option<nat>): (out: seq<Resource>)
    ensures cat.Some? ==> forall r :: r in out <==> r in rs && r.categoryId == cat.value
    ensures cat.None? ==> out == rs
    ensures ResourceIdsIncrease(rs) ==> ResourceIdsIncrease(out)
  {
    match cat
    case None => rs
    case Some(c) =>
      SelectKeepsOrder(rs, InCategory(c)); Select(rs, InCategory(c))
  }

  // ---------------------------------------------------------------------------
  // Route results

  /** `abort(400)` from a missing form key, or a page carrying a flash message. */
  datatype Outcome = BadRequest | Flashed(flash: Flash)

  datatype LoginReply = LoginBadRequest | LoginAccepted | LoginRejected

  /** The fields of the admin page's POST form; None is a field the request does not carry. */
  datatype Form = Form(
    action: Option<string>,
    newCategory: Option<string>,
    title: Option<string>,
    description: Option<string>,
    category: Option<nat>,
    file: Option<string>)

  datatype AdminRequest = AdminGet | AdminPost(form: Form)

  predicate Posts(request: AdminRequest, action: string) {
    request.AdminPost? && request.form.action == Some(action)
  }

  datatype AdminReply =
    | ToLogin
    | AdminBadRequest
    | AdminPage(flash: Option<Flash>, resources: seq<Resource>, categories: seq<Category>)

  datatype Page = Page(resources: seq<Resource>, categories: seq<Category>)

  datatype FileReply = FileNotFound | SendFile(filename: string, asAttachment: bool)

  datatype DeleteReply = DeleteToLogin | DeleteNotFound | Deleted

  // ---------------------------------------------------------------------------
  // The application state

  class Catalogue {
    /** The `category` table, in row order. */
    var categories: seq<Category>
    /** The `resource` table, in row order. */
    var resources: seq<Resource>
    /** Names of the files present in the upload folder. */
    var uploads: set<string>
    /** `session['admin']`. */
    var admin: bool
    /** `ADMIN_PASSWORD`. */
    const adminPassword: string

    ghost predicate Valid()
      reads this
    {
      CategoriesValid(categories) && ResourceIdsIncrease(resources)
    }

    /**
     * Start-up over the database and upload folder this application left
     * behind: the password comes from the environment when it is set, and a
     * default category is created when the category table is empty. No one
     * is logged in.
     */
    constructor (passwordEnv: Option<string>, storedCategories: seq<Category>,
                 storedResources: seq<Resource>, storedUploads: set<string>)
      requires CategoriesValid(storedCategories) && ResourceIdsIncrease(storedResources)
      ensures Valid()
      ensures adminPassword == if passwordEnv.Some? then passwordEnv.value else DefaultAdminPassword
      ensures categories == if storedCategories == [] then [Category(1, DefaultCategoryName)] else storedCategories
      ensures resources == storedResources && uploads == storedUploads && !admin
    {
      adminPassword := if passwordEnv.Some? then passwordEnv.value else DefaultAdminPassword;
      categories := storedCategories;
      resources := storedResources;
      uploads := storedUploads;
      admin := false;
      new;
      if categories == [] {
        categories := [Category(NextCategoryId(categories), DefaultCategoryName)];
      }
    }

    /** POST /admin/login: a matching password sets the admin flag; anything else leaves it. */
    method Login(password: Option<string>) returns (reply: LoginReply)
      modifies this`admin
      ensures password.None? ==> reply == LoginBadRequest && admin == old(admin)
      ensures password == Some(adminPassword) ==> reply == LoginAccepted && admin
      ensures password.Some? && password.value != adminPassword ==>
        reply == LoginRejected && admin == old(admin)
    {
      if password.None? {
        reply := LoginBadRequest;
      } else if password.value == adminPassword {
        admin := true;
        reply := LoginAccepted;
      } else {
        reply := LoginRejected;
      }
    }

    /** GET /admin/logout: the admin flag is cleared. */
    method Logout()
      modifies this`admin
      ensures !admin
    {
      admin := false;
    }

    /** The `create_category` action of the admin page. */
    method CreateCategory(newCategory: Option<string>) returns (reply: Outcome)
      requires Valid()
      modifies this`categories
      ensures Valid()
      ensures newCategory.None? ==> reply == BadRequest && categories == old(categories)
      ensures newCategory.Some? ==>
        categories == WithCategory(old(categories), newCategory.value) &&
        reply == Flashed(if AcceptsCategory(old(categories), newCategory.value)
                         then CategoryCreated else CategoryRejected)
    {
      if newCategory.None? {
        return BadRequest;
      }
      CategoryCreationKeepsValid(categories, newCategory.value);
      var name := Strip(newCategory.value);
      if name != [] && !NameTaken(categories, name) {
        categories := categories + [Category(NextCategoryId(categories), name)];
        reply := Flashed(CategoryCreated);
      } else {
        reply := Flashed(CategoryRejected);
      }
    }

    /** The `upload_resource` action of the admin page; `secure` is werkzeug's `secure_filename`. */
    method UploadResource(
      title: Option<string>, description: Option<string>, category: Option<nat>,
      file: Option<string>, secure: string -> string) returns (flash: Flash)
      requires Valid()
      modifies this`resources, this`uploads
      ensures Valid()
      ensures flash == UploadVerdict(title, category, file)
      ensures resources == WithUpload(old(resources), title, description, category, file, secure)
      ensures uploads == if flash == ResourceAdded then old(uploads) + {secure(file.value)} else old(uploads)
    {
      UploadKeepsOrder(resources, title, description, category, file, secure);
      if !(Present(title) && category.Some? && Present(file)) {
        flash := FieldsMissing;
      } else if !AllowedFile(file.value) {
        flash := FileRejected;
      } else {
        var ext := Lower(Extension(file.value).value);
        AllowedFileHasType(file.value);
        var fileType := FileTypeFromExt(ext);
        if fileType.None? {
          flash := TypeUnsupported;
        } else {
          var filename := secure(file.value);
          uploads := uploads + {filename};
          resources := resources + [Resource(NextResourceId(resources), title.value, description,
                                             filename, fileType.value, category.value)];
          flash := ResourceAdded;
        }
      }
    }

    /**
     * GET or POST /admin. Without the admin flag nothing changes and the
     * reply sends to the login page. Otherwise a POST runs the named action,
     * and the page lists the resources after it, filtered by `typeFilter`,
     * beside the categories as they were before it.
     */
    method Admin(request: AdminRequest, typeFilter: Option<string>, secure: string -> string)
      returns (reply: AdminReply)
      requires Valid()
      modifies this`categories, this`resources, this`uploads
      ensures Valid()
      ensures !admin ==>
        reply == ToLogin &&
        categories == old(categories) && resources == old(resources) && uploads == old(uploads)
      ensures admin ==> reply != ToLogin
      ensures reply.AdminPage? ==>
        reply.resources == AdminListing(resources, typeFilter) && reply.categories == old(categories)
      ensures admin && !Posts(request, "create_category") && !Posts(request, "upload_resource") ==>
        reply.AdminPage? && reply.flash.None? &&
        categories == old(categories) && resources == old(resources) && uploads == old(uploads)
      ensures admin && Posts(request, "create_category") ==>
        resources == old(resources) && uploads == old(uploads) &&
        (request.form.newCategory.None? ==> reply == AdminBadRequest && categories == old(categories)) &&
        (request.form.newCategory.Some? ==>
          categories == WithCategory(old(categories), request.form.newCategory.value) &&
          reply.AdminPage? && reply.flash.Some? &&
          reply.flash == Some(if AcceptsCategory(old(categories), request.form.newCategory.value)
                              then CategoryCreated else CategoryRejected))
      ensures admin && Posts(request, "upload_resource") ==>
        var f := request.form;
        categories == old(categories) &&
        resources == WithUpload(old(resources), f.title, f.description, f.category, f.file, secure) &&
        uploads == (if UploadVerdict(f.title, f.category, f.file) == ResourceAdded
                    then old(uploads) + {secure(f.file.value)} else old(uploads)) &&
        reply.AdminPage? && reply.flash == Some(UploadVerdict(f.title, f.category, f.file))
    {
      if !admin {
        return ToLogin;
      }
      assert "create_category" != "upload_resource" by {
        assert "create_category"[0] != "upload_resource"[0];
      }
      var shown := categories;
      var flash: Option<Flash> := None;
      if request.AdminPost? {
        var form := request.form;
        if form.action == Some("create_category") {
          var outcome := CreateCategory(form.newCategory);
          if outcome == BadRequest {
            return AdminBadRequest;
          }
          flash := Some(outcome.flash);
        } else if form.action == Some("upload_resource") {
          var f := UploadResource(form.title, form.description, form.category, form.file, secure);
          flash := Some(f);
        }
      }
      reply := AdminPage(flash, AdminListing(resources, typeFilter), shown);
    }

    /** GET /: every category, and the resources of the `cat` category or all of them. */
    method Index(cat: Option<nat>) returns (page: Page)
      requires Valid()
      ensures page.categories == categories
      ensures page.resources == ClientListing(resources, cat)
      ensures cat.None? ==> page.resources == resources
      ensures cat.Some? ==> forall r :: r in page.resources <==> r in resources && r.categoryId == cat.value
      ensures ResourceIdsIncrease(page.resources)
    {
      page := Page(ClientListing(resources, cat), categories);
    }

    /**
     * GET /download/<id> (`asAttachment`) and GET /view/<id>: the stored file
     * of the resource with that id, or 404 when there is no such resource or
     * its file is no longer in the upload folder.
     */
    method Send(id: nat, asAttachment: bool) returns (reply: FileReply)
      requires Valid()
      ensures reply.SendFile? <==> exists r :: r in resources && r.id == id && r.filename in uploads
      ensures reply.SendFile? ==>
        reply.asAttachment == asAttachment &&
        exists r :: r in resources && r.id == id && r.filename == reply.filename
    {
      var found := Find(resources, id);
      if found.None? || found.value.filename !in uploads {
        reply := FileNotFound;
        forall r | r in resources && r.id == id ensures r.filename !in uploads {
          IdsAreKeys(resources, r, found.value);
        }
      } else {
        reply := SendFile(found.value.filename, asAttachment);
      }
    }

    /**
     * POST /admin/delete/<id>: for the admin, the row with that id goes and
     * its file leaves the upload folder; every other row and every category
     * stays. Without the admin flag, or for an unknown id, nothing changes.
     */
    method DeleteResource(id: nat) returns (reply: DeleteReply)
      requires Valid()
      modifies this`resources, this`uploads
      ensures Valid()
      ensures !admin ==> reply == DeleteToLogin && resources == old(resources) && uploads == old(uploads)
      ensures admin && Find(old(resources), id).None? ==>
        reply == DeleteNotFound && resources == old(resources) && uploads == old(uploads)
      ensures admin && Find(old(resources), id).Some? ==>
        reply == Deleted &&
        resources == Select(old(resources), IdOtherThan(id)) &&
        uploads == old(uploads) - {Find(old(resources), id).value.filename}
      ensures admin && Find(old(resources), id).Some? ==>
        exists k :: 0 <= k < |old(resources)| && old(resources)[k].id == id &&
          resources == old(resources)[..k] + old(resources)[k + 1..]
    {
      if !admin {
        return DeleteToLogin;
      }
      var found := Find(resources, id);
      if found.None? {
        return DeleteNotFound;
      }
      var victim := found.value;
      if victim.filename in uploads {
        uploads := uploads - {victim.filename};
      }
      ghost var k := FoundAt(resources, id);
      DeleteRemovesOnlyTarget(resources, k);
      SelectKeepsOrder(resources, IdOtherThan(id));
      ghost var before := resources;
      resources := Select(resources, IdOtherThan(id));
      assert 0 <= k < |before| && before[k].id == id && resources == before[..k] + before[k + 1..];
      reply := Deleted;
    }
  }
}
