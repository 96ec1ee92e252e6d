/**
 * Classification of uploaded files (bangre/app.py:17-22, 55-66): the table of
 * accepted extensions, the acceptance test on a file name, and the mapping
 * from an extension to the kind of content it holds.
 */
module Upload {
  import opened Wrappers
  import opened Text

  /** The kinds of resource the catalogue stores (the `file_type` column). */
  datatype FileType = Pdf | Image | Video

  /** The text stored in the `file_type` column for each kind. */
  function TypeName(t: FileType): string {
    match t
    case Pdf => "pdf"
    case Image => "image"
    case Video => "video"
  }

  /** `ALLOWED_EXTENSIONS`: lower-case extension to kind. */
  const AllowedExtensions: map<string, FileType> := map[
    "pdf" := Pdf,
    "jpg" := Image, "jpeg" := Image, "png" := Image, "gif" := Image, "webp" := Image,
    "mp4" := Video, "avi" := Video, "mov" := Video, "mkv" := Video, "webm" := Video
  ]

  /**
   * `filename.rsplit('.', 1)[1]` when the name contains a dot: the text after
   * the last dot, which itself holds no dot.
   */
  function Extension(filename: string): (ext: Option<string>)
    ensures ext.None? <==> '.' !in filename
    ensures ext.Some? ==>
      '.' !in ext.value && |ext.value| < |filename| &&
      filename == filename[..|filename| - |ext.value| - 1] + "." + ext.value
  {
    match LastIndexOf(filename, '.')
    case None => None
    case Some(i) =>
      assert filename == filename[..i] + "." + filename[i + 1..];
      Some(filename[i + 1..])
  }

  /** The extension of `stem.ext` is `ext` whenever `ext` holds no dot, whatever `stem` holds. */
  lemma ExtensionOfJoin(stem: string, ext: string)
    requires '.' !in ext
    ensures Extension(stem + "." + ext) == Some(ext)
  {
    var f := stem + "." + ext;
    assert f[|stem|] == '.';
    var i := LastIndexOf(f, '.').value;
    assert forall j :: |stem| < j < |f| ==> f[j] == ext[j - |stem| - 1];
    assert forall j :: i < j < |f| ==> f[j] == f[i + 1..][j - i - 1];
    assert i == |stem|;
  }

  /** `allowed_file`: the name has a dot and its lower-cased extension is a key of the table. */
  function AllowedFile(filename: string): (ok: bool)
    ensures ok ==> '.' in filename
  {
    '.' in filename && Lower(Extension(filename).value) in AllowedExtensions
  }

  /** `allowed_file` decides on the lower-cased text after the last dot and on nothing else. */
  lemma AllowedFileByExtension(stem: string, ext: string)
    requires '.' !in ext
    ensures AllowedFile(stem + "." + ext) <==> Lower(ext) in AllowedExtensions
  {
    ExtensionOfJoin(stem, ext);
  }

  /**
   * `get_file_type_from_ext`: an if-cascade over lists of extensions. Its
   * contract is the alignment with the table: the result is the table's
   * entry for the lower-cased extension, and None when there is none.
   */
  function FileTypeFromExt(ext: string): (t: Option<FileType>)
    ensures t.Some? <==> Lower(ext) in AllowedExtensions
    ensures t.Some? ==> t.value == AllowedExtensions[Lower(ext)]
  {
    var e := Lower(ext);
    if e == "pdf" then Some(Pdf)
    else if e in ["jpg", "jpeg", "png", "gif", "webp"] then Some(Image)
    else if e in ["mp4", "avi", "mov", "mkv", "webm"] then Some(Video)
    else None
  }

  /** Every key of the table is mapped by `get_file_type_from_ext` to exactly its value. */
  lemma TableAligned(e: string)
    requires e in AllowedExtensions
    ensures FileTypeFromExt(e) == Some(AllowedExtensions[e])
  {
    assert Lower(e) == e by {
      assert forall i :: 0 <= i < |e| ==> 'a' <= e[i] <= 'z' || e[i] == '4';
      LowerKeepsLowercase(e);
    }
  }

  /** `get_file_type_from_ext` ignores case: it gives the same answer for an extension and its lower-case form. */
  lemma FileTypeCaseInsensitive(ext: string)
    ensures FileTypeFromExt(ext) == FileTypeFromExt(Lower(ext))
  {
    LowerIdempotent(ext);
  }

  /**
   * A name that `allowed_file` accepts always has a kind, so the upload
   * handler's "type not supported" branch can never be taken.
   */
  lemma AllowedFileHasType(filename: string)
    requires AllowedFile(filename)
    ensures FileTypeFromExt(Lower(Extension(filename).value)).Some?
  {
    LowerIdempotent(Extension(filename).value);
  }
}
