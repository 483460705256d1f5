/**
 The media uploader's builder: a record of the parameters accumulated by
 fluent setters before the terminal upload. Each setter either updates its
 own fields and returns the builder, or raises an exception before touching
 anything. The storage manager's disk resolution is a parameter.
 */
module MediaUploader {
  import opened Results
  import FileNames
  import PathInfo

  const VisibilityPublic: string := "public"
  const VisibilityPrivate: string := "private"

  /** A storage backend handed out by the host framework for a disk name. */
  datatype Filesystem = Filesystem(handle: nat)

  /** The host framework's disk lookup: `None` stands for a lookup that throws. */
  type Resolver = string -> Option<Filesystem>

  /** Extra attributes copied onto the media record. */
  type Attributes = map<string, string>

  datatype UploadError =
    | DiskUnresolvable     // the disk lookup threw
    | InvalidVisibility    // not one of the accepted visibilities
    | InvalidFileArgument  // neither an uploaded file nor a file

  /** The builder's fields; `None` is a field that still holds null. */
  datatype Uploader = Uploader(
    model: Option<string>,
    disk: Option<string>,
    filePath: Option<string>,
    fileName: Option<string>,
    name: Option<string>,
    attributes: Attributes,
    visibility: Option<string>,
    filesystem: Option<Filesystem>)

  /** A freshly allocated builder, before its constructor runs. */
  const Blank: Uploader := Uploader(None, None, None, None, None, map[], None, None)

  /** What `fromFile` may be handed. */
  datatype FileArgument =
    | UploadedFile(realPath: string, clientOriginalName: string)
    | LocalFile(realPath: string)
    | OtherValue

  // ---------------------------------------------------------------------------
  // Frames: which fields two builders agree on.
  // ---------------------------------------------------------------------------

  datatype Field =
    ModelField | DiskField | FilePathField | FileNameField | NameField
    | AttributesField | VisibilityField | FilesystemField

  predicate Agree(s: Uploader, t: Uploader, f: Field) {
    match f
    case ModelField => s.model == t.model
    case DiskField => s.disk == t.disk
    case FilePathField => s.filePath == t.filePath
    case FileNameField => s.fileName == t.fileName
    case NameField => s.name == t.name
    case AttributesField => s.attributes == t.attributes
    case VisibilityField => s.visibility == t.visibility
    case FilesystemField => s.filesystem == t.filesystem
  }

  /** `s` and `t` hold the same value in every field outside `changed`. */
  predicate SameExcept(s: Uploader, t: Uploader, changed: set<Field>) {
    forall f: Field :: f !in changed ==> Agree(s, t, f)
  }

  /** Builders that agree on every field are the same builder. */
  lemma AgreeEverywhere(s: Uploader, t: Uploader)
    requires SameExcept(s, t, {})
    ensures s == t
  {
    assert Agree(s, t, ModelField) && Agree(s, t, DiskField);
    assert Agree(s, t, FilePathField) && Agree(s, t, FileNameField);
    assert Agree(s, t, NameField) && Agree(s, t, AttributesField);
    assert Agree(s, t, VisibilityField) && Agree(s, t, FilesystemField);
  }

  /** Frames compose: two steps change at most what either step changes. */
  lemma SameExceptTrans(a: Uploader, b: Uploader, c: Uploader, x: set<Field>, y: set<Field>)
    requires SameExcept(a, b, x) && SameExcept(b, c, y)
    ensures SameExcept(a, c, x + y)
  {
    forall f: Field | f !in x + y
      ensures Agree(a, c, f)
    {
      assert Agree(a, b, f) && Agree(b, c, f);
    }
  }

  // ---------------------------------------------------------------------------
  // The validity invariant every reachable builder keeps.
  // ---------------------------------------------------------------------------

  predicate IsAcceptedVisibility(v: string) {
    v == VisibilityPublic || v == VisibilityPrivate
  }

  /**
   A stored file name is sanitised, a stored visibility is accepted, and a disk
   is stored exactly when the filesystem it resolves to is.
   */
  predicate Valid(s: Uploader, resolve: Resolver)
    ensures Valid(s, resolve) && s.fileName.Some? ==>
      FileNames.SanitiseFileName(s.fileName.value) == s.fileName.value
    ensures Valid(s, resolve) && s.disk.Some? ==> resolve(s.disk.value).Some?
  {
    && (s.fileName.Some? ==> FileNames.IsSanitised(s.fileName.value))
    && (s.visibility.Some? ==> IsAcceptedVisibility(s.visibility.value))
    && (s.disk.Some? <==> s.filesystem.Some?)
    && (s.disk.Some? ==> resolve(s.disk.value) == s.filesystem)
  }

  /**
   A fresh builder holds null in every field but the attributes, which start
   empty, and is valid whatever the disk lookup does.
   */
  lemma BlankIsValid(resolve: Resolver)
    ensures Blank.model.None? && Blank.disk.None? && Blank.filePath.None?
    ensures Blank.fileName.None? && Blank.name.None? && Blank.visibility.None?
    ensures Blank.filesystem.None? && Blank.attributes == map[]
    ensures Valid(Blank, resolve)
  {
  }

  // ---------------------------------------------------------------------------
  // Setters.
  // ---------------------------------------------------------------------------

  /** Stores the media model class name; there is no check on it. */
  function SetModel(s: Uploader, model: string): (r: Uploader)
    ensures r.model == Some(model)
    ensures SameExcept(s, r, {ModelField})
  {
    s.(model := Some(model))
  }

  /**
   Looks the disk up; when the lookup throws, raises and changes nothing,
   otherwise stores both the disk name and the filesystem it resolved to.
   */
  function SetDisk(s: Uploader, disk: string, resolve: Resolver): (r: Result<Uploader, UploadError>)
    ensures r.Ok? <==> resolve(disk).Some?
    ensures r.Ok? ==> r.value.disk == Some(disk) && r.value.filesystem == resolve(disk)
    ensures r.Ok? ==> SameExcept(s, r.value, {DiskField, FilesystemField})
    ensures r.Err? ==> r.error == DiskUnresolvable
  {
    match resolve(disk)
    case None => Err(DiskUnresolvable)
    case Some(fs) => Ok(s.(filesystem := Some(fs), disk := Some(disk)))
  }

  /** Stores the sanitised form of the given file name. */
  function SetFileName(s: Uploader, fileName: string): (r: Uploader)
    ensures r.fileName == Some(FileNames.SanitiseFileName(fileName))
    ensures FileNames.IsSanitised(r.fileName.value)
    ensures |r.fileName.value| == |fileName|
    ensures FileNames.IsSanitised(fileName) ==> r.fileName == Some(fileName)
    ensures SameExcept(s, r, {FileNameField})
  {
    FileNames.SanitiseFixedPoints(fileName);
    s.(fileName := Some(FileNames.SanitiseFileName(fileName)))
  }

  /** Stores the media item's display name as given (it is not sanitised). */
  function SetName(s: Uploader, name: string): (r: Uploader)
    ensures r.name == Some(name)
    ensures SameExcept(s, r, {NameField})
  {
    s.(name := Some(name))
  }

  /** Replaces the extra attributes wholesale. */
  function SetAttributes(s: Uploader, attributes: Attributes): (r: Uploader)
    ensures r.attributes == attributes
    ensures SameExcept(s, r, {AttributesField})
  {
    s.(attributes := attributes)
  }

  /** Stores the visibility when it is "public" or "private", and raises otherwise. */
  function SetVisibility(s: Uploader, visibility: string): (r: Result<Uploader, UploadError>)
    ensures r.Ok? <==> visibility == "public" || visibility == "private"
    ensures r.Ok? ==> r.value.visibility == Some(visibility)
    ensures r.Ok? ==> SameExcept(s, r.value, {VisibilityField})
    ensures r.Err? ==> r.error == InvalidVisibility
  {
    if visibility in [VisibilityPublic, VisibilityPrivate] then Ok(s.(visibility := Some(visibility)))
    else Err(InvalidVisibility)
  }

  /**
   Takes the file at `path`: records the path, the sanitised base name as the
   stored file name and the base name without extension as the display name.
   */
  function FromPath(s: Uploader, path: string): (r: Uploader)
    ensures r.filePath == Some(path)
    ensures r.fileName == Some(FileNames.SanitiseFileName(PathInfo.BaseName(path)))
    ensures r.name == Some(PathInfo.FileName(path))
    ensures SameExcept(s, r, {FilePathField, FileNameField, NameField})
  {
    var withPath := s.(filePath := Some(path));
    var withFileName := SetFileName(withPath, PathInfo.BaseName(path));
    var r := SetName(withFileName, PathInfo.FileName(path));
    SameExceptTrans(s, withPath, withFileName, {FilePathField}, {FileNameField});
    SameExceptTrans(s, withFileName, r, {FilePathField, FileNameField}, {NameField});
    r
  }

  /**
   Takes an uploaded file: records its real path, the sanitised client name as
   the stored file name and the client name without extension as the display
   name.
   */
  function FromUploadedFile(s: Uploader, realPath: string, clientName: string): (r: Uploader)
    ensures r.filePath == Some(realPath)
    ensures r.fileName == Some(FileNames.SanitiseFileName(clientName))
    ensures r.name == Some(PathInfo.FileName(clientName))
    ensures SameExcept(s, r, {FilePathField, FileNameField, NameField})
  {
    var withPath := s.(filePath := Some(realPath));
    var withFileName := SetFileName(withPath, clientName);
    var r := SetName(withFileName, PathInfo.FileName(clientName));
    SameExceptTrans(s, withPath, withFileName, {FilePathField}, {FileNameField});
    SameExceptTrans(s, withFileName, r, {FilePathField, FileNameField}, {NameField});
    r
  }

  /**
   Takes an uploaded file, or any other file (as `FromPath` of its real path);
   raises on anything else.
   */
  function FromFile(s: Uploader, file: FileArgument): (r: Result<Uploader, UploadError>)
    ensures r.Ok? <==> !file.OtherValue?
    ensures file.UploadedFile? ==> r == Ok(FromUploadedFile(s, file.realPath, file.clientOriginalName))
    ensures file.LocalFile? ==> r == Ok(FromPath(s, file.realPath))
    ensures r.Err? ==> r.error == InvalidFileArgument
  {
    match file
    case UploadedFile(realPath, clientName) => Ok(FromUploadedFile(s, realPath, clientName))
    case LocalFile(realPath) => Ok(FromPath(s, realPath))
    case OtherValue => Err(InvalidFileArgument)
  }

  /** The constructor: sets the model, then the disk, on a blank builder. */
  function New(model: string, disk: string, resolve: Resolver): (r: Result<Uploader, UploadError>)
    ensures r.Ok? <==> resolve(disk).Some?
    ensures r.Ok? ==> r.value.model == Some(model) && r.value.disk == Some(disk)
    ensures r.Ok? ==> SameExcept(Blank, r.value, {ModelField, DiskField, FilesystemField})
    ensures r.Ok? ==> Valid(r.value, resolve)
    ensures r.Err? ==> r.error == DiskUnresolvable
  {
    SetDisk(SetModel(Blank, model), disk, resolve)
  }

  // ---------------------------------------------------------------------------
  // Fluent chains of calls.
  // ---------------------------------------------------------------------------

  datatype Call =
    | FromFileCall(file: FileArgument)
    | FromPathCall(path: string)
    | SetModelCall(model: string)
    | SetDiskCall(disk: string)
    | SetFileNameCall(fileName: string)
    | SetNameCall(name: string)
    | SetAttributesCall(attributes: Attributes)
    | SetVisibilityCall(visibility: string)

  /** One call on the builder. */
  function Perform(s: Uploader, call: Call, resolve: Resolver): Result<Uploader, UploadError> {
    match call
    case FromFileCall(file) => FromFile(s, file)
    case FromPathCall(path) => Ok(FromPath(s, path))
    case SetModelCall(model) => Ok(SetModel(s, model))
    case SetDiskCall(disk) => SetDisk(s, disk, resolve)
    case SetFileNameCall(fileName) => Ok(SetFileName(s, fileName))
    case SetNameCall(name) => Ok(SetName(s, name))
    case SetAttributesCall(attributes) => Ok(SetAttributes(s, attributes))
    case SetVisibilityCall(visibility) => SetVisibility(s, visibility)
  }

  /** The fields a successful call may write. */
  function Footprint(call: Call): set<Field> {
    match call
    case FromFileCall(_) => {FilePathField, FileNameField, NameField}
    case FromPathCall(_) => {FilePathField, FileNameField, NameField}
    case SetModelCall(_) => {ModelField}
    case SetDiskCall(_) => {DiskField, FilesystemField}
    case SetFileNameCall(_) => {FileNameField}
    case SetNameCall(_) => {NameField}
    case SetAttributesCall(_) => {AttributesField}
    case SetVisibilityCall(_) => {VisibilityField}
  }

  /** The builder after a chain, and the error that ended it early, if any. */
  datatype Trace = Trace(state: Uploader, failure: Option<UploadError>)

  /**
   Runs a chain of calls. The first call that raises ends the chain; the
   builder keeps what the calls before it did, and no field outside the
   chain's footprints changes.
   */
  function Run(s: Uploader, calls: seq<Call>, resolve: Resolver): (r: Trace)
    ensures SameExcept(s, r.state, ChainFootprint(calls))
    decreases |calls|
  {
    if calls == [] then Trace(s, None)
    else match Perform(s, calls[0], resolve)
      case Ok(t) =>
        var r := Run(t, calls[1..], resolve);
        PerformFrame(s, calls[0], resolve);
        SameExceptTrans(s, t, r.state, Footprint(calls[0]), ChainFootprint(calls[1..]));
        r
      case Err(e) => Trace(s, Some(e))
  }

  /** The fields some call of the chain may write. */
  function ChainFootprint(calls: seq<Call>): set<Field>
    decreases |calls|
  {
    if calls == [] then {} else Footprint(calls[0]) + ChainFootprint(calls[1..])
  }

  // ---------------------------------------------------------------------------
  // Laws.
  // ---------------------------------------------------------------------------

  /** A call writes nothing outside its footprint. */
  lemma PerformFrame(s: Uploader, call: Call, resolve: Resolver)
    ensures Perform(s, call, resolve).Ok? ==> SameExcept(s, Perform(s, call, resolve).value, Footprint(call))
  {
  }

  /**
   Whether a call raises, and what it writes into its footprint, does not
   depend on the builder it is made on.
   */
  lemma PerformIgnoresPriorState(s: Uploader, t: Uploader, call: Call, resolve: Resolver)
    ensures Perform(s, call, resolve).Ok? <==> Perform(t, call, resolve).Ok?
    ensures Perform(s, call, resolve).Ok? ==>
      forall f :: f in Footprint(call) ==> Agree(Perform(s, call, resolve).value, Perform(t, call, resolve).value, f)
  {
    match call
    case FromFileCall(file) =>
    case FromPathCall(path) =>
    case SetModelCall(model) =>
    case SetDiskCall(disk) =>
    case SetFileNameCall(fileName) =>
    case SetNameCall(name) =>
    case SetAttributesCall(attributes) =>
    case SetVisibilityCall(visibility) =>
  }

  /** Every call keeps the validity invariant. */
  lemma PerformPreservesValid(s: Uploader, call: Call, resolve: Resolver)
    requires Valid(s, resolve)
    ensures Perform(s, call, resolve).Ok? ==> Valid(Perform(s, call, resolve).value, resolve)
  {
  }

  /** A call that raises ends the chain with the builder exactly as it was. */
  lemma FailedCallLeavesBuilder(s: Uploader, call: Call, rest: seq<Call>, resolve: Resolver)
    requires Perform(s, call, resolve).Err?
    ensures Run(s, [call] + rest, resolve) == Trace(s, Some(Perform(s, call, resolve).error))
  {
  }

  /** Every builder reachable by a chain from a valid one is valid. */
  lemma {:induction false} RunPreservesValid(s: Uploader, calls: seq<Call>, resolve: Resolver)
    requires Valid(s, resolve)
    ensures Valid(Run(s, calls, resolve).state, resolve)
    decreases |calls|
  {
    if calls != [] {
      PerformPreservesValid(s, calls[0], resolve);
      if Perform(s, calls[0], resolve).Ok? {
        RunPreservesValid(Perform(s, calls[0], resolve).value, calls[1..], resolve);
      }
    }
  }

  /** Chaining two chains: the second runs on what the first left, unless the first raised. */
  lemma {:induction false} RunAppend(s: Uploader, a: seq<Call>, b: seq<Call>, resolve: Resolver)
    ensures Run(s, a + b, resolve) ==
      if Run(s, a, resolve).failure.Some? then Run(s, a, resolve)
      else Run(Run(s, a, resolve).state, b, resolve)
    decreases |a|
  {
    if a != [] {
      assert (a + b)[0] == a[0];
      assert (a + b)[1..] == a[1..] + b;
      if Perform(s, a[0], resolve).Ok? {
        RunAppend(Perform(s, a[0], resolve).value, a[1..], b, resolve);
      }
    } else {
      assert a + b == b;
    }
  }

  /** Calls with disjoint footprints that both succeed may be made in either order. */
  lemma DisjointCallsCommute(s: Uploader, c1: Call, c2: Call, resolve: Resolver)
    requires Footprint(c1) !! Footprint(c2)
    requires Perform(s, c1, resolve).Ok? && Perform(s, c2, resolve).Ok?
    ensures Perform(Perform(s, c1, resolve).value, c2, resolve).Ok?
    ensures Perform(Perform(s, c2, resolve).value, c1, resolve).Ok?
    ensures Perform(Perform(s, c1, resolve).value, c2, resolve).value
         == Perform(Perform(s, c2, resolve).value, c1, resolve).value
  {
    var s1, s2 := Perform(s, c1, resolve).value, Perform(s, c2, resolve).value;
    PerformIgnoresPriorState(s, s2, c1, resolve);
    PerformIgnoresPriorState(s, s1, c2, resolve);
    var a, b := Perform(s1, c2, resolve).value, Perform(s2, c1, resolve).value;
    PerformFrame(s, c1, resolve);
    PerformFrame(s, c2, resolve);
    PerformFrame(s1, c2, resolve);
    PerformFrame(s2, c1, resolve);
    forall f: Field
      ensures Agree(a, b, f)
    {
      if f in Footprint(c1) {
        assert Agree(s1, a, f);
      } else if f in Footprint(c2) {
        assert Agree(s2, b, f);
      } else {
        assert Agree(s, s1, f) && Agree(s1, a, f) && Agree(s, s2, f) && Agree(s2, b, f);
      }
    }
    AgreeEverywhere(a, b);
  }

  /** A successful call whose footprint covers an earlier call's footprint undoes that call. */
  lemma LaterCallSupersedes(s: Uploader, c1: Call, c2: Call, resolve: Resolver)
    requires Footprint(c1) <= Footprint(c2)
    requires Perform(s, c1, resolve).Ok? && Perform(s, c2, resolve).Ok?
    ensures Perform(Perform(s, c1, resolve).value, c2, resolve)
         == Perform(s, c2, resolve)
  {
    var s1 := Perform(s, c1, resolve).value;
    PerformIgnoresPriorState(s, s1, c2, resolve);
    var a, b := Perform(s1, c2, resolve).value, Perform(s, c2, resolve).value;
    PerformFrame(s, c1, resolve);
    PerformFrame(s, c2, resolve);
    PerformFrame(s1, c2, resolve);
    forall f: Field
      ensures Agree(a, b, f)
    {
      if f !in Footprint(c2) {
        assert Agree(s, s1, f) && Agree(s1, a, f) && Agree(s, b, f);
      }
    }
    AgreeEverywhere(a, b);
  }

  /** Passing an already sanitised name to `SetFileName` changes nothing. */
  lemma SetFileNameAbsorbsSanitise(s: Uploader, fileName: string)
    ensures SetFileName(s, FileNames.SanitiseFileName(fileName)) == SetFileName(s, fileName)
  {
    FileNames.SanitiseIdempotent(fileName);
  }

  /**
   After `FromPath` the display name, once sanitised, is the stored file name
   with at most its extension cut off.
   */
  lemma FromPathNameIsStem(s: Uploader, path: string)
    ensures var r := FromPath(s, path);
      var stem := FileNames.SanitiseFileName(r.name.value);
      && |stem| <= |r.fileName.value|
      && r.fileName.value[..|stem|] == stem
      && (|stem| < |r.fileName.value| ==> r.fileName.value[|stem|] == '.')
  {
    var base, stem := PathInfo.BaseName(path), PathInfo.FileName(path);
    assert base == stem + base[|stem|..];
    FileNames.SanitiseConcat(stem, base[|stem|..]);
  }

  /**
   The uploaded-file scenario, for every client name `stem.ext` that needs no
   sanitising and has a single extension: a builder made for a resolvable disk
   keeps the client name as the stored file name, `stem` as the display name,
   and the disk it was made with.
   */
  lemma UploadedFileScenario(model: string, disk: string, realPath: string, stem: string, ext: string, resolve: Resolver)
    requires resolve(disk).Some?
    requires FileNames.IsSanitised(stem + "." + ext)
    requires forall i :: 0 <= i < |ext| ==> ext[i] != '.'
    ensures New(model, disk, resolve).Ok?
    ensures var r := FromFile(New(model, disk, resolve).value, UploadedFile(realPath, stem + "." + ext));
      && r.Ok?
      && r.value.name == Some(stem)
      && r.value.fileName == Some(stem + "." + ext)
      && r.value.disk == Some(disk)
      && r.value.model == Some(model)
      && r.value.filePath == Some(realPath)
  {
    var client := stem + "." + ext;
    forall i | 0 <= i < |stem|
      ensures stem[i] != '/'
    {
      assert client[i] == stem[i];
    }
    forall i | 0 <= i < |ext|
      ensures ext[i] != '/'
    {
      assert client[|stem| + 1 + i] == ext[i];
    }
    PathInfo.FileNameDropsExtension(stem, ext);
  }
}
