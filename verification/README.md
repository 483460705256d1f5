# MediaUploader builder — a Dafny model

This project models the `MediaUploader` class of the `laravel-media` package.
The uploader is a builder. Fluent setters accumulate the parameters of one
upload: the media model class, the storage disk, the source file path, the
stored file name, the display name, extra attributes and a visibility. A
terminal `upload()` then saves a record and copies the file.

The model has four modules:

- `Results` (`results.dfy`): `Option` for the builder's nullable fields, and
  `Result` for calls that can raise.
- `FileNames` (`file_names.dfy`): the file-name sanitiser. Every `#`, `/`, `\`
  and space becomes `-`. The module also holds a reference model of the host
  language's `str_replace` with an array of searches: each search is applied
  in turn to the result of the previous one. A lemma proves the sanitiser
  equal to `str_replace(['#', '/', '\\', ' '], '-', name)`.
- `PathInfo` (`path_info.dfy`): the two `pathinfo` components the uploader
  reads. The base name is the text after the last `/`. The file name is the
  base name up to its last `.`. Each is characterised by its contract, for
  example "the longest suffix without a `/`".
- `MediaUploader` (`media_uploader.dfy`): the builder as an immutable record
  `Uploader`. Each setter is a pure function. A setter that can raise returns
  `Result<Uploader, UploadError>`, and its error path returns no state.

In the source, every exception is thrown before any field is assigned. So a
call that raises leaves the object as it was. `Run` models a fluent chain
`$u->a()->b()->…`: the first call that raises ends the chain, and the builder
keeps what the earlier calls did.

The state is validated by an invariant, `Valid`:

- a stored file name is sanitised;
- a stored visibility is `"public"` or `"private"`;
- a disk is stored exactly when a resolved filesystem is;
- the stored filesystem is the one the disk resolves to.

Frames use one vocabulary. `SameExcept(s, t, F)` says that `s` and `t` agree
on every field outside `F`. `Footprint(call)` is the set of fields a call may
write. From these come two general laws:

- two successful calls with disjoint footprints commute;
- a successful call whose footprint covers an earlier call's footprint
  supersedes that earlier call.

The host framework's disk lookup (`FilesystemManager::disk`) is a parameter
`resolve: string -> Option<Filesystem>`. `None` stands for a lookup that
throws.

Two facts about the source shape the model:

- No check is made on the model class or on the source file. `setModel`
  stores any string and does not check that the class extends `Media`
  (src/MediaUploader.php:114-119). `fromPath` does not check that the path
  exists (src/MediaUploader.php:99-106).
- The display name of an uploaded file is
  `pathinfo($clientName, PATHINFO_FILENAME)` (src/MediaUploader.php:75). That
  drops any directory part of the client name as well as its extension.
  `FromUploadedFile` uses `PathInfo.FileName` of the client name.

## Model

| member | source | states |
|---|---|---|
| FileNames.SanitiseFileName | src/MediaUploader.php:166-169 | The result has the input's length. Each `#`, `/`, `\` or space becomes `-`, and every other character is kept. The result holds no forbidden character. |
| FileNames.SanitiseFixedPoints | src/MediaUploader.php:168 | Sanitising returns its input unchanged exactly when the input holds no forbidden character. Both directions are proved. |
| FileNames.SanitiseIdempotent | src/MediaUploader.php:168 | Sanitising an already sanitised name returns it unchanged. |
| FileNames.SanitiseConcat | src/MediaUploader.php:168 | The sanitiser works per character, so it distributes over concatenation. |
| FileNames.ReplaceChar | src/MediaUploader.php:168 | The reference `str_replace` for one character keeps the length. It replaces exactly the positions holding the searched character. |
| FileNames.ReplaceEach | src/MediaUploader.php:168 | The reference `str_replace` with an array of searches, applied one after another. It keeps the length, and a character that is not searched for is never changed. |
| FileNames.ReplaceEachPointwise | src/MediaUploader.php:168 | Replacing an array of searches one after another is one pointwise substitution, provided the replacement is not searched for. |
| FileNames.SanitiseIsStrReplace | src/MediaUploader.php:166-169 | The sanitiser equals `str_replace` with the searches `#`, `/`, `\`, space, in that order, and the replacement `-`. |
| PathInfo.LastIndexOf | src/MediaUploader.php:102-103 | The result, when present, is the position of the character with no later occurrence. When absent, the character does not occur. |
| PathInfo.BaseName | src/MediaUploader.php:102 | The base name is a suffix of the path that holds no `/`. It is either the whole path or preceded by a `/`, so it is the longest such suffix. |
| PathInfo.FileName | src/MediaUploader.php:103 | The file name is a prefix of the base name. It is the whole base name when that has no `.`. Otherwise it stops at the base name's last `.`. |
| PathInfo.BaseNameWithoutSeparator | src/MediaUploader.php:102 | A path without `/` is its own base name. |
| PathInfo.FileNameDropsExtension | src/MediaUploader.php:75 | For `stem.ext`, with no `/` in either part and no `.` in `ext`, the file name is `stem`. |
| MediaUploader.BlankIsValid | src/MediaUploader.php:15-37 | A fresh builder holds null in every field except `attributes`, which starts as an empty map. It is valid whatever the disk lookup does. |
| MediaUploader.Valid | src/MediaUploader.php:129-222 | The invariant: the stored file name is clean, the visibility is accepted, and the disk and filesystem are set together, with the filesystem being what the disk resolves to. Consequences: a valid builder's file name is a fixed point of the sanitiser, and its disk resolves. |
| MediaUploader.SetModel | src/MediaUploader.php:114-119 | Stores the model class name without any check. No other field changes. |
| MediaUploader.SetDisk | src/MediaUploader.php:129-145 | Succeeds exactly when the resolver yields a filesystem. Then it stores the disk name and that filesystem, and nothing else. Otherwise it raises the unresolvable-disk error. |
| MediaUploader.SetFileName | src/MediaUploader.php:153-158 | Always stores exactly `SanitiseFileName` of the argument, so the stored name is clean and has the argument's length. A name that is already clean is stored as given. No other field changes. |
| MediaUploader.SetName | src/MediaUploader.php:177-182 | Stores the display name as given, without sanitising. No other field changes. |
| MediaUploader.SetAttributes | src/MediaUploader.php:190-195 | Replaces the attribute map wholesale. No other field changes. |
| MediaUploader.SetVisibility | src/MediaUploader.php:205-222 | Succeeds exactly when the argument is `"public"` or `"private"`. Then it stores it, and nothing else changes. Any other value raises the invalid-visibility error. |
| MediaUploader.FromPath | src/MediaUploader.php:99-106 | Sets `filePath` to the path and `fileName` to the sanitised base name. Sets `name` to the unsanitised base name without its extension. Only those three fields change. |
| MediaUploader.FromUploadedFile | src/MediaUploader.php:72-77 | Sets `filePath` to the real path and `fileName` to the sanitised client name. Sets `name` to the client name's `pathinfo` file name. Only those three fields change. |
| MediaUploader.FromFile | src/MediaUploader.php:70-91 | Fails exactly on an argument that is neither an uploaded file nor a file, with the invalid-argument error. An uploaded file goes to `FromUploadedFile`. Any other file is `FromPath` of its real path. |
| MediaUploader.New | src/MediaUploader.php:55-60 | The constructor sets the model and then the disk. It succeeds exactly when the disk resolves. The result is valid and differs from a blank builder only in model, disk and filesystem. |
| MediaUploader.Run | src/MediaUploader.php:70-222 | A fluent chain stops at the first call that raises. The builder changes in no field outside the union of the chain's call footprints. |
| MediaUploader.PerformFrame | src/MediaUploader.php:70-222 | A successful call changes no field outside its footprint. |
| MediaUploader.PerformIgnoresPriorState | src/MediaUploader.php:70-222 | Whether a call raises does not depend on the builder's prior state. Neither do the values it writes into its footprint. |
| MediaUploader.PerformPreservesValid | src/MediaUploader.php:70-222 | Every call maps a valid builder to a valid builder. |
| MediaUploader.FailedCallLeavesBuilder | src/MediaUploader.php:84-217 | A call that raises ends the chain with that error. The builder is left exactly as it was, including its disk and resolved filesystem. |
| MediaUploader.RunPreservesValid | src/MediaUploader.php:70-222 | Every builder reachable from a valid builder by a chain of calls is valid. |
| MediaUploader.RunAppend | src/MediaUploader.php:70-222 | Running `a + b` runs `b` on what `a` left, unless `a` raised. In that case `b` never runs. |
| MediaUploader.DisjointCallsCommute | src/MediaUploader.php:114-195 | Two successful calls with disjoint footprints give the same builder in either order. |
| MediaUploader.LaterCallSupersedes | src/MediaUploader.php:99-195 | A successful call whose footprint covers an earlier call's footprint erases every effect of that call. |
| MediaUploader.SetFileNameAbsorbsSanitise | src/MediaUploader.php:153-169 | Passing a name that was already sanitised to `SetFileName` gives the same builder as passing the raw name. |
| MediaUploader.FromPathNameIsStem | src/MediaUploader.php:99-106 | After `FromPath`, the sanitised display name is a prefix of the stored file name. Any remainder starts with `.`. |
| MediaUploader.UploadedFileScenario | tests/MediaUploaderTest.php:32-49 | Take a builder made for a resolvable disk and an uploaded file whose clean client name is `stem.ext`. It stores that client name unchanged as the file name and `stem` as the name. It keeps the disk and model. |

## Left out

- `upload()` (src/MediaUploader.php:229-249) is left out. It reads the MIME type and size of the file and opens a stream. It fills and saves an ORM record and writes the stream to the disk. All of that is I/O and ORM behaviour outside this class; in particular, `fill`'s effect depends on model guards that are not part of this model.
- `makeModel` (src/MediaUploader.php:256-259) is left out. It instantiates a class by name at run time.
- The real `FilesystemManager::disk` lookup is not modelled. It is the parameter `resolve`, a pure function. So two lookups of the same disk yield the same filesystem, and the filesystem is an opaque handle.
- PathInfo.BaseName: only `/` separates directories. A trailing `/` is not stripped, whereas the host language's `basename("dir/")` is `dir`. Locale handling and `\` as a Windows separator are not modelled.
- PathInfo.FileName: inherits the simplified base name above. The file name is the base name up to its last `.`.
- The constructor's argument shape is not modelled. `New(model, disk, resolve)` is `SetModel` then `SetDisk` on a blank builder. The source reads these from a config array, and the test passes them positionally.
- Exception classes and message texts are not modelled. Each raising path yields one `UploadError` constructor.
- Scalar type coercion on the `string` parameters is not modelled; every argument is already a string. Neither is a `getRealPath()` that returns `false` for a missing file: `FileArgument` carries the real path as a string.
- The visibility check uses the host language's loose `in_array`. For two non-numeric strings such as `"public"` and `"private"`, that comparison is plain string equality, which is what the model uses.
- Strings are sequences of characters, whereas the source works on byte strings. `str_replace` and `pathinfo` split and replace bytes. This matches the model for UTF-8 input, because every character searched for (`#`, `/`, `\`, space, `.`) is ASCII. It does not match for encodings such as Shift-JIS or GBK, where the byte of `\` can be the second byte of a multi-byte character.
- Attribute values are strings (`map<string, string>`). The source accepts an arbitrary array, and the model never inspects it.
