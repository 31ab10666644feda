# config_editor: a Dafny model of the editor's websocket handler

`custom_components/config_editor/__init__.py` is a Home Assistant component.
Its `config_editor/ws` command lets an administrator load, save and list
configuration files. Saving is a small transaction. The handler:

1. creates the parent directory and captures the file's mode;
2. reads the old content as a snapshot;
3. writes the new content atomically;
4. runs Home Assistant's configuration check over the whole configuration
   directory;
5. keeps the new content, or, when the check reports errors, writes the
   snapshot back and reports them.

The model has five modules:

- `PyStr` (`pystr.dfy`): the Python string operations the handler uses, with
  Python's semantics. `str.replace` scans left to right without overlap.
  `strip`, `lstrip` and `rstrip` remove every leading or trailing copy of the
  character. Also `join` and `str(int)`.
- `Request` (`request.dfy`): request normalisation. This covers the
  extension allow-list, `is_extension_ok`, the `replace("../", "/").strip("/")`
  sanitiser, the `"temptest." + ext` fallback, POSIX `os.path.join` and
  `os.path.dirname`, and the comma-joined text carried by `InvalidHAConfig`.
- `FileStore` (`filestore.dfy`): the filesystem. It is a map from path to
  (content, mode) plus a set of directories. `Disk` is the value and
  `FileSystem` is the object updated in place. The module has
  `prepare_filesys`, the plain read and `save_content_to_file`, each as a
  function on `Disk` and as a `FileSystem` method proved to agree with it.
- `Editor` (`editor.dfy`): the load, save and list branches. Each is a
  function giving the reply and, for save, the new disk. The methods `Load`,
  `Save` and `WebsocketCreate` run the branches step by step and are proved
  against those functions. Lemmas state the commit, rollback and failure
  outcomes and two load-after-save round trips.
- `Wrappers` (`wrappers.dfy`): `Option`. A Python exception that the
  handler catches becomes `None`.

The environment enters as parameters:

- The configuration check is a function from the files (as they are after
  the write) to either its `"except"` entries, in dictionary order, or
  `Raised`.
- `Faults` says whether the atomic write raises and whether `os.fchmod`
  raises.
- `hass.config.path(name)` is `PathJoin(configDir, name)`. As a map on
  strings it is injective on every name the handler produces. It is not
  injective on files, because the filesystem resolves `//` and `../` and the
  model does not (see "Left out").

`InvalidHAConfig` is used only as control flow, from the raise at line 89 to
the handler at line 90. The model takes the non-empty-errors branch directly
and uses the message the raise builds. The class's default message is never
used.

What the sanitiser really guarantees:

- The name never starts or ends with `/`. So `os.path.join` cannot be made to
  return an unrelated absolute path.
- An identifier with no `../` and no edge slashes is unchanged.
- A `/`-free extension suffix survives. So whenever `ext` is not `all`, the
  final name ends with `"." + ext`.

It does not keep the path inside the configuration directory:
`"..../etc"` becomes `"../etc"` (`SanitiseLeavesTraversal`). An identifier
like `"../secrets.yaml"` is not refused by the sanitiser either. It becomes `"secrets.yaml"`
(`SanitiseLeadingTraversal`). An interior `"a/../b"` becomes `"a//b"`
(`SanitiseInteriorTraversal`). The model follows the code on all three.

Both reads (lines 65 and 82) open the file in text mode. Python's universal
newlines then turn `"\r\n"` and a lone `"\r"` into `"\n"`, while the write
(line 123) stores the characters it is given. The model reads through
`TranslateNewlines`. A load therefore returns the stored text with its
newlines translated, and the snapshot the rollback writes back is the
translated text too.

After an atomic write, the file carries the temporary file's mode, 0o600.
The following `fchmod` then sets the mode captured before the write. When
`fchmod` fails, which the source ignores, the file keeps 0o600. So the
rollback restores the old mode only when `fchmod` works. The files are
exactly as before the save only when `fchmod` works and the old content
held no `'\r'` (`SaveRollsBack`). A load after a rollback always returns
what a load returned before the save (`RejectedThenLoaded`).

## Model

| member | source | states |
|---|---|---|
| `Request.IsExtensionOk` | custom_components/config_editor/__init__.py:47-50 | a name shorter than two characters never passes; outside "all", a passing name ends with `"." + ext` |
| `Request.CoerceExt` | custom_components/config_editor/__init__.py:43-45 | the result is always one of the nine allowed extensions; it equals the request's `ext` exactly when that is allowed, and is "yaml" otherwise |
| `Request.AllowedExtShape` | custom_components/config_editor/__init__.py:44 | every allowed extension has no '/' and at least two characters |
| `Request.ExtensionOkIsSuffixTest` | custom_components/config_editor/__init__.py:47-50 | for every allowed `ext` other than "all", `is_extension_ok(f)` holds exactly when `f` ends with `"." + ext`; the length guard never decides |
| `Request.ExtensionOkForAll` | custom_components/config_editor/__init__.py:47-50 | with "all", `is_extension_ok(f)` holds exactly when `len(f) >= 2` |
| `PyStr.LStrip` | custom_components/config_editor/__init__.py:52 | `lstrip` returns a suffix of its input that does not start with the character, and everything it removed was that character |
| `PyStr.RStrip` | custom_components/config_editor/__init__.py:52 | `rstrip` returns a prefix that does not end with the character, and everything it removed was that character |
| `PyStr.ReplaceAll` | custom_components/config_editor/__init__.py:52 | `str.replace` scanning left to right without overlap; a replacement no longer than the pattern never lengthens the string, and replacing the pattern by itself changes nothing |
| `PyStr.ReplaceAllSkipsPrefix` | custom_components/config_editor/__init__.py:52 | a prefix without the pattern's first character is copied unchanged and `replace` goes on after it |
| `PyStr.Strip` | custom_components/config_editor/__init__.py:52 | `strip` returns the substring that starts where `lstrip` stops; it neither starts nor ends with the character, and every character removed before or after it is that character |
| `PyStr.ReplaceAllAbsent` | custom_components/config_editor/__init__.py:52 | `replace` leaves alone a string in which the pattern does not occur |
| `PyStr.ReplaceAllAppend` | custom_components/config_editor/__init__.py:52 | a tail without the pattern's last character passes through `replace` unchanged and stays at the end |
| `PyStr.LStripAppend` | custom_components/config_editor/__init__.py:52 | a tail that does not start with the character passes through `lstrip` whole |
| `PyStr.StripKeepsSuffix` | custom_components/config_editor/__init__.py:52 | a tail that neither starts nor ends with the character is still the end of the stripped string |
| `Request.Sanitise` | custom_components/config_editor/__init__.py:52 | the sanitised name never starts or ends with '/' |
| `Request.SanitiseIdentity` | custom_components/config_editor/__init__.py:52 | an identifier containing no "../" and with no leading or trailing '/' passes through unchanged |
| `Request.SanitiseKeepsSuffix` | custom_components/config_editor/__init__.py:52 | a '/'-free suffix of the raw identifier is still a suffix of the sanitised name |
| `Request.SanitiseDropsLeadingTraversal` | custom_components/config_editor/__init__.py:52 | "../" + stem + suffix, with no '.' in the stem, no edge '/' and a '/'-free suffix, sanitises to stem + suffix: the traversal is dropped, not refused |
| `Request.SanitiseKeepsShiftedTraversal` | custom_components/config_editor/__init__.py:52 | ".." + "../" + b, for a '/'-free `b`, sanitises to "../" + b, which still contains "../" |
| `Request.SanitiseLeadingTraversal` | custom_components/config_editor/__init__.py:52 | "../secrets.yaml" is not refused by the sanitiser; it becomes "secrets.yaml" |
| `Request.SanitiseLeavesTraversal` | custom_components/config_editor/__init__.py:52 | "..../etc" becomes "../etc", which still contains "../": the sanitiser does not remove traversal |
| `Request.SanitiseAbsoluteName` | custom_components/config_editor/__init__.py:52 | "/" + stem + suffix, with no '.' in the stem, no edge '/' and a '/'-free suffix, sanitises to stem + suffix |
| `Request.SanitiseInteriorTraversal` | custom_components/config_editor/__init__.py:52 | "a/../b" becomes "a//b": an interior traversal segment is turned into a doubled slash, not resolved |
| `Request.TargetName` | custom_components/config_editor/__init__.py:52-55 | the name the handler works on never starts or ends with '/' |
| `Request.TargetNameHasExtension` | custom_components/config_editor/__init__.py:47-55 | when `ext` is not "all" the final name always ends with `"." + ext`; when the raw name passed the test, the sanitised name kept that suffix |
| `Request.TargetNameRelative` | custom_components/config_editor/__init__.py:52-55 | the final name never starts with '/' |
| `Request.TargetNameOfAbsolute` | custom_components/config_editor/__init__.py:47-55 | an identifier "/" + stem + "." + ext, with no '.' in the stem, resolves to itself without the leading '/' |
| `Request.PathJoin` | custom_components/config_editor/__init__.py:59 | `os.path.join(dir, name)` always ends with `name` |
| `Request.ConfigPath` | custom_components/config_editor/__init__.py:59 | `hass.config.path(name)` ends with `name`, and is `name` itself when `name` is absolute |
| `Request.ConfigPathUnderRoot` | custom_components/config_editor/__init__.py:59 | for a name not starting with '/', the full path starts with the configuration directory and ends with the name |
| `Request.ConfigPathInjective` | custom_components/config_editor/__init__.py:59 | distinct names not starting with '/' give distinct full paths |
| `Request.LastSepEnd` | custom_components/config_editor/__init__.py:80 | the position just after the last '/', with no '/' beyond it |
| `Request.DirName` | custom_components/config_editor/__init__.py:80 | `os.path.dirname` returns the part of the path before its last '/', with the trailing slashes removed, and kept whole when that part is all slashes; it is empty exactly when the path has no '/' |
| `Request.Entry` | custom_components/config_editor/__init__.py:88 | one item is the domain, then ": ", then the error text |
| `PyStr.Join` | custom_components/config_editor/__init__.py:88 | `join` of no parts is ""; otherwise it starts with the first part and ends with the last, and with several parts it is at least as long as the first and last parts plus one separator; that exactly one separator stands between neighbours, in order, is stated by `JoinSnoc` |
| `Request.ErrorMessage` | custom_components/config_editor/__init__.py:88 | the joined error text is empty exactly when there are no errors, and starts with the first `"domain: config"` item |
| `Request.ErrorMessageSnoc` | custom_components/config_editor/__init__.py:88 | items appear in the check's order, separated by single commas |
| `Request.ErrorMessageSingle` | custom_components/config_editor/__init__.py:88 | one error gives exactly `"domain: config"` |
| `PyStr.JoinSnoc` | custom_components/config_editor/__init__.py:88 | `join` of a list with one more part is the old join, the separator and the new part |
| `FileStore.Prepare` | custom_components/config_editor/__init__.py:108-119 | fails exactly when `makedirs` would raise; otherwise the directory exists afterwards, no file changes, and the mode is the file's `st_mode` or 0o666 when there is no such file |
| `FileStore.TranslateNewlines` | custom_components/config_editor/__init__.py:65-66 | the text-mode read leaves no '\r' and never lengthens the text |
| `FileStore.TranslateNewlinesIsReplace` | custom_components/config_editor/__init__.py:65-66 | the text-mode read is exactly `s.replace("\r\n", "\n").replace("\r", "\n")`: a "\r\n" pair and a lone '\r' each become one "\n" |
| `FileStore.TranslateNewlinesWithoutCR` | custom_components/config_editor/__init__.py:65-66 | text without '\r' reads back exactly as stored |
| `FileStore.TranslateNewlinesIdempotent` | custom_components/config_editor/__init__.py:82-93 | translating twice is translating once, so a written-back snapshot reads the same again |
| `FileStore.TranslateNewlinesCRLF` | custom_components/config_editor/__init__.py:65-66 | stored "a\r\nb" reads back as "a\nb" |
| `FileStore.ReadContent` | custom_components/config_editor/__init__.py:82-83 | a read succeeds exactly for an existing file and returns its content with newlines translated |
| `FileStore.ModeAfterWrite` | custom_components/config_editor/__init__.py:125-129 | the mode after a write is the given mode when `fchmod` works, and otherwise the temporary file's 0o600 |
| `FileStore.AtomicWrite` | custom_components/config_editor/__init__.py:122-129 | fails, changing nothing, exactly on an injected fault or a directory target; otherwise only the target changes, it holds exactly the new content, and it has the given mode unless `fchmod` failed |
| `FileStore.WriteThenRead` | custom_components/config_editor/__init__.py:122-124 | reading back a successful write returns what was written with its newlines translated, and exactly what was written when it holds no '\r' |
| `FileStore.FileSystem.PrepareFilesys` | custom_components/config_editor/__init__.py:108-119 | the in-place `prepare_filesys` leaves the object in the state `Prepare` gives and returns its mode, or fails without change |
| `FileStore.FileSystem.Read` | custom_components/config_editor/__init__.py:82-83 | the in-place read returns `ReadContent` of the current state |
| `FileStore.FileSystem.SaveContentToFile` | custom_components/config_editor/__init__.py:122-129 | the atomic replace followed by the best-effort `fchmod` leaves the state `AtomicWrite` gives, or the old state when the write raises |
| `Editor.LoadResult` | custom_components/config_editor/__init__.py:60-73 | a load reply is always produced; it carries the file's content as the text-mode read gives it, with "Loaded: " + path, or "" with "Reading Failed: " + path when the file cannot be read |
| `Editor.Load` | custom_components/config_editor/__init__.py:60-73 | the load branch returns `LoadResult` of the current disk |
| `Editor.SaveResult` | custom_components/config_editor/__init__.py:75-98 | no file other than the target changes; only the target's directory can be added; the no-file-and-directory invariant is kept; an unreadable target or a raising write changes no file and gives "Saving Failed: " + path |
| `Editor.Save` | custom_components/config_editor/__init__.py:75-98 | the step-by-step save leaves the filesystem in the disk `SaveResult` gives and returns its message |
| `Editor.SaveCommits` | custom_components/config_editor/__init__.py:78-86 | when the check reports no errors, the file holds exactly the new data and the reply is "Saved: " + path |
| `Editor.SaveRollsBack` | custom_components/config_editor/__init__.py:86-93 | when the check reports errors, the file gets back the content read before the write (newlines translated), with the captured mode when `fchmod` works and 0o600 otherwise; when `fchmod` works and the old content held no '\r', every file is as before; the reply is "Saving failed with Invalid HA Config: " + the joined errors + ": " + path |
| `Editor.SaveKeepsContentWhenCheckRaises` | custom_components/config_editor/__init__.py:94-95 | when the check itself raises, the new content stays, there is no rollback, and the reply is "Saving Failed: " + path |
| `Editor.SaveFailsWithoutDirectory` | custom_components/config_editor/__init__.py:113-114 | when `makedirs` raises, nothing changes and the reply is "Saving Failed: " + path |
| `Editor.SavedThenLoaded` | custom_components/config_editor/__init__.py:60-98 | whenever save replies "Saved", a following load returns the saved data with its newlines translated, and exactly the saved data when it holds no '\r' |
| `Editor.RejectedThenLoaded` | custom_components/config_editor/__init__.py:60-98 | whenever save reports an invalid configuration, a following load returns what a load returned before the save |
| `PyStr.NatToString` | custom_components/config_editor/__init__.py:105 | `str(n)` is a non-empty string of decimal digits, without a leading zero for positive `n`, that reads back as `n` |
| `Editor.ListResult` | custom_components/config_editor/__init__.py:100-105 | the list reply is always the two fixed identifiers with "2 File(s)"; the "list_error" fallback never happens |
| `Editor.ListedFileShape` | custom_components/config_editor/__init__.py:101 | each listed identifier is '/', a stem without '.', and ".yaml" |
| `Editor.ListedFileResolves` | custom_components/config_editor/__init__.py:101 | each listed identifier, loaded with ext "yaml", resolves to the same path without its leading '/' |
| `Editor.WebsocketCreate` | custom_components/config_editor/__init__.py:41-105 | the handler coerces `ext`, computes the target name and full path, then gives the load, save or list reply and disk; an unknown action changes nothing and sends nothing |

## Left out

- Home Assistant plumbing is not modelled: command registration, the request schema, the `require_admin` gate, `async_setup` and its version state (lines 23-41). `connection.send_result` and `msg["id"]` are replaced by the returned reply. `depth` is carried but unused, as in the source.
- `async_add_executor_job`, concurrency and locking are not modelled. Each call runs alone on the filesystem. The source has no lock, so two saves racing on one configuration tree are outside the model.
- The internals of `check` are not modelled. The configuration check is an arbitrary function of the files after the write: its error entries, or `Raised`. It sees files only, not directories.
- `AtomicWriter`'s temporary file and rename are one map update. The temporary file's mode 0o600 is the one detail kept, because it decides the mode when `fchmod` fails.
- Read failures other than a missing file are not modelled: permissions, a directory at the target, and a `UnicodeDecodeError` on bytes that are not valid in the file's encoding. A read succeeds exactly for a path in the file map. File contents are characters, not bytes, so the encodings at lines 65 and 82 (UTF-8 and the locale's) are not modelled. Newline translation on reading is modelled; on writing it is the identity on POSIX and is left out.
- `os.makedirs` only adds the one directory `dirname` names. It fails only when that name is empty or is a regular file. Missing ancestors are not created, and a file standing in for an ancestor is not detected.
- `os.stat` of a target that is a directory is not modelled. The model captures 0o666 there, and the read that follows fails anyway, so the value is never used.
- `open(fullpath, "a")` raising after the atomic write (line 125) is not modelled. A failing `fchmod` alone is modelled, and the source ignores it.
- A restore write (line 93) that fails while the first write succeeded is not modelled. The same `Faults` govern both writes. `SaveResult` still follows Python where the restore does fail: the invalid-configuration message is sent and the new content stays.
- Logging calls are left out.
- Modes are opaque integers. File-type bits in `st_mode` are not separated.
- Path strings are not normalised. The file map is keyed by the literal path string, while the filesystem resolves `//`, `/./` and `../`. In the model `"/config/packages//x.yaml"` and `"/config/packages/x.yaml"` are two different files, and `"/config/../etc"` is not `/etc`. The sanitiser produces such names itself (`SanitiseInteriorTraversal`, `SanitiseLeavesTraversal`). So a load or save through such a name, which reaches an existing file in the source, can fail in the model. `ConfigPathInjective` is injectivity on strings only.
- Path containment is not modelled: the code does not provide it. What the code does guarantee is stated instead (see above).
