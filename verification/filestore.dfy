/** The host filesystem as the editor sees it: regular files (content and
    permission bits) and directories, with the three file operations the save
    path uses: `prepare_filesys` (create the parent directory, capture the
    mode), a plain read, and `save_content_to_file` (atomic replace, then a
    best-effort `fchmod`). Each operation is a function on a `Disk` value and a
    method of the `FileSystem` object that updates its fields to match. */
module FileStore {
  import opened Wrappers
  import opened PyStr

  type Path = string

  /** Permission bits as `os.stat(...).st_mode` reports them, kept opaque. */
  type Mode = int

  /** 0o666: the mode `prepare_filesys` falls back to when `os.stat` fails. */
  const DEFAULT_MODE: Mode := 438

  /** 0o600: the mode of the temporary file `AtomicWriter` renames into
      place, which the file keeps when the following `fchmod` fails. */
  const TEMP_FILE_MODE: Mode := 384

  datatype File = File(content: string, mode: Mode)

  /** The failures the environment may inject into a save: the atomic write
      raising, and `os.fchmod` raising (which the source swallows). */
  datatype Faults = Faults(writeFails: bool, chmodFails: bool)

  datatype Disk = Disk(files: map<Path, File>, dirs: set<Path>) {
    /** No path is both a regular file and a directory. */
    predicate Valid() {
      files.Keys !! dirs
    }
  }

  /** `os.path.isdir(dirnm)` or a successful `os.makedirs(dirnm, exist_ok=True)`:
      `makedirs` raises when `dirnm` is empty or names a regular file. */
  predicate CanMakeDirs(d: Disk, dirnm: Path) {
    dirnm in d.dirs || (dirnm != "" && dirnm !in d.files)
  }

  /** `prepare_filesys(fullpath, dirnm)`: the disk with `dirnm` present as a
      directory, and the captured mode (`st_mode` of an existing file, else
      0o666); None when `makedirs` raises. */
  function Prepare(d: Disk, fullpath: Path, dirnm: Path): (r: Option<(Disk, Mode)>)
    ensures r.None? <==> !CanMakeDirs(d, dirnm)
    ensures r.Some? ==> r.value.0.files == d.files && r.value.0.dirs == d.dirs + {dirnm}
    ensures r.Some? && fullpath in d.files ==> r.value.1 == d.files[fullpath].mode
    ensures r.Some? && fullpath !in d.files ==> r.value.1 == DEFAULT_MODE
    ensures r.Some? && d.Valid() ==> r.value.0.Valid()
  {
    if !CanMakeDirs(d, dirnm) then None
    else
      var mode := if fullpath in d.files then d.files[fullpath].mode else DEFAULT_MODE;
      Some((d.(dirs := d.dirs + {dirnm}), mode))
  }

  /** What a text-mode read (`open(path)` with the default `newline=None`)
      makes of the stored characters: universal newlines, so "\r\n" and a
      lone "\r" each become "\n". No '\r' survives, and the translation
      never lengthens the text. */
  function TranslateNewlines(s: string): (r: string)
    ensures '\r' !in r
    ensures |r| <= |s|
    decreases |s|
  {
    if |s| == 0 then ""
    else if s[0] == '\r' then
      if |s| > 1 && s[1] == '\n' then "\n" + TranslateNewlines(s[2..])
      else "\n" + TranslateNewlines(s[1..])
    else [s[0]] + TranslateNewlines(s[1..])
  }

  /** Text without '\r' is read back exactly as stored. */
  lemma {:induction false} TranslateNewlinesWithoutCR(s: string)
    requires '\r' !in s
    ensures TranslateNewlines(s) == s
    decreases |s|
  {
    if |s| > 0 {
      assert '\r' !in s[1..];
      TranslateNewlinesWithoutCR(s[1..]);
      assert s == [s[0]] + s[1..];
    }
  }

  /** Translating twice is translating once: text that was read and written
      back reads the same again. */
  lemma TranslateNewlinesIdempotent(s: string)
    ensures TranslateNewlines(TranslateNewlines(s)) == TranslateNewlines(s)
  {
    TranslateNewlinesWithoutCR(TranslateNewlines(s));
  }

  /** The translation is exactly Python's two replacements in this order:
      every "\r\n" to "\n", then every remaining '\r' to "\n". */
  lemma {:induction false} TranslateNewlinesIsReplace(s: string)
    ensures TranslateNewlines(s) == ReplaceAll(ReplaceAll(s, "\r\n", "\n"), "\r", "\n")
    decreases |s|
  {
    if |s| > 0 {
      if |s| > 1 && s[0] == '\r' && s[1] == '\n' {
        // "\r\n" at the front: one match of the first pattern
        var y := ReplaceAll(s[2..], "\r\n", "\n");
        assert s[..2] == "\r\n";
        ReplaceAllMatch(s, "\r\n", "\n");
        assert ("\n" + y)[1..] == y;
        ReplaceAllSkip("\n" + y, "\r", "\n");
        TranslateNewlinesIsReplace(s[2..]);
      } else if s[0] == '\r' {
        // a lone '\r': skipped by the first pattern, matched by the second
        var y := ReplaceAll(s[1..], "\r\n", "\n");
        assert !StartsWith(s, "\r\n") by {
          if |s| >= 2 {
            assert s[..2][1] == s[1];
          }
        }
        ReplaceAllSkip(s, "\r\n", "\n");
        assert ("\r" + y)[..1] == "\r" && ("\r" + y)[1..] == y;
        ReplaceAllMatch("\r" + y, "\r", "\n");
        TranslateNewlinesIsReplace(s[1..]);
      } else {
        // any other character is copied by both replacements
        var y := ReplaceAll(s[1..], "\r\n", "\n");
        assert s[..1][0] == s[0];
        ReplaceAllSkip(s, "\r\n", "\n");
        assert ([s[0]] + y)[..1][0] == s[0] && ([s[0]] + y)[1..] == y;
        ReplaceAllSkip([s[0]] + y, "\r", "\n");
        TranslateNewlinesIsReplace(s[1..]);
      }
    }
  }

  /** A stored "a\r\nb" reads back as "a\nb". */
  lemma TranslateNewlinesCRLF()
    ensures TranslateNewlines("a\r\nb") == "a\nb"
  {
    var s := "a\r\nb";
    assert s[1..][2..] == "b";
    assert TranslateNewlines(s[1..]) == "\n" + TranslateNewlines("b");
  }

  /** `open(path).read()` in text mode: the stored content with its newlines
      translated, None when opening fails. */
  function ReadContent(d: Disk, path: Path): (r: Option<string>)
    ensures r.Some? <==> path in d.files
    ensures r.Some? ==> r.value == TranslateNewlines(d.files[path].content) && '\r' !in r.value
  {
    if path in d.files then Some(TranslateNewlines(d.files[path].content)) else None
  }

  /** The mode a file ends up with after `save_content_to_file(..., mode)`. */
  function ModeAfterWrite(mode: Mode, faults: Faults): (r: Mode)
    ensures !faults.chmodFails ==> r == mode
    ensures faults.chmodFails ==> r == TEMP_FILE_MODE
  {
    if faults.chmodFails then TEMP_FILE_MODE else mode
  }

  /** `save_content_to_file(path, content, mode)`: the file replaced in one
      step by `content`, its mode restored to `mode` unless `fchmod` fails; None
      (and the disk untouched) when the atomic write raises, which it does on
      an injected fault and when `path` is a directory. */
  function AtomicWrite(d: Disk, path: Path, content: string, mode: Mode, faults: Faults): (r: Option<Disk>)
    ensures r.None? <==> faults.writeFails || path in d.dirs
    ensures r.Some? ==> path in r.value.files && r.value.files[path] == File(content, ModeAfterWrite(mode, faults))
    ensures r.Some? ==> r.value.files - {path} == d.files - {path} && r.value.dirs == d.dirs
    ensures r.Some? && d.Valid() ==> r.value.Valid()
  {
    if faults.writeFails || path in d.dirs then None
    else Some(d.(files := d.files[path := File(content, ModeAfterWrite(mode, faults))]))
  }

  /** Reading back a successful write gives what was written, with its
      newlines translated; exactly what was written when it holds no '\r'. */
  lemma WriteThenRead(d: Disk, path: Path, content: string, mode: Mode, faults: Faults)
    requires !faults.writeFails && path !in d.dirs
    ensures AtomicWrite(d, path, content, mode, faults).Some?
    ensures ReadContent(AtomicWrite(d, path, content, mode, faults).value, path) == Some(TranslateNewlines(content))
    ensures '\r' !in content ==> ReadContent(AtomicWrite(d, path, content, mode, faults).value, path) == Some(content)
  {
    if '\r' !in content {
      TranslateNewlinesWithoutCR(content);
    }
  }

  /** The host filesystem, updated in place by the operations above. */
  class FileSystem {
    var files: map<Path, File>
    var dirs: set<Path>

    function State(): Disk
      reads this
    {
      Disk(files, dirs)
    }

    constructor (initial: Disk)
      ensures State() == initial
    {
      files := initial.files;
      dirs := initial.dirs;
    }

    method PrepareFilesys(fullpath: Path, dirnm: Path) returns (mode: Option<Mode>)
      modifies this
      ensures var p := Prepare(old(State()), fullpath, dirnm);
        if p.None? then mode.None? && State() == old(State())
        else mode == Some(p.value.1) && State() == p.value.0
    {
      if dirnm !in dirs {
        if dirnm == "" || dirnm in files {
          // os.makedirs raises
          return None;
        }
        dirs := dirs + {dirnm};
      }
      if fullpath in files {
        mode := Some(files[fullpath].mode);
      } else {
        // os.stat raises
        mode := Some(DEFAULT_MODE);
      }
    }

    method Read(path: Path) returns (content: Option<string>)
      ensures content == ReadContent(State(), path)
    {
      if path in files {
        content := Some(TranslateNewlines(files[path].content));
      } else {
        content := None;
      }
    }

    method SaveContentToFile(path: Path, content: string, mode: Mode, faults: Faults) returns (ok: bool)
      modifies this
      ensures var w := AtomicWrite(old(State()), path, content, mode, faults);
        ok == w.Some? && State() == if ok then w.value else old(State())
    {
      if faults.writeFails || path in dirs {
        return false;
      }
      // the temporary file is renamed over `path` in one step
      files := files[path := File(content, TEMP_FILE_MODE)];
      // open(path, "a") and os.fchmod; a failing fchmod is ignored
      if !faults.chmodFails {
        files := files[path := File(content, mode)];
      }
      ok := true;
    }
  }
}
