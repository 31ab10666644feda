/** The `config_editor/ws` command handler (`websocket_create`): it normalises
    the request, then loads a file, saves one through the validated-write
    transaction (snapshot, atomic write, validation, commit or rollback), or
    lists the editable files. Each branch's reply, and for a save the new
    disk, is given by a function on the disk; the methods run the branches
    step by step on a `FileSystem` and are proved to agree with them. */
module Editor {
  import opened Wrappers
  import opened PyStr
  import opened Request
  import opened FileStore

  /** The fields of an incoming command; `depth` is accepted and unused. */
  datatype Message = Message(action: string, file: string, data: string, ext: string, depth: int)

  /** What `connection.send_result` is given for each action. */
  datatype Response =
    | LoadReply(msg: string, file: string, data: string, ext: string)
    | SaveReply(msg: string)
    | ListReply(msg: string, files: seq<string>, ext: string)

  /** What `check(config_dir)` produces: its `"except"` entries (domain and
      error text, in the dictionary's order), or an exception. */
  datatype CheckResult = Report(except: seq<(string, string)>) | Raised

  /** The configuration check, applied to the files as they are after the write. */
  type Validator = map<Path, File> -> CheckResult

  datatype SaveOutcome = SaveOutcome(disk: Disk, msg: string)

  /** The identifiers the `list` action offers. */
  const LISTED_FILES: seq<string> := ["/packages/customer_spec/static_config.yaml", "/ip_bans.yaml"]

  const INVALID_CONFIG := "Saving failed with Invalid HA Config: "

  /** `res + ": " + fullpath`, the shape of every load and save message. */
  function Status(res: string, fullpath: Path): string {
    res + ": " + fullpath
  }

  /** The reply to `load`: a reply is always produced, carrying the file's
      content as a text-mode read gives it, or "" and a failure message when
      the file cannot be read. */
  function LoadResult(d: Disk, yamlname: string, fullpath: Path, ext: string): (r: Response)
    ensures r.LoadReply? && r.file == yamlname && r.ext == ext && '\r' !in r.data
    ensures fullpath in d.files ==> r.msg == "Loaded: " + fullpath && r.data == TranslateNewlines(d.files[fullpath].content)
    ensures fullpath !in d.files ==> r.msg == "Reading Failed: " + fullpath && r.data == ""
  {
    match ReadContent(d, fullpath)
    case Some(content) => LoadReply(Status("Loaded", fullpath), yamlname, content, ext)
    case None => LoadReply(Status("Reading Failed", fullpath), yamlname, "", ext)
  }

  /** The `save` transaction: prepare the directory and capture the mode,
      snapshot the old content, write the new content atomically, run the
      check on the resulting files, then keep the new content or write the
      snapshot back. Any other exception gives "Saving Failed". */
  function SaveResult(d: Disk, fullpath: Path, data: string, check: Validator, faults: Faults): (o: SaveOutcome)
    ensures o.disk.files - {fullpath} == d.files - {fullpath}
    ensures d.dirs <= o.disk.dirs <= d.dirs + {DirName(fullpath)}
    ensures d.Valid() ==> o.disk.Valid()
    ensures fullpath !in d.files ==> o.disk.files == d.files && o.msg == "Saving Failed: " + fullpath
    ensures faults.writeFails ==> o.disk.files == d.files && o.msg == "Saving Failed: " + fullpath
  {
    match Prepare(d, fullpath, DirName(fullpath))
    case None => SaveOutcome(d, Status("Saving Failed", fullpath))
    case Some((prepared, mode)) =>
      match ReadContent(prepared, fullpath)
      case None => SaveOutcome(prepared, Status("Saving Failed", fullpath))
      case Some(snapshot) =>
        match AtomicWrite(prepared, fullpath, data, mode, faults)
        case None => SaveOutcome(prepared, Status("Saving Failed", fullpath))
        case Some(written) =>
          match check(written.files)
          case Raised => SaveOutcome(written, Status("Saving Failed", fullpath))
          case Report(errs) =>
            if errs == [] then SaveOutcome(written, Status("Saved", fullpath))
            else
              var res := INVALID_CONFIG + ErrorMessage(errs);
              match AtomicWrite(written, fullpath, snapshot, mode, faults)
              // a raising restore leaves the new content; the message is already set
              case None => SaveOutcome(written, Status(res, fullpath))
              case Some(restored) => SaveOutcome(restored, Status(res, fullpath))
  }

  /** The reply to `list`: the fixed identifiers (never the "list_error"
      fallback, which the non-empty literal rules out) and their count. */
  function ListResult(ext: string): (r: Response)
    ensures r == ListReply("2 File(s)", LISTED_FILES, ext)
  {
    var listyaml := if |LISTED_FILES| < 1 then ["list_error." + ext] else LISTED_FILES;
    assert |listyaml| == 2;
    assert NatToString(2) == "2" by {
      assert "0123456789"[2] == '2';
    }
    assert "2" + " File(s)" == "2 File(s)";
    ListReply(NatToString(|listyaml|) + " File(s)", listyaml, ext)
  }

  lemma FirstListedShape()
    ensures LISTED_FILES[0] == "/" + "packages/customer_spec/static_config" + "." + "yaml"
  {
  }

  lemma FirstStemHasNoDot()
    ensures '.' !in "packages/customer_spec/static_config"
  {
  }

  lemma SecondListedShape()
    ensures LISTED_FILES[1] == "/" + "ip_bans" + "." + "yaml"
    ensures '.' !in "ip_bans"
  {
  }

  /** Each listed identifier is '/', a stem without '.', and ".yaml". */
  lemma ListedFileShape(f: string) returns (stem: string)
    requires f in LISTED_FILES
    ensures |stem| > 0 && stem[0] != '/' && '.' !in stem
    ensures f == "/" + stem + "." + "yaml"
  {
    if f == LISTED_FILES[0] {
      stem := "packages/customer_spec/static_config";
      FirstListedShape();
      FirstStemHasNoDot();
    } else {
      stem := "ip_bans";
      SecondListedShape();
    }
  }

  /** Each listed identifier, sent back with `ext` "yaml", resolves to the
      same path without its leading '/'. */
  lemma ListedFileResolves(f: string)
    requires f in LISTED_FILES
    ensures TargetName(f, "yaml") == f[1..]
  {
    var stem := ListedFileShape(f);
    TargetNameOfAbsolute(f, stem, "yaml");
  }

  /** The files as they are right after a successful first write of `data`. */
  function Written(d: Disk, fullpath: Path, data: string, faults: Faults): map<Path, File>
    requires fullpath in d.files
  {
    d.files[fullpath := File(data, ModeAfterWrite(d.files[fullpath].mode, faults))]
  }

  /** Commit: when the check reports nothing, the file holds exactly the new
      data (with its old mode unless `fchmod` failed) and the reply is "Saved". */
  lemma SaveCommits(d: Disk, fullpath: Path, data: string, check: Validator, faults: Faults)
    requires d.Valid() && fullpath in d.files && CanMakeDirs(d, DirName(fullpath))
    requires !faults.writeFails
    requires check(Written(d, fullpath, data, faults)) == Report([])
    ensures SaveResult(d, fullpath, data, check, faults).disk.files == Written(d, fullpath, data, faults)
    ensures SaveResult(d, fullpath, data, check, faults).msg == "Saved: " + fullpath
  {
  }

  /** Rollback: when the check reports errors, the file gets back the content
      read before the write (its newlines translated by the text-mode read),
      with the mode captured before the write when `fchmod` works and 0o600
      when it fails. When `fchmod` works and the old content held no '\r',
      the files are exactly as before. The reply lists the errors. */
  lemma SaveRollsBack(d: Disk, fullpath: Path, data: string, check: Validator, faults: Faults, errs: seq<(string, string)>)
    requires d.Valid() && fullpath in d.files && CanMakeDirs(d, DirName(fullpath))
    requires !faults.writeFails
    requires check(Written(d, fullpath, data, faults)) == Report(errs) && errs != []
    ensures var o := SaveResult(d, fullpath, data, check, faults);
      && fullpath in o.disk.files
      && o.disk.files[fullpath].content == TranslateNewlines(d.files[fullpath].content)
      && o.disk.files[fullpath].mode == ModeAfterWrite(d.files[fullpath].mode, faults)
      && (!faults.chmodFails && '\r' !in d.files[fullpath].content ==> o.disk.files == d.files)
      && o.msg == "Saving failed with Invalid HA Config: " + ErrorMessage(errs) + ": " + fullpath
  {
    var mode := d.files[fullpath].mode;
    var written := Written(d, fullpath, data, faults);
    var snapshot := TranslateNewlines(d.files[fullpath].content);
    var prepared := d.(dirs := d.dirs + {DirName(fullpath)});
    assert Prepare(d, fullpath, DirName(fullpath)) == Some((prepared, mode));
    assert ReadContent(prepared, fullpath) == Some(snapshot);
    assert AtomicWrite(prepared, fullpath, data, mode, faults) == Some(prepared.(files := written));
    var restored := written[fullpath := File(snapshot, ModeAfterWrite(mode, faults))];
    assert AtomicWrite(prepared.(files := written), fullpath, snapshot, mode, faults) == Some(prepared.(files := restored));
    var o := SaveResult(d, fullpath, data, check, faults);
    assert o == SaveOutcome(prepared.(files := restored), Status(INVALID_CONFIG + ErrorMessage(errs), fullpath));
    if !faults.chmodFails && '\r' !in d.files[fullpath].content {
      TranslateNewlinesWithoutCR(d.files[fullpath].content);
      assert o.disk.files == d.files[fullpath := d.files[fullpath]];
    }
  }

  /** A raising check is not a validation failure: the new content stays and
      no rollback happens. */
  lemma SaveKeepsContentWhenCheckRaises(d: Disk, fullpath: Path, data: string, check: Validator, faults: Faults)
    requires d.Valid() && fullpath in d.files && CanMakeDirs(d, DirName(fullpath))
    requires !faults.writeFails
    requires check(Written(d, fullpath, data, faults)) == Raised
    ensures SaveResult(d, fullpath, data, check, faults).disk.files == Written(d, fullpath, data, faults)
    ensures SaveResult(d, fullpath, data, check, faults).msg == "Saving Failed: " + fullpath
  {
  }

  /** When the parent directory cannot be created nothing at all changes. */
  lemma SaveFailsWithoutDirectory(d: Disk, fullpath: Path, data: string, check: Validator, faults: Faults)
    requires !CanMakeDirs(d, DirName(fullpath))
    ensures SaveResult(d, fullpath, data, check, faults) == SaveOutcome(d, "Saving Failed: " + fullpath)
  {
  }

  lemma StatusPrefixesDiffer(p: Path, errText: string)
    ensures "Saved: " + p != "Saving Failed: " + p
    ensures "Saved: " + p != INVALID_CONFIG + errText + ": " + p
    ensures !StartsWith("Saving Failed: " + p, INVALID_CONFIG)
    ensures !StartsWith("Saved: " + p, INVALID_CONFIG)
  {
    assert ("Saved: " + p)[3] != ("Saving Failed: " + p)[3];
    assert ("Saved: " + p)[3] != (INVALID_CONFIG + errText + ": " + p)[3];
    assert ("Saving Failed: " + p)[7] != INVALID_CONFIG[7];
    assert ("Saved: " + p)[3] != INVALID_CONFIG[3];
  }

  /** Round trip: whenever save replies "Saved", loading the same file gives
      back the saved data as a text-mode read gives it, which is exactly the
      saved data when it holds no '\r'. */
  lemma SavedThenLoaded(d: Disk, fullpath: Path, data: string, check: Validator, faults: Faults, yamlname: string, ext: string)
    requires d.Valid()
    ensures var o := SaveResult(d, fullpath, data, check, faults);
      o.msg == "Saved: " + fullpath ==>
        && LoadResult(o.disk, yamlname, fullpath, ext) == LoadReply("Loaded: " + fullpath, yamlname, TranslateNewlines(data), ext)
        && ('\r' !in data ==> LoadResult(o.disk, yamlname, fullpath, ext).data == data)
  {
    StatusPrefixesDiffer(fullpath, "");
    if CanMakeDirs(d, DirName(fullpath)) && fullpath in d.files && !faults.writeFails {
      match check(Written(d, fullpath, data, faults))
      case Raised =>
        SaveKeepsContentWhenCheckRaises(d, fullpath, data, check, faults);
      case Report(errs) =>
        if errs == [] {
          SaveCommits(d, fullpath, data, check, faults);
        } else {
          SaveRollsBack(d, fullpath, data, check, faults, errs);
          StatusPrefixesDiffer(fullpath, ErrorMessage(errs));
        }
    } else if !CanMakeDirs(d, DirName(fullpath)) {
      SaveFailsWithoutDirectory(d, fullpath, data, check, faults);
    }
    if '\r' !in data {
      TranslateNewlinesWithoutCR(data);
    }
  }

  /** Whenever save reports an invalid configuration, loading the file gives
      back what loading it gave before the save (the written-back snapshot is
      already translated, and translating again changes nothing). */
  lemma RejectedThenLoaded(d: Disk, fullpath: Path, data: string, check: Validator, faults: Faults, yamlname: string, ext: string)
    requires d.Valid()
    ensures var o := SaveResult(d, fullpath, data, check, faults);
      StartsWith(o.msg, INVALID_CONFIG) ==>
        fullpath in d.files &&
        LoadResult(o.disk, yamlname, fullpath, ext) == LoadResult(d, yamlname, fullpath, ext)
  {
    StatusPrefixesDiffer(fullpath, "");
    if CanMakeDirs(d, DirName(fullpath)) && fullpath in d.files && !faults.writeFails {
      match check(Written(d, fullpath, data, faults))
      case Raised =>
        SaveKeepsContentWhenCheckRaises(d, fullpath, data, check, faults);
      case Report(errs) =>
        if errs == [] {
          SaveCommits(d, fullpath, data, check, faults);
        } else {
          SaveRollsBack(d, fullpath, data, check, faults, errs);
          TranslateNewlinesIdempotent(d.files[fullpath].content);
        }
    } else if !CanMakeDirs(d, DirName(fullpath)) {
      SaveFailsWithoutDirectory(d, fullpath, data, check, faults);
    }
  }

  method Load(fs: FileSystem, yamlname: string, fullpath: Path, ext: string) returns (r: Response)
    ensures r == LoadResult(fs.State(), yamlname, fullpath, ext)
  {
    var newContent := "";
    var res := "Loaded";
    var content := fs.Read(fullpath);
    if content.Some? {
      newContent := content.value;
    } else {
      res := "Reading Failed";
    }
    r := LoadReply(res + ": " + fullpath, yamlname, newContent, ext);
  }

  method Save(fs: FileSystem, fullpath: Path, data: string, check: Validator, faults: Faults) returns (msg: string)
    modifies fs
    ensures SaveOutcome(fs.State(), msg) == SaveResult(old(fs.State()), fullpath, data, check, faults)
  {
    var dirnm := DirName(fullpath);
    var mode := fs.PrepareFilesys(fullpath, dirnm);
    if mode.None? {
      return Status("Saving Failed", fullpath);
    }
    var snapshot := fs.Read(fullpath);
    if snapshot.None? {
      return Status("Saving Failed", fullpath);
    }
    var ok := fs.SaveContentToFile(fullpath, data, mode.value, faults);
    if !ok {
      return Status("Saving Failed", fullpath);
    }
    var ret := check(fs.files);
    match ret
    case Raised =>
      msg := Status("Saving Failed", fullpath);
    case Report(errs) =>
      if errs == [] {
        msg := Status("Saved", fullpath);
      } else {
        var res := INVALID_CONFIG + ErrorMessage(errs);
        var _ := fs.SaveContentToFile(fullpath, snapshot.value, mode.value, faults);
        msg := Status(res, fullpath);
      }
  }

  /** The whole handler: normalise, then dispatch on `action`; an unknown
      action sends nothing. */
  method WebsocketCreate(fs: FileSystem, configDir: Path, m: Message, check: Validator, faults: Faults)
    returns (reply: Option<Response>)
    modifies fs
    ensures var ext := CoerceExt(m.ext);
      var yamlname := TargetName(m.file, ext);
      var fullpath := ConfigPath(configDir, yamlname);
      && (m.action == "load" ==>
            fs.State() == old(fs.State()) && reply == Some(LoadResult(old(fs.State()), yamlname, fullpath, ext)))
      && (m.action == "save" ==>
            var o := SaveResult(old(fs.State()), fullpath, m.data, check, faults);
            fs.State() == o.disk && reply == Some(SaveReply(o.msg)))
      && (m.action == "list" ==>
            fs.State() == old(fs.State()) && reply == Some(ListResult(ext)))
      && (m.action != "load" && m.action != "save" && m.action != "list" ==>
            fs.State() == old(fs.State()) && reply.None?)
  {
    var ext := CoerceExt(m.ext);
    var yamlname := TargetName(m.file, ext);
    var fullpath := ConfigPath(configDir, yamlname);
    if m.action == "load" {
      var r := Load(fs, yamlname, fullpath, ext);
      reply := Some(r);
    } else if m.action == "save" {
      var msg := Save(fs, fullpath, m.data, check, faults);
      reply := Some(SaveReply(msg));
    } else if m.action == "list" {
      reply := Some(ListResult(ext));
    } else {
      reply := None;
    }
  }
}
