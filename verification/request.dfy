/** Request normalisation of the `config_editor/ws` command: the `ext` field
    is coerced to an allow-list, the client's file identifier is "sanitised"
    by string replacement and stripping, and a name without the expected
    extension is replaced by a fixed scratch name. Also the two `os.path`
    helpers the handler uses (`join` through `hass.config.path`, and
    `dirname`) and the text of the invalid-configuration message. */
module Request {
  import opened PyStr

  /** The extensions a client may ask for; "all" switches the suffix test off. */
  const ALLOWED_EXTS: seq<string> := ["yaml", "py", "json", "conf", "js", "txt", "log", "css", "all"]

  /** An `ext` outside the allow-list silently becomes "yaml". */
  function CoerceExt(ext: string): (r: string)
    ensures r in ALLOWED_EXTS
    ensures r == ext <==> ext in ALLOWED_EXTS
    ensures r != ext ==> r == "yaml"
  {
    if ext !in ALLOWED_EXTS then "yaml" else ext
  }

  /** The handler's local `is_extension_ok`, closed over the coerced `ext`. */
  predicate IsExtensionOk(extension: string, ext: string)
    ensures IsExtensionOk(extension, ext) ==> |extension| >= 2
    ensures IsExtensionOk(extension, ext) && ext != "all" ==> EndsWith(extension, "." + ext)
  {
    if |extension| < 2 then false
    else ext == "all" || EndsWith(extension, "." + ext)
  }

  /** `file.replace("../", "/").strip("/")`. */
  function Sanitise(file: string): (r: string)
    ensures |r| > 0 ==> r[0] != '/' && r[|r| - 1] != '/'
  {
    Strip(ReplaceAll(file, "../", "/"), '/')
  }

  /** The name the handler finally works on (`yamlname`): the sanitised
      identifier when the raw identifier passes the extension test, otherwise
      `"temptest." + ext`. */
  function TargetName(file: string, ext: string): (r: string)
    requires ext in ALLOWED_EXTS
    ensures |r| > 0 ==> r[0] != '/' && r[|r| - 1] != '/'
  {
    if !IsExtensionOk(file, ext) then "temptest." + ext else Sanitise(file)
  }

  /** `os.path.join(a, b)` for two components, as POSIX Python computes it:
      an absolute `b` replaces `a`; otherwise one separator is put between
      them unless `a` is empty or already ends with one. */
  function PathJoin(a: string, b: string): (r: string)
    ensures EndsWith(r, b)
  {
    if StartsWith(b, "/") then b
    else if |a| == 0 || a[|a| - 1] == '/' then a + b
    else a + "/" + b
  }

  /** `hass.config.path(name)`: the name joined onto the configuration directory. */
  function ConfigPath(configDir: string, name: string): (r: string)
    ensures EndsWith(r, name)
    ensures StartsWith(name, "/") ==> r == name
  {
    PathJoin(configDir, name)
  }

  /** One past the index of the last '/' in `p`, or 0 if there is none. */
  function LastSepEnd(p: string): (i: nat)
    ensures i <= |p|
    ensures i > 0 ==> p[i - 1] == '/'
    ensures forall j :: i <= j < |p| ==> p[j] != '/'
    decreases |p|
  {
    if |p| == 0 then 0
    else if p[|p| - 1] == '/' then |p|
    else LastSepEnd(p[..|p| - 1])
  }

  predicate AllSlashes(s: string) {
    forall i :: 0 <= i < |s| ==> s[i] == '/'
  }

  /** POSIX `os.path.dirname(p)`: everything up to the last '/', with trailing
      slashes removed unless the head consists of slashes only. */
  function DirName(p: string): (r: string)
    ensures StartsWith(p, r)
    ensures '/' !in p ==> r == ""
    ensures |r| <= LastSepEnd(p)
    ensures forall j :: |r| <= j < LastSepEnd(p) ==> p[j] == '/'
    ensures LastSepEnd(p) > 0 ==> |r| > 0
    ensures |r| > 0 && r[|r| - 1] == '/' ==> AllSlashes(r)
    ensures AllSlashes(p[..LastSepEnd(p)]) ==> r == p[..LastSepEnd(p)]
  {
    var head := p[..LastSepEnd(p)];
    if head != "" && !AllSlashes(head) then
      var r := RStrip(head, '/');
      assert |r| > 0 by {
        var i :| 0 <= i < |head| && head[i] != '/';
      }
      r
    else head
  }

  /** One `f"{domain}: {config}"` item of the invalid-configuration message. */
  function Entry(e: (string, string)): (r: string)
    ensures StartsWith(r, e.0) && EndsWith(r, e.1)
    ensures |r| == |e.0| + 2 + |e.1| && r[|e.0|..|e.0| + 2] == ": "
  {
    e.0 + ": " + e.1
  }

  function Entries(errs: seq<(string, string)>): (r: seq<string>)
    ensures |r| == |errs|
    ensures forall i :: 0 <= i < |errs| ==> r[i] == Entry(errs[i])
  {
    seq(|errs|, i requires 0 <= i < |errs| => Entry(errs[i]))
  }

  /** The comma-joined error text carried by `InvalidHAConfig`. */
  function ErrorMessage(errs: seq<(string, string)>): (r: string)
    ensures r == "" <==> errs == []
    ensures errs != [] ==> StartsWith(r, Entry(errs[0]))
  {
    Join(Entries(errs), ",")
  }

  /** Every allowed extension is free of '/' and at least two characters long. */
  lemma AllowedExtShape(ext: string)
    requires ext in ALLOWED_EXTS
    ensures '/' !in ext && |ext| >= 2
  {
  }

  /** For every allowed extension other than "all" the length guard of
      `is_extension_ok` is redundant: the test is exactly the suffix test. */
  lemma ExtensionOkIsSuffixTest(f: string, ext: string)
    requires ext in ALLOWED_EXTS && ext != "all"
    ensures IsExtensionOk(f, ext) <==> EndsWith(f, "." + ext)
  {
  }

  /** With "all" only the length guard remains. */
  lemma ExtensionOkForAll(f: string)
    ensures IsExtensionOk(f, "all") <==> |f| >= 2
  {
  }

  /** An identifier with no "../" and no leading or trailing '/' is not
      altered by the sanitiser. */
  lemma SanitiseIdentity(file: string)
    requires !Contains(file, "../")
    requires !StartsWith(file, "/") && !EndsWith(file, "/")
    ensures Sanitise(file) == file
  {
    ReplaceAllAbsent(file, "../", "/");
    if |file| > 0 {
      assert file[..1] == [file[0]];
      assert file[|file| - 1..] == [file[|file| - 1]];
    }
  }

  /** A suffix free of '/' and not starting with '/' survives the sanitiser. */
  lemma {:induction false} SanitiseKeepsSuffix(p: string, q: string)
    requires |q| > 0 && '/' !in q
    ensures EndsWith(Sanitise(p + q), q)
  {
    ReplaceAllAppend(p, q, "../", "/");
    StripKeepsSuffix(ReplaceAll(p, "../", "/"), q, '/');
  }

  /** Whenever `ext` is not "all", the final name carries the extension: either
      the sanitised name kept the suffix the raw identifier had, or it is the
      scratch name. */
  lemma TargetNameHasExtension(file: string, ext: string)
    requires ext in ALLOWED_EXTS && ext != "all"
    ensures EndsWith(TargetName(file, ext), "." + ext)
    ensures IsExtensionOk(file, ext) ==> EndsWith(Sanitise(file), "." + ext)
  {
    AllowedExtShape(ext);
    var q := "." + ext;
    if IsExtensionOk(file, ext) {
      var p := file[..|file| - |q|];
      assert file == p + q;
      SanitiseKeepsSuffix(p, q);
    } else {
      assert ("temptest." + ext)[|"temptest." + ext| - |q|..] == q;
    }
  }

  /** An absolute identifier with no '.' before its extension, such as the
      ones the `list` action offers, resolves to itself without the leading
      '/'. */
  lemma {:induction false} SanitiseAbsoluteName(p: string, q: string)
    requires |p| > 0 && p[0] != '/' && '.' !in p
    requires |q| > 0 && '/' !in q
    ensures Sanitise("/" + p + q) == p + q
  {
    ReplaceAbsoluteName(p, q);
    StripAbsoluteName(p, q);
  }

  lemma ReplaceAbsoluteName(p: string, q: string)
    requires '.' !in p && '/' !in q
    ensures ReplaceAll("/" + p + q, "../", "/") == "/" + p + q
  {
    ReplaceAllAppend("/" + p, q, "../", "/");
    assert '.' !in "/" + p;
    AbsentFirstChar("/" + p, "../");
    ReplaceAllAbsent("/" + p, "../", "/");
  }

  lemma StripAbsoluteName(p: string, q: string)
    requires |p| > 0 && p[0] != '/' && |q| > 0 && '/' !in q
    ensures Strip("/" + p + q, '/') == p + q
  {
    assert ("/" + p + q)[1..] == p + q;
    StripLeading("/" + p + q, '/');
    assert (p + q)[0] == p[0] && (p + q)[|p + q| - 1] == q[|q| - 1];
    StripUntouched(p + q, '/');
  }

  /** Such an identifier passes the extension test, so it is also the name
      the handler works on. */
  lemma TargetNameOfAbsolute(f: string, p: string, ext: string)
    requires ext in ALLOWED_EXTS
    requires |p| > 0 && p[0] != '/' && '.' !in p
    requires f == "/" + p + "." + ext
    ensures TargetName(f, ext) == f[1..]
  {
    assert f[1..] == p + "." + ext;
    AllowedExtShape(ext);
    var q := "." + ext;
    assert "/" + p + "." + ext == "/" + p + q;
    assert p + "." + ext == p + q;
    assert f[|f| - |q|..] == q;
    SanitiseAbsoluteName(p, q);
  }

  /** A leading "../" is replaced by '/', which the strip then removes: an
      identifier "../" + stem + suffix is not refused by the sanitiser but loses the
      traversal. */
  lemma SanitiseDropsLeadingTraversal(p: string, q: string)
    requires |p| > 0 && p[0] != '/' && '.' !in p
    requires |q| > 0 && '/' !in q
    ensures Sanitise("../" + p + q) == p + q
  {
    var rest := p + q;
    assert "../" + p + q == "../" + rest;
    assert ("../" + rest)[..3] == "../" && ("../" + rest)[3..] == rest;
    ReplaceAllMatch("../" + rest, "../", "/");
    ReplaceAllSkipsPrefix("/", rest, "../", "/");
    assert "/" + p + q == "/" + rest;
    SanitiseAbsoluteName(p, q);
  }

  /** "../secrets.yaml" is not refused by the sanitiser: it becomes "secrets.yaml". */
  lemma SanitiseLeadingTraversal()
    ensures Sanitise("../secrets.yaml") == "secrets.yaml"
  {
    var p, q := "secrets", ".yaml";
    assert '.' !in p && '/' !in q;
    assert "../secrets.yaml" == "../" + p + q;
    assert "secrets.yaml" == p + q;
    SanitiseDropsLeadingTraversal(p, q);
  }

  /** No "../" starts where the third character is not '/'. */
  lemma NoTraversalAtFront(s: string)
    requires |s| >= 3 && s[2] != '/'
    ensures !StartsWith(s, "../")
  {
    assert s[..3][2] == s[2];
  }

  /** A leading "../" before a '/'-free tail becomes a single '/'. */
  lemma ReplaceLeadingTraversal(b: string)
    requires '/' !in b
    ensures ReplaceAll("../" + b, "../", "/") == "/" + b
  {
    var s2 := "../" + b;
    assert s2[..3] == "../" && s2[3..] == b;
    ReplaceAllMatch(s2, "../", "/");
    ReplaceAllAppend("", b, "../", "/");
    assert "" + b == b;
  }

  /** The sanitiser does not remove traversal: in "." + "." + "../" + b only
      the "../" at index 2 matches, and what remains is "../" + b. */
  lemma SanitiseKeepsShiftedTraversal(b: string)
    requires |b| > 0 && '/' !in b
    ensures Sanitise(['.'] + (['.'] + ("../" + b))) == "../" + b
    ensures Contains(Sanitise(['.'] + (['.'] + ("../" + b))), "../")
  {
    var s2 := "../" + b;
    var s1 := ['.'] + s2;
    var s := ['.'] + s1;
    assert s[1..] == s1 && s1[1..] == s2;
    assert s[2] == '.' && s1[2] == '.';
    NoTraversalAtFront(s);
    ReplaceAllSkip(s, "../", "/");
    NoTraversalAtFront(s1);
    ReplaceAllSkip(s1, "../", "/");
    ReplaceLeadingTraversal(b);
    assert ReplaceAll(s, "../", "/") == s2;
    assert s2[0] == '.' && s2[|s2| - 1] == b[|b| - 1];
    StripUntouched(s2, '/');
    assert OccursAt(s2, "../", 0);
  }

  /** "..../etc" becomes "../etc", which still contains "../". */
  lemma SanitiseLeavesTraversal()
    ensures Sanitise("..../etc") == "../etc"
    ensures Contains(Sanitise("..../etc"), "../")
  {
    var b := "etc";
    assert "..../etc" == ['.'] + (['.'] + ("../" + b)) && "../etc" == "../" + b;
    SanitiseKeepsShiftedTraversal(b);
  }

  /** An interior traversal segment is not resolved either: "a/../b" becomes
      "a//b", a different string from "a/b" although the filesystem resolves
      both to the same file. */
  lemma SanitiseInteriorTraversal(a: string, b: string)
    requires |a| > 0 && a[0] != '/' && '.' !in a
    requires |b| > 0 && '/' !in b
    ensures Sanitise(a + "/../" + b) == a + "//" + b
  {
    var s := a + "/../" + b;
    assert s == (a + "/") + "../" + b;
    ReplaceAllAppend((a + "/") + "../", b, "../", "/");
    ReplaceAllSkipsPrefix(a + "/", "../", "../", "/");
    assert "../"[..3] == "../" && "../"[3..] == "";
    ReplaceAllMatch("../", "../", "/");
    var r := a + "//" + b;
    assert ReplaceAll(s, "../", "/") == r;
    assert r[0] == a[0] && r[|r| - 1] == b[|b| - 1];
    StripUntouched(r, '/');
  }

  /** A name that does not start with '/' is joined under the configuration
      directory: `os.path.join` cannot be made to return an unrelated
      absolute path. */
  lemma ConfigPathUnderRoot(configDir: string, name: string)
    requires !StartsWith(name, "/")
    ensures StartsWith(ConfigPath(configDir, name), configDir)
    ensures EndsWith(ConfigPath(configDir, name), name)
  {
  }

  /** Distinct names that do not start with '/' give distinct paths, so
      `hass.config.path` is injective on every name `TargetName` produces. */
  lemma ConfigPathInjective(configDir: string, a: string, b: string)
    requires !StartsWith(a, "/") && !StartsWith(b, "/")
    requires ConfigPath(configDir, a) == ConfigPath(configDir, b)
    ensures a == b
  {
  }

  /** The names `TargetName` produces never start with '/'. */
  lemma TargetNameRelative(file: string, ext: string)
    requires ext in ALLOWED_EXTS
    ensures !StartsWith(TargetName(file, ext), "/")
  {
    var r := TargetName(file, ext);
    if |r| > 0 {
      assert r[..1] == [r[0]];
    }
  }

  /** Items of the error message appear in the validator's order, separated
      by single commas. */
  lemma ErrorMessageSnoc(errs: seq<(string, string)>, e: (string, string))
    requires errs != []
    ensures ErrorMessage(errs + [e]) == ErrorMessage(errs) + "," + e.0 + ": " + e.1
  {
    var xs, ys := Entries(errs + [e]), Entries(errs) + [Entry(e)];
    forall i | 0 <= i < |xs| ensures xs[i] == ys[i] {
      if i < |errs| {
        assert (errs + [e])[i] == errs[i];
      }
    }
    assert xs == ys;
    JoinSnoc(Entries(errs), Entry(e), ",");
  }

  /** A single error gives exactly `"domain: config"`. */
  lemma ErrorMessageSingle(e: (string, string))
    ensures ErrorMessage([e]) == e.0 + ": " + e.1
  {
  }
}
