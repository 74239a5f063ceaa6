/** `uv_tidy/core.py`: the venv detection rule that is in effect, the
    recursive scanner, the keep/remove decision and the summary. */
module Core {
  import opened Wrappers
  import opened Text
  import opened FileTree
  import opened Platform
  import opened Records
  import Utils

  // ---------------------------------------------------------------------
  // is_uv_venv (the definition that is in effect)
  // ---------------------------------------------------------------------

  /** Two of the three canonical subdirectories, and either `pyvenv.cfg`
      or the interpreter as a regular file. */
  predicate IsCoreVenv(e: Option<Node>, p: Platform) {
    Utils.CountDirs(e, RequiredDirs(p)) >= 2 &&
    (IsFile(Under(e, PyvenvCfg)) || IsFile(Under(e, PythonBin(p))))
  }

  /** `is_uv_venv`: count the canonical subdirectories, then probe the
      configuration file and the interpreter. */
  method CheckCoreVenv(e: Option<Node>, p: Platform) returns (r: bool)
    ensures r == IsCoreVenv(e, p)
  {
    var names := RequiredDirs(p);
    var found := 0;
    var i := 0;
    while i < |names|
      invariant 0 <= i <= |names|
      invariant found == Utils.CountDirs(e, names[..i])
    {
      assert names[..i + 1][..i] == names[..i];
      if IsDir(Under(e, [names[i]])) {
        found := found + 1;
      }
      i := i + 1;
    }
    assert names[..|names|] == names;
    if found < 2 {
      return false;
    }
    if IsFile(Under(e, PyvenvCfg)) {
      return true;
    }
    return IsFile(Under(e, PythonBin(p)));
  }

  /** Finding a directory below `e` means `e` is a listable directory. */
  lemma {:induction false} CountDirsNeedsDir(e: Option<Node>, names: seq<string>)
    requires Utils.CountDirs(e, names) > 0
    ensures e.Some? && e.value.Dir?
    decreases |names|
  {
    var last := names[|names| - 1];
    if !IsDir(Under(e, [last])) {
      CountDirsNeedsDir(e, names[..|names| - 1]);
    }
  }

  /** The rule in effect accepts everything the marker-aware rule in
      `utils.py` accepts, and accepts more exactly when two canonical
      subdirectories and a `pyvenv.cfg` that does not mention "uv" come
      without an interpreter. */
  lemma {:induction false} CoreRuleVersusUtilsRule(e: Option<Node>, p: Platform)
    ensures Utils.IsUvVenv(e, p) ==> IsCoreVenv(e, p)
    ensures IsCoreVenv(e, p) && !Utils.IsUvVenv(e, p) <==>
      Utils.CountDirs(e, RequiredDirs(p)) >= 2 && IsFile(Under(e, PyvenvCfg)) &&
      !Utils.CfgMentionsUv(e) && !IsFile(Under(e, PythonBin(p)))
  {
    if Utils.CountDirs(e, RequiredDirs(p)) >= 2 {
      CountDirsNeedsDir(e, RequiredDirs(p));
    }
    Utils.IsUvVenvReduced(e, p);
  }

  /** A POSIX directory with `bin`, `lib` and an empty `pyvenv.cfg`. */
  function PlainCfgVenv(): Node {
    Dir("venv", None, [Dir("bin", None, []), Dir("lib", None, []), File("pyvenv.cfg", None, Some(0), Some(""))])
  }

  /** The two rules disagree on a venv whose configuration does not
      mention "uv" and that has no interpreter. */
  lemma {:induction false} RulesDisagreeOnPlainCfg()
    ensures IsCoreVenv(Some(PlainCfgVenv()), Posix)
    ensures !Utils.IsUvVenv(Some(PlainCfgVenv()), Posix)
  {
    var e := Some(PlainCfgVenv());
    var names := RequiredDirs(Posix);
    assert IsDir(Under(e, ["bin"])) && IsDir(Under(e, ["lib"]));
    assert names[..1][..0] == [] && names[..2][..1] == names[..1] && names[..3][..2] == names[..2];
    assert Utils.CountDirs(e, names[..1]) == 1;
    assert Utils.CountDirs(e, names[..2]) == 2;
    assert names[..3] == names;
    assert Utils.ProbeCfg(e) == Utils.CfgText("");
    assert !Contains(Lower(""), "uv");
  }

  // ---------------------------------------------------------------------
  // find_venvs
  // ---------------------------------------------------------------------

  /** The directory names skipped when the caller gives none. */
  const DefaultExcludeDirs: seq<string> :=
    [".git", "node_modules", "__pycache__", ".pytest_cache", ".vscode", ".idea"]

  /** Where uv keeps venvs below a project, checked before the listing. */
  const UvVenvsDir: Path := [".uv", "venvs"]

  /** `.uv/venvs` exists but cannot be listed: the listing raises and the
      handler returns what this level has found, which is nothing yet. */
  predicate UvVenvsUnreadable(n: Node) {
    var u := Lookup(n, UvVenvsDir);
    u.Some? && u.value.Unreadable?
  }

  /** The venvs directly inside `.uv/venvs`, whose entries `cs` are. */
  function ShortcutItems(cs: seq<Node>, at: Path, p: Platform): seq<Path> {
    if cs == [] then [] else ShortcutItem(cs[0], at, p) + ShortcutItems(cs[1..], at, p)
  }

  /** One entry of `.uv/venvs`: reported when it is a directory and a venv. */
  function ShortcutItem(c: Node, at: Path, p: Platform): seq<Path> {
    if IsDir(Some(c)) && IsCoreVenv(Some(c), p) then [at + [c.name]] else []
  }

  function ShortcutHits(n: Node, path: Path, p: Platform): seq<Path> {
    var u := Lookup(n, UvVenvsDir);
    if u.Some? && u.value.Dir? then ShortcutItems(u.value.children, path + UvVenvsDir, p) else []
  }

  /** What scanning `n`, found at `path`, reports with `depth` levels left. */
  function Scan(n: Node, path: Path, depth: int, ex: seq<string>, p: Platform): seq<Path>
    decreases n, 1
  {
    if depth <= 0 then []
    else if IsCoreVenv(Some(n), p) then [path]
    else if UvVenvsUnreadable(n) then []
    else ShortcutHits(n, path, p) + (if n.Dir? then ChildHits(n.children, path, depth, ex, p) else [])
  }

  /** The reports for the listed entries `cs`, in listing order. */
  function ChildHits(cs: seq<Node>, path: Path, depth: int, ex: seq<string>, p: Platform): seq<Path>
    decreases cs, 0
  {
    if cs == [] then [] else Hit(cs[0], path, depth, ex, p) + ChildHits(cs[1..], path, depth, ex, p)
  }

  /** One listed entry: skipped when excluded or not a directory, reported
      when a venv, otherwise scanned with one level less. */
  function Hit(c: Node, path: Path, depth: int, ex: seq<string>, p: Platform): seq<Path>
    decreases c, 2
  {
    if c.name in ex then []
    else if !IsDir(Some(c)) then []
    else if IsCoreVenv(Some(c), p) then [path + [c.name]]
    else Scan(c, path + [c.name], depth - 1, ex, p)
  }

  function ExcludeOf(exclude: Option<seq<string>>): seq<string> {
    if exclude.None? then DefaultExcludeDirs else exclude.value
  }

  /** `find_venvs(base_dir, max_depth, exclude_dirs)` on the tree `root`. */
  function FoundVenvs(root: Node, base: Path, maxDepth: int, exclude: Option<seq<string>>, p: Platform): (r: seq<Path>)
    ensures Lookup(root, base).None? || maxDepth <= 0 ==> r == []
    ensures Lookup(root, base).Some? && maxDepth > 0 && IsCoreVenv(Lookup(root, base), p) ==> r == [base]
  {
    var e := Lookup(root, base);
    if e.None? then [] else Scan(e.value, base, maxDepth, ExcludeOf(exclude), p)
  }

  /** `find_venvs`: appends and extends a list while walking the listing,
      recursing into directories that are not venvs. */
  method FindVenvs(root: Node, base: Path, maxDepth: int, exclude: Option<seq<string>>, p: Platform)
    returns (venvs: seq<Path>)
    ensures venvs == FoundVenvs(root, base, maxDepth, exclude, p)
  {
    var ex := if exclude.None? then DefaultExcludeDirs else exclude.value;
    var e := Lookup(root, base);
    if e.None? {
      return [];
    }
    venvs := ScanDir(e.value, base, maxDepth, ex, p);
  }

  /** The `max_depth` used when the caller gives none. */
  const DefaultMaxDepth: int := 10

  /** `find_venvs(base_dir)`: the default depth and exclusions. */
  method FindVenvsDefault(root: Node, base: Path, p: Platform) returns (venvs: seq<Path>)
    ensures venvs == FoundVenvs(root, base, DefaultMaxDepth, None, p)
  {
    venvs := FindVenvs(root, base, DefaultMaxDepth, None, p);
  }

  method ScanDir(n: Node, path: Path, depth: int, ex: seq<string>, p: Platform) returns (venvs: seq<Path>)
    ensures venvs == Scan(n, path, depth, ex, p)
    decreases n, 1
  {
    venvs := [];
    if depth <= 0 {
      return;
    }
    var isVenv := CheckCoreVenv(Some(n), p);
    if isVenv {
      venvs := venvs + [path];
      return;
    }
    var u := Lookup(n, UvVenvsDir);
    if IsDir(u) {
      if u.value.Unreadable? {
        return;
      }
      venvs := ScanShortcut(u.value.children, path + UvVenvsDir, p);
    }
    if !n.Dir? {
      return;
    }
    var sub := ScanChildren(n.children, path, depth, ex, p);
    venvs := venvs + sub;
  }

  /** The loop over the listing of `.uv/venvs`. */
  method ScanShortcut(items: seq<Node>, at: Path, p: Platform) returns (venvs: seq<Path>)
    ensures venvs == ShortcutItems(items, at, p)
  {
    venvs := [];
    for i := 0 to |items|
      invariant venvs + ShortcutItems(items[i..], at, p) == ShortcutItems(items, at, p)
    {
      var item := items[i];
      assert items[i..][0] == item && items[i..][1..] == items[i + 1..];
      assert ShortcutItems(items[i..], at, p) == ShortcutItem(item, at, p) + ShortcutItems(items[i + 1..], at, p);
      var hit := ShortcutEntry(item, at, p);
      venvs := venvs + hit;
    }
    assert items[|items|..] == [];
  }

  method ShortcutEntry(item: Node, at: Path, p: Platform) returns (venvs: seq<Path>)
    ensures venvs == ShortcutItem(item, at, p)
  {
    venvs := [];
    if IsDir(Some(item)) {
      var ok := CheckCoreVenv(Some(item), p);
      if ok {
        venvs := [at + [item.name]];
      }
    }
  }

  /** The loop over the listing of the scanned directory. */
  method ScanChildren(cs: seq<Node>, path: Path, depth: int, ex: seq<string>, p: Platform) returns (venvs: seq<Path>)
    ensures venvs == ChildHits(cs, path, depth, ex, p)
    decreases cs, 2
  {
    venvs := [];
    for i := 0 to |cs|
      invariant venvs + ChildHits(cs[i..], path, depth, ex, p) == ChildHits(cs, path, depth, ex, p)
    {
      var c := cs[i];
      ghost var rest := ChildHits(cs[i + 1..], path, depth, ex, p);
      assert cs[i..][0] == c && cs[i..][1..] == cs[i + 1..];
      assert ChildHits(cs[i..], path, depth, ex, p) == Hit(c, path, depth, ex, p) + rest;
      var hit := ScanEntry(c, path, depth, ex, p);
      venvs := venvs + hit;
    }
    assert cs[|cs|..] == [];
  }

  /** One pass of the listing loop: skip an excluded name or a
      non-directory, report a venv, or recurse. */
  method ScanEntry(c: Node, path: Path, depth: int, ex: seq<string>, p: Platform) returns (venvs: seq<Path>)
    ensures venvs == Hit(c, path, depth, ex, p)
    decreases c, 3
  {
    venvs := [];
    if c.name in ex {
      return;
    }
    if IsDir(Some(c)) {
      var ok := CheckCoreVenv(Some(c), p);
      if ok {
        venvs := venvs + [path + [c.name]];
      } else {
        venvs := ScanDir(c, path + [c.name], depth - 1, ex, p);
      }
    }
  }

  // Properties of the scan

  /** `q` names a path below `path` that passes the rule, resolved from `n`. */
  predicate FoundBelow(n: Node, path: Path, q: Path, p: Platform) {
    |path| <= |q| && q[..|path|] == path && IsCoreVenv(Lookup(n, q[|path|..]), p)
  }

  lemma {:induction false} ScanSound(n: Node, path: Path, depth: int, ex: seq<string>, p: Platform)
    requires WellFormed(n)
    ensures forall q | q in Scan(n, path, depth, ex, p) :: FoundBelow(n, path, q, p)
    decreases n, 1
  {
    if depth <= 0 {
    } else if IsCoreVenv(Some(n), p) {
      assert path[|path|..] == [];
    } else if !UvVenvsUnreadable(n) {
      ShortcutSound(n, path, p);
      if n.Dir? {
        ChildHitsSound(n, n.children, path, depth, ex, p);
      }
    }
  }

  lemma {:induction false} ChildHitsSound(n: Node, cs: seq<Node>, path: Path, depth: int, ex: seq<string>, p: Platform)
    requires n.Dir? && WellFormed(n)
    requires forall i :: 0 <= i < |cs| ==> cs[i] in n.children
    ensures forall q | q in ChildHits(cs, path, depth, ex, p) :: FoundBelow(n, path, q, p)
    decreases cs, 0
  {
    if cs != [] {
      HitSound(n, cs[0], path, depth, ex, p);
      ChildHitsSound(n, cs[1..], path, depth, ex, p);
    }
  }

  lemma {:induction false} HitSound(n: Node, c: Node, path: Path, depth: int, ex: seq<string>, p: Platform)
    requires n.Dir? && WellFormed(n) && c in n.children
    ensures forall q | q in Hit(c, path, depth, ex, p) :: FoundBelow(n, path, q, p)
    decreases c, 2
  {
    var i :| 0 <= i < |n.children| && n.children[i] == c;
    ChildFindsEach(n.children, i);
    if c.name !in ex && IsDir(Some(c)) {
      if IsCoreVenv(Some(c), p) {
        var q := path + [c.name];
        assert q[..|path|] == path && q[|path|..] == [c.name];
        assert Lookup(n, [c.name]) == Lookup(c, []);
      } else {
        var below := path + [c.name];
        ScanSound(c, below, depth - 1, ex, p);
        forall q | q in Scan(c, below, depth - 1, ex, p)
          ensures FoundBelow(n, path, q, p)
        {
          FoundBelowUnder(n, c, path, q, p);
        }
      }
    }
  }

  /** A venv found below the child `c` of `n` is found below `n`. */
  lemma {:induction false} FoundBelowUnder(n: Node, c: Node, path: Path, q: Path, p: Platform)
    requires n.Dir? && Child(n.children, c.name) == Some(c)
    requires FoundBelow(c, path + [c.name], q, p)
    ensures FoundBelow(n, path, q, p)
  {
    var below := path + [c.name];
    var rel := q[|path|..];
    assert q[..|below|] == below;
    assert q[..|path|] == below[..|path|] == path;
    assert rel[0] == q[|path|] == below[|path|] == c.name;
    assert rel[1..] == q[|below|..];
    assert Lookup(n, rel) == Lookup(c, rel[1..]);
  }

  /** Every report of a `.uv/venvs` listing is a member that passes the rule. */
  lemma {:induction false} ShortcutItemsMember(cs: seq<Node>, at: Path, p: Platform, q: Path)
    requires q in ShortcutItems(cs, at, p)
    ensures exists i :: 0 <= i < |cs| && q == at + [cs[i].name] && IsDir(Some(cs[i])) && IsCoreVenv(Some(cs[i]), p)
    decreases |cs|
  {
    if q !in ShortcutItem(cs[0], at, p) {
      ShortcutItemsMember(cs[1..], at, p, q);
      var i :| 0 <= i < |cs[1..]| && q == at + [cs[1..][i].name] && IsDir(Some(cs[1..][i])) && IsCoreVenv(Some(cs[1..][i]), p);
      assert cs[1..][i] == cs[i + 1];
    }
  }

  lemma {:induction false} ShortcutSound(n: Node, path: Path, p: Platform)
    requires WellFormed(n)
    ensures forall q | q in ShortcutHits(n, path, p) :: FoundBelow(n, path, q, p)
  {
    var u := Lookup(n, UvVenvsDir);
    if u.Some? && u.value.Dir? {
      LookupWellFormed(n, UvVenvsDir);
      var at := path + UvVenvsDir;
      forall q | q in ShortcutHits(n, path, p)
        ensures FoundBelow(n, path, q, p)
      {
        ShortcutItemsMember(u.value.children, at, p, q);
        var i :| 0 <= i < |u.value.children| && q == at + [u.value.children[i].name] &&
          IsDir(Some(u.value.children[i])) && IsCoreVenv(Some(u.value.children[i]), p);
        ShortcutEntrySound(n, u.value, i, path, p);
      }
    }
  }

  lemma {:induction false} ShortcutEntrySound(n: Node, u: Node, i: int, path: Path, p: Platform)
    requires Lookup(n, UvVenvsDir) == Some(u) && u.Dir? && WellFormed(u)
    requires 0 <= i < |u.children| && IsCoreVenv(Some(u.children[i]), p)
    ensures FoundBelow(n, path, path + UvVenvsDir + [u.children[i].name], p)
  {
    var c := u.children[i];
    var q := path + UvVenvsDir + [c.name];
    ChildFindsEach(u.children, i);
    assert q[..|path|] == path;
    assert q[|path|..] == UvVenvsDir + [c.name];
    LookupAppend(n, UvVenvsDir, [c.name]);
    assert Lookup(u, [c.name]) == Lookup(c, []);
  }

  /** Every path `find_venvs` reports lies below `base_dir` and passes the
      rule in effect: each append is guarded by the rule and each extension
      comes from a recursive scan. */
  lemma {:induction false} FoundVenvsSound(root: Node, base: Path, maxDepth: int, exclude: Option<seq<string>>, p: Platform)
    requires WellFormed(root)
    ensures forall q | q in FoundVenvs(root, base, maxDepth, exclude, p) ::
      |base| <= |q| && q[..|base|] == base && IsCoreVenv(Lookup(root, q), p)
  {
    var e := Lookup(root, base);
    if e.Some? {
      LookupWellFormed(root, base);
      ScanSound(e.value, base, maxDepth, ExcludeOf(exclude), p);
      forall q | q in FoundVenvs(root, base, maxDepth, exclude, p)
        ensures IsCoreVenv(Lookup(root, q), p)
      {
        assert q == base + q[|base|..];
        LookupAppend(root, base, q[|base|..]);
      }
    }
  }

  /** `q` ends in `.uv`, `venvs` and one more name, all below position `k`. */
  predicate ShortcutTail(q: Path, k: int) {
    0 <= k && k + 3 <= |q| && q[|q| - 3] == ".uv" && q[|q| - 2] == "venvs"
  }

  /** `q` extends `path` by at most `depth` names, none of them excluded,
      except that a report of a `.uv/venvs` listing may be deeper and its
      last three names are not checked against the exclusions. */
  predicate Shaped(q: Path, path: Path, depth: int, ex: seq<string>) {
    |path| <= |q| && q[..|path|] == path &&
    (|q| <= |path| + depth || ShortcutTail(q, |path|)) &&
    forall i | |path| <= i < |q| :: q[i] in ex ==> ShortcutTail(q, |path|) && i >= |q| - 3
  }

  lemma {:induction false} ScanShape(n: Node, path: Path, depth: int, ex: seq<string>, p: Platform)
    ensures forall q | q in Scan(n, path, depth, ex, p) :: Shaped(q, path, depth, ex)
    decreases n, 1
  {
    if depth <= 0 {
    } else if IsCoreVenv(Some(n), p) {
      assert path[..|path|] == path;
    } else if !UvVenvsUnreadable(n) {
      var u := Lookup(n, UvVenvsDir);
      if u.Some? && u.value.Dir? {
        var at := path + UvVenvsDir;
        forall q | q in ShortcutHits(n, path, p)
          ensures Shaped(q, path, depth, ex)
        {
          ShortcutItemsMember(u.value.children, at, p, q);
          assert |q| == |path| + 3 && q[..|path|] == path;
          assert q[|q| - 3] == ".uv" && q[|q| - 2] == "venvs";
        }
      }
      if n.Dir? {
        ChildHitsShape(n.children, path, depth, ex, p);
      }
    }
  }

  lemma {:induction false} ChildHitsShape(cs: seq<Node>, path: Path, depth: int, ex: seq<string>, p: Platform)
    requires depth >= 1
    ensures forall q | q in ChildHits(cs, path, depth, ex, p) :: Shaped(q, path, depth, ex)
    decreases cs, 0
  {
    if cs != [] {
      HitShape(cs[0], path, depth, ex, p);
      ChildHitsShape(cs[1..], path, depth, ex, p);
    }
  }

  lemma {:induction false} HitShape(c: Node, path: Path, depth: int, ex: seq<string>, p: Platform)
    requires depth >= 1
    ensures forall q | q in Hit(c, path, depth, ex, p) :: Shaped(q, path, depth, ex)
    decreases c, 2
  {
    if c.name !in ex && IsDir(Some(c)) {
      var below := path + [c.name];
      if IsCoreVenv(Some(c), p) {
        assert below[..|path|] == path && below[|path|] == c.name;
      } else {
        ScanShape(c, below, depth - 1, ex, p);
        forall q | q in Scan(c, below, depth - 1, ex, p)
          ensures Shaped(q, path, depth, ex)
        {
          ShapedUnder(q, path, c.name, depth, ex);
        }
      }
    }
  }

  /** A path shaped below `path + [name]` is shaped below `path`, one level
      deeper, when `name` is not excluded. */
  lemma {:induction false} ShapedUnder(q: Path, path: Path, name: string, depth: int, ex: seq<string>)
    requires name !in ex && Shaped(q, path + [name], depth - 1, ex)
    ensures Shaped(q, path, depth, ex)
  {
    var below := path + [name];
    assert q[..|below|] == below;
    assert q[..|path|] == below[..|path|] == path;
    assert q[|path|] == below[|path|] == name;
    assert ShortcutTail(q, |below|) ==> ShortcutTail(q, |path|);
    forall i | |path| <= i < |q| && q[i] in ex
      ensures ShortcutTail(q, |path|) && i >= |q| - 3
    {
      assert i != |path|;
    }
  }

  /** The reports stay within `max_depth` names below `base_dir` and avoid
      the excluded names, except for reports of a `.uv/venvs` listing. */
  lemma {:induction false} FoundVenvsShape(root: Node, base: Path, maxDepth: int, exclude: Option<seq<string>>, p: Platform)
    ensures forall q | q in FoundVenvs(root, base, maxDepth, exclude, p) :: Shaped(q, base, maxDepth, ExcludeOf(exclude))
  {
    if Lookup(root, base).Some? {
      ScanShape(Lookup(root, base).value, base, maxDepth, ExcludeOf(exclude), p);
    }
  }

  /** `rel` leads from `n` through listable directories that are not venvs,
      have no unreadable `.uv/venvs` and whose entries on the way are not
      excluded, to a directory that passes the rule. */
  predicate ClearPath(n: Node, rel: Path, ex: seq<string>, p: Platform)
    decreases |rel|
  {
    rel != [] && n.Dir? && !IsCoreVenv(Some(n), p) && !UvVenvsUnreadable(n) && rel[0] !in ex &&
    Child(n.children, rel[0]).Some? &&
    (var c := Child(n.children, rel[0]).value;
     if |rel| == 1 then IsDir(Some(c)) && IsCoreVenv(Some(c), p) else ClearPath(c, rel[1..], ex, p))
  }

  lemma {:induction false} HitInChildHits(cs: seq<Node>, i: int, path: Path, depth: int, ex: seq<string>, p: Platform)
    requires 0 <= i < |cs|
    ensures forall q | q in Hit(cs[i], path, depth, ex, p) :: q in ChildHits(cs, path, depth, ex, p)
    decreases i
  {
    if i > 0 {
      HitInChildHits(cs[1..], i - 1, path, depth, ex, p);
      assert cs[1..][i - 1] == cs[i];
    }
  }

  lemma {:induction false} ClearPathFound(n: Node, path: Path, rel: Path, depth: int, ex: seq<string>, p: Platform)
    requires ClearPath(n, rel, ex, p) && depth >= |rel|
    ensures path + rel in Scan(n, path, depth, ex, p)
    decreases |rel|, 2
  {
    ClearPathHead(n, rel, ex, p);
    var c := Child(n.children, rel[0]).value;
    var i :| 0 <= i < |n.children| && n.children[i] == c;
    HitReports(c, path, rel, depth, ex, p);
    ScanReachesChild(n, i, path, depth, ex, p);
  }

  /** Appending the first name of `rel` and then the rest is appending `rel`. */
  lemma {:induction false} JoinedMember(path: Path, rel: Path, s: seq<Path>)
    requires rel != [] && path + [rel[0]] + rel[1..] in s
    ensures path + rel in s
  {
    assert rel == [rel[0]] + rel[1..];
    assert path + [rel[0]] + rel[1..] == path + rel;
  }

  /** The first step of a clear path: its entry is a listed directory,
      the venv itself at the end of the path, otherwise the start of the
      rest of the path. */
  lemma {:induction false} ClearPathHead(n: Node, rel: Path, ex: seq<string>, p: Platform)
    requires ClearPath(n, rel, ex, p)
    ensures n.Dir? && !IsCoreVenv(Some(n), p) && !UvVenvsUnreadable(n) && Child(n.children, rel[0]).Some?
    ensures var c := Child(n.children, rel[0]).value;
      c.name == rel[0] && rel[0] !in ex && IsDir(Some(c)) &&
      (|rel| == 1 ==> IsCoreVenv(Some(c), p)) &&
      (|rel| > 1 ==> !IsCoreVenv(Some(c), p) && ClearPath(c, rel[1..], ex, p))
  {
  }

  /** The scan of a listable directory that is no venv reports whatever
      its entries report. */
  lemma {:induction false} ScanReachesChild(n: Node, i: int, path: Path, depth: int, ex: seq<string>, p: Platform)
    requires depth > 0 && n.Dir? && !IsCoreVenv(Some(n), p) && !UvVenvsUnreadable(n)
    requires 0 <= i < |n.children|
    ensures forall q | q in Hit(n.children[i], path, depth, ex, p) :: q in Scan(n, path, depth, ex, p)
  {
    HitInChildHits(n.children, i, path, depth, ex, p);
    assert Scan(n, path, depth, ex, p) == ShortcutHits(n, path, p) + ChildHits(n.children, path, depth, ex, p);
  }

  /** An entry reports the venv at the end of a clear path that starts at
      it: the entry itself when it is that venv, otherwise through the scan
      below it. */
  lemma {:induction false} HitReports(c: Node, path: Path, rel: Path, depth: int, ex: seq<string>, p: Platform)
    requires rel != [] && rel[0] == c.name && rel[0] !in ex && IsDir(Some(c)) && depth >= |rel|
    requires |rel| == 1 ==> IsCoreVenv(Some(c), p)
    requires |rel| > 1 ==> !IsCoreVenv(Some(c), p) && ClearPath(c, rel[1..], ex, p)
    ensures path + rel in Hit(c, path, depth, ex, p)
    decreases |rel|, 1
  {
    if |rel| == 1 {
      assert rel == [c.name];
      HitReportsItself(c, path, depth, ex, p);
    } else {
      HitReportsDeeper(c, path, rel, depth, ex, p);
    }
  }

  lemma {:induction false} HitReportsDeeper(c: Node, path: Path, rel: Path, depth: int, ex: seq<string>, p: Platform)
    requires |rel| > 1 && rel[0] == c.name && rel[0] !in ex && IsDir(Some(c)) && depth >= |rel|
    requires !IsCoreVenv(Some(c), p) && ClearPath(c, rel[1..], ex, p)
    ensures path + rel in Hit(c, path, depth, ex, p)
    decreases |rel|, 0
  {
    ClearPathFound(c, path + [c.name], rel[1..], depth - 1, ex, p);
    JoinedMember(path, rel, Scan(c, path + [c.name], depth - 1, ex, p));
    HitReportsBelow(c, path, path + rel, depth, ex, p);
  }

  lemma {:induction false} HitReportsItself(c: Node, path: Path, depth: int, ex: seq<string>, p: Platform)
    requires c.name !in ex && IsDir(Some(c)) && IsCoreVenv(Some(c), p)
    ensures path + [c.name] in Hit(c, path, depth, ex, p)
  {
  }

  lemma {:induction false} HitReportsBelow(c: Node, path: Path, q: Path, depth: int, ex: seq<string>, p: Platform)
    requires c.name !in ex && IsDir(Some(c)) && !IsCoreVenv(Some(c), p)
    requires q in Scan(c, path + [c.name], depth - 1, ex, p)
    ensures q in Hit(c, path, depth, ex, p)
  {
  }

  /** A venv at the end of a clear path below `base_dir`, and not directly
      inside a `.uv/venvs` directory, is reported exactly when `max_depth`
      is at least the number of names between them. */
  lemma {:induction false} FoundAtDepthIff(root: Node, base: Path, rel: Path, maxDepth: int, exclude: Option<seq<string>>, p: Platform)
    requires Lookup(root, base).Some? && ClearPath(Lookup(root, base).value, rel, ExcludeOf(exclude), p)
    requires !(|rel| >= 3 && rel[|rel| - 3] == ".uv" && rel[|rel| - 2] == "venvs")
    ensures base + rel in FoundVenvs(root, base, maxDepth, exclude, p) <==> maxDepth >= |rel|
  {
    var n := Lookup(root, base).value;
    var ex := ExcludeOf(exclude);
    if maxDepth >= |rel| {
      ClearPathFound(n, base, rel, maxDepth, ex, p);
    } else {
      ScanShape(n, base, maxDepth, ex, p);
      var q := base + rel;
      assert |q| == |base| + |rel| && q[|q| - 1] == rel[|rel| - 1];
    }
  }
  /** With the defaults, a venv on a clear path is found iff it lies at
      most ten levels below `base_dir`. */
  lemma {:induction false} FoundByDefaultIff(root: Node, base: Path, rel: Path, p: Platform)
    requires Lookup(root, base).Some? && ClearPath(Lookup(root, base).value, rel, DefaultExcludeDirs, p)
    requires !(|rel| >= 3 && rel[|rel| - 3] == ".uv" && rel[|rel| - 2] == "venvs")
    ensures base + rel in FoundVenvs(root, base, DefaultMaxDepth, None, p) <==> |rel| <= 10
  {
    FoundAtDepthIff(root, base, rel, DefaultMaxDepth, None, p);
  }


  /** A POSIX venv with the interpreter. */
  function EnvVenv(): Node {
    Dir("env", None, [Dir("bin", None, [File("python", None, Some(0), None)]), Dir("lib", None, [])])
  }

  /** A project whose only venv sits in `.uv/venvs`. */
  function ProjectWithUvVenv(): Node {
    Dir("proj", None, [Dir(".uv", None, [Dir("venvs", None, [EnvVenv()])])])
  }

  lemma {:induction false} EnvVenvIsVenv()
    ensures IsCoreVenv(Some(EnvVenv()), Posix)
  {
    var e := Some(EnvVenv());
    var names := RequiredDirs(Posix);
    assert IsDir(Under(e, ["bin"])) && IsDir(Under(e, ["lib"]));
    assert names[..1][..0] == [] && names[..2][..1] == names[..1] && names[..3][..2] == names[..2];
    assert Utils.CountDirs(e, names[..1]) == 1;
    assert Utils.CountDirs(e, names[..2]) == 2;
    assert names[..3] == names;
    assert Lookup(EnvVenv(), ["bin", "python"]) == Lookup(EnvVenv().children[0], ["python"]);
  }

  /** A directory without `bin`, `lib` or `include` is not a venv. */
  lemma {:induction false} NoCanonicalDirsNoVenv(n: Node, p: Platform)
    requires n.Dir? && forall i :: 0 <= i < |n.children| ==> n.children[i].name !in RequiredDirs(p)
    ensures !IsCoreVenv(Some(n), p)
  {
    var names := RequiredDirs(p);
    forall k | 0 <= k < |names|
      ensures !IsDir(Under(Some(n), [names[k]]))
    {
    }
    assert names[..1][..0] == [] && names[..2][..1] == names[..1] && names[..3][..2] == names[..2];
    assert Utils.CountDirs(Some(n), names[..1]) == 0;
    assert Utils.CountDirs(Some(n), names[..2]) == 0;
    assert names[..3] == names;
  }

  /** The shortcut of the project finds the venv; the project is no venv. */
  lemma {:induction false} ProjectShortcut()
    ensures !IsCoreVenv(Some(ProjectWithUvVenv()), Posix) && !UvVenvsUnreadable(ProjectWithUvVenv())
    ensures ShortcutHits(ProjectWithUvVenv(), [], Posix) == [[".uv", "venvs", "env"]]
  {
    var env := EnvVenv();
    var venvs := Dir("venvs", None, [env]);
    var proj := ProjectWithUvVenv();
    EnvVenvIsVenv();
    NoCanonicalDirsNoVenv(proj, Posix);
    var hit: Path := [".uv", "venvs", "env"];
    assert Lookup(proj, UvVenvsDir) == Some(venvs);
    assert UvVenvsDir + [env.name] == hit;
    assert [] + UvVenvsDir == UvVenvsDir;
    assert ShortcutItem(env, UvVenvsDir, Posix) == [hit];
    assert ShortcutItems([env], UvVenvsDir, Posix) == ShortcutItem(env, UvVenvsDir, Posix) + ShortcutItems([], UvVenvsDir, Posix);
  }

  /** Descending into `.uv` finds the venv when two more levels are left. */
  lemma {:induction false} DescentThroughUv(depth: int)
    requires 1 <= depth <= 2
    ensures Scan(Dir(".uv", None, [Dir("venvs", None, [EnvVenv()])]), [".uv"], depth, DefaultExcludeDirs, Posix) ==
      if depth == 2 then [[".uv", "venvs", "env"]] else []
  {
    var env := EnvVenv();
    var venvs := Dir("venvs", None, [env]);
    var uv := Dir(".uv", None, [venvs]);
    var ex := DefaultExcludeDirs;
    EnvVenvIsVenv();
    NoCanonicalDirsNoVenv(uv, Posix);
    NoCanonicalDirsNoVenv(venvs, Posix);
    var hit: Path := [".uv", "venvs", "env"];
    assert Lookup(uv, UvVenvsDir).None? && Lookup(venvs, UvVenvsDir).None?;
    assert "env" !in ex && "venvs" !in ex;
    assert [".uv", "venvs"] + [env.name] == hit;
    assert [".uv"] + [venvs.name] == [".uv", "venvs"];
    var inner := Hit(env, [".uv", "venvs"], 1, ex, Posix);
    assert inner == [hit];
    assert ChildHits(venvs.children, [".uv", "venvs"], 1, ex, Posix) == inner + ChildHits([], [".uv", "venvs"], 1, ex, Posix);
    assert Scan(venvs, [".uv", "venvs"], 1, ex, Posix) == [] + ChildHits(venvs.children, [".uv", "venvs"], 1, ex, Posix);
    assert Scan(venvs, [".uv", "venvs"], 0, ex, Posix) == [];
    assert Hit(venvs, [".uv"], depth, ex, Posix) == Scan(venvs, [".uv", "venvs"], depth - 1, ex, Posix);
    assert ChildHits(uv.children, [".uv"], depth, ex, Posix) ==
      Hit(venvs, [".uv"], depth, ex, Posix) + ChildHits([], [".uv"], depth, ex, Posix);
    assert Scan(uv, [".uv"], depth, ex, Posix) == [] + ChildHits(uv.children, [".uv"], depth, ex, Posix);
  }

  /** The scan of the project with `depth` levels and the default exclusions. */
  lemma {:induction false} ProjectScan(depth: int)
    requires 2 <= depth <= 3
    ensures Scan(ProjectWithUvVenv(), [], depth, DefaultExcludeDirs, Posix) ==
      [[".uv", "venvs", "env"]] + Scan(Dir(".uv", None, [Dir("venvs", None, [EnvVenv()])]), [".uv"], depth - 1, DefaultExcludeDirs, Posix)
  {
    var proj := ProjectWithUvVenv();
    var uv := proj.children[0];
    var ex := DefaultExcludeDirs;
    ProjectShortcut();
    assert ".uv" !in ex;
    assert [] + [uv.name] == [".uv"];
    assert Hit(uv, [], depth, ex, Posix) == Scan(uv, [".uv"], depth - 1, ex, Posix);
    assert ChildHits(proj.children, [], depth, ex, Posix) == Hit(uv, [], depth, ex, Posix) + ChildHits([], [], depth, ex, Posix);
  }

  /** With `max_depth` 3 a venv in `base_dir/.uv/venvs` is reported twice:
      once by the shortcut and once by the descent. */
  lemma {:induction false} ShortcutReportsTwice()
    ensures FoundVenvs(ProjectWithUvVenv(), [], 3, None, Posix) == [[".uv", "venvs", "env"], [".uv", "venvs", "env"]]
  {
    ProjectScan(3);
    DescentThroughUv(2);
  }

  /** With `max_depth` 2 only the shortcut finds it. */
  lemma {:induction false} ShortcutBeyondDepth()
    ensures FoundVenvs(ProjectWithUvVenv(), [], 2, None, Posix) == [[".uv", "venvs", "env"]]
  {
    ProjectScan(2);
    DescentThroughUv(1);
  }

  /** Excluding `.uv` stops the descent but not the shortcut. */
  lemma {:induction false} ShortcutIgnoresExclusions()
    ensures FoundVenvs(ProjectWithUvVenv(), [], 3, Some([".uv"]), Posix) == [[".uv", "venvs", "env"]]
  {
    var proj := ProjectWithUvVenv();
    ProjectShortcut();
    assert ChildHits(proj.children, [], 3, [".uv"], Posix) == Hit(proj.children[0], [], 3, [".uv"], Posix) + ChildHits([], [], 3, [".uv"], Posix);
  }

  // ---------------------------------------------------------------------
  // evaluate_venv
  // ---------------------------------------------------------------------

  /** `criteria.get("min_age_days", 0)`. */
  function MinAgeDays(c: Criteria): int {
    c.minAgeDays.GetOr(0)
  }

  /** `criteria.get("unused_only", False)`. */
  predicate UnusedOnly(c: Criteria) {
    c.unusedOnly.GetOr(false)
  }

  /** `min_size_mb` takes part only when present and non-zero. */
  predicate SizeCheckOn(c: Criteria) {
    c.minSizeMb.Some? && c.minSizeMb.value != 0
  }

  function TagRank(t: KeepTag): nat {
    match t
    case AgeBelowThreshold => 0
    case SizeBelowThreshold => 1
    case AppearsActive => 2
  }

  /** The reasons to keep a venv last accessed `ageSecs` seconds ago, of
      `size` bytes and with activity `active`; `age_days < min_age_days`
      on the exact quotient is `ageSecs < min_age_days * 86400`. */
  function KeepTagsFor(ageSecs: int, size: int, active: bool, c: Criteria): (tags: seq<KeepTag>)
    ensures AgeBelowThreshold in tags <==> ageSecs < MinAgeDays(c) * Utils.Day
    ensures SizeBelowThreshold in tags <==> SizeCheckOn(c) && size < c.minSizeMb.value * Utils.MiB
    ensures AppearsActive in tags <==> UnusedOnly(c) && active
    ensures forall i, j :: 0 <= i < j < |tags| ==> TagRank(tags[i]) < TagRank(tags[j])
  {
    (if ageSecs < MinAgeDays(c) * Utils.Day then [AgeBelowThreshold] else [])
    + (if SizeCheckOn(c) && size < c.minSizeMb.value * Utils.MiB then [SizeBelowThreshold] else [])
    + (if UnusedOnly(c) && active then [AppearsActive] else [])
  }

  /** A remove record notes the size when it exceeds 100 MiB. */
  const LargeVenvBytes: int := 100 * Utils.MiB

  /** The stat calls and the timestamp formatting all succeed; `fmt` is
      `datetime.fromtimestamp(t).strftime(...)`, `None` where it raises. */
  predicate Evaluable(root: Node, path: Path, fmt: int -> Option<string>) {
    var e := Lookup(root, path);
    e.Some? && e.value.stamps.Some? &&
    fmt(e.value.stamps.value.atime).Some? && fmt(e.value.stamps.value.mtime).Some? &&
    fmt(e.value.stamps.value.ctime).Some?
  }

  /** The record built when evaluation raises: path, name, status and reason only. */
  function ErrorRecord(path: Path): Record {
    Record(path, Some(Basename(path)), None, None, None, None, None, None, None, Error, EvaluationError)
  }

  /** `evaluate_venv(venv_path, criteria)` at time `now` on the tree `root`. */
  function EvaluateVenv(root: Node, path: Path, now: int, c: Criteria, p: Platform, fmt: int -> Option<string>): (r: Record)
    ensures r.path == path && r.name == Some(Basename(path))
    ensures r.status.Error? <==> !Evaluable(root, path, fmt)
    ensures r.status.Error? ==> r == ErrorRecord(path)
    ensures !r.status.Error? ==>
      && r.ageTenths.Some?
      && (var st := Lookup(root, path).value.stamps.value;
          -Utils.Day <= 2 * ((now - st.atime) * 10 - r.ageTenths.value * Utils.Day) <= Utils.Day)
  {
    var e := Lookup(root, path);
    if !Evaluable(root, path, fmt) then ErrorRecord(path)
    else
      var st := e.value.stamps.value;
      var size := Utils.DirSize(e);
      var active := Utils.IsActive(e, now, p);
      var tags := KeepTagsFor(now - st.atime, size, active, c);
      Record(path, Some(Basename(path)), fmt(st.atime), fmt(st.mtime), fmt(st.ctime),
        Some(size), Some(RoundHalfEven(size * 100, Utils.MiB)),
        Some(RoundHalfEven((now - st.atime) * 10, Utils.Day)), Some(active),
        if tags == [] then Remove else Keep,
        if tags == [] then UnusedFor(size > LargeVenvBytes) else KeepReasons(tags))
  }

  /** The three conditions under which a venv is removed. */
  predicate RemoveConditions(ageSecs: int, size: int, active: bool, c: Criteria) {
    && ageSecs >= MinAgeDays(c) * Utils.Day
    && (!SizeCheckOn(c) || size >= c.minSizeMb.value * Utils.MiB)
    && !(UnusedOnly(c) && active)
  }

  /** An evaluable venv is removed exactly when it is old enough, large
      enough (when a size is asked for) and not active (when only unused
      venvs are wanted); otherwise it is kept with its reasons in order.
      A removed venv notes its size exactly when it exceeds 100 MiB. */
  lemma {:induction false} EvaluateDecision(root: Node, path: Path, now: int, c: Criteria, p: Platform, fmt: int -> Option<string>)
    requires Evaluable(root, path, fmt)
    ensures var r := EvaluateVenv(root, path, now, c, p, fmt);
      var e := Lookup(root, path);
      var ageSecs := now - e.value.stamps.value.atime;
      var size := Utils.DirSize(e);
      var active := Utils.IsActive(e, now, p);
      r.sizeBytes == Some(size) && r.isActive == Some(active) &&
      (r.status == Remove <==> RemoveConditions(ageSecs, size, active, c)) &&
      (r.status == Remove ==> r.reason == UnusedFor(size > LargeVenvBytes)) &&
      (r.status != Remove ==> r.status == Keep && r.reason == KeepReasons(KeepTagsFor(ageSecs, size, active, c)))
  {
    var e := Lookup(root, path);
    var ageSecs, size, active := now - e.value.stamps.value.atime, Utils.DirSize(e), Utils.IsActive(e, now, p);
    EvaluatedFields(root, path, now, c, p, fmt);
    NoTagsIffRemove(ageSecs, size, active, c);
  }

  /** The verdict fields of an evaluable venv's record, read off its inputs. */
  lemma {:induction false} EvaluatedFields(root: Node, path: Path, now: int, c: Criteria, p: Platform, fmt: int -> Option<string>)
    requires Evaluable(root, path, fmt)
    ensures var r := EvaluateVenv(root, path, now, c, p, fmt);
      var e := Lookup(root, path);
      var ageSecs := now - e.value.stamps.value.atime;
      var size := Utils.DirSize(e);
      var active := Utils.IsActive(e, now, p);
      var tags := KeepTagsFor(ageSecs, size, active, c);
      r.sizeBytes == Some(size) && r.isActive == Some(active) &&
      r.status == (if tags == [] then Remove else Keep) &&
      r.reason == (if tags == [] then UnusedFor(size > LargeVenvBytes) else KeepReasons(tags))
  {
  }

  lemma {:induction false} NoTagsIffRemove(ageSecs: int, size: int, active: bool, c: Criteria)
    ensures KeepTagsFor(ageSecs, size, active, c) == [] <==> RemoveConditions(ageSecs, size, active, c)
  {
    var tags := KeepTagsFor(ageSecs, size, active, c);
    if tags != [] {
      assert tags[0] in tags;
    }
  }

  /** Waiting never brings a removed venv back: the age only grows and
      every activity window only closes. */
  lemma {:induction false} RemovedStaysRemoved(root: Node, path: Path, now: int, later: int, c: Criteria, p: Platform, fmt: int -> Option<string>)
    requires now <= later
    requires EvaluateVenv(root, path, now, c, p, fmt).status == Remove
    ensures EvaluateVenv(root, path, later, c, p, fmt).status == Remove
  {
    var e := Lookup(root, path);
    EvaluateDecision(root, path, now, c, p, fmt);
    EvaluateDecision(root, path, later, c, p, fmt);
    if Utils.IsActive(e, later, p) {
      Utils.ActiveEarlier(e, now, later, p);
    }
  }

  // ---------------------------------------------------------------------
  // summarize_venvs
  // ---------------------------------------------------------------------

  datatype Summary = Summary(
    totalVenvs: nat,
    toRemove: nat,
    toKeep: nat,
    errors: nat,
    totalSizeToRemoveBytes: int,
    totalSizeToRemoveMbHundredths: int,
    oldest: Option<Record>,
    newest: Option<Record>)

  /** The records with status `s`, in order. */
  function WithStatus(rs: seq<Record>, s: Status): (out: seq<Record>)
    ensures forall r :: r in out <==> r in rs && r.status == s
  {
    if rs == [] then []
    else (if rs[0].status == s then [rs[0]] else []) + WithStatus(rs[1..], s)
  }

  /** `sum(r.get("size_bytes", 0) for r in rs)`. */
  function SumSizes(rs: seq<Record>): int {
    if rs == [] then 0 else rs[0].sizeBytes.GetOr(0) + SumSizes(rs[1..])
  }

  /** When every status is one of the three, the counts add up. */
  lemma {:induction false} StatusCountsAddUp(rs: seq<Record>)
    requires forall i :: 0 <= i < |rs| ==> rs[i].status in {Keep, Remove, Error}
    ensures |WithStatus(rs, Remove)| + |WithStatus(rs, Keep)| + |WithStatus(rs, Error)| == |rs|
  {
    if rs != [] {
      StatusCountsAddUp(rs[1..]);
    }
  }

  /** Records with non-negative sizes to remove add up to no more than all records. */
  lemma {:induction false} RemovedSizeAtMostTotal(rs: seq<Record>)
    requires forall i :: 0 <= i < |rs| ==> rs[i].sizeBytes.GetOr(0) >= 0
    ensures 0 <= SumSizes(WithStatus(rs, Remove)) <= SumSizes(rs)
  {
    if rs != [] {
      RemovedSizeAtMostTotal(rs[1..]);
      var rest := WithStatus(rs[1..], Remove);
      if rs[0].status == Remove {
        assert WithStatus(rs, Remove) == [rs[0]] + rest;
        assert ([rs[0]] + rest)[1..] == rest;
      } else {
        assert WithStatus(rs, Remove) == [] + rest == rest;
      }
    }
  }

  /** Some record has a `created` value. */
  predicate AnyCreated(rs: seq<Record>) {
    exists j | 0 <= j < |rs| :: rs[j].created.Some?
  }

  /** The first record lacks `created` and a later one has it: the
      comparison against the first record raises `KeyError`. */
  predicate CreatedClash(rs: seq<Record>) {
    |rs| > 0 && rs[0].created.None? && exists j | 0 < j < |rs| :: rs[j].created.Some?
  }

  /** Among the first `k` records, `o` is the first whose `created` is minimal. */
  predicate FirstMinUpTo(rs: seq<Record>, o: int, k: int) {
    0 <= o < k <= |rs| && rs[o].created.Some? &&
    forall j | 0 <= j < k && rs[j].created.Some? ::
      !StrLess(rs[j].created.value, rs[o].created.value) &&
      (j < o ==> rs[j].created.value != rs[o].created.value)
  }

  /** Among the first `k` records, `n` is the first whose `created` is maximal. */
  predicate FirstMaxUpTo(rs: seq<Record>, n: int, k: int) {
    0 <= n < k <= |rs| && rs[n].created.Some? &&
    forall j | 0 <= j < k && rs[j].created.Some? ::
      !StrLess(rs[n].created.value, rs[j].created.value) &&
      (j < n ==> rs[j].created.value != rs[n].created.value)
  }

  /** The scan for the oldest and newest record: strict comparisons keep
      the first of equal values. */
  method OldestNewest(rs: seq<Record>) returns (r: Result<(nat, nat), string>)
    requires |rs| > 0
    ensures r.Failure? <==> CreatedClash(rs)
    ensures r.Success? && !AnyCreated(rs) ==> r.value == (0, 0)
    ensures r.Success? && AnyCreated(rs) ==>
      FirstMinUpTo(rs, r.value.0, |rs|) && FirstMaxUpTo(rs, r.value.1, |rs|)
  {
    var oldest, newest := 0, 0;
    for i := 0 to |rs|
      invariant oldest < |rs| && newest < |rs|
      invariant rs[0].created.None? ==>
        oldest == 0 && newest == 0 && forall j :: 0 < j < i ==> rs[j].created.None?
      invariant rs[0].created.Some? && i > 0 ==> FirstMinUpTo(rs, oldest, i) && FirstMaxUpTo(rs, newest, i)
    {
      if rs[i].created.None? {
        continue;
      }
      if i == 0 {
        oldest, newest := 0, 0;
        StrLessIrreflexive(rs[0].created.value);
        continue;
      }
      if rs[oldest].created.None? {
        return Failure("created");
      }
      var c := rs[i].created.value;
      StrLessIrreflexive(c);
      if StrLess(c, rs[oldest].created.value) {
        forall j | 0 <= j < i && rs[j].created.Some?
          ensures !StrLess(rs[j].created.value, c)
        {
          if StrLess(rs[j].created.value, c) {
            StrLessTransitive(rs[j].created.value, c, rs[oldest].created.value);
          }
        }
        oldest := i;
      }
      if StrLess(rs[newest].created.value, c) {
        forall j | 0 <= j < i && rs[j].created.Some?
          ensures !StrLess(c, rs[j].created.value)
        {
          if StrLess(c, rs[j].created.value) {
            StrLessTransitive(rs[newest].created.value, c, rs[j].created.value);
          }
        }
        newest := i;
      }
    }
    if AnyCreated(rs) {
      var j :| 0 <= j < |rs| && rs[j].created.Some?;
    }
    return Success((oldest, newest));
  }

  /** `summarize_venvs`: counts per status, the bytes to be freed, and the
      oldest and newest venv to remove by creation time. */
  method SummarizeVenvs(records: seq<Record>) returns (r: Result<Summary, string>)
    ensures r.Failure? <==> CreatedClash(WithStatus(records, Remove))
    ensures r.Success? ==>
      var s := r.value;
      var rm := WithStatus(records, Remove);
      && s.totalVenvs == |records|
      && s.toRemove == |rm|
      && s.toKeep == |WithStatus(records, Keep)|
      && s.errors == |WithStatus(records, Error)|
      && s.totalSizeToRemoveBytes == SumSizes(rm)
      && s.totalSizeToRemoveMbHundredths == RoundHalfEven(SumSizes(rm) * 100, Utils.MiB)
      && (rm == [] ==> s.oldest.None? && s.newest.None?)
      && (rm != [] && !AnyCreated(rm) ==> s.oldest == Some(rm[0]) && s.newest == Some(rm[0]))
      && (AnyCreated(rm) ==>
            (exists o | FirstMinUpTo(rm, o, |rm|) :: s.oldest == Some(rm[o])) &&
            (exists n | FirstMaxUpTo(rm, n, |rm|) :: s.newest == Some(rm[n])))
  {
    var rm := WithStatus(records, Remove);
    var keep := WithStatus(records, Keep);
    var errs := WithStatus(records, Error);
    var total := SumSizes(rm);
    var oldest: Option<Record> := None;
    var newest: Option<Record> := None;
    if rm != [] {
      var idx := OldestNewest(rm);
      if idx.Failure? {
        return Failure(idx.error);
      }
      oldest := Some(rm[idx.value.0]);
      newest := Some(rm[idx.value.1]);
    }
    r := Success(Summary(|records|, |rm|, |keep|, |errs|, total,
      RoundHalfEven(total * 100, Utils.MiB), oldest, newest));
  }

  /** The oldest record is well defined: at most one index is the first minimum. */
  lemma {:induction false} FirstMinUnique(rs: seq<Record>, a: int, b: int)
    requires FirstMinUpTo(rs, a, |rs|) && FirstMinUpTo(rs, b, |rs|)
    ensures a == b
  {
    StrLessTrichotomy(rs[a].created.value, rs[b].created.value);
  }

  /** The newest record is well defined: at most one index is the first maximum. */
  lemma {:induction false} FirstMaxUnique(rs: seq<Record>, a: int, b: int)
    requires FirstMaxUpTo(rs, a, |rs|) && FirstMaxUpTo(rs, b, |rs|)
    ensures a == b
  {
    StrLessTrichotomy(rs[a].created.value, rs[b].created.value);
  }
}
