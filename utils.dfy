/** The filesystem probes and helpers of `uv_tidy/utils.py`: the richer venv
    detection rule, directory size, the activity heuristic, path filtering
    and size formatting. */
module Utils {
  import opened Wrappers
  import opened Text
  import opened FileTree
  import opened Platform

  // ---------------------------------------------------------------------
  // is_uv_venv (the marker-aware rule)
  // ---------------------------------------------------------------------

  /** How many of `names` are directories directly under `e`. */
  function CountDirs(e: Option<Node>, names: seq<string>): (k: nat)
    ensures k <= |names|
  {
    if names == [] then 0
    else CountDirs(e, names[..|names| - 1]) + (if IsDir(Under(e, [names[|names| - 1]])) then 1 else 0)
  }

  /** What reading `pyvenv.cfg` gives: not a file, a read that raises, or text. */
  datatype CfgProbe = NoCfg | CfgUnreadable | CfgText(text: string)

  function ProbeCfg(e: Option<Node>): CfgProbe {
    var cfg := Under(e, PyvenvCfg);
    if !IsFile(cfg) then NoCfg
    else match cfg.value.text
      case None => CfgUnreadable
      case Some(t) => CfgText(t)
  }

  /** The decision chain, top to bottom, over what the probes saw. */
  predicate Chain(isDir: bool, found: nat, cfg: CfgProbe, hasPython: bool, hasMarker: bool) {
    if !isDir then false
    else if found < 2 then false
    else if cfg.CfgText? && Contains(Lower(cfg.text), "uv") then true
    else if hasPython && (hasMarker || !cfg.NoCfg?) then true
    else if hasPython && found >= 2 then true
    else false
  }

  predicate IsUvVenv(e: Option<Node>, p: Platform) {
    Chain(IsDir(e), CountDirs(e, RequiredDirs(p)), ProbeCfg(e),
          IsFile(Under(e, PythonBin(p))), IsFile(Under(e, UvProjMarker)))
  }

  predicate CfgMentionsUv(e: Option<Node>) {
    ProbeCfg(e).CfgText? && Contains(Lower(ProbeCfg(e).text), "uv")
  }

  /** `is_uv_venv`: the probes in the order the source makes them. It never
      raises; an unreadable `pyvenv.cfg` falls through to the later checks. */
  method CheckUvVenv(e: Option<Node>, p: Platform) returns (r: bool)
    ensures r == IsUvVenv(e, p)
  {
    if !IsDir(e) {
      return false;
    }
    var names := RequiredDirs(p);
    var found := 0;
    var i := 0;
    while i < |names|
      invariant 0 <= i <= |names|
      invariant found == CountDirs(e, names[..i])
    {
      assert names[..i + 1][..i] == names[..i];
      if IsDir(Under(e, [names[i]])) {
        found := found + 1;
      }
      i := i + 1;
    }
    assert names[..|names|] == names;
    if found < 2 {
      return false;
    }
    var cfg := Under(e, PyvenvCfg);
    if IsFile(cfg) && cfg.value.text.Some? {
      if Contains(Lower(cfg.value.text.value), "uv") {
        return true;
      }
    }
    var hasPython := IsFile(Under(e, PythonBin(p)));
    var hasMarker := IsFile(Under(e, UvProjMarker));
    if hasPython && (hasMarker || IsFile(cfg)) {
      return true;
    }
    if hasPython && found >= 2 {
      return true;
    }
    return false;
  }

  /** The chain reduces to: a directory with two canonical subdirectories
      whose `pyvenv.cfg` mentions "uv" in any case, or that has the
      interpreter. The `.uv-proj` marker plays no part. */
  lemma {:induction false} IsUvVenvReduced(e: Option<Node>, p: Platform)
    ensures IsUvVenv(e, p) <==>
      IsDir(e) && CountDirs(e, RequiredDirs(p)) >= 2 &&
      (CfgMentionsUv(e) || IsFile(Under(e, PythonBin(p))))
  {
  }

  /** Whatever the marker probe says, the answer is the same. */
  lemma {:induction false} UvProjMarkerIrrelevant(isDir: bool, found: nat, cfg: CfgProbe, hasPython: bool)
    ensures Chain(isDir, found, cfg, hasPython, true) == Chain(isDir, found, cfg, hasPython, false)
  {
  }

  // ---------------------------------------------------------------------
  // get_dir_size
  // ---------------------------------------------------------------------

  /** The bytes of the files listed in `cs` and below; a size lookup that
      fails counts 0 and an unreadable directory contributes nothing. */
  function ForestSize(cs: seq<Node>): nat
    decreases cs
  {
    if cs == [] then 0
    else
      (match cs[0]
       case File(_, _, size, _) => size.GetOr(0)
       case Dir(_, _, sub) => ForestSize(sub)
       case Unreadable(_, _) => 0)
      + ForestSize(cs[1..])
  }

  /** `os.walk` yields nothing for a path that is missing, a file or
      unreadable, so only a listable directory has a non-zero size. */
  function DirSize(e: Option<Node>): nat {
    if e.Some? && e.value.Dir? then ForestSize(e.value.children) else 0
  }

  /** Every regular file the walk reaches from `cs`, in walk order. */
  function ReachableFiles(cs: seq<Node>): (fs: seq<Node>)
    ensures forall i :: 0 <= i < |fs| ==> fs[i].File?
    decreases cs
  {
    if cs == [] then []
    else
      (match cs[0]
       case File(_, _, _, _) => [cs[0]]
       case Dir(_, _, sub) => ReachableFiles(sub)
       case Unreadable(_, _) => [])
      + ReachableFiles(cs[1..])
  }

  function SumFileSizes(fs: seq<Node>): nat {
    if fs == [] then 0 else (if fs[0].File? then fs[0].size.GetOr(0) else 0) + SumFileSizes(fs[1..])
  }

  lemma {:induction false} SumFileSizesAppend(a: seq<Node>, b: seq<Node>)
    ensures SumFileSizes(a + b) == SumFileSizes(a) + SumFileSizes(b)
  {
    if a == [] {
      assert a + b == b;
    } else {
      assert (a + b)[1..] == a[1..] + b;
      SumFileSizesAppend(a[1..], b);
    }
  }

  /** The size of a tree is the sum of the sizes of the files the walk reaches. */
  lemma {:induction false} ForestSizeIsSumOfFiles(cs: seq<Node>)
    ensures ForestSize(cs) == SumFileSizes(ReachableFiles(cs))
    decreases cs
  {
    if cs != [] {
      ForestSizeIsSumOfFiles(cs[1..]);
      var head := match cs[0]
        case File(_, _, _, _) => [cs[0]]
        case Dir(_, _, sub) => ReachableFiles(sub)
        case Unreadable(_, _) => [];
      if cs[0].Dir? {
        ForestSizeIsSumOfFiles(cs[0].children);
      }
      SumFileSizesAppend(head, ReachableFiles(cs[1..]));
    }
  }

  /** `get_dir_size`: one loop over each directory's entries, descending
      into subdirectories as `os.walk` does. */
  method GetDirSize(e: Option<Node>) returns (total: nat)
    ensures total == DirSize(e)
  {
    total := 0;
    if e.Some? && e.value.Dir? {
      total := WalkSize(e.value.children);
    }
  }

  method WalkSize(cs: seq<Node>) returns (total: nat)
    ensures total == ForestSize(cs)
    decreases cs
  {
    total := 0;
    var i := 0;
    while i < |cs|
      invariant 0 <= i <= |cs|
      invariant total + ForestSize(cs[i..]) == ForestSize(cs)
    {
      assert cs[i..][1..] == cs[i + 1..];
      match cs[i] {
        case File(_, _, size, _) =>
          total := total + size.GetOr(0);
        case Dir(_, _, sub) =>
          var s := WalkSize(sub);
          total := total + s;
        case Unreadable(_, _) =>
      }
      i := i + 1;
    }
  }

  /** Files of 1024 and 2048 bytes and, one level down, 4096 bytes: 7168. */
  lemma {:induction false} NestedFilesSize()
    ensures DirSize(Some(Dir("size_test", None, [
      File("file1.txt", None, Some(1024), None),
      File("file2.txt", None, Some(2048), None),
      Dir("nested", None, [File("file3.txt", None, Some(4096), None)])]))) == 7168
  {
    var nested := [File("file3.txt", None, Some(4096), None)];
    var top := [File("file1.txt", None, Some(1024), None),
                File("file2.txt", None, Some(2048), None),
                Dir("nested", None, nested)];
    assert ForestSize(nested) == 4096;
    assert ForestSize(top[2..]) == 4096;
    assert ForestSize(top[1..]) == 2048 + 4096;
  }

  // ---------------------------------------------------------------------
  // is_venv_active
  // ---------------------------------------------------------------------

  const Day: int := 24 * 60 * 60

  /** The entry exists, its access time can be read and lies less than
      `window` seconds before `now`. */
  predicate RecentAccess(e: Option<Node>, now: int, window: int) {
    e.Some? && e.value.stamps.Some? && now - e.value.stamps.value.atime < window
  }

  predicate RecentChange(e: Option<Node>, now: int, window: int) {
    e.Some? && e.value.stamps.Some? && now - e.value.stamps.value.mtime < window
  }

  predicate AnyRecentAccess(venv: Option<Node>, entries: seq<Path>, now: int, window: int) {
    exists i | 0 <= i < |entries| :: RecentAccess(Under(venv, entries[i]), now, window)
  }

  predicate AnyRecentChange(venv: Option<Node>, entries: seq<Path>, now: int, window: int) {
    exists i | 0 <= i < |entries| :: RecentChange(Under(venv, entries[i]), now, window)
  }

  /** Activation script used within a day, pip within a week, or a project
      marker modified within thirty days; every comparison is strict. */
  predicate IsActive(venv: Option<Node>, now: int, p: Platform) {
    || AnyRecentAccess(venv, ActivateScripts(p), now, Day)
    || AnyRecentAccess(venv, PipExecutables(p), now, 7 * Day)
    || AnyRecentChange(venv, ProjectMarkers, now, 30 * Day)
  }

  /** `is_venv_active`: three scans over candidate entries, each returning
      as soon as one entry is recent enough; a failed lookup skips only
      that entry. */
  method IsVenvActive(venv: Option<Node>, now: int, p: Platform) returns (active: bool)
    ensures active == IsActive(venv, now, p)
  {
    var scripts := ActivateScripts(p);
    for i := 0 to |scripts|
      invariant forall j :: 0 <= j < i ==> !RecentAccess(Under(venv, scripts[j]), now, Day)
    {
      var script := Under(venv, scripts[i]);
      if Exists(script) && script.value.stamps.Some? {
        if now - script.value.stamps.value.atime < Day {
          return true;
        }
      }
    }
    var pips := PipExecutables(p);
    for i := 0 to |pips|
      invariant forall j :: 0 <= j < i ==> !RecentAccess(Under(venv, pips[j]), now, 7 * Day)
    {
      var pip := Under(venv, pips[i]);
      if Exists(pip) && pip.value.stamps.Some? {
        if now - pip.value.stamps.value.atime < 7 * Day {
          return true;
        }
      }
    }
    for i := 0 to |ProjectMarkers|
      invariant forall j :: 0 <= j < i ==> !RecentChange(Under(venv, ProjectMarkers[j]), now, 30 * Day)
    {
      var marker := Under(venv, ProjectMarkers[i]);
      if Exists(marker) && marker.value.stamps.Some? {
        if now - marker.value.stamps.value.mtime < 30 * Day {
          return true;
        }
      }
    }
    return false;
  }

  /** A venv active at some moment was active at every earlier moment: the
      windows only close as time passes. */
  lemma {:induction false} ActiveEarlier(venv: Option<Node>, earlier: int, later: int, p: Platform)
    requires earlier <= later
    requires IsActive(venv, later, p)
    ensures IsActive(venv, earlier, p)
  {
    if AnyRecentAccess(venv, ActivateScripts(p), later, Day) {
      var i :| 0 <= i < |ActivateScripts(p)| && RecentAccess(Under(venv, ActivateScripts(p)[i]), later, Day);
      assert RecentAccess(Under(venv, ActivateScripts(p)[i]), earlier, Day);
    } else if AnyRecentAccess(venv, PipExecutables(p), later, 7 * Day) {
      var i :| 0 <= i < |PipExecutables(p)| && RecentAccess(Under(venv, PipExecutables(p)[i]), later, 7 * Day);
      assert RecentAccess(Under(venv, PipExecutables(p)[i]), earlier, 7 * Day);
    } else {
      var i :| 0 <= i < |ProjectMarkers| && RecentChange(Under(venv, ProjectMarkers[i]), later, 30 * Day);
      assert RecentChange(Under(venv, ProjectMarkers[i]), earlier, 30 * Day);
    }
  }

  /** A POSIX venv whose only sign of use is `bin/activate`, read at `atime`. */
  function ActivatedAt(atime: int): Node {
    Dir("venv", Some(Stamps(0, 0, 0)), [
      Dir("bin", Some(Stamps(0, 0, 0)), [File("activate", Some(Stamps(atime, 0, 0)), Some(0), None)])])
  }

  /** The one-day window is strict: read exactly 24 hours ago is not
      activity, one second later is. */
  lemma {:induction false} ActivationWindowIsStrict(now: int)
    requires now >= 31 * Day
    ensures !IsActive(Some(ActivatedAt(now - Day)), now, Posix)
    ensures IsActive(Some(ActivatedAt(now - Day + 1)), now, Posix)
  {
    var v := Some(ActivatedAt(now - Day));
    var scripts := ActivateScripts(Posix);
    forall i | 0 <= i < |scripts|
      ensures !RecentAccess(Under(v, scripts[i]), now, Day)
    {
      assert Under(v, scripts[i]).Some? ==> i == 0;
    }
    forall i | 0 <= i < |PipExecutables(Posix)|
      ensures !RecentAccess(Under(v, PipExecutables(Posix)[i]), now, 7 * Day)
    {
    }
    forall i | 0 <= i < |ProjectMarkers|
      ensures !RecentChange(Under(v, ProjectMarkers[i]), now, 30 * Day)
    {
    }
    var w := Some(ActivatedAt(now - Day + 1));
    assert RecentAccess(Under(w, scripts[0]), now, Day);
  }

  // ---------------------------------------------------------------------
  // filter_paths
  // ---------------------------------------------------------------------

  /** Some pattern in `patterns` matches `path` (`fnmatch.fnmatch` is `matches`). */
  predicate AnyMatch(path: string, patterns: seq<string>, matches: (string, string) -> bool) {
    exists j | 0 <= j < |patterns| :: matches(path, patterns[j])
  }

  /** The paths that no pattern matches, in their original order. */
  function Unmatched(paths: seq<string>, patterns: seq<string>, matches: (string, string) -> bool): seq<string> {
    if paths == [] then []
    else (if AnyMatch(paths[0], patterns, matches) then [] else [paths[0]]) + Unmatched(paths[1..], patterns, matches)
  }

  /** What `filter_paths` keeps: everything when there are no patterns. */
  function Kept(paths: seq<string>, patterns: Option<seq<string>>, matches: (string, string) -> bool): seq<string> {
    if patterns.None? || patterns.value == [] then paths else Unmatched(paths, patterns.value, matches)
  }

  /** `filter_paths`: a `skip` flag per path, set by the first matching pattern. */
  method FilterPaths(paths: seq<string>, patterns: Option<seq<string>>, matches: (string, string) -> bool)
    returns (filtered: seq<string>)
    ensures filtered == Kept(paths, patterns, matches)
  {
    if patterns.None? || patterns.value == [] {
      return paths;
    }
    var pats := patterns.value;
    filtered := [];
    var i := 0;
    while i < |paths|
      invariant 0 <= i <= |paths|
      invariant filtered + Unmatched(paths[i..], pats, matches) == Unmatched(paths, pats, matches)
    {
      var skip := false;
      var j := 0;
      while j < |pats|
        invariant 0 <= j <= |pats|
        invariant forall k :: 0 <= k < j ==> !matches(paths[i], pats[k])
      {
        if matches(paths[i], pats[j]) {
          skip := true;
          break;
        }
        j := j + 1;
      }
      assert skip == AnyMatch(paths[i], pats, matches);
      assert paths[i..][1..] == paths[i + 1..];
      if !skip {
        filtered := filtered + [paths[i]];
      }
      i := i + 1;
    }
  }

  /** `a` is `b` with some elements left out, order kept. */
  predicate IsSubsequence<T(==)>(a: seq<T>, b: seq<T>)
    decreases |b|
  {
    a == [] ||
    (b != [] && ((a[0] == b[0] && IsSubsequence(a[1..], b[1..])) || IsSubsequence(a, b[1..])))
  }

  lemma {:induction false} UnmatchedIsSubsequence(paths: seq<string>, patterns: seq<string>, matches: (string, string) -> bool)
    ensures IsSubsequence(Unmatched(paths, patterns, matches), paths)
    decreases |paths|
  {
    if paths != [] {
      UnmatchedIsSubsequence(paths[1..], patterns, matches);
      var u := Unmatched(paths, patterns, matches);
      var rest := Unmatched(paths[1..], patterns, matches);
      if AnyMatch(paths[0], patterns, matches) {
        assert u == rest;
        assert IsSubsequence(u, paths[1..]);
      } else {
        assert u == [paths[0]] + rest;
        assert u[0] == paths[0] && u[1..] == rest;
      }
    }
  }

  /** With patterns, a path is kept exactly when it is one of `paths` and
      no pattern matches it. */
  lemma {:induction false} UnmatchedMembership(paths: seq<string>, patterns: seq<string>, matches: (string, string) -> bool, x: string)
    ensures x in Unmatched(paths, patterns, matches) <==> x in paths && !AnyMatch(x, patterns, matches)
    decreases |paths|
  {
    if paths != [] {
      UnmatchedMembership(paths[1..], patterns, matches, x);
      assert paths == [paths[0]] + paths[1..];
    }
  }

  /** `filter_paths` keeps an order-preserving subsequence; without patterns
      it is the identity, with patterns it keeps exactly the unmatched paths. */
  lemma {:induction false} FilterPathsMeaning(paths: seq<string>, patterns: Option<seq<string>>, matches: (string, string) -> bool)
    ensures IsSubsequence(Kept(paths, patterns, matches), paths)
    ensures patterns.None? || patterns.value == [] ==> Kept(paths, patterns, matches) == paths
    ensures patterns.Some? && patterns.value != [] ==>
      forall x :: x in Kept(paths, patterns, matches) <==> x in paths && !AnyMatch(x, patterns.value, matches)
  {
    if patterns.None? || patterns.value == [] {
      SubsequenceReflexive(paths);
    } else {
      UnmatchedIsSubsequence(paths, patterns.value, matches);
      forall x {
        UnmatchedMembership(paths, patterns.value, matches, x);
      }
    }
  }

  lemma {:induction false} SubsequenceReflexive<T>(s: seq<T>)
    ensures IsSubsequence(s, s)
    decreases |s|
  {
    if s != [] {
      SubsequenceReflexive(s[1..]);
    }
  }

  // ---------------------------------------------------------------------
  // format_size
  // ---------------------------------------------------------------------

  const KiB: int := 1024
  const MiB: int := 1024 * 1024
  const GiB: int := 1024 * 1024 * 1024

  /** `q / 10` with one decimal. */
  function Fixed1(q: nat): string {
    NatToString(q / 10) + "." + [DigitChar(q % 10)]
  }

  /** `q / 100` with two decimals. */
  function Fixed2(q: nat): string {
    NatToString(q / 10 / 10) + "." + [DigitChar(q / 10 % 10), DigitChar(q % 10)]
  }

  /** The number shown with `places` decimals, read back as an integer
      scaled by 10^places: the digits with the dot removed. */
  function ShownScaled(s: string, places: nat): int
    requires |s| > places
  {
    ParseNat(s[..|s| - places - 1] + s[|s| - places..])
  }

  /** 10^places for the one or two decimals `format_size` prints. */
  function Scale(places: nat): int {
    if places == 1 then 10 else 100
  }

  /** An amount followed by a space and the unit name. */
  function WithUnit(num: string, unitName: string): string {
    num + " " + unitName
  }

  /** `num` is `n / unit` printed with `places` decimals: the shown number,
      scaled by 10^places, is the exact quotient rounded half to even, and
      its whole part is written without leading zeros. */
  predicate ShowsNumber(num: string, n: int, unit: int, places: nat)
    requires unit > 0
  {
    |num| > places && num[|num| - places - 1] == '.' && IsDigits(num[|num| - places..]) &&
    ShownScaled(num, places) >= 0 &&
    num[..|num| - places - 1] == NatToString(ShownScaled(num, places) / Scale(places)) &&
    IsRoundedQuotient(ShownScaled(num, places), n * Scale(places), unit)
  }

  /** `s` is `n / unit` printed with `places` decimals and the unit name. */
  predicate ShowsRounded(s: string, n: int, unit: int, places: nat, unitName: string)
    requires unit > 0
  {
    |s| > |unitName| && s[|s| - |unitName| - 1..] == " " + unitName &&
    ShowsNumber(s[..|s| - |unitName| - 1], n, unit, places)
  }

  lemma {:induction false} WithUnitParts(num: string, unitName: string)
    ensures var s := WithUnit(num, unitName);
      |s| > |unitName| && s[..|s| - |unitName| - 1] == num && s[|s| - |unitName| - 1..] == " " + unitName
  {
  }

  /** At most one text shows a size in a given unit: the rounding, the
      whole part and the decimals are all fixed. */
  lemma {:induction false} ShowsRoundedUnique(s: string, t: string, n: int, unit: int, places: nat, unitName: string)
    requires unit > 0 && (places == 1 || places == 2)
    requires ShowsRounded(s, n, unit, places, unitName) && ShowsRounded(t, n, unit, places, unitName)
    ensures s == t
  {
    var q := RoundHalfEven(n * Scale(places), unit);
    var fs := ShowsRoundedParts(s, n, unit, places, unitName);
    var ft := ShowsRoundedParts(t, n, unit, places, unitName);
    FractionDigitsUnique(NatToString(q / Scale(places)), fs, ft);
  }

  /** A text that shows a size rounded is the whole part of the rounded
      quotient, a dot, the decimals `f` and the unit. */
  lemma {:induction false} ShowsRoundedParts(s: string, n: int, unit: int, places: nat, unitName: string) returns (f: string)
    requires unit > 0 && (places == 1 || places == 2)
    requires ShowsRounded(s, n, unit, places, unitName)
    ensures |f| == places && IsDigits(f)
    ensures RoundHalfEven(n * Scale(places), unit) >= 0
    ensures ParseNat(NatToString(RoundHalfEven(n * Scale(places), unit) / Scale(places)) + f) == RoundHalfEven(n * Scale(places), unit)
    ensures s == WithUnit(NatToString(RoundHalfEven(n * Scale(places), unit) / Scale(places)) + "." + f, unitName)
  {
    var num := s[..|s| - |unitName| - 1];
    var q := ShownScaled(num, places);
    RoundedQuotientUnique(q, n * Scale(places), unit);
    var w := NatToString(q / Scale(places));
    f := num[|num| - places..];
    assert num == w + "." + f;
    assert s == num + s[|s| - |unitName| - 1..];
  }

  /** Digits of one or two decimals after the same whole part that read
      back as the same number are the same digits. */
  lemma {:induction false} FractionDigitsUnique(w: string, fs: string, ft: string)
    requires |fs| == |ft| && (|fs| == 1 || |fs| == 2) && IsDigits(fs) && IsDigits(ft)
    requires ParseNat(w + fs) == ParseNat(w + ft)
    ensures fs == ft
  {
    var a, b := w + fs, w + ft;
    if |fs| == 1 {
      assert a[..|a| - 1] == w && b[..|b| - 1] == w;
    } else {
      var a1, b1 := w + [fs[0]], w + [ft[0]];
      assert a[..|a| - 1] == a1 && b[..|b| - 1] == b1;
      assert a1[..|a1| - 1] == w && b1[..|b1| - 1] == w;
    }
  }

  /** `format_size` prints the only text that shows the size, rounded,
      in the unit its thresholds choose. */
  lemma {:induction false} FormatSizeDetermined(n: int, t: string)
    ensures KiB <= n < MiB && ShowsRounded(t, n, KiB, 1, "KB") ==> t == FormatSize(n)
    ensures MiB <= n < GiB && ShowsRounded(t, n, MiB, 1, "MB") ==> t == FormatSize(n)
    ensures GiB <= n && ShowsRounded(t, n, GiB, 2, "GB") ==> t == FormatSize(n)
  {
    if KiB <= n < MiB && ShowsRounded(t, n, KiB, 1, "KB") {
      ShowsRoundedUnique(t, FormatSize(n), n, KiB, 1, "KB");
    } else if MiB <= n < GiB && ShowsRounded(t, n, MiB, 1, "MB") {
      ShowsRoundedUnique(t, FormatSize(n), n, MiB, 1, "MB");
    } else if GiB <= n && ShowsRounded(t, n, GiB, 2, "GB") {
      ShowsRoundedUnique(t, FormatSize(n), n, GiB, 2, "GB");
    }
  }

  /** `format_size`: the unit chosen by strict thresholds, the amount
      printed as the exactly rounded quotient (powers of two divide exactly
      in binary floating point). */
  function FormatSize(n: int): (s: string)
    ensures n < KiB ==> s == IntToString(n) + " B"
    ensures KiB <= n < MiB ==> ShowsRounded(s, n, KiB, 1, "KB")
    ensures MiB <= n < GiB ==> ShowsRounded(s, n, MiB, 1, "MB")
    ensures GiB <= n ==> ShowsRounded(s, n, GiB, 2, "GB")
  {
    if n < KiB then IntToString(n) + " B"
    else if n < MiB then
      ShowsOneDecimal(n, KiB, "KB");
      WithUnit(Fixed1(RoundHalfEven(n * 10, KiB)), "KB")
    else if n < GiB then
      ShowsOneDecimal(n, MiB, "MB");
      WithUnit(Fixed1(RoundHalfEven(n * 10, MiB)), "MB")
    else
      ShowsTwoDecimals(n, GiB, "GB");
      WithUnit(Fixed2(RoundHalfEven(n * 100, GiB)), "GB")
  }

  /** The rounded quotient in tenths, printed with one decimal and the
      unit, shows the size. */
  lemma {:induction false} ShowsOneDecimal(n: int, unit: int, unitName: string)
    requires unit > 0 && n >= 0
    ensures RoundHalfEven(n * 10, unit) >= 0
    ensures ShowsRounded(WithUnit(Fixed1(RoundHalfEven(n * 10, unit)), unitName), n, unit, 1, unitName)
  {
    var q := RoundHalfEven(n * 10, unit);
    Fixed1ReadsBack(q);
    WithUnitParts(Fixed1(q), unitName);
    assert ShowsNumber(Fixed1(q), n, unit, 1);
  }

  /** The rounded quotient in hundredths, printed with two decimals and
      the unit, shows the size. */
  lemma {:induction false} ShowsTwoDecimals(n: int, unit: int, unitName: string)
    requires unit > 0 && n >= 0
    ensures RoundHalfEven(n * 100, unit) >= 0
    ensures ShowsRounded(WithUnit(Fixed2(RoundHalfEven(n * 100, unit)), unitName), n, unit, 2, unitName)
  {
    var q := RoundHalfEven(n * 100, unit);
    Fixed2ReadsBack(q);
    WithUnitParts(Fixed2(q), unitName);
    assert ShowsNumber(Fixed2(q), n, unit, 2);
  }

  lemma {:induction false} Fixed1ReadsBack(q: nat)
    ensures var s := Fixed1(q);
      |s| > 2 && s[|s| - 2] == '.' && s[..|s| - 2] == NatToString(q / 10) && IsDigits(s[|s| - 1..]) &&
      ShownScaled(s, 1) == q
  {
    var s := Fixed1(q);
    var whole := NatToString(q / 10);
    var c := DigitChar(q % 10);
    NatToStringRoundTrip(q / 10);
    DigitCharValue(q % 10);
    assert s == whole + "." + [c];
    assert s[..|s| - 2] == whole && s[|s| - 1..] == [c];
    var t := whole + [c];
    assert t[..|t| - 1] == whole;
    assert ShownScaled(s, 1) == ParseNat(t) == (q / 10) * 10 + q % 10;
  }

  lemma {:induction false} Fixed2ReadsBack(q: nat)
    ensures var s := Fixed2(q);
      |s| > 3 && s[|s| - 3] == '.' && s[..|s| - 3] == NatToString(q / 100) && IsDigits(s[|s| - 2..]) &&
      ShownScaled(s, 2) == q
  {
    var s := Fixed2(q);
    var tens := q / 10;
    var whole := NatToString(tens / 10);
    assert tens / 10 == q / 100;
    NatToStringRoundTrip(tens / 10);
    var d1, d2 := DigitChar(tens % 10), DigitChar(q % 10);
    DigitCharValue(tens % 10);
    DigitCharValue(q % 10);
    assert s == whole + "." + [d1, d2];
    assert s[..|s| - 3] == whole && s[|s| - 2..] == [d1, d2];
    var t1 := whole + [d1];
    var t := t1 + [d2];
    assert s[..|s| - 3] + s[|s| - 2..] == t;
    assert t[..|t| - 1] == t1;
    assert t1[..|t1| - 1] == whole;
    assert ParseNat(t1) == (tens / 10) * 10 + tens % 10 == tens;
    assert ParseNat(t) == tens * 10 + q % 10 == q;
  }

  /** The values the source's tests expect, one unit each. */
  lemma {:induction false} FormatSizeBytesExample()
    ensures FormatSize(500) == "500 B"
  {
    assert NatToString(500) == NatToString(50) + "0" == "500";
  }

  lemma {:induction false} FormatSizeKbExample()
    ensures FormatSize(1500) == "1.5 KB"
  {
    assert RoundHalfEven(15000, KiB) == 15;
    assert Fixed1(15) == "1.5";
  }

  lemma {:induction false} FormatSizeMbExample()
    ensures FormatSize(1500000) == "1.4 MB"
  {
    assert RoundHalfEven(15000000, MiB) == 14;
    assert Fixed1(14) == "1.4";
  }

  lemma {:induction false} FormatSizeGbExample()
    ensures FormatSize(1500000000) == "1.40 GB"
  {
    assert RoundHalfEven(150000000000, GiB) == 140;
    assert Fixed2(140) == "1.40";
  }

}
