/** The filesystem the probes, the scanner and the evaluator look at, as an
    immutable tree, and the `os.path` queries they make of it. A field that
    is `None` stands for a lookup that raises (`OSError`, a vanished file,
    an undecodable text). */
module FileTree {
  import opened Wrappers

  /** A path as its components below some starting directory. */
  type Path = seq<string>

  /** `getatime`, `getmtime` and `getctime`, in whole seconds. */
  datatype Stamps = Stamps(atime: int, mtime: int, ctime: int)

  datatype Node =
    | File(name: string, stamps: Option<Stamps>, size: Option<nat>, text: Option<string>)
    | Dir(name: string, stamps: Option<Stamps>, children: seq<Node>)
      /** A directory that exists but can be neither listed nor entered. */
    | Unreadable(name: string, stamps: Option<Stamps>)

  /** The first child listed under `name`. */
  function Child(cs: seq<Node>, name: string): (c: Option<Node>)
    ensures c.Some? ==> c.value in cs && c.value.name == name
    ensures c.None? ==> forall i :: 0 <= i < |cs| ==> cs[i].name != name
  {
    if cs == [] then None
    else if cs[0].name == name then Some(cs[0])
    else Child(cs[1..], name)
  }

  /** `os.path.join(n, *rel)` followed by a stat: the entry reached, if any. */
  function Lookup(n: Node, rel: Path): Option<Node>
    decreases |rel|
  {
    if rel == [] then Some(n)
    else match n
      case Dir(_, _, cs) =>
        (match Child(cs, rel[0])
         case None => None
         case Some(c) => Lookup(c, rel[1..]))
      case _ => None
  }

  /** Lookup below a path that may itself not exist. */
  function Under(e: Option<Node>, rel: Path): Option<Node> {
    if e.None? then None else Lookup(e.value, rel)
  }

  /** `os.path.exists`. */
  predicate Exists(e: Option<Node>) {
    e.Some?
  }

  /** `os.path.isdir`. */
  predicate IsDir(e: Option<Node>) {
    e.Some? && (e.value.Dir? || e.value.Unreadable?)
  }

  /** `os.path.isfile`. */
  predicate IsFile(e: Option<Node>) {
    e.Some? && e.value.File?
  }

  /** `os.path.basename` of a path given by its components. */
  function Basename(p: Path): string {
    if p == [] then "" else p[|p| - 1]
  }

  predicate DistinctNames(cs: seq<Node>) {
    forall i, j :: 0 <= i < j < |cs| ==> cs[i].name != cs[j].name
  }

  /** No directory lists two entries under one name, at any depth: what
      any real filesystem guarantees. */
  predicate WellFormed(n: Node) {
    n.Dir? ==> DistinctNames(n.children) && forall i :: 0 <= i < |n.children| ==> WellFormed(n.children[i])
  }

  /** With distinct names, looking a child up by its name finds that child. */
  lemma {:induction false} ChildFindsEach(cs: seq<Node>, i: int)
    requires DistinctNames(cs) && 0 <= i < |cs|
    ensures Child(cs, cs[i].name) == Some(cs[i])
    decreases |cs|
  {
    if i > 0 {
      assert cs[0].name != cs[i].name;
      ChildFindsEach(cs[1..], i - 1);
    }
  }

  /** Every entry reached from a well-formed tree is well-formed. */
  lemma {:induction false} LookupWellFormed(n: Node, rel: Path)
    requires WellFormed(n) && Lookup(n, rel).Some?
    ensures WellFormed(Lookup(n, rel).value)
    decreases |rel|
  {
    if rel != [] {
      var c := Child(n.children, rel[0]).value;
      var i :| 0 <= i < |n.children| && n.children[i] == c;
      LookupWellFormed(c, rel[1..]);
    }
  }

  /** Resolving a path in two steps is the same as in one. */
  lemma {:induction false} LookupAppend(n: Node, a: Path, b: Path)
    ensures Lookup(n, a + b) == Under(Lookup(n, a), b)
    decreases |a|
  {
    if a == [] {
      assert a + b == b;
    } else {
      assert (a + b)[0] == a[0] && (a + b)[1..] == a[1..] + b;
      if n.Dir? && Child(n.children, a[0]).Some? {
        LookupAppend(Child(n.children, a[0]).value, a[1..], b);
      }
    }
  }
}

/** The per-platform names the probes use (`os.name == "nt"` and
    `platform.system() == "Windows"` select the Windows profile). */
module Platform {
  import opened FileTree

  datatype Platform = Posix | Windows

  /** The three canonical venv subdirectories. */
  function RequiredDirs(p: Platform): seq<string> {
    if p.Windows? then ["Scripts", "Lib", "Include"] else ["bin", "lib", "include"]
  }

  /** The venv's interpreter. */
  function PythonBin(p: Platform): Path {
    if p.Windows? then ["Scripts", "python.exe"] else ["bin", "python"]
  }

  /** The activation scripts whose access time shows use. */
  function ActivateScripts(p: Platform): seq<Path> {
    if p.Windows? then [["Scripts", "activate.bat"], ["Scripts", "activate.ps1"]]
    else [["bin", "activate"], ["bin", "activate.fish"], ["bin", "activate.csh"]]
  }

  /** The pip executables whose access time shows use. */
  function PipExecutables(p: Platform): seq<Path> {
    if p.Windows? then [["Scripts", "pip.exe"], ["Scripts", "pip3.exe"], ["Scripts", "pip-script.py"]]
    else [["bin", "pip"], ["bin", "pip3"]]
  }

  /** IDE and project markers whose modification time shows use. */
  const ProjectMarkers: seq<Path> := [[".project"], [".vscode"], [".idea"]]

  const PyvenvCfg: Path := ["pyvenv.cfg"]

  const UvProjMarker: Path := [".uv-proj"]
}
