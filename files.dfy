/**
 * The part of the machine the patch scripts touch: file contents, directories and the working
 * directory. Each file operation is a function from one state to the next, together with the
 * exception it raises; the scripts never catch one, so a raised exception ends the script.
 */
module Files {
  import opened Text

  /** An absolute path, as its components below the root. */
  type Path = seq<string>

  /** The exceptions `open`, `os.makedirs` and `os.chdir` raise here. */
  datatype IoError = FileNotFound | IsADirectory | NotADirectory | FileExists

  datatype Outcome<T> = Ok(value: T) | Raised(error: IoError)

  /** File contents (as text), the set of directories, and the working directory. */
  datatype Sys = Sys(files: map<Path, string>, dirs: set<Path>, cwd: Path)

  /** The state after a step and the exception that ended it, if any. */
  datatype Run = Run(sys: Sys, raised: Option<IoError>)

  function Parent(p: Path): Path {
    if p == [] then [] else p[..|p| - 1]
  }

  /** The root is a directory, every directory's parent is one, and files sit in directories. */
  predicate WellFormed(sys: Sys) {
    && [] in sys.dirs
    && sys.cwd in sys.dirs
    && (forall d :: d in sys.dirs ==> Parent(d) in sys.dirs)
    && (forall f :: f in sys.files ==> f !in sys.dirs && Parent(f) in sys.dirs)
  }

  /** `os.path.exists`: a file or a directory. */
  predicate PathExists(sys: Sys, p: Path) {
    p in sys.files || p in sys.dirs
  }

  /** Some proper ancestor of p is a file, so p cannot be reached. */
  predicate Blocked(sys: Sys, p: Path) {
    exists k :: 0 < k < |p| && p[..k] in sys.files
  }

  /** The error for a path that does not exist. */
  function Missing(sys: Sys, p: Path): IoError {
    if Blocked(sys, p) then NotADirectory else FileNotFound
  }

  /** Reading in text mode turns `\r\n` and a lone `\r` into `\n` (universal newlines). */
  function Newlines(s: string): (r: string)
    ensures NoCr(r) && |r| <= |s|
    ensures NoCr(s) ==> r == s
    decreases |s|
  {
    if s == [] then []
    else if s[0] == '\r' then "\n" + Newlines(if |s| > 1 && s[1] == '\n' then s[2..] else s[1..])
    else [s[0]] + Newlines(s[1..])
  }

  /** `open(p, "r").read()`. */
  function ReadText(sys: Sys, p: Path): (r: Outcome<string>)
    ensures r.Ok? <==> p in sys.files && p !in sys.dirs
    ensures r.Ok? ==> r.value == Newlines(sys.files[p])
    ensures r.Ok? ==> NoCr(r.value) && (NoCr(sys.files[p]) ==> r.value == sys.files[p])
  {
    if p in sys.dirs then Raised(IsADirectory)
    else if p in sys.files then Ok(Newlines(sys.files[p]))
    else Raised(Missing(sys, p))
  }

  /** `open(p, "w").write(text)`: creates or truncates p; its directory must exist. */
  function WriteText(sys: Sys, p: Path, text: string): (r: Run)
    ensures r.raised.None? <==> p !in sys.dirs && Parent(p) in sys.dirs
    ensures r.raised.None? ==> r.sys == sys.(files := sys.files[p := text])
    ensures r.raised.Some? ==> r.sys == sys
    ensures WellFormed(sys) ==> WellFormed(r.sys)
  {
    if p in sys.dirs then Run(sys, Some(IsADirectory))
    else if Parent(p) in sys.dirs then Run(sys.(files := sys.files[p := text]), None)
    else Run(sys, Some(Missing(sys, p)))
  }

  /** All the directories from the root down to p. */
  function Ancestry(p: Path): (r: set<Path>)
    ensures forall k :: 0 <= k <= |p| ==> p[..k] in r
    ensures forall d :: d in r ==> |d| <= |p| && d == p[..|d|]
  {
    set k | 0 <= k <= |p| :: p[..k]
  }

  /** `os.makedirs(p, exist_ok=True)`. */
  function MakeDirs(sys: Sys, p: Path): (r: Run)
    ensures r.raised.None? <==> p in sys.dirs || (p !in sys.files && !Blocked(sys, p))
    ensures r.raised.None? ==> p in r.sys.dirs
    ensures r.raised.None? ==> r.sys.files == sys.files && sys.dirs <= r.sys.dirs && r.sys.cwd == sys.cwd
    ensures WellFormed(sys) && r.raised.None? ==> r.sys.dirs == sys.dirs + Ancestry(p)
    ensures r.raised.Some? ==> r.sys == sys
    ensures p in sys.dirs ==> r == Run(sys, None)
    ensures WellFormed(sys) ==> WellFormed(r.sys)
  {
    if p in sys.dirs then
      assert WellFormed(sys) ==> Ancestry(p) <= sys.dirs by {
        if WellFormed(sys) {
          DirsHoldAncestors(sys, p);
        }
      }
      Run(sys, None)
    else if p in sys.files then Run(sys, Some(FileExists))
    else if Blocked(sys, p) then Run(sys, Some(NotADirectory))
    else
      var r := Run(sys.(dirs := sys.dirs + Ancestry(p)), None);
      assert p[..|p|] == p;
      assert WellFormed(sys) ==> WellFormed(r.sys) by {
        if WellFormed(sys) {
          forall k | 0 <= k <= |p|
            ensures p[..k] !in sys.files
          {
            if k == 0 {
              assert p[..k] == [];
            }
          }
          forall d | d in Ancestry(p)
            ensures Parent(d) in sys.dirs + Ancestry(p)
          {
            if d != [] {
              assert Parent(d) == p[..|d| - 1];
            }
          }
        }
      }
      r
  }

  /** `os.chdir(p)`. */
  function ChangeDir(sys: Sys, p: Path): (r: Run)
    ensures r.raised.None? <==> p in sys.dirs
    ensures r.raised.None? ==> r.sys == sys.(cwd := p)
    ensures r.raised.Some? ==> r.sys == sys
    ensures WellFormed(sys) ==> WellFormed(r.sys)
  {
    if p in sys.dirs then Run(sys.(cwd := p), None)
    else if p in sys.files then Run(sys, Some(NotADirectory))
    else Run(sys, Some(Missing(sys, p)))
  }

  /** In a well-formed state every ancestor of a directory is a directory. */
  lemma {:induction false} DirsHoldAncestors(sys: Sys, p: Path)
    requires WellFormed(sys) && p in sys.dirs
    ensures Ancestry(p) <= sys.dirs
    decreases |p|
  {
    if p == [] {
      forall d | d in Ancestry(p)
        ensures d in sys.dirs
      {
        assert d == [];
      }
    } else {
      var q := Parent(p);
      DirsHoldAncestors(sys, q);
      forall d | d in Ancestry(p)
        ensures d in sys.dirs
      {
        if |d| < |p| {
          assert d == q[..|d|];
        } else {
          assert d == p;
        }
      }
    }
  }

  /** Rewriting a file with the contents it already has changes nothing. */
  lemma RewriteSame(sys: Sys, p: Path)
    requires p in sys.files
    ensures sys.(files := sys.files[p := sys.files[p]]) == sys
  {
    assert sys.files[p := sys.files[p]] == sys.files;
  }

  /** The machine, updated in place by the file operations. */
  class FileSystem {
    var files: map<Path, string>
    var dirs: set<Path>
    var cwd: Path

    constructor (init: Sys)
      ensures View() == init
    {
      files, dirs, cwd := init.files, init.dirs, init.cwd;
    }

    function View(): Sys
      reads this
    {
      Sys(files, dirs, cwd)
    }

    method Exists(p: Path) returns (b: bool)
      ensures b == PathExists(View(), p)
    {
      b := p in files || p in dirs;
    }

    method Read(p: Path) returns (r: Outcome<string>)
      ensures r == ReadText(View(), p)
    {
      if p in dirs {
        r := Raised(IsADirectory);
      } else if p in files {
        r := Ok(Newlines(files[p]));
      } else {
        r := Raised(Missing(View(), p));
      }
    }

    method Write(p: Path, text: string) returns (raised: Option<IoError>)
      modifies this
      ensures Run(View(), raised) == WriteText(old(View()), p, text)
    {
      if p in dirs {
        raised := Some(IsADirectory);
      } else if Parent(p) in dirs {
        files := files[p := text];
        raised := None;
      } else {
        raised := Some(Missing(View(), p));
      }
    }

    method Makedirs(p: Path) returns (raised: Option<IoError>)
      modifies this
      ensures Run(View(), raised) == MakeDirs(old(View()), p)
    {
      if p in dirs {
        raised := None;
      } else if p in files {
        raised := Some(FileExists);
      } else if Blocked(View(), p) {
        raised := Some(NotADirectory);
      } else {
        dirs := dirs + Ancestry(p);
        raised := None;
      }
    }

    method Chdir(p: Path) returns (raised: Option<IoError>)
      modifies this
      ensures Run(View(), raised) == ChangeDir(old(View()), p)
    {
      if p in dirs {
        cwd := p;
        raised := None;
      } else if p in files {
        raised := Some(NotADirectory);
      } else {
        raised := Some(Missing(View(), p));
      }
    }
  }
}
