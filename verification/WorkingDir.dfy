/** The shell's working directory (`os/sys.go`) and the SFTP session's path resolution. */
module WorkingDir {
  import opened GoBytes
  import opened Paths

  /** What `afero.DirExists` finds at a path: its stat can also fail for another reason. */
  datatype Probe = ADirectory | NotADirectory | Absent | Unreadable

  datatype ChdirResult = Changed | NotExist | StatError

  type Filesystem = Str -> Probe

  /** `Sftp.GetRealPath`, and the first lines of `System.Chdir`. */
  function RealPath(cwd: Str, path: Str): Str {
    Clean(if IsAbs(path) then path else cwd + [SLASH] + path)
  }

  /** The working directory after one `Chdir`. */
  function AfterChdir(fs: Filesystem, cwd: Str, path: Str): Str {
    var target := RealPath(cwd, path);
    if fs(target) == ADirectory then target else cwd
  }

  /** The working directory after a run of calls. */
  function AfterAll(fs: Filesystem, cwd: Str, calls: seq<Str>): Str
    decreases |calls|
  {
    if calls == [] then cwd else AfterAll(fs, AfterChdir(fs, cwd, calls[0]), calls[1..])
  }

  class System {
    var cwd: Str
    const fSys: Filesystem

    constructor (home: Str, fs: Filesystem)
      requires AbsClean(home)
      ensures cwd == home && fSys == fs
    {
      cwd := home;
      fSys := fs;
    }

    /** A failed call leaves the working directory as it was; a successful one enters an existing
        directory; the working directory stays absolute and clean. */
    method Chdir(path: Str) returns (r: ChdirResult)
      requires AbsClean(cwd)
      modifies this`cwd
      ensures AbsClean(cwd)
      ensures cwd == AfterChdir(fSys, old(cwd), path)
      ensures r == Changed <==> fSys(RealPath(old(cwd), path)) == ADirectory
      ensures r == StatError <==> fSys(RealPath(old(cwd), path)) == Unreadable
      ensures r != Changed ==> cwd == old(cwd)
    {
      RealPathIsClean(cwd, path);
      var target := path;
      if !IsAbs(target) {
        target := cwd + [SLASH] + target;
      }
      target := Clean(target);
      match fSys(target) {
        case ADirectory =>
          cwd := target;
          r := Changed;
        case Unreadable =>
          r := StatError;
        case _ =>
          r := NotExist;
      }
    }
  }

  lemma RealPathIsClean(cwd: Str, path: Str)
    requires AbsClean(cwd)
    ensures AbsClean(RealPath(cwd, path))
  {
    CleanOfAbs(if IsAbs(path) then path else cwd + [SLASH] + path);
  }

  /** Over any run of calls the working directory stays absolute and clean, and it is either the
      first one or a directory of the filesystem. */
  lemma {:induction false} CwdStaysClean(fs: Filesystem, cwd: Str, calls: seq<Str>)
    requires AbsClean(cwd)
    ensures AbsClean(AfterAll(fs, cwd, calls))
    ensures AfterAll(fs, cwd, calls) == cwd || fs(AfterAll(fs, cwd, calls)) == ADirectory
    decreases |calls|
  {
    if calls != [] {
      RealPathIsClean(cwd, calls[0]);
      CwdStaysClean(fs, AfterChdir(fs, cwd, calls[0]), calls[1..]);
    }
  }

  /** Resolving twice is resolving once, from any working directory. */
  lemma RealPathIdempotent(cwd: Str, other: Str, path: Str)
    requires AbsClean(cwd)
    ensures RealPath(other, RealPath(cwd, path)) == RealPath(cwd, path)
  {
    RealPathIsClean(cwd, path);
    AbsCleanIsRooted(RealPath(cwd, path));
  }

  /** Resolving a, then b relative to the result, is resolving the lexical path a/b. */
  lemma RealPathComposes(cwd: Str, a: Str, b: Str)
    requires AbsClean(cwd) && a != [] && !IsAbs(b)
    ensures RealPath(RealPath(cwd, a), b) == RealPath(cwd, a + [SLASH] + b)
  {
    var full := if IsAbs(a) then a else cwd + [SLASH] + a;
    var ab := a + [SLASH] + b;
    assert (cwd + [SLASH] + a) + [SLASH] + b == cwd + [SLASH] + ab;
    assert (if IsAbs(ab) then ab else cwd + [SLASH] + ab) == full + [SLASH] + b;
    CleanOfAbs(full);
    PiecesOfConcat(full, b);
    PiecesOfConcat(Clean(full), b);
    PushAllConcat([], Pieces(full), Pieces(b), true);
    PushAllConcat([], Pieces(Clean(full)), Pieces(b), true);
  }

  /** Two successful calls, `Chdir(a)` then the relative `Chdir(b)`, land where the single call
      `Chdir(a/b)` lands, and that call succeeds too. */
  lemma ChdirComposes(fs: Filesystem, cwd: Str, a: Str, b: Str)
    requires AbsClean(cwd) && a != [] && !IsAbs(b)
    requires fs(RealPath(cwd, a)) == ADirectory
    requires fs(RealPath(RealPath(cwd, a), b)) == ADirectory
    ensures AfterAll(fs, cwd, [a, b]) == AfterChdir(fs, cwd, a + [SLASH] + b)
    ensures fs(RealPath(cwd, a + [SLASH] + b)) == ADirectory
  {
    RealPathComposes(cwd, a, b);
    assert [a, b][1..] == [b];
    assert AfterAll(fs, RealPath(cwd, a), [b]) == AfterAll(fs, AfterChdir(fs, RealPath(cwd, a), b), []);
  }

  /** One name at a time, from a clean directory: a plain name goes down, ".." up, and neither "." nor an
      empty name anywhere; the root is above itself. With `RealPathComposes` this is what resolving does
      to every path. */
  lemma RealPathStep(cs: seq<Str>, c: Str)
    requires AllPlain(cs) && SLASH !in c
    ensures var up := if cs == [] then [] else cs[..|cs| - 1];
            && (Plain(c) ==> RealPath(Rooted(cs), c) == Rooted(cs + [c]))
            && (c == DOTDOT ==> RealPath(Rooted(cs), c) == Rooted(up))
            && (c == DOTNAME || c == [] ==> RealPath(Rooted(cs), c) == Rooted(cs))
  {
    hide PushAll, Pieces, Joined;
    PlainIsNormal(cs);
    ShownComps(true, cs);
    CompsStep(Rooted(cs), c);
    CompsAreNormal(Rooted(cs) + [SLASH] + c);
    ParentOf(cs);
  }

  /** An absolute path means the same from everywhere, and without names the root. */
  lemma RealPathOfAbs(cwd: Str, cs: seq<Str>)
    requires AllPlain(cs)
    ensures RealPath(cwd, Rooted(cs)) == Rooted(cs)
  {
    RootedIsAbsClean(cs);
    AbsCleanIsRooted(Rooted(cs));
  }

  /** A successful `Chdir("..")` lands in the parent, at the root in the root. */
  lemma ChdirToParent(fs: Filesystem, cs: seq<Str>)
    requires AllPlain(cs)
    ensures var up := Rooted(if cs == [] then [] else cs[..|cs| - 1]);
            AfterChdir(fs, Rooted(cs), DOTDOT) == if fs(up) == ADirectory then up else Rooted(cs)
  {
    RealPathStep(cs, DOTDOT);
  }
}
