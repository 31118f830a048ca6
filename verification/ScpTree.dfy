/** A file tree, its serialisation in the SCP protocol, and the filesystem a sink writes to
    (`os/command/scp.go`). */
module ScpTree {
  import opened GoBytes
  import opened Numerals
  import opened Paths

  const CMD_C: byte := 67
  const CMD_D: byte := 68
  const CMD_E: byte := 69
  const CMD_T: byte := 84

  const REPLY_OK: byte := 0
  const REPLY_ERR: byte := 1

  datatype Tree = FileNode(name: Str, mode: nat, content: seq<byte>)
                | DirNode(name: Str, mode: nat, kids: seq<Tree>)

  // ---------- the stream ----------

  /** A C or D line: command and mode, size, name. */
  function Line(cmd: byte, mode: nat, size: nat, name: Str): seq<byte> {
    [cmd] + Octal04(mode) + [SPACE] + Itoa(size) + [SPACE] + name + [LF]
  }

  const E_LINE: seq<byte> := [CMD_E, LF]

  /** The nested serialisation of a tree. */
  function Stream(t: Tree): seq<byte> {
    match t
    case FileNode(name, mode, content) => Line(CMD_C, mode, |content|, name) + content + [NUL]
    case DirNode(name, mode, kids) => Line(CMD_D, mode, 0, name) + StreamAll(kids) + E_LINE
  }

  function StreamAll(ts: seq<Tree>): seq<byte> {
    if ts == [] then [] else Stream(ts[0]) + StreamAll(ts[1..])
  }

  /** Replies a sink owes for a tree: two a file, and one for each D and E. */
  function Units(t: Tree): nat {
    match t
    case FileNode(_, _, _) => 2
    case DirNode(_, _, kids) => 2 + UnitsAll(kids)
  }

  function UnitsAll(ts: seq<Tree>): nat {
    if ts == [] then 0 else Units(ts[0]) + UnitsAll(ts[1..])
  }

  /** A name the protocol can carry in one field. */
  predicate GoodName(name: Str) {
    Plain(name) && SPACE !in name && LF !in name && BACKSLASH !in name
  }

  /** Components without backslash, which the source would turn into a slash. */
  predicate Portable(cs: seq<Str>) {
    forall c <- cs :: BACKSLASH !in c
  }

  /** Names and sizes the protocol and the sink can carry; `limit` 0 is no limit. */
  predicate Sendable(t: Tree, limit: nat) {
    && GoodName(t.name) && t.mode < U32
    && (t.FileNode? ==> |t.content| < U63 && (limit == 0 || |t.content| <= limit))
    && (t.DirNode? ==> forall k <- t.kids :: Sendable(k, limit))
  }

  // ---------- the receiving filesystem ----------

  datatype FsEntry = FsDir | FsFile(content: seq<byte>)

  type FsMap = map<Str, FsEntry>

  predicate IsFsDir(fs: FsMap, p: Str) {
    p in fs && fs[p] == FsDir
  }

  predicate IsFsFile(fs: FsMap, p: Str) {
    p in fs && fs[p].FsFile?
  }

  /** The path itself and everything it lies in, by its slashes. */
  function Above(p: Str): set<Str> {
    (set i | 0 < i < |p| && p[i] == SLASH :: p[..i]) + {p} + (if IsAbs(p) then {[SLASH]} else {})
  }

  /** `MkdirAll`: fails when a file is in the way. */
  function MkdirAll(fs: FsMap, p: Str): Option<FsMap> {
    if exists q <- Above(p) :: IsFsFile(fs, q) then None
    else Some(fs + map q | q in Above(p) :: FsDir)
  }

  /** `OpenFile` for writing, then the bytes: fails on a directory or outside one. */
  function WriteFile(fs: FsMap, p: Str, content: seq<byte>): Option<FsMap> {
    if IsFsDir(fs, p) || !IsFsDir(fs, DirOf(p)) then None else Some(fs[p := FsFile(content)])
  }

  // ---------- a tree in a filesystem ----------

  /** Every path of the tree, placed in the directory with components `cs`, and what is there. */
  function Flatten(cs: seq<Str>, t: Tree): FsMap
    decreases t
  {
    match t
    case FileNode(name, _, content) => map[Rooted(cs + [name]) := FsFile(content)]
    case DirNode(name, _, kids) => map[Rooted(cs + [name]) := FsDir] + FlattenAll(cs + [name], kids)
  }

  function FlattenAll(cs: seq<Str>, ts: seq<Tree>): FsMap
    decreases ts
  {
    if ts == [] then map[] else Flatten(cs, ts[0]) + FlattenAll(cs, ts[1..])
  }

  /** Nothing already there is of the other kind where the tree goes. */
  predicate Compatible(fs: FsMap, cs: seq<Str>, t: Tree)
    decreases t
  {
    match t
    case FileNode(name, _, _) => !IsFsDir(fs, Rooted(cs + [name]))
    case DirNode(name, _, kids) =>
      && !IsFsFile(fs, Rooted(cs + [name]))
      && CompatibleAll(fs[Rooted(cs + [name]) := FsDir], cs + [name], kids)
  }

  predicate CompatibleAll(fs: FsMap, cs: seq<Str>, ts: seq<Tree>)
    decreases ts
  {
    ts == [] || (Compatible(fs, cs, ts[0]) && CompatibleAll(fs + Flatten(cs, ts[0]), cs, ts[1..]))
  }

  /** No two entries of a directory share a name. */
  predicate DistinctNames(t: Tree) {
    t.DirNode? ==> DistinctKids(t.kids)
  }

  predicate DistinctKids(ts: seq<Tree>) {
    && (forall i, j :: 0 <= i < j < |ts| ==> ts[i].name != ts[j].name)
    && forall k <- ts :: DistinctNames(k)
  }

  /** The directory `cs` and everything it lies in exist. */
  predicate Inside(fs: FsMap, cs: seq<Str>) {
    forall k :: 0 <= k <= |cs| ==> IsFsDir(fs, Rooted(cs[..k]))
  }

  /** The tree is in the filesystem: each file with its content, each directory with its entries. */
  ghost predicate Holds(fs: FsMap, cs: seq<Str>, t: Tree)
    decreases t
  {
    match t
    case FileNode(name, _, content) =>
      Rooted(cs + [name]) in fs && fs[Rooted(cs + [name])] == FsFile(content)
    case DirNode(name, _, kids) =>
      IsFsDir(fs, Rooted(cs + [name])) && forall k <- kids :: Holds(fs, cs + [name], k)
  }

  ghost predicate GoodNames(t: Tree) {
    Plain(t.name) && BACKSLASH !in t.name && (t.DirNode? ==> forall k <- t.kids :: GoodNames(k))
  }

  /** Nothing of the filesystem lies at or below a path. */
  ghost predicate NothingAt(fs: FsMap, cs: seq<Str>) {
    forall p: seq<Str> :: AllPlain(p) && cs <= p ==> Rooted(p) !in fs
  }

  /** Every key a tree adds names a path at or below the tree's own. */
  lemma {:induction false} FlattenKeys(cs: seq<Str>, t: Tree, key: Str)
    requires AllPlain(cs) && GoodNames(t) && key in Flatten(cs, t)
    ensures exists p: seq<Str> :: AllPlain(p) && cs + [t.name] <= p && Rooted(p) == key
    decreases t, 1
  {
    var here := cs + [t.name];
    if key == Rooted(here) {
    } else {
      FlattenAllKeys(here, t.kids, key);
      var k, p: seq<Str> :| k in t.kids && AllPlain(p) && here + [k.name] <= p && Rooted(p) == key;
      assert here <= here + [k.name];
    }
  }

  lemma {:induction false} FlattenAllKeys(cs: seq<Str>, ts: seq<Tree>, key: Str)
    requires AllPlain(cs) && (forall k <- ts :: GoodNames(k)) && key in FlattenAll(cs, ts)
    ensures exists k, p: seq<Str> :: k in ts && AllPlain(p) && cs + [k.name] <= p && Rooted(p) == key
    decreases ts, 0
  {
    if key in Flatten(cs, ts[0]) {
      FlattenKeys(cs, ts[0], key);
    } else {
      FlattenAllKeys(cs, ts[1..], key);
    }
  }

  lemma KeysApart(cs: seq<Str>, t: Tree, other: Str, p: seq<Str>)
    requires AllPlain(cs) && GoodNames(t) && AllPlain(p) && cs + [other] <= p
    ensures Rooted(p) in Flatten(cs, t) ==> t.name == other
  {
    if Rooted(p) in Flatten(cs, t) {
      FlattenKeys(cs, t, Rooted(p));
      var q: seq<Str> :| AllPlain(q) && cs + [t.name] <= q && Rooted(q) == Rooted(p);
      RootedInjective(p, q);
      assert p[|cs|] == other && q[|cs|] == t.name;
    }
  }

  /** Where nothing is yet, a tree with distinct names meets no conflict. */
  lemma {:induction false} FreshIsCompatible(fs: FsMap, cs: seq<Str>, t: Tree)
    requires AllPlain(cs) && GoodNames(t) && DistinctNames(t) && NothingAt(fs, cs + [t.name])
    ensures Compatible(fs, cs, t)
    decreases t, 1
  {
    var here := cs + [t.name];
    assert AllPlain(here);
    if t.DirNode? {
      var fs' := fs[Rooted(here) := FsDir];
      forall k, p: seq<Str> | k in t.kids && AllPlain(p) && here + [k.name] <= p
        ensures Rooted(p) !in fs'
      {
        assert here <= here + [k.name];
        if Rooted(p) == Rooted(here) {
          RootedInjective(p, here);
        }
      }
      FreshAllAreCompatible(fs', here, t.kids);
    }
  }

  lemma {:induction false} FreshAllAreCompatible(fs: FsMap, cs: seq<Str>, ts: seq<Tree>)
    requires AllPlain(cs) && (forall k <- ts :: GoodNames(k)) && DistinctKids(ts)
    requires forall k <- ts :: NothingAt(fs, cs + [k.name])
    ensures CompatibleAll(fs, cs, ts)
    decreases ts, 0
  {
    if ts != [] {
      FreshIsCompatible(fs, cs, ts[0]);
      var fs' := fs + Flatten(cs, ts[0]);
      forall k, p: seq<Str> | k in ts[1..] && AllPlain(p) && cs + [k.name] <= p
        ensures Rooted(p) !in fs'
      {
        KeysApart(cs, ts[0], k.name, p);
        assert NothingAt(fs, cs + [k.name]);
      }
      FreshAllAreCompatible(fs', cs, ts[1..]);
    }
  }

  lemma {:induction false} FlattenAllHas(cs: seq<Str>, ts: seq<Tree>, k: Tree, key: Str)
    requires AllPlain(cs) && (forall t <- ts :: GoodNames(t)) && DistinctKids(ts)
    requires k in ts && key in Flatten(cs, k)
    ensures key in FlattenAll(cs, ts) && FlattenAll(cs, ts)[key] == Flatten(cs, k)[key]
  {
    if k == ts[0] {
      if key in FlattenAll(cs, ts[1..]) {
        FlattenAllKeys(cs, ts[1..], key);
        var o, p: seq<Str> :| o in ts[1..] && AllPlain(p) && cs + [o.name] <= p && Rooted(p) == key;
        KeysApart(cs, k, o.name, p);
      }
    } else {
      FlattenAllHas(cs, ts[1..], k, key);
    }
  }

  /** A filesystem with the tree's paths holds the tree. */
  lemma {:induction false} FlattenHolds(fs: FsMap, cs: seq<Str>, t: Tree)
    requires AllPlain(cs) && GoodNames(t) && DistinctNames(t)
    requires forall key <- Flatten(cs, t) :: key in fs && fs[key] == Flatten(cs, t)[key]
    ensures Holds(fs, cs, t)
    decreases t
  {
    if t.DirNode? {
      var here := cs + [t.name];
      assert AllPlain(here);
      forall k | k in t.kids
        ensures Holds(fs, here, k)
      {
        forall key | key in Flatten(here, k)
          ensures key in fs && fs[key] == Flatten(here, k)[key]
        {
          FlattenAllHas(here, t.kids, k, key);
        }
        FlattenHolds(fs, here, k);
      }
      if Rooted(here) in FlattenAll(here, t.kids) {
        FlattenAllKeys(here, t.kids, Rooted(here));
        var k, p: seq<Str> :| k in t.kids && AllPlain(p) && here + [k.name] <= p && Rooted(p) == Rooted(here);
        RootedInjective(p, here);
      }
    }
  }
}
