/** What the virtual filesystem means (`virtualfs/filesystem.go`): a flat map from paths to nodes,
    the fold that loads an archive into it, and symlink lookup on it. */
module FlatTree {
  import opened GoBytes
  import opened Paths
  import opened VirtualFile

  /** A path in the tree: the names from the root down. */
  type Path = seq<Str>

  /** `opens` says whether the entry can still be opened for reading. */
  datatype Node = Node(info: Info, content: seq<byte>, opens: bool)

  type Flat = map<Path, Node>

  /** An entry of the archive: its header name, what it holds, and whether it can be opened while the
      archive is open. The name in `info` is not looked at. */
  datatype ZipEntry = ZipEntry(header: Str, info: Info, content: seq<byte>, opens: bool)

  predicate IsDir(flat: Flat, p: Path) {
    p in flat && flat[p].info.kind == Directory
  }

  predicate IsLink(flat: Flat, p: Path) {
    p in flat && flat[p].info.kind == Link
  }

  function Parent(p: Path): Path
    requires p != []
  {
    p[..|p| - 1]
  }

  /** There is a root directory and every other node lies in a directory. */
  ghost predicate TreeShaped(flat: Flat) {
    IsDir(flat, []) && forall p <- flat :: p != [] ==> IsDir(flat, Parent(p))
  }

  // ---------- names ----------

  /** The names `fetchNode` walks: backslashes of a path that starts with one become slashes, the
      path is cleaned, and the piece before the first slash is dropped, also when the path is
      relative. */
  function Walked(path: Str): (names: seq<Str>) {
    var clean := Clean(if path != [] && path[0] == BACKSLASH then Slashed(path) else path);
    if clean == [SLASH] then [] else Pieces(clean)[1..]
  }

  function WithoutTrailingSlash(s: Str): Str {
    if s != [] && s[|s| - 1] == SLASH then s[..|s| - 1] else s
  }

  /** An entry with the directory its name puts it in, and its name there. */
  datatype Placed = Placed(dir: Path, name: Str, node: Node) {
    function At(): Path { dir + [name] }
  }

  function WithoutTrailingSlashes(s: Str): (r: Str)
    ensures r == [] || r[|r| - 1] != SLASH
  {
    if s != [] && s[|s| - 1] == SLASH then WithoutTrailingSlashes(s[..|s| - 1]) else s
  }

  /** `path.Base`. */
  function BaseName(p: Str): Str {
    if p == [] then DOTNAME
    else
      var s := WithoutTrailingSlashes(p);
      if s == [] then [SLASH] else s[DirLength(s)..]
  }

  /** The info of an entry, with the name that `FileInfo` takes from its header. */
  function EntryInfo(e: ZipEntry): Info {
    e.info.(name := BaseName(e.header))
  }

  /** Where `createNode` puts an entry: `path.Split` of the rooted name, the directory part walked. */
  function PlaceOf(e: ZipEntry): Placed {
    var full := [SLASH] + WithoutTrailingSlash(e.header);
    var n := DirLength(full);
    Placed(Walked(full[..n]), full[n..], Node(EntryInfo(e), e.content, e.opens))
  }

  function PlaceAll(es: seq<ZipEntry>): (ps: seq<Placed>)
    ensures |ps| == |es|
  {
    seq(|es|, i requires 0 <= i < |es| => PlaceOf(es[i]))
  }

  lemma WalkedRooted(cs: seq<Str>)
    requires AllPlain(cs)
    ensures Walked(Rooted(cs)) == cs
  {
    PiecesOfRooted(cs);
    if cs == [] {
      assert Rooted(cs) == [SLASH];
    } else if Rooted(cs) == [SLASH] {
      assert Rooted([]) == [SLASH];
      PiecesOfRooted([]);
    }
  }

  /** The backslashes of a path that starts with one are slashes; those of any other path are part of
      its names. */
  lemma BackslashPath(s: Str)
    ensures Walked([BACKSLASH] + s) == Walked([SLASH] + Slashed(s))
  {
    hide Clean, Pieces;
    assert Slashed([BACKSLASH] + s) == [SLASH] + Slashed(s);
  }

  /** An entry with a normal name, with or without the slash that marks a directory, goes where its
      name says. */
  lemma NormalNamePlace(dir: seq<Str>, name: Str, slash: bool, e: ZipEntry)
    requires AllPlain(dir) && Plain(name)
    requires e.header == Joined(dir + [name]) + if slash then [SLASH] else []
    ensures PlaceOf(e) == Placed(dir, name, Node(e.info.(name := name), e.content, e.opens))
  {
    hide Walked, Joined;
    var before := if dir == [] then [] else Rooted(dir);
    RootedSnoc(dir, name);
    StripSlash(Joined(dir + [name]), slash);
    SplitAt(before, name);
    var full := before + [SLASH] + name;
    assert full[..|before| + 1] == before + [SLASH] && full[|before| + 1..] == name;
    WalkedTrailingSlash(dir);
    hide DirLength, WithoutTrailingSlash, BaseName;
    NamedByPlace(e);
  }

  lemma DirLengthAfter(a: Str, s: Str)
    ensures DirLength(a + [SLASH] + s) == |a| + 1 + DirLength(s)
  {
    if s == [] {
      assert a + [SLASH] + s == a + [SLASH];
    } else if s[|s| - 1] != SLASH {
      var all := a + [SLASH] + s;
      assert all[|all| - 1] == s[|s| - 1];
      assert all[..|all| - 1] == a + [SLASH] + s[..|s| - 1];
      DirLengthAfter(a, s[..|s| - 1]);
    }
  }

  /** An entry's info has the name that it is placed by, unless that is empty: then its header is
      empty or ends in more than one slash. */
  lemma NamedByPlace(e: ZipEntry)
    ensures PlaceOf(e).node.info.name == PlaceOf(e).name <==> PlaceOf(e).name != []
  {
    hide Walked, Clean, DirLength, WithoutTrailingSlashes;
    var s := WithoutTrailingSlash(e.header);
    NameOfPlace(e);
    BaseIsNotEmpty(e.header);
    if s == [] || s[|s| - 1] == SLASH {
      EndsInSlash(s);
    } else {
      LastNameIsNotEmpty(s);
      BaseOfName(e.header);
    }
  }

  lemma NameOfPlace(e: ZipEntry)
    ensures var s := WithoutTrailingSlash(e.header); PlaceOf(e).name == s[DirLength(s)..]
  {
    hide Walked, DirLength, WithoutTrailingSlash, BaseName;
    var s := WithoutTrailingSlash(e.header);
    assert [SLASH] + s == [] + [SLASH] + s;
    DirLengthAfter([], s);
    assert ([SLASH] + s)[1 + DirLength(s)..] == s[DirLength(s)..];
  }

  lemma EndsInSlash(s: Str)
    requires s == [] || s[|s| - 1] == SLASH
    ensures s[DirLength(s)..] == []
  {
  }

  lemma BaseOfName(header: Str)
    requires var s := WithoutTrailingSlash(header); s != [] && s[|s| - 1] != SLASH
    ensures var s := WithoutTrailingSlash(header); BaseName(header) == s[DirLength(s)..]
  {
    hide DirLength;
    var s := WithoutTrailingSlash(header);
    assert WithoutTrailingSlashes(s) == s;
    if header != s {
      assert header[..|header| - 1] == s;
    }
  }

  lemma LastNameIsNotEmpty(s: Str)
    requires s != [] && s[|s| - 1] != SLASH
    ensures DirLength(s) < |s|
  {
  }

  lemma BaseIsNotEmpty(p: Str)
    ensures BaseName(p) != []
  {
    var s := WithoutTrailingSlashes(p);
    if s != [] {
      LastNameIsNotEmpty(s);
    }
  }

  lemma StripSlash(s: Str, slash: bool)
    requires s != [] && s[|s| - 1] != SLASH
    ensures WithoutTrailingSlash(s + if slash then [SLASH] else []) == s
  {
    assert (s + [SLASH])[..|s|] == s && s + [] == s;
  }

  lemma WalkedTrailingSlash(dir: seq<Str>)
    requires AllPlain(dir)
    ensures Walked((if dir == [] then [] else Rooted(dir)) + [SLASH]) == dir
  {
    hide Joined, Resolved;
    if dir != [] {
      TrailingSlash(Rooted(dir));
    } else {
      assert [] + [SLASH] == Rooted(dir) by {
        RootIsSlash();
      }
    }
    WalkedRooted(dir);
    RootedIsAbsClean(dir);
    AbsCleanIsRooted(Rooted(dir));
  }

  // ---------- loading ----------

  /** The path is `top` or lies below it. */
  predicate Under(top: Path, p: Path) {
    top <= p
  }

  /** A node arrives at a path and takes the place of whatever was there, with its subtree. */
  function Insert(flat: Flat, p: Path, node: Node): Flat {
    (map q | q in flat && !Under(p, q) :: flat[q])[p := node]
  }

  /** `Panicked` is Go's panic on assigning into the nil child map of a node that is no directory. */
  datatype LoadResult = Loaded(flat: Flat) | Panicked

  /** A link is read at once, and dropped when it cannot be opened. */
  predicate Unread(e: Placed) {
    e.node.info.kind == Link && !e.node.opens
  }

  function LoadOne(flat: Flat, e: Placed): LoadResult {
    if Unread(e) || e.dir !in flat then Loaded(flat)
    else if flat[e.dir].info.kind != Directory then Panicked
    else Loaded(Insert(flat, e.At(), e.node))
  }

  lemma LoadCases(flat: Flat, e: Placed)
    ensures Unread(e) || e.dir !in flat ==> LoadOne(flat, e) == Loaded(flat)
    ensures !Unread(e) && e.dir in flat && flat[e.dir].info.kind != Directory ==> LoadOne(flat, e) == Panicked
    ensures !Unread(e) && IsDir(flat, e.dir) ==> LoadOne(flat, e) == Loaded(Insert(flat, e.At(), e.node))
  {
    hide Insert;
  }

  function LoadAll(flat: Flat, es: seq<Placed>): LoadResult
    decreases |es|
  {
    if es == [] then Loaded(flat)
    else match LoadOne(flat, es[0])
      case Panicked => Panicked
      case Loaded(f) => LoadAll(f, es[1..])
  }

  lemma InsertKeepsShape(flat: Flat, p: Path, node: Node)
    requires TreeShaped(flat) && p != [] && IsDir(flat, Parent(p))
    ensures TreeShaped(Insert(flat, p, node))
  {
    var after := Insert(flat, p, node);
    forall q | q in after && q != []
      ensures IsDir(after, Parent(q))
    {
      assert Under(p, Parent(q)) ==> Under(p, q);
    }
  }

  lemma {:induction false} LoadKeepsShape(flat: Flat, es: seq<Placed>)
    requires TreeShaped(flat) && LoadAll(flat, es).Loaded?
    ensures TreeShaped(LoadAll(flat, es).flat)
    decreases |es|
  {
    if es != [] {
      if !Unread(es[0]) && es[0].dir in flat {
        assert Parent(es[0].At()) == es[0].dir;
        InsertKeepsShape(flat, es[0].At(), es[0].node);
      }
      LoadKeepsShape(LoadOne(flat, es[0]).flat, es[1..]);
    }
  }

  lemma {:induction false} LoadAllConcat(flat: Flat, a: seq<Placed>, b: seq<Placed>)
    ensures LoadAll(flat, a + b) ==
            match LoadAll(flat, a) { case Panicked => Panicked case Loaded(f) => LoadAll(f, b) }
    decreases |a|
  {
    if a == [] {
      assert a + b == b;
    } else {
      hide LoadOne;
      assert (a + b)[1..] == a[1..] + b;
      if LoadOne(flat, a[0]).Loaded? {
        LoadAllConcat(LoadOne(flat, a[0]).flat, a[1..], b);
      }
    }
  }

  /** Loading all but the last entry, then the last. */
  lemma LoadLast(flat: Flat, es: seq<Placed>)
    requires es != [] && LoadAll(flat, es).Loaded?
    ensures LoadAll(flat, es[..|es| - 1]).Loaded?
    ensures LoadAll(flat, es) == LoadOne(LoadAll(flat, es[..|es| - 1]).flat, es[|es| - 1])
  {
    hide LoadOne;
    var last := es[|es| - 1];
    assert es == es[..|es| - 1] + [last];
    LoadAllConcat(flat, es[..|es| - 1], [last]);
    assert [last][1..] == [];
  }

  /** The i-th entry is no link that cannot be read, and its directory is there when it is loaded;
      otherwise the entry is dropped. */
  ghost predicate Lands(flat: Flat, es: seq<Placed>, i: nat)
    requires i < |es|
  {
    !Unread(es[i]) && LoadAll(flat, es[..i]).Loaded? && es[i].dir in LoadAll(flat, es[..i]).flat
  }

  /** A load panics exactly when some entry, that is no link that cannot be read, is put into something
      that is there and no directory. */
  lemma {:induction false} LoadPanicsExactly(flat: Flat, es: seq<Placed>)
    ensures LoadAll(flat, es).Panicked? <==>
            exists i :: 0 <= i < |es| && LoadAll(flat, es[..i]).Loaded? && !Unread(es[i])
                        && es[i].dir in LoadAll(flat, es[..i]).flat
                        && LoadAll(flat, es[..i]).flat[es[i].dir].info.kind != Directory
    decreases |es|
  {
    if es != [] {
      var n := |es| - 1;
      LoadPanicsExactly(flat, es[..n]);
      assert es == es[..n] + [es[n]];
      LoadAllConcat(flat, es[..n], [es[n]]);
      assert forall i :: 0 <= i <= n ==> es[..n][..i] == es[..i];
      if LoadAll(flat, es[..n]).Loaded? {
        OneLoaded(LoadAll(flat, es[..n]).flat, es[n]);
      } else {
        var i :| 0 <= i < n && LoadAll(flat, es[..n][..i]).Loaded? && !Unread(es[..n][i])
                 && es[..n][i].dir in LoadAll(flat, es[..n][..i]).flat
                 && LoadAll(flat, es[..n][..i]).flat[es[..n][i].dir].info.kind != Directory;
        assert es[..n][i] == es[i];
      }
    }
  }

  lemma OneLoaded(flat: Flat, e: Placed)
    ensures LoadAll(flat, [e]) == LoadOne(flat, e)
  {
    hide LoadOne;
    if LoadOne(flat, e).Loaded? {
      assert LoadAll(LoadOne(flat, e).flat, []) == LoadOne(flat, e);
    }
  }

  /** The i-th entry is the last one that lands at a path or above it. */
  ghost predicate LastAtOrAbove(flat: Flat, es: seq<Placed>, p: Path, i: nat)
    requires i < |es|
  {
    && Lands(flat, es, i) && Under(es[i].At(), p)
    && forall j :: i < j < |es| && Lands(flat, es, j) ==> !Under(es[j].At(), p)
  }

  /** Last insert wins, exactly: after a whole load, the last entry that landed at a path or above it
      decides. If it landed at the path itself, its node is found there; if above, the path was part
      of a subtree that was dropped, and nothing is found. */
  lemma {:induction false} LastInsertDecides(flat: Flat, es: seq<Placed>, p: Path, i: nat)
    requires LoadAll(flat, es).Loaded? && i < |es| && LastAtOrAbove(flat, es, p, i)
    ensures p in LoadAll(flat, es).flat <==> p == es[i].At()
    ensures p == es[i].At() ==> LoadAll(flat, es).flat[p] == es[i].node
    decreases |es|
  {
    LoadLast(flat, es);
    var n := |es| - 1;
    if i < n {
      var before := es[..n];
      assert forall k :: 0 <= k <= n ==> before[..k] == es[..k];
      assert forall k :: 0 <= k < n ==> (Lands(flat, before, k) <==> Lands(flat, es, k));
      LastInsertDecides(flat, before, p, i);
      assert Lands(flat, es, n) ==> !Under(es[n].At(), p);
    }
  }

  /** A path that no entry lands at or above keeps its node, or its absence, over the whole load. */
  lemma {:induction false} UntouchedPathsStay(flat: Flat, es: seq<Placed>, p: Path)
    requires LoadAll(flat, es).Loaded?
    requires forall j :: 0 <= j < |es| && Lands(flat, es, j) ==> !Under(es[j].At(), p)
    ensures p in LoadAll(flat, es).flat <==> p in flat
    ensures p in flat ==> LoadAll(flat, es).flat[p] == flat[p]
    decreases |es|
  {
    if es != [] {
      LoadLast(flat, es);
      var n := |es| - 1;
      var before := es[..n];
      assert forall k :: 0 <= k <= n ==> before[..k] == es[..k];
      assert forall k :: 0 <= k < n ==> (Lands(flat, before, k) <==> Lands(flat, es, k));
      UntouchedPathsStay(flat, before, p);
      assert Lands(flat, es, n) ==> !Under(es[n].At(), p);
    }
  }

  // ---------- names ----------

  /** Every node but the root has the last name of its path, unless that is empty. */
  ghost predicate WellNamed(flat: Flat) {
    forall p <- flat :: p != [] && p[|p| - 1] != [] ==> flat[p].info.name == p[|p| - 1]
  }

  /** After any load of any archive, the nodes are well named. */
  lemma {:induction false} LoadKeepsNames(flat: Flat, es: seq<Placed>)
    requires WellNamed(flat) && LoadAll(flat, es).Loaded?
    requires forall e <- es :: e.name != [] ==> e.node.info.name == e.name
    ensures WellNamed(LoadAll(flat, es).flat)
    decreases |es|
  {
    if es != [] {
      assert es[0] in es && es[0].At()[|es[0].At()| - 1] == es[0].name;
      LoadKeepsNames(LoadOne(flat, es[0]).flat, es[1..]);
    }
  }

  lemma LoadedIsWellNamed(root: Node, entries: seq<ZipEntry>)
    requires LoadAll(map[[] := root], PlaceAll(entries)).Loaded?
    ensures WellNamed(LoadAll(map[[] := root], PlaceAll(entries)).flat)
  {
    forall i | 0 <= i < |entries|
      ensures PlaceAll(entries)[i].name != [] ==> PlaceAll(entries)[i].node.info.name == PlaceAll(entries)[i].name
    {
      NamedByPlace(entries[i]);
    }
    hide PlaceOf, LoadAll;
    LoadKeepsNames(map[[] := root], PlaceAll(entries));
  }

  // ---------- a closed archive ----------

  /** The nodes once the archive is closed: none of them opens any more. */
  function Sealed(flat: Flat): (r: Flat)
    ensures r.Keys == flat.Keys
  {
    map p | p in flat :: flat[p].(opens := false)
  }

  lemma SealedKeepsShape(flat: Flat)
    ensures TreeShaped(Sealed(flat)) <==> TreeShaped(flat)
    ensures WellNamed(Sealed(flat)) <==> WellNamed(flat)
  {
    assert forall p <- flat :: Sealed(flat)[p].info == flat[p].info;
  }

  // ---------- listings ----------

  /** The infos are those of a path's children, each exactly once, in the order of their names. */
  ghost predicate OrderedBy(flat: Flat, p: Path, fi: seq<Info>, names: seq<Str>) {
    && |names| == |fi|
    && (forall i, j :: 0 <= i < j < |names| ==> names[i] != names[j])
    && (forall x: Str :: x in names <==> p + [x] in flat)
    && (forall i :: 0 <= i < |fi| ==> p + [names[i]] in flat && fi[i] == flat[p + [names[i]]].info)
  }

  ghost predicate IsListing(flat: Flat, p: Path, fi: seq<Info>) {
    exists names: seq<Str> :: OrderedBy(flat, p, fi, names)
  }

  /** The names of a listing are the directory's, each once. */
  lemma ListingNames(flat: Flat, p: Path, fi: seq<Info>, ns: seq<Str>)
    requires IsListing(flat, p, fi) && WellNamed(flat) && p + [[]] !in flat
    requires |ns| == |fi| && forall i :: 0 <= i < |fi| ==> ns[i] == fi[i].name
    ensures NamesOf(flat, p, ns)
  {
    var names: seq<Str> :| OrderedBy(flat, p, fi, names);
    forall i | 0 <= i < |fi|
      ensures ns[i] == names[i]
    {
      ListedName(flat, p, fi, names, i);
    }
    assert ns == names;
  }

  lemma ListedName(flat: Flat, p: Path, fi: seq<Info>, names: seq<Str>, i: nat)
    requires OrderedBy(flat, p, fi, names) && WellNamed(flat) && p + [[]] !in flat && i < |fi|
    ensures fi[i].name == names[i]
  {
    var q := p + [names[i]];
    assert names[i] in names && q in flat && q[|q| - 1] == names[i];
  }

  /** The names are those of the path's children, each exactly once. */
  ghost predicate NamesOf(flat: Flat, p: Path, ns: seq<Str>) {
    && (forall x: Str :: x in ns <==> p + [x] in flat)
    && (forall i, j :: 0 <= i < j < |ns| ==> ns[i] != ns[j])
  }

  // ---------- lookup ----------

  /** A lookup ends at a path, finds nothing, or follows links deeper than its allowance; the last
      is Go's unbounded recursion when no allowance is enough. */
  datatype Lookup = Found(path: Path) | Missing | TooDeep

  /** Lookup without following links. */
  function Find(flat: Flat, names: seq<Str>): Lookup {
    if names in flat then Found(names) else Missing
  }

  /** The node whose children are searched next: a link is replaced by what its target resolves to. */
  function Base(flat: Flat, cwd: Path, depth: nat): Lookup
    decreases depth, 0, 0
  {
    if !IsLink(flat, cwd) then Found(cwd)
    else if depth == 0 then TooDeep
    else Walk(flat, [], Walked(flat[cwd].content), depth - 1)
  }

  /** `fetchNode` with links followed, from `cwd` down the names; `depth` bounds how deep link targets
      are nested in one another. The last name is never followed. */
  function Walk(flat: Flat, cwd: Path, names: seq<Str>, depth: nat): Lookup
    decreases depth, |names|, 1
  {
    if names == [] then Found(cwd)
    else match Base(flat, cwd, depth)
      case Found(q) =>
        if q + [names[0]] in flat then Walk(flat, q + [names[0]], names[1..], depth) else Missing
      case other => other
  }
}
