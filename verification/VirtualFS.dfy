/** The virtual filesystem as the program builds it (`virtualfs/filesystem.go`): nodes with child
    maps, searched name by name, proved against the flat map of `FlatTree`. */
module VirtualFS {
  import opened GoBytes
  import opened Paths
  import opened VirtualFile
  import opened FlatTree
  import opened SymLinks

  datatype CreateResult = Created | LinkUnread | ParentMissing | NilMap

  /** The permission bits of a directory open to all, as `fileModeToBit` gives them. */
  const OPEN_DIRECTORY := 0x41FF

  /** `rootInfo`, which has no extra field. */
  function RootInfo(): Info {
    Info([SLASH], [], Directory, 0, OPEN_DIRECTORY, None)
  }

  /** The root is no entry of the archive. */
  function RootNode(): Node {
    Node(RootInfo(), [], false)
  }

  class Tree {
    const root: File
    const archive: Archive
    /** Every node of the tree by its path. */
    ghost var nodes: map<Path, File>

    /** The node map is exactly what walking child maps from the root reaches: one path a node,
        children where the map has longer paths, every file valid. */
    ghost predicate Valid()
      reads this, nodes.Values, archive
    {
      && [] in nodes && nodes[[]] == root
      && AllValid(nodes.Values, archive)
      && Injective(nodes)
      && Linked(nodes, Kids())
      && TreeShaped(FlatMap())
    }

    ghost function Kids(): map<Path, map<Str, File>>
      reads this`nodes, nodes.Values`children
    {
      KidsOf(nodes)
    }

    /** The meaning of the tree. */
    ghost function FlatMap(): Flat
      reads this`nodes, archive`open
    {
      FlatOf(nodes, archive.open)
    }

    constructor (archive: Archive)
      requires archive.open
      ensures Valid() && fresh(root) && nodes == map[[] := root] && this.archive == archive
      ensures FlatMap() == map[[] := RootNode()] && root.reader == None
    {
      hide AllValid, Injective, Linked, TreeShaped, KidsOf, FlatOf;
      this.archive := archive;
      root := new File(RootInfo(), [], archive, false);
      new;
      OneNode(root);
      nodes := map[[] := root];
    }

    /** The root, and one step down from a node, in the flat map's terms. */
    lemma RootIsFlat()
      requires Valid()
      ensures [] in nodes && nodes[[]] == root
      ensures TreeShaped(FlatMap()) && nodes.Keys == FlatMap().Keys
    {
    }

    lemma StepIsFlat(at: Path, name: Str)
      requires Valid() && at in nodes
      ensures at in Kids() && Kids()[at] == nodes[at].children
      ensures at in FlatMap() && FlatMap()[at] == NodeOf(nodes[at], archive.open) && nodes[at].archive == archive
      ensures name in nodes[at].children <==> at + [name] in FlatMap()
      ensures name in nodes[at].children ==> at + [name] in nodes && nodes[at].children[name] == nodes[at + [name]]
    {
      assert Kids()[at] == nodes[at].children;
    }

    /** `fetchNode`: finds the node the flat lookup names. The recursion through links is bounded by
        the allowance the lookup needs. */
    method FetchNode(path: Str, follow: bool, ghost depth: nat) returns (node: File?)
      requires Valid()
      requires follow ==> Walk(FlatMap(), [], Walked(path), depth) != TooDeep
      ensures var found := if follow then Walk(FlatMap(), [], Walked(path), depth) else Find(FlatMap(), Walked(path));
              match found
              case Found(p) => p in nodes && node == nodes[p]
              case _ => node == null
      decreases depth
    {
      hide Walked, TreeShaped, Valid, FlatMap, Walk, Base;
      var dirs := Walked(path);
      ghost var flat := FlatMap();
      RootIsFlat();
      var cwd := root;
      ghost var at: Path := [];
      var i := 0;
      assert dirs[0..] == dirs && dirs[..0] == [];
      while i < |dirs|
        invariant 0 <= i <= |dirs|
        invariant at in nodes && cwd == nodes[at]
        invariant !follow ==> at == dirs[..i]
        invariant follow ==> Walk(flat, [], dirs, depth) == Walk(flat, at, dirs[i..], depth)
      {
        StepIsFlat(at, dirs[i]);
        if follow {
          WalkStep(flat, at, dirs, i, depth);
        }
        if cwd.info.kind == Link && follow {
          var target := FetchNode(cwd.content, true, depth - 1);
          if target == null {
            return null;
          }
          cwd, at := target, Walk(flat, [], Walked(cwd.content), depth - 1).path;
          StepIsFlat(at, dirs[i]);
        }
        if dirs[i] !in cwd.children {
          if !follow {
            StepsMissing(flat, dirs, i);
          }
          return null;
        }
        cwd, at := cwd.children[dirs[i]], at + [dirs[i]];
        i := i + 1;
        assert !follow ==> at == dirs[..i];
      }
      assert dirs[..i] == dirs && dirs[i..] == [];
      if follow {
        WalkDone(flat, at, depth);
      }
      return cwd;
    }

    /** `createNode`: the new node takes the place of an earlier one and of everything below it; the
        rest of the tree stays. */
    method CreateNode(e: ZipEntry) returns (r: CreateResult)
      requires Valid() && archive.open && Untouched(nodes.Values) && e.info.size == |e.content|
      modifies this`nodes, nodes.Values`children
      ensures r == NilMap <==> !Unread(PlaceOf(e)) && PlaceOf(e).dir in old(FlatMap())
                               && old(FlatMap())[PlaceOf(e).dir].info.kind != Directory
      ensures r == LinkUnread <==> Unread(PlaceOf(e))
      ensures r == ParentMissing <==> !Unread(PlaceOf(e)) && PlaceOf(e).dir !in old(FlatMap())
      ensures r != NilMap ==>
                Valid() && FlatMap() == if r == Created then Insert(old(FlatMap()), PlaceOf(e).At(), PlaceOf(e).node)
                                        else old(FlatMap())
      ensures Untouched(nodes.Values)
      ensures fresh(nodes.Values - old(nodes.Values))
    {
      hide Walked, Valid, FlatMap, Untouched, WithoutTrailingSlash, DirLength, BaseName, Insert;
      var n := new File(EntryInfo(e), e.content, archive, e.opens);
      if n.info.kind == Link && !n.Opens() {
        return LinkUnread;
      }
      var full := [SLASH] + WithoutTrailingSlash(e.header);
      var cut := DirLength(full);
      assert PlaceOf(e) == Placed(Walked(full[..cut]), full[cut..], NodeOf(n, true));
      r := PlaceNode(n, full[..cut], full[cut..]);
    }

    /** The second half of `createNode`: the node goes into the child map of its directory. */
    method PlaceNode(n: File, dir: Str, nodeName: Str) returns (r: CreateResult)
      requires Valid() && archive.open && Untouched(nodes.Values)
      requires n.Valid() && n.children == map[] && n !in nodes.Values && n.archive == archive && n.reader == None
      modifies this`nodes, nodes.Values`children
      ensures var flat, at := old(FlatMap()), Walked(dir);
              && r == (if at !in flat then ParentMissing
                       else if flat[at].info.kind != Directory then NilMap else Created)
              && (r != NilMap ==> Valid())
              && (r == ParentMissing ==> FlatMap() == flat)
              && (r == Created ==> FlatMap() == Insert(flat, at + [nodeName], NodeOf(n, true)))
      ensures Untouched(nodes.Values) && nodes.Values <= old(nodes.Values) + {n}
    {
      hide Walked, Valid, FlatMap, Insert, Untouched, KidsOf, TreeShaped;
      RootIsFlat();
      var parent := FetchNode(dir, false, 0);
      ghost var at, before := Walked(dir), nodes;
      if parent == null {
        return ParentMissing;
      }
      StepIsFlat(at, nodeName);
      if parent.info.kind != Directory {
        return NilMap;
      }
      Attach(parent, at, nodeName, n);
      OneMoreUntouched(before.Values, n, nodes.Values);
      r := Created;
    }

    lemma FilesAreValid()
      requires Valid()
      ensures forall p <- nodes :: nodes[p].Valid()
      ensures forall p, q :: p in nodes && q in nodes && nodes[p] == nodes[q] ==> p == q
      ensures nodes.Keys == FlatMap().Keys
    {
    }

    /** Reading a node of the tree, through whichever user, leaves the tree what it was. */
    method ReadNode(file: File, ghost at: Path, n: nat, off: int) returns (r: ReadResult)
      requires Valid() && at in nodes && file == nodes[at]
      modifies file`buf, file`reader
      ensures Valid()
      ensures r == PlainReadAt(file.info.kind, file.content, file.closed, file.Opens(), off, n)
    {
      FilesAreValid();
      hide TreeShaped, Linked, KidsOf, FlatOf, PlainReadAt, Injective;
      r := file.ReadAt(n, off);
    }

    /** Closing a node shuts it for every user, and no other node. */
    method CloseNode(file: File, ghost at: Path)
      requires Valid() && at in nodes && file == nodes[at]
      modifies file`closed, file`buf, file`reader
      ensures Valid()
      ensures forall p <- nodes :: nodes[p].closed <==> p == at || old(nodes[p].closed)
    {
      FilesAreValid();
      hide TreeShaped, Linked, KidsOf, FlatOf, Injective;
      file.Close();
    }

    /** `Readdir(-1)`: the children in whatever order the map gives them, each once. */
    method ReadDirNode(file: File, ghost at: Path) returns (fi: seq<Info>)
      requires Valid() && at in nodes && file == nodes[at]
      ensures IsListing(FlatMap(), at, fi)
    {
      hide Valid, FlatMap, Listed;
      fi := [];
      ghost var names := [];
      NoneListed(file.children);
      var rest := file.children.Keys;
      while rest != {}
        invariant rest <= file.children.Keys
        invariant Listed(file.children, rest, names, fi)
        decreases rest
      {
        var name :| name in rest;
        OneMoreListed(file.children, rest, names, fi, name);
        fi := fi + [file.children[name].info];
        names := names + [name];
        rest := rest - {name};
      }
      AllListed(at, names, fi);
    }

    /** A listing of all children is one of the flat map's. */
    lemma AllListed(at: Path, names: seq<Str>, fi: seq<Info>)
      requires Valid() && at in nodes && Listed(nodes[at].children, {}, names, fi)
      ensures IsListing(FlatMap(), at, fi)
    {
      hide Valid, FlatMap;
      forall name: Str {
        StepIsFlat(at, name);
      }
      forall i | 0 <= i < |fi|
        ensures at + [names[i]] in FlatMap() && fi[i] == FlatMap()[at + [names[i]]].info
      {
        StepIsFlat(at, names[i]);
        StepIsFlat(at + [names[i]], names[i]);
      }
      assert OrderedBy(FlatMap(), at, fi, names);
    }

    /** The assignment `parent.children[name] = n`: an earlier node of that name goes, with its
        subtree, and the tree means the flat map with that insertion. */
    method Attach(parent: File, ghost at: Path, name: Str, n: File)
      requires Valid() && at in nodes && parent == nodes[at] && parent.info.kind == Directory
      requires n.Valid() && n.children == map[] && n !in nodes.Values && n.archive == archive
      modifies this`nodes, parent`children
      ensures Valid()
      ensures FlatMap() == Insert(old(FlatMap()), at + [name], NodeOf(n, archive.open))
      ensures nodes.Values <= old(nodes.Values) + {n}
    {
      hide TreeShaped, Linked, Insert, Replaced, Under, AllValid, KidsOf, FlatOf, Injective;
      RootIsFlat();
      StepIsFlat(at, name);
      ghost var target := at + [name];
      assert Parent(target) == at;
      TargetIsNew(at, name);
      InsertKeepsShape(FlatMap(), target, NodeOf(n, archive.open));
      LinkedAfterInsert(nodes, Kids(), at, name, n);
      InjectiveAfterInsert(nodes, target, n);
      FlatOfReplaced(nodes, target, n, archive.open);
      ReplacedValues(nodes, target, n);
      ghost var newNodes := Replaced(nodes, target, n);
      ghost var newKids := Replaced(Kids()[at := nodes[at].children[name := n]], target, map[]);
      assert AllValid(newNodes.Values, archive) by {
        StillValid(nodes.Values, n, newNodes.Values, archive);
      }
      SetChild(parent, at, name, n);
      assert newKids == Replaced(Kids(), target, n.children);
      KidsOfReplaced(nodes, target, n);
      nodes := newNodes;
      assert Kids() == newKids;
    }

    /** The archive is closed while no entry is being read. */
    method CloseArchive()
      requires Valid() && archive.open && Untouched(nodes.Values)
      modifies archive
      ensures Valid() && !archive.open && FlatMap() == Sealed(old(FlatMap()))
    {
      hide Linked, KidsOf, FlatOf, Injective, TreeShaped;
      FlatOfClosed(nodes);
      SealedKeepsShape(FlatMap());
      archive.Close();
    }

    method SetChild(parent: File, ghost at: Path, name: Str, n: File)
      requires Injective(nodes) && at in nodes && parent == nodes[at] && n !in nodes.Values
      modifies parent`children
      ensures Kids() == old(Kids())[at := old(parent.children)[name := n]]
      ensures n.children == old(n.children)
    {
      parent.children := parent.children[name := n];
    }
  }

  /** The children but those in `rest` are listed, each once. */
  ghost predicate Listed(children: map<Str, File>, rest: set<Str>, names: seq<Str>, fi: seq<Info>) {
    && |names| == |fi|
    && (forall i :: 0 <= i < |fi| ==> names[i] in children && fi[i] == children[names[i]].info)
    && (forall x :: x in names <==> x in children.Keys - rest)
    && (forall i, j :: 0 <= i < j < |names| ==> names[i] != names[j])
  }

  lemma NoneListed(children: map<Str, File>)
    ensures Listed(children, children.Keys, [], [])
  {
  }

  lemma OneMoreListed(children: map<Str, File>, rest: set<Str>, names: seq<Str>, fi: seq<Info>, name: Str)
    requires Listed(children, rest, names, fi) && rest <= children.Keys && name in rest
    ensures Listed(children, rest - {name}, names + [name], fi + [children[name].info])
  {
    var more := names + [name];
    assert forall x :: x in more <==> x in names || x == name;
    assert name !in names;
  }

  /** A tree of one directory. */
  lemma OneNode(f: File)
    requires f.Valid() && f.children == map[] && f.info.kind == Directory
    ensures var m: map<Path, File> := map[[] := f];
            && AllValid(m.Values, f.archive) && Injective(m) && Linked(m, KidsOf(m))
            && (forall open :: FlatOf(m, open) == map[[] := NodeOf(f, open)] && TreeShaped(FlatOf(m, open)))
  {
    var m: map<Path, File> := map[[] := f];
    assert m[[]] == f && forall g <- m.Values :: g == f;
    forall open: bool
      ensures FlatOf(m, open) == map[[] := NodeOf(f, open)] && TreeShaped(FlatOf(m, open))
    {
      assert FlatOf(m, open)[[]] == NodeOf(f, open);
    }
  }

  ghost predicate AllValid(files: set<File>, archive: Archive)
    reads files`reader, files`buf, archive`open
  {
    forall f <- files :: f.archive == archive && f.Valid()
  }

  /** No entry is being read. */
  ghost predicate Untouched(files: set<File>)
    reads files`reader
  {
    forall f <- files :: f.reader == None
  }

  lemma OneMoreUntouched(files: set<File>, n: File, after: set<File>)
    requires Untouched(files) && n.reader == None && after <= files + {n}
    ensures Untouched(after)
  {
  }

  lemma StillValid(files: set<File>, n: File, after: set<File>, archive: Archive)
    requires AllValid(files, archive) && n.Valid() && n.archive == archive && after <= files + {n}
    ensures AllValid(after, archive)
  {
  }

  ghost function KidsOf(nodes: map<Path, File>): map<Path, map<Str, File>>
    reads nodes.Values`children
  {
    map p | p in nodes :: nodes[p].children
  }

  lemma KidsOfReplaced(nodes: map<Path, File>, target: Path, n: File)
    ensures KidsOf(Replaced(nodes, target, n)) == Replaced(KidsOf(nodes), target, n.children)
  {
  }

  lemma ReplacedValues<T>(m: map<Path, T>, target: Path, value: T)
    ensures Replaced(m, target, value).Values <= m.Values + {value}
  {
  }

  /** What a node means, while the archive is open or once it is closed. */
  ghost function NodeOf(f: File, open: bool): Node {
    Node(f.info, f.content, f.supported && open)
  }

  /** What a node map means as a flat map. */
  ghost function FlatOf(nodes: map<Path, File>, open: bool): Flat {
    map p | p in nodes :: NodeOf(nodes[p], open)
  }

  lemma FlatOfReplaced(nodes: map<Path, File>, target: Path, n: File, open: bool)
    ensures FlatOf(Replaced(nodes, target, n), open) == Insert(FlatOf(nodes, open), target, NodeOf(n, open))
  {
  }

  /** The children of every node are the one-longer paths of the node map. */
  ghost predicate Linked(nodes: map<Path, File>, kids: map<Path, map<Str, File>>) {
    && kids.Keys == nodes.Keys
    && forall p: Path, x: Str :: p in nodes ==>
         && (x in kids[p] <==> p + [x] in nodes)
         && (x in kids[p] ==> kids[p][x] == nodes[p + [x]])
  }

  ghost predicate Injective(nodes: map<Path, File>) {
    forall p, q :: p in nodes && q in nodes && nodes[p] == nodes[q] ==> p == q
  }

  /** A map of paths with a new value at `target` and nothing below it. */
  ghost function Replaced<T>(m: map<Path, T>, target: Path, value: T): (r: map<Path, T>)
    ensures target in r && r[target] == value
    ensures forall q :: q in r && q != target ==> q in m && r[q] == m[q]
    ensures forall q <- m :: !Under(target, q) ==> q in r && r[q] == m[q]
    ensures r.Keys == set q | q in m.Keys + {target} && (q == target || !Under(target, q))
  {
    (map q | q in m && !Under(target, q) :: m[q])[target := value]
  }

  lemma LinkedAfterInsert(nodes: map<Path, File>, kids: map<Path, map<Str, File>>, at: Path, name: Str, n: File)
    requires Linked(nodes, kids) && at in nodes
    ensures Linked(Replaced(nodes, at + [name], n),
                   Replaced(kids[at := kids[at][name := n]], at + [name], map[]))
  {
    var target := at + [name];
    var nodes', kids' := Replaced(nodes, target, n), Replaced(kids[at := kids[at][name := n]], target, map[]);
    hide Replaced, Under, Linked;
    TargetIsNew(at, name);
    forall p, x | p in nodes'
      ensures x in kids'[p] <==> p + [x] in nodes'
      ensures x in kids'[p] ==> kids'[p][x] == nodes'[p + [x]]
    {
      if p == target {
        BelowTarget(target, x);
      } else {
        SnocPrefix(target, at, name, p, x);
        LinkedAway(nodes, kids, at, name, n, p, x);
      }
    }
    LinkedByPoints(nodes', kids');
  }

  lemma LinkedByPoints(nodes: map<Path, File>, kids: map<Path, map<Str, File>>)
    requires kids.Keys == nodes.Keys
    requires forall p: Path, x: Str :: p in nodes ==>
               (x in kids[p] <==> p + [x] in nodes) && (x in kids[p] ==> kids[p][x] == nodes[p + [x]])
    ensures Linked(nodes, kids)
  {
  }

  lemma LinkedAway(nodes: map<Path, File>, kids: map<Path, map<Str, File>>, at: Path, name: Str, n: File,
                   p: Path, x: Str)
    requires Linked(nodes, kids) && at in nodes && p in nodes
    requires !Under(at + [name], p) && (Under(at + [name], p + [x]) ==> p == at && x == name)
    ensures var target := at + [name];
            var nodes' := Replaced(nodes, target, n);
            var kids' := Replaced(kids[at := kids[at][name := n]], target, map[]);
            && p in nodes' && p in kids'
            && (x in kids'[p] <==> p + [x] in nodes')
            && (x in kids'[p] ==> kids'[p][x] == nodes'[p + [x]])
  {
    hide Replaced;
    if Under(at + [name], p + [x]) {
      hide Under;
    } else {
      assert p + [x] != at + [name] by {
        assert Under(at + [name], at + [name]);
      }
      hide Under;
      assert p == at ==> x != name;
    }
  }

  lemma InjectiveAfterInsert(nodes: map<Path, File>, target: Path, n: File)
    requires Injective(nodes) && n !in nodes.Values
    ensures Injective(Replaced(nodes, target, n))
  {
  }

  lemma BelowTarget(target: Path, x: Str)
    ensures Under(target, target + [x]) && target + [x] != target
  {
  }

  lemma TargetIsNew(at: Path, name: Str)
    ensures !Under(at + [name], at) && !Under(at + [name], [])
  {
  }

  lemma SnocPrefix(target: Path, at: Path, name: Str, p: Path, x: Str)
    requires target == at + [name] && !Under(target, p)
    ensures Under(target, p + [x]) ==> p == at && x == name
  {
    if target <= p + [x] {
      assert |target| == |p| + 1;
      assert target == p + [x];
      assert (p + [x])[..|p|] == p && target[..|at|] == at;
      assert (p + [x])[|p|] == x;
    }
  }

  /** The tree of a closed archive means the sealed flat map. */
  lemma FlatOfClosed(nodes: map<Path, File>)
    ensures FlatOf(nodes, false) == Sealed(FlatOf(nodes, true))
  {
  }

  /** `NewVirtualFS`: loads the entries of an archive; no tree when a load step panics. The archive is
      closed when it returns, so none of the entries opens any more. */
  method NewVirtualFS(entries: seq<ZipEntry>) returns (fs: Tree?)
    requires forall e <- entries :: e.info.size == |e.content|
    ensures var loaded := LoadAll(map[[] := RootNode()], PlaceAll(entries));
            if fs == null then loaded.Panicked?
            else loaded.Loaded? && fs.Valid() && !fs.archive.open && fs.FlatMap() == Sealed(loaded.flat)
    ensures fs != null ==> fresh(fs) && fresh(fs.nodes.Values) && fresh(fs.archive)
  {
    hide LoadOne, Insert, Tree.Valid, Tree.FlatMap, PlaceOf;
    var archive := new Archive();
    var t := new Tree(archive);
    assert Untouched(t.nodes.Values);
    ghost var start := t.FlatMap();
    var i := 0;
    ghost var placed := PlaceAll(entries);
    assert placed[0..] == placed;
    while i < |entries|
      invariant 0 <= i <= |entries|
      invariant t.Valid() && t.archive == archive && archive.open
      invariant fresh(archive) && fresh(t) && fresh(t.nodes.Values)
      invariant Untouched(t.nodes.Values)
      invariant LoadAll(start, placed) == LoadAll(t.FlatMap(), placed[i..])
    {
      assert placed[i..][0] == PlaceOf(entries[i]) && placed[i..][1..] == placed[i + 1..];
      LoadCases(t.FlatMap(), placed[i]);
      var r := t.CreateNode(entries[i]);
      if r == NilMap {
        return null;
      }
      i := i + 1;
    }
    t.CloseArchive();
    return t;
  }
}
