/** Which trees the SCP source sends right, and which it keeps in balance: conditions on the tree and on
    the path of the walk, from the paths that the walk compares. */
module ScpShapes {
  import opened GoBytes
  import opened Paths
  import opened ScpTree
  import opened ScpSource

  // ---------- the paths of a walk ----------

  /** The clean path of a node below the root of the walk. */
  function Here(root: Str, at: seq<Str>): Str {
    Show(IsAbs(root), Comps(root) + at)
  }

  lemma HereIsNormal(root: Str, at: seq<Str>)
    requires AllPlain(at)
    ensures Normal(IsAbs(root), Comps(root) + at)
    ensures IsAbs(Here(root, at)) == IsAbs(root) && Comps(Here(root, at)) == Comps(root) + at
  {
    hide Normal, Comps, Show;
    CompsAreNormal(root);
    NormalPlain(IsAbs(root), Comps(root), at);
    ShownComps(IsAbs(root), Comps(root) + at);
  }

  lemma HereRoot(root: Str)
    ensures Here(root, []) == Clean(root)
  {
    hide Normal, Comps, Show, Clean;
    CompsAreNormal(root);
    assert Comps(root) + [] == Comps(root);
  }

  /** The walk's paths, joined name by name, are clean. */
  lemma {:induction false} PathIsHere(root: Str, at: seq<Str>)
    requires AllPlain(at) && at != []
    ensures PathAt(root, at) == Here(root, at)
  {
    hide JoinPath, Comps, Show, Plain;
    var n := |at| - 1;
    var up, name := Up(at), at[n];
    assert Plain(name);
    if up == [] {
      JoinShown(root, name);
      assert Comps(root) + at == Comps(root) + [name];
    } else {
      PathIsHere(root, up);
      HereIsNormal(root, up);
      JoinShown(Here(root, up), name);
      assert Comps(root) + up + [name] == Comps(root) + at;
    }
  }

  lemma {:induction false} SplitHas(s: Str, sep: byte, c: byte)
    requires c !in s
    ensures forall p <- Split(s, sep) :: c !in p
  {
    if s != [] {
      SplitHas(s[1..], sep, c);
    }
  }

  lemma {:induction false} PushAllHas(kept: seq<Str>, cs: seq<Str>, rooted: bool, c: byte)
    requires (forall p <- kept :: c !in p) && (forall p <- cs :: c !in p)
    ensures forall p <- PushAll(kept, cs, rooted) :: c !in p
    decreases |cs|
  {
    if cs != [] {
      PushAllHas(Push(kept, cs[0], rooted), cs[1..], rooted, c);
    }
  }

  /** Names without backslashes: the callback sees the walk's own path. */
  lemma SeenIsHere(root: Str, at: seq<Str>, t: Tree)
    requires AllPlain(at) && at != [] && Portable(at) && BACKSLASH !in root
    ensures Seen(root, Visit(at, t)) == Here(root, at)
  {
    hide PathAt, PushAll, Joined, Pieces, Plain;
    PathIsHere(root, at);
    SplitHas(root, SLASH, BACKSLASH);
    assert Pieces(root) == Split(root, SLASH) by {
      PiecesAreSplit(root);
    }
    PushAllHas([], Pieces(root), IsAbs(root), BACKSLASH);
    JoinedHas(Comps(root) + at, BACKSLASH);
    assert BACKSLASH !in DOTNAME;
  }

  lemma PiecesAreSplit(s: Str)
    ensures Pieces(s) == Split(s, SLASH)
  {
  }

  lemma DirHere(root: Str, dir: seq<Str>, n: Str)
    requires AllPlain(dir) && Plain(n)
    ensures DirOf(Here(root, dir + [n])) == Here(root, dir)
  {
    hide Normal, Comps, Show, DirOf, Plain;
    HereIsNormal(root, dir);
    DirShown(IsAbs(root), Comps(root) + dir, n);
    assert Comps(root) + dir + [n] == Comps(root) + (dir + [n]);
  }

  /** What a node's path starts with. */
  function Stem(root: Str, dir: seq<Str>): Str {
    if Comps(root) + dir == [] then (if IsAbs(root) then [SLASH] else []) else Here(root, dir) + [SLASH]
  }

  lemma HereSnoc(root: Str, dir: seq<Str>, n: Str)
    ensures Here(root, dir + [n]) == Stem(root, dir) + n
  {
    hide Comps, Show;
    ShowSnoc(IsAbs(root), Comps(root) + dir, n);
    assert Comps(root) + dir + [n] == Comps(root) + (dir + [n]);
  }

  /** A path starts with its directory's, but for names right in the current directory. */
  lemma ChildPrefix(root: Str, dir: seq<Str>, n: Str)
    requires dir != [] || Clean(root) != DOTNAME
    ensures Here(root, dir) <= Here(root, dir + [n])
  {
    hide Comps, Clean;
    HereSnoc(root, dir, n);
    if Comps(root) + dir == [] {
      HereRoot(root);
      RootIsSlash();
    }
  }

  lemma SiblingPrefix(root: Str, dir: seq<Str>, a: Str, b: Str)
    ensures Here(root, dir + [a]) <= Here(root, dir + [b]) <==> a <= b
  {
    hide Here, Stem;
    HereSnoc(root, dir, a);
    HereSnoc(root, dir, b);
    PrefixCancel(Stem(root, dir), a, b);
  }

  lemma PrefixCancel(p: seq<byte>, a: seq<byte>, b: seq<byte>)
    ensures p + a <= p + b <==> a <= b
  {
    if a <= b {
      var c := b[|a|..];
      assert b == a + c;
      assert p + b == p + a + c;
    } else if |a| <= |b| {
      var i :| 0 <= i < |a| && a[i] != b[i];
      assert (p + a)[|p| + i] == a[i] && (p + b)[|p| + i] == b[i];
    }
  }

  lemma {:induction false} HereGrows(root: Str, dir: seq<Str>, open: seq<Str>)
    requires dir != [] && dir < open
    ensures Here(root, dir) + [SLASH] <= Here(root, open)
  {
    hide Here, Comps;
    var up, n := Up(open), open[|open| - 1];
    assert open == up + [n];
    HereSnoc(root, up, n);
    assert Stem(root, up) == Here(root, up) + [SLASH];
    if up != dir {
      HereGrows(root, dir, up);
    }
  }

  /** The path of something two levels down is no prefix of a path one level down. */
  lemma DeepIsNoPrefix(root: Str, dir: seq<Str>, a: Str, open: seq<Str>, b: Str)
    requires dir + [a] < open && SLASH !in b
    ensures !(Here(root, open) <= Here(root, dir + [b]))
  {
    hide Here, Stem;
    HereGrows(root, dir + [a], open);
    HereSnoc(root, dir, a);
    HereSnoc(root, dir, b);
    assert Stem(root, dir) + a + [SLASH] == Stem(root, dir) + (a + [SLASH]);
    PrefixCancel(Stem(root, dir), a + [SLASH], b);
    assert (a + [SLASH])[|a|] == SLASH;
  }

  // ---------- what the walk leaves behind ----------

  /** Where the walk is after a tree in a directory. */
  function EndOpen(dir: seq<Str>, t: Tree): seq<Str>
    decreases t
  {
    if t.FileNode? then dir
    else if t.kids == [] then dir + [t.name]
    else EndOpen(dir + [t.name], t.kids[|t.kids| - 1])
  }

  /** How deep below the directory that is. */
  function EndDepth(t: Tree): (n: nat)
    ensures t.DirNode? ==> n >= 1
  {
    if t.FileNode? then 0 else if t.kids == [] then 1 else 1 + EndDepth(t.kids[|t.kids| - 1])
  }

  lemma {:induction false} EndIsDeep(dir: seq<Str>, t: Tree)
    ensures dir <= EndOpen(dir, t) && |EndOpen(dir, t)| == |dir| + EndDepth(t)
    ensures t.DirNode? ==> dir + [t.name] <= EndOpen(dir, t)
    decreases t
  {
    if t.DirNode? && t.kids != [] {
      EndIsDeep(dir + [t.name], t.kids[|t.kids| - 1]);
    }
  }

  /** The E's that the source leaves out between two entries of a directory: it needs one for each
      level that the first leaves open, and sends one or, when the path it is in begins the next
      one's, none. */
  function Gap(prev: Tree, t: Tree): nat {
    if prev.FileNode? then 0
    else EndDepth(prev) - if EndDepth(prev) == 1 && prev.name <= t.name then 0 else 1
  }

  function GapOf(prev: Option<Tree>, t: Tree): nat {
    match prev case None => 0 case Some(p) => Gap(p, t)
  }

  function DepthOf(prev: Option<Tree>): nat {
    match prev case None => 0 case Some(p) => EndDepth(p)
  }

  /** Where the walk is between the entries of a directory. */
  function After(dir: seq<Str>, prev: Option<Tree>): seq<Str> {
    match prev case None => dir case Some(p) => EndOpen(dir, p)
  }

  function LastOf(prev: Option<Tree>, ts: seq<Tree>): Option<Tree> {
    if ts == [] then prev else Some(ts[|ts| - 1])
  }

  /** The E's left out inside a tree. */
  function Missing(t: Tree): nat
    decreases t, 1
  {
    if t.FileNode? then 0 else MissingFrom(None, t.kids)
  }

  function MissingFrom(prev: Option<Tree>, ts: seq<Tree>): nat
    decreases ts, 0
  {
    if ts == [] then 0 else GapOf(prev, ts[0]) + Missing(ts[0]) + MissingFrom(Some(ts[0]), ts[1..])
  }

  /** The rise between two entries of a directory. */
  lemma RiseBetween(root: Str, dir: seq<Str>, prev: Option<Tree>, t: Tree)
    requires Plain(t.name)
    requires dir != [] || Clean(root) != DOTNAME || (prev.Some? && prev.value.DirNode?)
    ensures Rises(Here(root, After(dir, prev)), Here(root, dir + [t.name])) == DepthOf(prev) - GapOf(prev, t)
  {
    hide Here, Clean, EndDepth, EndOpen;
    if prev.Some? && prev.value.DirNode? {
      var p := prev.value;
      EndIsDeep(dir, p);
      if EndDepth(p) == 1 {
        assert EndOpen(dir, p) == dir + [p.name];
        SiblingPrefix(root, dir, p.name, t.name);
      } else {
        DeepIsNoPrefix(root, dir, p.name, EndOpen(dir, p), t.name);
      }
    } else {
      if prev.Some? {
        FileEnds(dir, prev.value);
      }
      ChildPrefix(root, dir, t.name);
    }
  }

  lemma FileEnds(dir: seq<Str>, t: Tree)
    requires t.FileNode?
    ensures EndOpen(dir, t) == dir && EndDepth(t) == 0
  {
  }

  // ---------- straight trees ----------

  /** A tree that the source leaves by the right number of levels when this sibling follows: a file, or
      a directory that ends in a file or is empty and whose name does not begin the sibling's. */
  predicate Joins(t: Tree, next: Tree) {
    t.FileNode? || (EndsFlat(t) && !(t.name <= next.name))
  }

  predicate EndsFlat(t: Tree) {
    t.DirNode? && (t.kids == [] || t.kids[|t.kids| - 1].FileNode?)
  }

  /** Every entry but the last of every directory joins the one after it. */
  predicate Straight(t: Tree)
    decreases t, 1
  {
    t.DirNode? ==> StraightFrom(None, t.kids)
  }

  predicate StraightFrom(prev: Option<Tree>, ts: seq<Tree>)
    decreases ts, 0
  {
    ts == [] ||
    ((prev.Some? ==> Joins(prev.value, ts[0])) && Straight(ts[0]) && StraightFrom(Some(ts[0]), ts[1..]))
  }

  lemma JoinsLeavesNone(t: Tree, next: Tree)
    ensures Joins(t, next) <==> Gap(t, next) == 0
  {
    if t.DirNode? && t.kids != [] {
      assert EndDepth(t.kids[|t.kids| - 1]) == 0 <==> t.kids[|t.kids| - 1].FileNode?;
    }
  }

  /** A straight tree is one inside which the source leaves out no E. */
  lemma {:induction false} StraightMissesNone(t: Tree)
    ensures Straight(t) <==> Missing(t) == 0
    decreases t, 1
  {
    if t.DirNode? {
      StraightFromMissesNone(None, t.kids);
    }
  }

  lemma {:induction false} StraightFromMissesNone(prev: Option<Tree>, ts: seq<Tree>)
    ensures StraightFrom(prev, ts) <==> MissingFrom(prev, ts) == 0
    decreases ts, 0
  {
    if ts != [] {
      if prev.Some? {
        JoinsLeavesNone(prev.value, ts[0]);
      }
      StraightMissesNone(ts[0]);
      StraightFromMissesNone(Some(ts[0]), ts[1..]);
      hide Joins, Gap;
    }
  }

  // ---------- right below the root ----------

  /** What entering an entry of the root of the walk adds to the levels that the source has counted
      and does not need: the E's it leaves out after a directory; or the E too many that it sends when
      the path it is in, the root as asked for and after a file the clean one, does not begin the
      entry's. */
  function Gain(root: Str, prev: Option<Tree>, t: Tree): int {
    match prev
    case None => if root <= JoinPath(root, t.name) then 0 else -1
    case Some(p) => if p.DirNode? then Gap(p, t) else if Clean(root) <= JoinPath(root, t.name) then 0 else -1
  }

  /** The levels counted and not needed never run out. */
  predicate Afloat(root: Str, ts: seq<Tree>, prev: Option<Tree>, credit: int)
    decreases |ts|
  {
    ts == [] ||
    var c := credit + Gain(root, prev, ts[0]);
    c >= 0 && Afloat(root, ts[1..], Some(ts[0]), c + Missing(ts[0]))
  }

  /** The walk of a tree at this path starts with one such level, its own. */
  predicate Floats(root: Str, t: Tree) {
    t.DirNode? ==> Afloat(root, t.kids, None, 1)
  }

  /** Every entry of the root is entered right. */
  predicate TopStraight(root: Str, prev: Option<Tree>, ts: seq<Tree>)
    decreases |ts|
  {
    ts == [] ||
    (Gain(root, prev, ts[0]) == 0 && Straight(ts[0]) && TopStraight(root, Some(ts[0]), ts[1..]))
  }

  /** The source sends this tree right from this path. */
  predicate SendsRight(root: Str, t: Tree) {
    t.DirNode? ==> TopStraight(root, None, t.kids)
  }

  ghost predicate KidNames(t: Tree) {
    t.DirNode? ==> forall k <- t.kids :: GoodNames(k)
  }

  lemma JoinIsHere(root: Str, n: Str)
    requires Plain(n)
    ensures JoinPath(root, n) == Here(root, [n])
  {
    hide JoinPath, Plain;
    JoinShown(root, n);
  }

  /** After a file in it, the root's path begins the next one's, unless it is the current directory. */
  lemma AfterFile(root: Str, n: Str)
    requires Plain(n) && Clean(root) != DOTNAME
    ensures Clean(root) <= JoinPath(root, n)
  {
    hide JoinPath, Clean, Here;
    HereRoot(root);
    JoinIsHere(root, n);
    ChildPrefix(root, [], n);
    assert [] + [n] == [n];
  }

  lemma {:induction false} NeverSinks(root: Str, ts: seq<Tree>, prev: Option<Tree>, credit: int)
    requires Clean(root) != DOTNAME && (forall t <- ts :: Plain(t.name)) && credit >= if prev.None? then 1 else 0
    ensures Afloat(root, ts, prev, credit)
    decreases |ts|
  {
    if ts != [] {
      assert Plain(ts[0].name);
      AfterFile(root, ts[0].name);
      hide Clean, JoinPath, Gap, Missing;
      NeverSinks(root, ts[1..], Some(ts[0]), credit + Gain(root, prev, ts[0]) + Missing(ts[0]));
    }
  }

  /** From every path but those that mean the current directory, the walk of any tree floats. */
  lemma AlwaysFloats(root: Str, t: Tree)
    requires Clean(root) != DOTNAME && KidNames(t)
    ensures Floats(root, t)
  {
    if t.DirNode? {
      assert forall k <- t.kids :: GoodNames(k) && Plain(k.name);
      NeverSinks(root, t.kids, None, 1);
    }
  }

  lemma {:induction false} RightFloats(root: Str, ts: seq<Tree>, prev: Option<Tree>, credit: int)
    requires TopStraight(root, prev, ts) && credit >= 0
    ensures Afloat(root, ts, prev, credit)
    decreases |ts|
  {
    if ts != [] {
      hide Gain, Missing, Straight;
      RightFloats(root, ts[1..], Some(ts[0]), credit + Missing(ts[0]));
    }
  }

  /** What is sent right stays afloat. */
  lemma SendsRightFloats(root: Str, t: Tree)
    requires SendsRight(root, t)
    ensures Floats(root, t)
  {
    if t.DirNode? {
      RightFloats(root, t.kids, None, 1);
    }
  }

  lemma {:induction false} CleanTopStraight(root: Str, ts: seq<Tree>, prev: Option<Tree>)
    requires Clean(root) == root != DOTNAME && forall t <- ts :: Plain(t.name)
    ensures TopStraight(root, prev, ts) <==> StraightFrom(prev, ts)
    decreases |ts|
  {
    if ts != [] {
      assert Plain(ts[0].name);
      AfterFile(root, ts[0].name);
      if prev.Some? {
        JoinsLeavesNone(prev.value, ts[0]);
      }
      hide Clean, JoinPath, Gap, Joins, Straight;
      CleanTopStraight(root, ts[1..], Some(ts[0]));
    }
  }

  /** From a clean path other than ".", exactly the straight trees are sent right. */
  lemma CleanSendsStraight(root: Str, t: Tree)
    requires Clean(root) == root != DOTNAME && KidNames(t)
    ensures SendsRight(root, t) <==> Straight(t)
  {
    if t.DirNode? {
      assert forall k <- t.kids :: GoodNames(k) && Plain(k.name);
      CleanTopStraight(root, t.kids, None);
    }
  }

  /** A name right in the current directory is its own path. */
  lemma DotJoin(n: Str)
    requires Plain(n)
    ensures JoinPath(DOTNAME, n) == n && Clean(DOTNAME) == DOTNAME
  {
    hide JoinPath, Clean;
    NothingNormal(false);
    ShownComps(false, []);
    JoinShown(DOTNAME, n);
    assert [] + [n] == [n] && Show(false, [n]) == n;
  }

  /** Entries of "." that follow no directory are entered right exactly when their names begin with a
      dot. */
  predicate Dotted(prev: Option<Tree>, ts: seq<Tree>)
    decreases |ts|
  {
    ts == [] ||
    (((prev.Some? && prev.value.DirNode?) || DOTNAME <= ts[0].name) && Dotted(Some(ts[0]), ts[1..]))
  }

  lemma {:induction false} DotTopStraight(ts: seq<Tree>, prev: Option<Tree>)
    requires forall t <- ts :: Plain(t.name)
    ensures TopStraight(DOTNAME, prev, ts) <==> StraightFrom(prev, ts) && Dotted(prev, ts)
    decreases |ts|
  {
    if ts != [] {
      assert Plain(ts[0].name);
      DotJoin(ts[0].name);
      if prev.Some? {
        JoinsLeavesNone(prev.value, ts[0]);
      }
      hide Clean, JoinPath, Gap, Joins, Straight;
      DotTopStraight(ts[1..], Some(ts[0]));
    }
  }

  /** From ".", a straight tree is sent right exactly when, besides, it is dotted. */
  lemma DotSendsDotted(t: Tree)
    requires KidNames(t)
    ensures SendsRight(DOTNAME, t) <==> Straight(t) && (t.DirNode? ==> Dotted(None, t.kids))
  {
    if t.DirNode? {
      assert forall k <- t.kids :: GoodNames(k) && Plain(k.name);
      DotTopStraight(t.kids, None);
    }
  }

  // ---------- balance ----------

  lemma WalkParts(dir: seq<Str>, t: Tree, rest: seq<Visit>)
    ensures var vs := Walk(dir + [t.name], t) + rest;
            && vs != [] && vs[0] == Visit(dir + [t.name], t) && Up(vs[0].at) == dir
            && vs[1..] == if t.DirNode? then WalkAll(dir + [t.name], t.kids) + rest else rest
  {
  }

  lemma WalkAllParts(dir: seq<Str>, ts: seq<Tree>, rest: seq<Visit>)
    ensures WalkAll(dir, []) + rest == rest
    ensures ts != [] ==>
              WalkAll(dir, ts) + rest == Walk(dir + [ts[0].name], ts[0]) + (WalkAll(dir, ts[1..]) + rest)
    ensures ts != [] ==>
              WalkAll(dir, ts) + rest != [] && (WalkAll(dir, ts) + rest)[0] == Visit(dir + [ts[0].name], ts[0])
  {
    assert WalkAll(dir, []) == [];
  }

  /** What the source sees of a node of the tree, and where it is after it. */
  lemma SeesNode(root: Str, dir: seq<Str>, t: Tree)
    requires AllPlain(dir) && Portable(dir) && BACKSLASH !in root && GoodNames(t)
    ensures var p := Seen(root, Visit(dir + [t.name], t));
            && p == Here(root, dir + [t.name])
            && CwdAfter(p, t) == Here(root, if t.DirNode? then dir + [t.name] else dir)
    ensures AllPlain(dir + [t.name]) && Portable(dir + [t.name]) && Plain(t.name)
    ensures t.DirNode? ==> forall k <- t.kids :: GoodNames(k)
  {
    SeenIsHere(root, dir + [t.name], t);
    DirHere(root, dir, t.name);
    hide Here, DirOf, Seen;
  }

  /** Inside a tree entered at a sufficient level the walk never rises out, and it ends at a level that
      counts each E left out. */
  lemma {:induction false} TreeLevels(root: Str, dir: seq<Str>, t: Tree, rest: seq<Visit>, cwd: Str, level: int)
    requires AllPlain(dir) && Portable(dir) && BACKSLASH !in root && GoodNames(t)
    requires level - Rises(cwd, Here(root, dir + [t.name])) >= |dir|
    ensures var l := level - Rises(cwd, Here(root, dir + [t.name]));
            LevelsOk(root, Walk(dir + [t.name], t) + rest, cwd, level) <==>
            LevelsOk(root, rest, Here(root, EndOpen(dir, t)), l + EndDepth(t) + Missing(t))
    decreases t, 1
  {
    hide Here, LevelsOk, Walk, WalkAll, Seen, CwdAfter, GoodNames, AllPlain, Portable, Missing, MissingFrom, Rises;
    WalkParts(dir, t, rest);
    SeesNode(root, dir, t);
    LevelsUnfold(root, Walk(dir + [t.name], t) + rest, cwd, level);
    MissingOf(t);
    if t.DirNode? {
      var l := level - Rises(cwd, Here(root, dir + [t.name]));
      KidsLevels(root, dir + [t.name], t.kids, rest, None, l + 1);
    }
  }

  lemma MissingOf(t: Tree)
    ensures Missing(t) == if t.FileNode? then 0 else MissingFrom(None, t.kids)
    ensures t.DirNode? ==> EndDepth(t) == 1 + DepthOf(LastOf(None, t.kids))
    ensures t.DirNode? ==> forall dir: seq<Str> :: EndOpen(dir, t) == After(dir + [t.name], LastOf(None, t.kids))
  {
    hide MissingFrom;
  }

  lemma {:induction false} KidsLevels(root: Str, dir: seq<Str>, ts: seq<Tree>, rest: seq<Visit>,
                                      prev: Option<Tree>, level: int)
    requires AllPlain(dir) && Portable(dir) && BACKSLASH !in root && dir != [] && forall t <- ts :: GoodNames(t)
    requires level >= |dir| + DepthOf(prev)
    ensures LevelsOk(root, WalkAll(dir, ts) + rest, Here(root, After(dir, prev)), level) <==>
            LevelsOk(root, rest, Here(root, After(dir, LastOf(prev, ts))),
                     level - DepthOf(prev) + MissingFrom(prev, ts) + DepthOf(LastOf(prev, ts)))
    decreases ts, 0
  {
    hide Here, LevelsOk, Walk, WalkAll, GoodNames, AllPlain, Portable, Missing, Rises, GapOf;
    WalkAllParts(dir, ts, rest);
    if ts != [] {
      var t, more := ts[0], ts[1..];
      assert GoodNames(t) && forall k <- more :: k in ts;
      NameIsPlain(t);
      RiseBetween(root, dir, prev, t);
      var l := level - DepthOf(prev) + GapOf(prev, t);
      TreeLevels(root, dir, t, WalkAll(dir, more) + rest, Here(root, After(dir, prev)), level);
      KidsLevels(root, dir, more, rest, Some(t), l + EndDepth(t) + Missing(t));
    }
  }

  lemma NameIsPlain(t: Tree)
    requires GoodNames(t)
    ensures Plain(t.name)
  {
  }

  /** Where the source is before an entry of the root. */
  function TopCwd(root: Str, prev: Option<Tree>): Str {
    if prev.None? then root else Here(root, After([], prev))
  }

  lemma GainIsRise(root: Str, prev: Option<Tree>, t: Tree)
    requires Plain(t.name)
    ensures Gain(root, prev, t) == DepthOf(prev) - Rises(TopCwd(root, prev), Here(root, [] + [t.name]))
  {
    hide Here, Clean, JoinPath, EndDepth, EndOpen, Gap;
    assert [] + [t.name] == [t.name];
    JoinIsHere(root, t.name);
    if prev.Some? && prev.value.DirNode? {
      RiseBetween(root, [], prev, t);
    } else if prev.Some? {
      FileEnds([], prev.value);
      HereRoot(root);
    }
  }

  /** Below the root, the walk rises out exactly when the levels run out. */
  lemma {:induction false} TopLevels(root: Str, ts: seq<Tree>, prev: Option<Tree>, credit: int)
    requires BACKSLASH !in root && credit >= 0 && forall t <- ts :: GoodNames(t)
    ensures LevelsOk(root, WalkAll([], ts), TopCwd(root, prev), credit + DepthOf(prev)) <==>
            Afloat(root, ts, prev, credit)
    decreases |ts|
  {
    hide *;
    WalkAllParts([], ts, []);
    assert WalkAll([], ts) + [] == WalkAll([], ts);
    AfloatUnfold(root, ts, prev, credit);
    if ts == [] {
      NoVisits(root, TopCwd(root, prev), credit + DepthOf(prev));
    } else {
      var t, more := ts[0], ts[1..];
      var cwd, level := TopCwd(root, prev), credit + DepthOf(prev);
      assert GoodNames(t) && forall k <- more :: k in ts;
      assert WalkAll([], more) + [] == WalkAll([], more);
      NameIsPlain(t);
      GainIsRise(root, prev, t);
      var c := credit + Gain(root, prev, t);
      TopCwdAfter(root, t);
      NothingIsTidy();
      if c >= 0 {
        TreeLevels(root, [], t, WalkAll([], more), cwd, level);
        TopLevels(root, more, Some(t), c + Missing(t));
      } else {
        SeesNode(root, [], t);
        WalkParts([], t, WalkAll([], more));
        LevelsUnfold(root, WalkAll([], ts), cwd, level);
      }
    }
  }

  lemma AfloatUnfold(root: Str, ts: seq<Tree>, prev: Option<Tree>, credit: int)
    ensures Afloat(root, ts, prev, credit) <==>
            ts == [] ||
            var c := credit + Gain(root, prev, ts[0]);
            c >= 0 && Afloat(root, ts[1..], Some(ts[0]), c + Missing(ts[0]))
  {
    hide Gain, Missing;
  }

  lemma NothingIsTidy()
    ensures AllPlain([]) && Portable([])
  {
  }

  lemma TopCwdAfter(root: Str, t: Tree)
    ensures TopCwd(root, Some(t)) == Here(root, EndOpen([], t)) && DepthOf(Some(t)) == EndDepth(t)
  {
    hide Here, EndOpen, EndDepth;
  }

  lemma NeverRisesOutExactly(root: Str, t: Tree)
    requires BACKSLASH !in root && KidNames(t)
    ensures NeverRisesOut(root, t) <==> Floats(root, t)
  {
    hide LevelsOk, Afloat, WalkAll, GoodNames;
    if t.DirNode? {
      TopLevels(root, t.kids, None, 1);
    }
  }

  /** From every path but those that mean the current directory, for every tree and while the client
      sends no error: no prefix of the stream closes more directories than it opened, and in the end
      all are closed. */
  lemma SourceIsBalanced(root: Str, t: Tree, replies: seq<byte>)
    requires BACKSLASH !in root && KidNames(t) && AllOk(replies) && Clean(root) != DOTNAME
    ensures Balanced(Source(root, t, replies).cmds) && Source(root, t, replies).level == 0
  {
    AlwaysFloats(root, t);
    NeverRisesOutExactly(root, t);
    hide Source, Balanced, AllOk, KidNames;
    BalancesWhenItNeverRisesOut(root, t, replies);
  }

  /** From any path, for a client that answers every command: exactly the trees that float. */
  lemma SourceIsBalancedExactly(root: Str, t: Tree, replies: seq<byte>)
    requires BACKSLASH !in root && KidNames(t) && AllOk(replies) && |Source(root, t, replies).waits| <= |replies|
    ensures Balanced(Source(root, t, replies).cmds) <==> Floats(root, t)
  {
    NeverRisesOutExactly(root, t);
    hide Source, Balanced, AllOk, KidNames, NeverRisesOut, Floats;
    BalancedExactly(root, t, replies);
  }

  /** Two files in the current directory, asked for as ".", already are too much: an E comes before
      each, and only one directory is open. */
  lemma DotStrays(name: Str, mode: nat, a: Tree, b: Tree, replies: seq<byte>)
    requires a.FileNode? && b.FileNode? && GoodNames(a) && GoodNames(b)
    requires !(DOTNAME <= a.name) && !(DOTNAME <= b.name)
    requires AllOk(replies) && |Source(DOTNAME, DirNode(name, mode, [a, b]), replies).waits| <= |replies|
    ensures !Balanced(Source(DOTNAME, DirNode(name, mode, [a, b]), replies).cmds)
  {
    var t := DirNode(name, mode, [a, b]);
    DotJoin(a.name);
    DotJoin(b.name);
    hide Source, Balanced, AllOk, Clean, JoinPath;
    assert [a, b][1..] == [b] && Missing(a) == 0;
    assert Gain(DOTNAME, None, a) == -1 && Gain(DOTNAME, Some(a), b) == -1;
    assert !Afloat(DOTNAME, [b], Some(a), 0);
    SourceIsBalancedExactly(DOTNAME, t, replies);
  }
}
