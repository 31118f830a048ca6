/** When the source sends a tree's own stream. */
module ScpRoundTrip {
  import opened GoBytes
  import opened Paths
  import opened ScpTree
  import opened ScpSource
  import opened ScpShapes

  // ---------- the right stream, visit by visit ----------

  /** The directory the walk is in after a visit. */
  function OpenAfter(v: Visit): seq<Str> {
    if v.node.DirNode? || v.at == [] then v.at else Up(v.at)
  }

  /** Levels from a directory up to a depth. */
  function Drop(open: seq<Str>, depth: nat): nat {
    if |open| <= depth then 0 else |open| - depth
  }

  /** The stream of the visits with as many E's as levels are left between them; the walk is in `open`,
      below the root, and closes everything, the root too, at the end. */
  function Right(vs: seq<Visit>, open: seq<Str>): seq<byte>
    decreases |vs|
  {
    if vs == [] || vs[0].at == [] then Es(|open| + 1)
    else Es(Drop(open, |Up(vs[0].at)|)) + (Unit(vs[0].node) + Right(vs[1..], OpenAfter(vs[0])))
  }

  /** What comes next lies in `dir` or above it, or is the end. */
  ghost predicate NextAbove(vs: seq<Visit>, dir: seq<Str>) {
    vs == [] || (vs[0].at != [] && |Up(vs[0].at)| <= |dir|)
  }

  /** One E, then the others. */
  lemma EsStep(n: nat, x: seq<byte>)
    ensures Es(0) + x == x
    ensures Es(n + 1) + x == E_LINE + (Es(n) + x)
    ensures (Es(n + 1) + x)[0] == CMD_E && (Es(n + 1) + x)[2..] == Es(n) + x
  {
    assert Es(n + 1) + x == E_LINE + (Es(n) + x);
  }

  lemma RightDown(vs: seq<Visit>, dir: seq<Str>, name: Str)
    requires NextAbove(vs, dir)
    ensures Right(vs, dir + [name]) == E_LINE + Right(vs, dir)
  {
    if vs == [] {
      EsStep(|dir| + 1, []);
    } else {
      var k := |Up(vs[0].at)|;
      var tail := Unit(vs[0].node) + Right(vs[1..], OpenAfter(vs[0]));
      EsStep(Drop(dir, k), tail);
      hide Unit, Es, OpenAfter;
    }
  }

  /** A visit in the directory the walk is in needs no E. */
  lemma RightHere(vs: seq<Visit>, dir: seq<Str>)
    requires vs != [] && vs[0].at != [] && Up(vs[0].at) == dir
    ensures Right(vs, dir) == Unit(vs[0].node) + Right(vs[1..], OpenAfter(vs[0]))
  {
    hide Unit;
    assert Es(0) + (Unit(vs[0].node) + Right(vs[1..], OpenAfter(vs[0])))
        == Unit(vs[0].node) + Right(vs[1..], OpenAfter(vs[0]));
  }

  lemma OpenAfterNode(dir: seq<Str>, t: Tree)
    ensures OpenAfter(Visit(dir + [t.name], t)) == if t.DirNode? then dir + [t.name] else dir
  {
  }

  lemma KidsAreAbove(dir: seq<Str>, ts: seq<Tree>, rest: seq<Visit>)
    requires NextAbove(rest, dir)
    ensures NextAbove(WalkAll(dir, ts) + rest, dir)
  {
    WalkAllParts(dir, ts, rest);
  }

  lemma StreamParts(t: Tree, after: seq<byte>)
    ensures t.FileNode? ==> Unit(t) == Stream(t)
    ensures t.DirNode? ==> Unit(t) + (StreamAll(t.kids) + (E_LINE + after)) == Stream(t) + after
  {
    hide Line;
  }

  lemma StreamAllParts(ts: seq<Tree>, after: seq<byte>)
    ensures StreamAll([]) + after == after
    ensures ts != [] ==> Stream(ts[0]) + (StreamAll(ts[1..]) + after) == StreamAll(ts) + after
  {
    hide Stream;
  }

  /** Visit by visit or nested, the right stream of a tree is the same. */
  lemma {:induction false} RightTree(dir: seq<Str>, t: Tree, rest: seq<Visit>)
    requires NextAbove(rest, dir)
    ensures Right(Walk(dir + [t.name], t) + rest, dir) == Stream(t) + Right(rest, dir)
    decreases t, 1
  {
    hide *;
    WalkParts(dir, t, rest);
    OpenAfterNode(dir, t);
    RightHere(Walk(dir + [t.name], t) + rest, dir);
    StreamParts(t, Right(rest, dir));
    if t.DirNode? {
      StillAbove(rest, dir, t.name);
      RightAll(dir + [t.name], t.kids, rest);
      RightDown(rest, dir, t.name);
    }
  }

  lemma StillAbove(vs: seq<Visit>, dir: seq<Str>, name: Str)
    requires NextAbove(vs, dir)
    ensures NextAbove(vs, dir + [name])
  {
  }

  lemma {:induction false} RightAll(dir: seq<Str>, ts: seq<Tree>, rest: seq<Visit>)
    requires NextAbove(rest, dir)
    ensures Right(WalkAll(dir, ts) + rest, dir) == StreamAll(ts) + Right(rest, dir)
    decreases ts, 0
  {
    hide *;
    WalkAllParts(dir, ts, rest);
    StreamAllParts(ts, Right(rest, dir));
    if ts != [] {
      KidsAreAbove(dir, ts[1..], rest);
      RightAll(dir, ts[1..], rest);
      RightTree(dir, ts[0], WalkAll(dir, ts[1..]) + rest);
    }
  }

  // ---------- the source's choice ----------

  /** The source rises by one level or none; this is right when exactly that many levels are left. */
  predicate StepOk(root: Str, v: Visit, cwd: Str, open: seq<Str>) {
    v.at != [] && Drop(open, |Up(v.at)|) == Rises(cwd, Seen(root, v))
  }

  predicate AllStepsOk(root: Str, vs: seq<Visit>, cwd: Str, open: seq<Str>)
    decreases |vs|
  {
    vs == [] ||
    (StepOk(root, vs[0], cwd, open)
     && AllStepsOk(root, vs[1..], CwdAfter(Seen(root, vs[0]), vs[0].node), OpenAfter(vs[0])))
  }

  lemma Cancel(p: seq<byte>, x: seq<byte>, y: seq<byte>)
    ensures p + x == p + y <==> x == y
  {
    assert (p + x)[|p|..] == x && (p + y)[|p|..] == y;
  }

  lemma {:induction false} EsDiffer(a: nat, b: nat, x: seq<byte>, y: seq<byte>)
    requires x != [] && x[0] != CMD_E && y != [] && y[0] != CMD_E
    ensures Es(a) + x == Es(b) + y <==> a == b && x == y
  {
    hide Es;
    if a > 0 && b > 0 {
      EsDiffer(a - 1, b - 1, x, y);
      EsStep(a - 1, x);
      EsStep(b - 1, y);
      Cancel(E_LINE, Es(a - 1) + x, Es(b - 1) + y);
    } else {
      EsFirst(a, x);
      EsFirst(b, y);
    }
  }

  lemma EsFirst(n: nat, x: seq<byte>)
    requires x != [] && x[0] != CMD_E
    ensures Es(n) + x != [] && ((Es(n) + x)[0] == CMD_E <==> n > 0) && (n == 0 ==> Es(n) + x == x)
  {
    EsStep(if n > 0 then n - 1 else 0, x);
  }

  // ---------- what is sent ----------

  lemma {:induction false} ClosingSends(s: State)
    requires AllOk(s.replies) && s.level >= 0
    ensures var e := CloseLevels(s);
            && e.out == s.out + Es(s.level) && |e.waits| - |s.waits| == s.level
            && (|s.replies| >= s.level ==> |s.replies| - |e.replies| == s.level)
    decreases s.level
  {
    if s.level > 0 {
      OkReplies(s.replies);
      hide AllOk;
      ClosingSends(OneLevelLess(s));
      assert s.out + E_LINE + Es(s.level - 1) == s.out + (E_LINE + Es(s.level - 1));
    } else {
      assert s.out + [] == s.out;
    }
  }

  /** Each visit lies in the directory the walk is in or above it. */
  ghost predicate InOrder(vs: seq<Visit>, open: seq<Str>)
    decreases |vs|
  {
    vs == [] || (vs[0].at != [] && |Up(vs[0].at)| <= |open| && InOrder(vs[1..], OpenAfter(vs[0])))
  }

  /** The source is in `open`, as many levels deep as it has counted, with enough replies to come. */
  ghost predicate OnTrack(s: State, vs: seq<Visit>, open: seq<Str>) {
    !s.failed && AllOk(s.replies) && s.level == |open| + 1 && |s.replies| >= 2 * |vs| + s.level
  }

  /** A step on track: the source sends the next unit, and is still on track when it rose by the right
      number of levels. */
  lemma StepOnTrack(root: Str, s: State, vs: seq<Visit>, open: seq<Str>)
    requires OnTrack(s, vs, open) && vs != [] && InOrder(vs, open)
    ensures !s.failed
    ensures var v := vs[0];
            var e, rises := OnVisit(root, s, v), Rises(s.cwd, Seen(root, v));
            && v.at != [] && e.out == s.out + Es(rises) + Unit(v.node)
            && StepOk(root, v, s.cwd, open) == (rises == Drop(open, |Up(v.at)|))
            && (StepOk(root, v, s.cwd, open) ==>
                  OnTrack(e, vs[1..], OpenAfter(v)) && e.cwd == CwdAfter(Seen(root, v), v.node))
  {
    hide OnPath, Seen, Es, Unit, AllOk, CwdAfter;
    VisitSends(s, Seen(root, vs[0]), vs[0].node);
  }

  /** From a state on track, the rest is sent right exactly when every step rises right. */
  lemma {:induction false} SentRightExactly(root: Str, s: State, vs: seq<Visit>, open: seq<Str>)
    requires OnTrack(s, vs, open) && InOrder(vs, open)
    ensures CloseLevels(OnWalk(root, s, vs)).out == s.out + Right(vs, open) <==> AllStepsOk(root, vs, s.cwd, open)
    decreases |vs|
  {
    hide *;
    if vs == [] {
      NothingLeft(root, s, open);
    } else {
      var v, rest := vs[0], vs[1..];
      StepOnTrack(root, s, vs, open);
      OneVisit(root, s, vs, open);
      var e := OnVisit(root, s, v);
      WalkGrows(root, e, rest);
      ClosingGrows(OnWalk(root, e, rest));
      var final := CloseLevels(OnWalk(root, e, rest)).out;
      var a, b := Rises(s.cwd, Seen(root, v)), Drop(open, |Up(v.at)|);
      var unit, right := Unit(v.node), Right(rest, OpenAfter(v));
      var tail := final[|e.out|..];
      SameSend(s.out, Es(a), unit, tail, Es(b), right);
      UnitIsNotE(v.node);
      EsDiffer(a, b, unit + tail, unit + right);
      if a == b {
        SentRightExactly(root, e, rest, OpenAfter(v));
      }
    }
  }

  lemma UnitIsNotE(t: Tree)
    ensures Unit(t) != [] && Unit(t)[0] != CMD_E
  {
  }

  lemma NothingLeft(root: Str, s: State, open: seq<Str>)
    requires OnTrack(s, [], open)
    ensures CloseLevels(OnWalk(root, s, [])).out == s.out + Right([], open) && AllStepsOk(root, [], s.cwd, open)
  {
    ClosingSends(s);
    hide AllOk, Es;
  }

  /** One visit of the walk, on both sides. */
  lemma OneVisit(root: Str, s: State, vs: seq<Visit>, open: seq<Str>)
    requires vs != [] && !s.failed && InOrder(vs, open)
    ensures OnWalk(root, s, vs) == OnWalk(root, OnVisit(root, s, vs[0]), vs[1..])
    ensures vs[0].at != [] && InOrder(vs[1..], OpenAfter(vs[0]))
    ensures AllStepsOk(root, vs, s.cwd, open) <==>
            StepOk(root, vs[0], s.cwd, open)
            && AllStepsOk(root, vs[1..], CwdAfter(Seen(root, vs[0]), vs[0].node), OpenAfter(vs[0]))
    ensures Right(vs, open) ==
            Es(Drop(open, |Up(vs[0].at)|)) + (Unit(vs[0].node) + Right(vs[1..], OpenAfter(vs[0])))
  {
    hide OnVisit, Es, Unit, StepOk, CwdAfter, Seen;
  }

  lemma SameSend(out: seq<byte>, ea: seq<byte>, unit: seq<byte>, tail: seq<byte>, eb: seq<byte>, right: seq<byte>)
    ensures out + ea + unit + tail == out + (eb + (unit + right)) <==> ea + (unit + tail) == eb + (unit + right)
    ensures unit + tail == unit + right <==> tail == right
    ensures out + ea + unit + tail == out + ea + unit + right <==> tail == right
  {
    assert out + ea + unit + tail == out + (ea + (unit + tail));
    Cancel(out, ea + (unit + tail), eb + (unit + right));
    Cancel(unit, tail, right);
    Cancel(out + ea + unit, tail, right);
  }

  // ---------- which trees ----------

  /** The step into a node is right exactly when no E is left out and none is too many. */
  lemma StepOkExactly(root: Str, dir: seq<Str>, t: Tree, cwd: Str, open: seq<Str>, depth: nat)
    requires AllPlain(dir) && Portable(dir) && BACKSLASH !in root && GoodNames(t) && |open| == |dir| + depth
    ensures StepOk(root, Visit(dir + [t.name], t), cwd, open) <==> Rises(cwd, Here(root, dir + [t.name])) == depth
  {
    SeesNode(root, dir, t);
    hide Here, Seen, CwdAfter;
    assert Up(dir + [t.name]) == dir;
  }

  lemma StepsUnfold(root: Str, vs: seq<Visit>, cwd: Str, open: seq<Str>)
    requires vs != []
    ensures AllStepsOk(root, vs, cwd, open) <==>
            StepOk(root, vs[0], cwd, open)
            && AllStepsOk(root, vs[1..], CwdAfter(Seen(root, vs[0]), vs[0].node), OpenAfter(vs[0]))
  {
    hide StepOk, Seen, CwdAfter;
  }

  /** All steps of a tree's walk rise right exactly when the first does and the tree is straight. */
  lemma {:induction false} TreeStepsOk(root: Str, dir: seq<Str>, t: Tree, rest: seq<Visit>, cwd: Str, open: seq<Str>)
    requires AllPlain(dir) && Portable(dir) && BACKSLASH !in root && GoodNames(t)
    ensures AllStepsOk(root, Walk(dir + [t.name], t) + rest, cwd, open) <==>
            StepOk(root, Visit(dir + [t.name], t), cwd, open) && Straight(t)
            && AllStepsOk(root, rest, Here(root, EndOpen(dir, t)), EndOpen(dir, t))
    decreases t, 1
  {
    hide Here, AllStepsOk, StepOk, Walk, WalkAll, Seen, CwdAfter, GoodNames, AllPlain, Portable, StraightFrom,
         OpenAfter;
    WalkParts(dir, t, rest);
    SeesNode(root, dir, t);
    OpenAfterNode(dir, t);
    StepsUnfold(root, Walk(dir + [t.name], t) + rest, cwd, open);
    if t.DirNode? {
      MissingOf(t);
      KidsStepsOk(root, dir + [t.name], t.kids, rest, None);
    } else {
      FileEnds(dir, t);
    }
  }

  lemma {:induction false} KidsStepsOk(root: Str, dir: seq<Str>, ts: seq<Tree>, rest: seq<Visit>, prev: Option<Tree>)
    requires AllPlain(dir) && Portable(dir) && BACKSLASH !in root && dir != [] && forall t <- ts :: GoodNames(t)
    ensures var open, end := After(dir, prev), After(dir, LastOf(prev, ts));
            AllStepsOk(root, WalkAll(dir, ts) + rest, Here(root, open), open) <==>
            StraightFrom(prev, ts) && AllStepsOk(root, rest, Here(root, end), end)
    decreases ts, 0
  {
    hide Here, AllStepsOk, StepOk, Walk, WalkAll, GoodNames, AllPlain, Portable, Rises, GapOf, Straight, Joins, DepthOf;
    WalkAllParts(dir, ts, rest);
    if ts != [] {
      var t, more := ts[0], ts[1..];
      var open := After(dir, prev);
      assert GoodNames(t) && forall k <- more :: k in ts;
      NameIsPlain(t);
      RiseBetween(root, dir, prev, t);
      AfterIsDeep(dir, prev);
      StepOkExactly(root, dir, t, Here(root, open), open, DepthOf(prev));
      JoinsOf(prev, t);
      TreeStepsOk(root, dir, t, WalkAll(dir, more) + rest, Here(root, open), open);
      KidsStepsOk(root, dir, more, rest, Some(t));
    }
  }

  lemma AfterIsDeep(dir: seq<Str>, prev: Option<Tree>)
    ensures |After(dir, prev)| == |dir| + DepthOf(prev)
  {
    if prev.Some? {
      EndIsDeep(dir, prev.value);
    }
  }

  lemma JoinsOf(prev: Option<Tree>, t: Tree)
    ensures GapOf(prev, t) == 0 <==> (prev.Some? ==> Joins(prev.value, t))
    ensures GapOf(prev, t) <= DepthOf(prev)
  {
    if prev.Some? {
      JoinsLeavesNone(prev.value, t);
    }
  }

  /** The same right below the root. */
  lemma {:induction false} TopStepsOk(root: Str, ts: seq<Tree>, prev: Option<Tree>)
    requires BACKSLASH !in root && forall t <- ts :: GoodNames(t)
    ensures AllStepsOk(root, WalkAll([], ts), TopCwd(root, prev), After([], prev)) <==> TopStraight(root, prev, ts)
    decreases |ts|
  {
    hide Here, AllStepsOk, StepOk, Walk, WalkAll, GoodNames, Rises, Gain, Straight, TopCwd, DepthOf;
    WalkAllParts([], ts, []);
    assert WalkAll([], ts) + [] == WalkAll([], ts);
    if ts == [] {
      NoSteps(root, TopCwd(root, prev), After([], prev));
    } else {
      var t, more := ts[0], ts[1..];
      var cwd, open := TopCwd(root, prev), After([], prev);
      assert GoodNames(t) && forall k <- more :: k in ts;
      assert WalkAll([], more) + [] == WalkAll([], more);
      NameIsPlain(t);
      GainIsRise(root, prev, t);
      AfterIsDeep([], prev);
      StepOkExactly(root, [], t, cwd, open, DepthOf(prev));
      TreeStepsOk(root, [], t, WalkAll([], more), cwd, open);
      TopCwdAfter(root, t);
      TopStepsOk(root, more, Some(t));
    }
  }

  lemma NoSteps(root: Str, cwd: Str, open: seq<Str>)
    ensures AllStepsOk(root, [], cwd, open)
  {
  }

  // ---------- the theorems ----------

  lemma {:induction false} UnitsAreTwoAVisit(at: seq<Str>, t: Tree)
    ensures Units(t) == 2 * |Walk(at, t)|
    decreases t, 1
  {
    if t.DirNode? {
      UnitsAllAreTwoAVisit(at, t.kids);
    }
  }

  lemma {:induction false} UnitsAllAreTwoAVisit(at: seq<Str>, ts: seq<Tree>)
    ensures UnitsAll(ts) == 2 * |WalkAll(at, ts)|
    decreases ts, 0
  {
    if ts != [] {
      UnitsAreTwoAVisit(at + [ts[0].name], ts[0]);
      UnitsAllAreTwoAVisit(at, ts[1..]);
    }
  }

  /** A tree's visits are in order. */
  lemma {:induction false} WalkInOrder(dir: seq<Str>, t: Tree, rest: seq<Visit>, open: seq<Str>)
    requires |dir| <= |open| && forall o: seq<Str> :: |dir| <= |o| ==> InOrder(rest, o)
    ensures InOrder(Walk(dir + [t.name], t) + rest, open)
    decreases t, 1
  {
    hide Walk, WalkAll;
    WalkParts(dir, t, rest);
    OpenAfterNode(dir, t);
    if t.DirNode? {
      forall o: seq<Str> | |dir + [t.name]| <= |o|
        ensures InOrder(rest, o)
      {
      }
      WalkAllInOrder(dir + [t.name], t.kids, rest, dir + [t.name]);
    }
  }

  lemma {:induction false} WalkAllInOrder(dir: seq<Str>, ts: seq<Tree>, rest: seq<Visit>, open: seq<Str>)
    requires |dir| <= |open| && forall o: seq<Str> :: |dir| <= |o| ==> InOrder(rest, o)
    ensures InOrder(WalkAll(dir, ts) + rest, open)
    decreases ts, 0
  {
    hide Walk, WalkAll;
    WalkAllParts(dir, ts, rest);
    if ts != [] {
      var more := WalkAll(dir, ts[1..]) + rest;
      forall o: seq<Str> | |dir| <= |o|
        ensures InOrder(more, o)
      {
        WalkAllInOrder(dir, ts[1..], rest, o);
      }
      WalkInOrder(dir, ts[0], more, open);
    }
  }

  lemma KidsInOrder(ts: seq<Tree>)
    ensures InOrder(WalkAll([], ts), [])
  {
    forall o: seq<Str>
      ensures InOrder([], o)
    {
    }
    WalkAllInOrder([], ts, [], []);
    assert WalkAll([], ts) + [] == WalkAll([], ts);
  }

  /** The units of a directory: itself and its children's visits. */
  lemma UnitsOfDir(t: Tree)
    requires t.DirNode?
    ensures Units(t) == 2 + 2 * |WalkAll([], t.kids)|
  {
    UnitsAllAreTwoAVisit([], t.kids);
  }

  /** With OK replies, one for each unit of the tree, the source sends the tree's own stream exactly
      when it enters every entry right. */
  lemma SourceSendsTheStreamExactly(root: Str, t: Tree, replies: seq<byte>)
    requires BACKSLASH !in root && KidNames(t) && AllOk(replies) && |replies| >= Units(t)
    ensures Source(root, t, replies).out == Stream(t) <==> SendsRight(root, t)
  {
    hide Unit, OnPath, AllOk, GoodNames, WalkAll, TopStraight, Source, InOrder;
    var s := Start(root, replies);
    FirstVisit(root, t, replies);
    VisitSends(s, root, t);
    var s1 := OnPath(s, root, t);
    assert Es(0) == [] && [] + [] + Unit(t) == Unit(t);
    if t.FileNode? {
      StreamParts(t, []);
      FileSent(root, s1);
    } else {
      UnitsOfDir(t);
      KidsInOrder(t.kids);
      var vs := WalkAll([], t.kids);
      assert OnTrack(s1, vs, []);
      TopStepsOk(root, t.kids, None);
      assert TopCwd(root, None) == root;
      SentRightExactly(root, s1, vs, []);
      StreamOfDir(t);
    }
  }

  lemma FileSent(root: Str, s: State)
    requires s.level == 0
    ensures CloseLevels(OnWalk(root, s, [])) == s
  {
  }

  lemma StreamOfDir(t: Tree)
    requires t.DirNode?
    ensures Unit(t) + Right(WalkAll([], t.kids), []) == Stream(t)
  {
    RightAll([], t.kids, []);
    assert WalkAll([], t.kids) + [] == WalkAll([], t.kids);
    assert Right([], []) == E_LINE by {
      EsStep(0, []);
      assert Es(1) == E_LINE + Es(0) && Es(0) == [];
    }
    hide Unit, Right, WalkAll, Stream, StreamAll;
    StreamParts(t, []);
    assert E_LINE + [] == E_LINE && Stream(t) + [] == Stream(t);
  }

  /** Replies read: two for each visit and one for each level counted at the start. */
  lemma {:induction false} RepliesRead(root: Str, s: State, vs: seq<Visit>)
    requires LevelsOk(root, vs, s.cwd, s.level) && s.level >= 0 && !s.failed && AllOk(s.replies)
    requires |s.replies| >= 2 * |vs| + s.level
    ensures var e := CloseLevels(OnWalk(root, s, vs));
            |s.replies| - |e.replies| == |e.waits| - |s.waits| == 2 * |vs| + s.level
    decreases |vs|
  {
    hide *;
    if vs == [] {
      NothingToWalk(root, s);
      ClosingSends(s);
    } else {
      VisitReads(root, s, vs);
      RepliesRead(root, OnVisit(root, s, vs[0]), vs[1..]);
    }
  }

  lemma NothingToWalk(root: Str, s: State)
    ensures OnWalk(root, s, []) == s
  {
  }

  /** One visit reads two replies, and one for each level it closes more than it opens. */
  lemma VisitReads(root: Str, s: State, vs: seq<Visit>)
    requires vs != [] && LevelsOk(root, vs, s.cwd, s.level) && s.level >= 0 && !s.failed && AllOk(s.replies)
    requires |s.replies| >= 2 * |vs| + s.level
    ensures var e := OnVisit(root, s, vs[0]);
            && OnWalk(root, s, vs) == OnWalk(root, e, vs[1..])
            && LevelsOk(root, vs[1..], e.cwd, e.level) && e.level >= 0 && !e.failed && AllOk(e.replies)
            && |s.replies| - |e.replies| == |e.waits| - |s.waits| == 2 + s.level - e.level
  {
    hide OnPath, Seen, AllOk, Rises, LevelsOk, CwdAfter, Es, Unit, CmdsOn;
    LevelsUnfold(root, vs, s.cwd, s.level);
    VisitSends(s, Seen(root, vs[0]), vs[0].node);
  }

  /** For every tree that floats, straight or not, a client that answers OK has one reply read for each
      unit. */
  lemma SourceReadsOneReplyAUnit(root: Str, t: Tree, replies: seq<byte>)
    requires BACKSLASH !in root && KidNames(t) && AllOk(replies) && |replies| >= Units(t) && Floats(root, t)
    ensures var e := Source(root, t, replies);
            |replies| - |e.replies| == |e.waits| == Units(t)
  {
    hide OnPath, AllOk, GoodNames, WalkAll, Source, LevelsOk, Floats;
    NeverRisesOutExactly(root, t);
    FirstVisit(root, t, replies);
    var s := Start(root, replies);
    VisitSends(s, root, t);
    var s1 := OnPath(s, root, t);
    if t.FileNode? {
      FileSent(root, s1);
    } else {
      UnitsOfDir(t);
      RepliesRead(root, s1, WalkAll([], t.kids));
    }
  }

  /** The source never reads more than four replies a visit: a client can always send enough. */
  lemma {:induction false} WaitsAtMost(root: Str, s: State, vs: seq<Visit>)
    ensures var e := OnWalk(root, s, vs);
            |e.waits| <= |s.waits| + 3 * |vs| && e.level <= s.level + |vs|
    decreases |vs|
  {
    if vs != [] && !s.failed {
      hide OnPath, Seen;
      WaitsOnPath(s, Seen(root, vs[0]), vs[0].node);
      WaitsAtMost(root, OnVisit(root, s, vs[0]), vs[1..]);
    }
  }

  lemma WaitsOnPath(s: State, p: Str, t: Tree)
    ensures var e := OnPath(s, p, t); |e.waits| <= |s.waits| + 3 && e.level <= s.level + 1
  {
    hide Line, DirOf;
  }

  lemma {:induction false} ClosingWaits(s: State)
    ensures |CloseLevels(s).waits| <= |s.waits| + if s.level > 0 then s.level else 0
    decreases s.level
  {
    if s.level > 0 && Reply(s.replies) == REPLY_OK {
      ClosingWaits(OneLevelLess(s));
    }
  }

  /** So twice as many replies as the tree has units are enough for any path. */
  lemma EnoughReplies(root: Str, t: Tree, replies: seq<byte>)
    ensures |Source(root, t, replies).waits| <= 2 * Units(t)
  {
    var vs := Walk([], t);
    UnitsAreTwoAVisit([], t);
    WaitsAtMost(root, Start(root, replies), vs);
    ClosingWaits(OnWalk(root, Start(root, replies), vs));
  }
}
