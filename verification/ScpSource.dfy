/** The SCP source (`sourceMode` and `sendFile` of `os/command/scp.go`): walks a tree and sends it,
    guessing from path prefixes when to close a directory. */
module ScpSource {
  import opened GoBytes
  import opened Paths
  import opened ScpTree

  /** A node of the walk, and the names that lead to it from the root of the walk. */
  datatype Visit = Visit(at: seq<Str>, node: Tree)

  /** `afero.Walk`: a node before its children, the children in order. */
  function Walk(at: seq<Str>, t: Tree): (vs: seq<Visit>)
    ensures vs != [] && vs[0] == Visit(at, t)
    decreases t
  {
    [Visit(at, t)] + if t.DirNode? then WalkAll(at, t.kids) else []
  }

  function WalkAll(at: seq<Str>, ts: seq<Tree>): seq<Visit>
    decreases ts
  {
    if ts == [] then [] else Walk(at + [ts[0].name], ts[0]) + WalkAll(at, ts[1..])
  }

  /** The path that the walk of `root` gives such a node: the root's as it was asked for, and each
      name joined to the path of its directory. */
  function PathAt(root: Str, at: seq<Str>): Str {
    if at == [] then root else JoinPath(PathAt(root, Up(at)), at[|at| - 1])
  }

  function Up(at: seq<Str>): seq<Str>
    requires at != []
  {
    at[..|at| - 1]
  }

  // ---------- the source ----------

  /** The state of the walk: bytes written, their command letters, the directory it believes to be in,
      the level counter, the client's unread replies, and whether an error ended the walk. `flushed` is
      how much of the output has surely been handed to the client, and `waits` how much of it had been
      at each read of a reply. */
  datatype State = State(out: seq<byte>, cmds: seq<byte>, cwd: Str, level: int, replies: seq<byte>, failed: bool,
                         flushed: nat, waits: seq<nat>)

  function Start(cwd: Str, replies: seq<byte>): State { State([], [], cwd, 0, replies, false, 0, []) }

  /** `ReadByte` where the end of the replies counts as an OK. */
  function Reply(replies: seq<byte>): byte { if replies == [] then REPLY_OK else replies[0] }

  function Unread(replies: seq<byte>): seq<byte> { if replies == [] then [] else replies[1..] }

  /** A command is written, without a flush. */
  function Put(s: State, cmd: byte, bytes: seq<byte>): State {
    s.(out := s.out + bytes, cmds := s.cmds + [cmd])
  }

  function Flush(s: State): State { s.(flushed := |s.out|) }

  /** A reply is read. */
  function Await(s: State): State {
    s.(replies := Unread(s.replies), waits := s.waits + [s.flushed])
  }

  /** The E that closes a directory when the next path does not start with the current one. It is not
      flushed before its reply is read. */
  function Rise(s: State, p: Str): State {
    if s.cwd <= p then s
    else
      var sent := Await(Put(s, CMD_E, E_LINE));
      if Reply(s.replies) != REPLY_OK then sent.(failed := true) else sent.(level := s.level - 1)
  }

  /** A directory: its D line, and the walk is in it. */
  function SendDir(s: State, p: Str, t: Tree): State {
    var sent := Await(Flush(Put(s, CMD_D, Line(CMD_D, t.mode, 0, t.name))));
    if Reply(s.replies) != REPLY_OK then sent.(failed := true) else sent.(cwd := p, level := s.level + 1)
  }

  /** `sendFile`: the C line, then the content and a zero byte. After the content an error reply is
      ignored, but the end of the replies is an error. */
  function SendFile(s: State, p: Str, t: Tree): State
    requires t.FileNode?
  {
    var line := Await(Flush(Put(s, CMD_C, Line(CMD_C, t.mode, |t.content|, t.name))));
    if Reply(s.replies) != REPLY_OK then line.(failed := true)
    else
      var sent := Await(Flush(line.(out := line.out + t.content + [NUL])));
      if line.replies == [] then sent.(failed := true) else sent.(cwd := DirOf(p))
  }

  /** The path of a visit as the callback sees it: it first turns backslashes into slashes. */
  function Seen(root: Str, v: Visit): Str {
    Slashed(PathAt(root, v.at))
  }

  /** The walk callback. */
  function OnVisit(root: Str, s: State, v: Visit): State {
    OnPath(s, Seen(root, v), v.node)
  }

  function OnPath(s: State, p: Str, t: Tree): State {
    var r := Rise(s, p);
    if r.failed then r else if t.DirNode? then SendDir(r, p, t) else SendFile(r, p, t)
  }

  /** The walk; a failing callback ends it. */
  function OnWalk(root: Str, s: State, vs: seq<Visit>): State
    decreases |vs|
  {
    if vs == [] || s.failed then s else OnWalk(root, OnVisit(root, s, vs[0]), vs[1..])
  }

  /** The closing loop: an E for each level left, until the client objects. */
  function CloseLevels(s: State): State
    decreases s.level
  {
    if s.level <= 0 then s
    else
      var sent := Await(Flush(Put(s, CMD_E, E_LINE)));
      if Reply(s.replies) != REPLY_OK then sent else CloseLevels(sent.(level := s.level - 1))
  }

  /** The state after one E of the closing loop that was answered OK. */
  function OneLevelLess(s: State): State {
    Await(Flush(Put(s, CMD_E, E_LINE))).(level := s.level - 1)
  }

  /** `sourceMode` with the recursive flag, on the tree at a path, absolute or relative, clean or not. */
  function Source(root: Str, t: Tree, replies: seq<byte>): State {
    CloseLevels(OnWalk(root, Start(root, replies), Walk([], t)))
  }

  /** The walk callback: what it writes, reads and flushes, and whether it returns an error. */
  method Callback(p: Str, node: Tree, cwd: Str, dirLevel: int, out: seq<byte>, left: seq<byte>, flushed: nat,
                  waits: seq<nat>, ghost cmds: seq<byte>)
    returns (cwd': Str, dirLevel': int, out': seq<byte>, left': seq<byte>, flushed': nat, waits': seq<nat>,
             failed: bool)
    ensures var e := OnPath(State(out, cmds, cwd, dirLevel, left, false, flushed, waits), p, node);
            && cwd' == e.cwd && dirLevel' == e.level && out' == e.out && left' == e.replies
            && flushed' == e.flushed && waits' == e.waits && failed == e.failed
  {
    hide DirOf, Line;
    cwd', dirLevel', out', left', flushed', waits' := cwd, dirLevel, out, left, flushed, waits;
    if !(cwd <= p) {
      out' := out' + E_LINE;
      var b := Reply(left');
      left', waits' := Unread(left'), waits' + [flushed'];
      if b != REPLY_OK {
        failed := true;
        return;
      }
      dirLevel' := dirLevel' - 1;
    }
    var size := if node.DirNode? then 0 else |node.content|;
    var cmd := if node.DirNode? then CMD_D else CMD_C;
    out' := out' + Line(cmd, node.mode, size, node.name);
    flushed' := |out'|;
    var b := Reply(left');
    left', waits' := Unread(left'), waits' + [flushed'];
    failed := b != REPLY_OK;
    if failed {
      return;
    }
    if node.DirNode? {
      cwd', dirLevel' := p, dirLevel' + 1;
    } else {
      out' := out' + node.content + [NUL];
      flushed' := |out'|;
      failed := left' == [];
      left', waits' := Unread(left'), waits' + [flushed'];
      if !failed {
        cwd' := DirOf(p);
      }
    }
  }

  /** `sourceMode`: the walk and the closing loop. */
  method SourceMode(root: Str, t: Tree, replies: seq<byte>)
    returns (out: seq<byte>, left: seq<byte>, flushed: nat, waits: seq<nat>)
    ensures var e := Source(root, t, replies);
            out == e.out && left == e.replies && flushed == e.flushed && waits == e.waits
  {
    hide PathAt, Walk, Slashed, OnPath;
    var visits := Walk([], t);
    var cwd, dirLevel, failed := root, 0, false;
    out, left, flushed, waits := [], replies, 0, [];
    ghost var cmds: seq<byte> := [];
    ghost var start := Start(root, replies);
    var i := 0;
    assert visits[0..] == visits;
    while i < |visits| && !failed
      invariant 0 <= i <= |visits|
      invariant OnWalk(root, start, visits)
             == OnWalk(root, State(out, cmds, cwd, dirLevel, left, failed, flushed, waits), visits[i..])
    {
      assert visits[i..][0] == visits[i] && visits[i..][1..] == visits[i + 1..];
      ghost var s := State(out, cmds, cwd, dirLevel, left, failed, flushed, waits);
      cwd, dirLevel, out, left, flushed, waits, failed :=
        Callback(Slashed(PathAt(root, visits[i].at)), visits[i].node, cwd, dirLevel, out, left, flushed, waits, cmds);
      cmds := OnVisit(root, s, visits[i]).cmds;
      i := i + 1;
    }
    ghost var walked := OnWalk(root, start, visits);
    assert visits[|visits|..] == [];
    assert walked == State(out, cmds, cwd, dirLevel, left, failed, flushed, waits);
    out, left, flushed, waits := CloseAll(walked, out, left, dirLevel, flushed, waits);
  }

  /** The closing loop. */
  method CloseAll(ghost s: State, written: seq<byte>, unread: seq<byte>, level: int, sent: nat, read: seq<nat>)
    returns (out: seq<byte>, left: seq<byte>, flushed: nat, waits: seq<nat>)
    requires s.out == written && s.replies == unread && s.level == level && s.flushed == sent && s.waits == read
    ensures var e := CloseLevels(s);
            out == e.out && left == e.replies && flushed == e.flushed && waits == e.waits
  {
    out, left, flushed, waits := written, unread, sent, read;
    var dirLevel := level;
    ghost var cmds := s.cmds;
    while dirLevel > 0
      invariant CloseLevels(s) == CloseLevels(State(out, cmds, s.cwd, dirLevel, left, s.failed, flushed, waits))
    {
      out, cmds := out + E_LINE, cmds + [CMD_E];
      flushed := |out|;
      var b := Reply(left);
      left, waits := Unread(left), waits + [flushed];
      if b != REPLY_OK {
        return;
      }
      dirLevel := dirLevel - 1;
    }
  }

  // ---------- one visit ----------

  function Es(n: nat): seq<byte> {
    if n == 0 then [] else E_LINE + Es(n - 1)
  }

  /** What a node is sent as, without its children and its E. */
  function Unit(t: Tree): (b: seq<byte>)
    ensures b != [] && b[0] != CMD_E
  {
    if t.DirNode? then Line(CMD_D, t.mode, 0, t.name) else Line(CMD_C, t.mode, |t.content|, t.name) + t.content + [NUL]
  }

  ghost predicate AllOk(replies: seq<byte>) {
    forall i :: 0 <= i < |replies| ==> replies[i] == REPLY_OK
  }

  lemma OkReplies(replies: seq<byte>)
    requires AllOk(replies)
    ensures Reply(replies) == REPLY_OK && AllOk(Unread(replies))
  {
  }

  /** The levels the source rises before a path. */
  function Rises(cwd: Str, p: Str): nat { if cwd <= p then 0 else 1 }

  /** The levels a node opens, and the replies read for it. */
  function Opens(t: Tree): nat { if t.DirNode? then 1 else 0 }

  function Reads(t: Tree): nat { if t.DirNode? then 1 else 2 }

  /** The directory the source believes to be in after a path. */
  function CwdAfter(p: Str, t: Tree): Str { if t.DirNode? then p else DirOf(p) }

  /** The commands sent on a path. */
  function CmdsOn(cwd: Str, p: Str, t: Tree): seq<byte> {
    (if cwd <= p then [] else [CMD_E]) + [if t.DirNode? then CMD_D else CMD_C]
  }

  lemma RiseSends(s: State, p: Str)
    requires !s.failed && AllOk(s.replies)
    ensures var r, n := Rise(s, p), Rises(s.cwd, p);
            && r.out == s.out + Es(n) && r.cmds == s.cmds + (if s.cwd <= p then [] else [CMD_E])
            && !r.failed && AllOk(r.replies) && r.cwd == s.cwd && r.level == s.level - n
            && |r.waits| == |s.waits| + n && (|s.replies| >= n ==> |r.replies| == |s.replies| - n)
            && (|s.replies| < n ==> r.replies == [])
  {
    OkReplies(s.replies);
    assert Es(1) == E_LINE + Es(0) && E_LINE + [] == E_LINE;
    assert s.out + [] == s.out && s.cmds + [] == s.cmds;
    hide AllOk;
  }

  lemma UnitSends(r: State, p: Str, t: Tree)
    requires !r.failed && AllOk(r.replies)
    ensures var e := if t.DirNode? then SendDir(r, p, t) else SendFile(r, p, t);
            && e.out == r.out + Unit(t) && e.cmds == r.cmds + [if t.DirNode? then CMD_D else CMD_C]
            && AllOk(e.replies) && e.level == r.level + Opens(t) && |e.waits| == |r.waits| + Reads(t)
            && (e.failed ==> t.FileNode? && |r.replies| < 2) && (|r.replies| >= 2 ==> !e.failed)
            && (!e.failed ==> e.cwd == CwdAfter(p, t))
            && (|r.replies| >= Reads(t) ==> |e.replies| == |r.replies| - Reads(t))
  {
    hide Line, DirOf, AllOk, Reply;
    OkReplies(r.replies);
    OkReplies(Unread(r.replies));
  }

  /** With all replies OK, one visit sends its E or not, and its unit; it fails only when a file finds
      no second reply. */
  lemma VisitSends(s: State, p: Str, t: Tree)
    requires !s.failed && AllOk(s.replies)
    ensures var e, n := OnPath(s, p, t), Rises(s.cwd, p);
            && e.out == s.out + Es(n) + Unit(t) && e.cmds == s.cmds + CmdsOn(s.cwd, p, t)
            && AllOk(e.replies) && e.level == s.level - n + Opens(t) && |e.waits| == |s.waits| + n + Reads(t)
            && (|s.replies| >= n + 2 ==> !e.failed) && (e.failed ==> |s.replies| < n + 2 && t.FileNode?)
            && (!e.failed ==> e.cwd == CwdAfter(p, t))
            && (|s.replies| >= n + Reads(t) ==> |e.replies| == |s.replies| - n - Reads(t))
  {
    hide Rise, SendDir, SendFile, Unit, Es, AllOk;
    RiseSends(s, p);
    UnitSends(Rise(s, p), p, t);
    var up: seq<byte> := if s.cwd <= p then [] else [CMD_E];
    assert s.cmds + up + [if t.DirNode? then CMD_D else CMD_C] == s.cmds + CmdsOn(s.cwd, p, t);
  }

  /** Commands are only added, and so are waits. */
  lemma VisitGrows(s: State, p: Str, t: Tree)
    ensures var e := OnPath(s, p, t); s.out <= e.out && s.cmds <= e.cmds && |s.waits| <= |e.waits|
  {
    hide DirOf, Line;
  }

  lemma {:induction false} WalkGrows(root: Str, s: State, vs: seq<Visit>)
    ensures var e := OnWalk(root, s, vs); s.out <= e.out && s.cmds <= e.cmds && |s.waits| <= |e.waits|
    decreases |vs|
  {
    if vs != [] && !s.failed {
      hide OnPath, Seen;
      VisitGrows(s, Seen(root, vs[0]), vs[0].node);
      WalkGrows(root, OnVisit(root, s, vs[0]), vs[1..]);
    }
  }

  lemma {:induction false} ClosingGrows(s: State)
    ensures var e := CloseLevels(s); s.out <= e.out && s.cmds <= e.cmds && |s.waits| <= |e.waits|
    decreases s.level
  {
    if s.level > 0 && Reply(s.replies) == REPLY_OK {
      ClosingGrows(OneLevelLess(s));
    }
  }

  /** The first visit is of the root itself, whose path is the current directory: no E comes first. */
  lemma FirstVisit(root: Str, t: Tree, replies: seq<byte>)
    requires AllOk(replies) && BACKSLASH !in root
    ensures var s1 := OnVisit(root, Start(root, replies), Visit([], t));
            && Source(root, t, replies) == CloseLevels(OnWalk(root, s1, if t.DirNode? then WalkAll([], t.kids) else []))
            && s1 == OnPath(Start(root, replies), root, t) && Rises(root, root) == 0
  {
    hide OnPath;
    var vs := Walk([], t);
    assert vs[0] == Visit([], t) && vs[1..] == if t.DirNode? then WalkAll([], t.kids) else [];
  }

  // ---------- brackets ----------

  /** The level after a run of commands. */
  function LevelAfter(cmds: seq<byte>, level: int): int {
    if cmds == [] then level
    else
      var last := cmds[|cmds| - 1];
      LevelAfter(cmds[..|cmds| - 1], level) + (if last == CMD_D then 1 else if last == CMD_E then -1 else 0)
  }

  /** No prefix of the commands closes more than it opens. */
  ghost predicate NeverBelow(cmds: seq<byte>) {
    forall k :: 0 <= k <= |cmds| ==> LevelAfter(cmds[..k], 0) >= 0
  }

  /** And in the end all are closed. */
  ghost predicate Balanced(cmds: seq<byte>) {
    NeverBelow(cmds) && LevelAfter(cmds, 0) == 0
  }

  lemma LevelSnoc(cmds: seq<byte>, c: byte)
    ensures LevelAfter(cmds + [c], 0) == LevelAfter(cmds, 0) + (if c == CMD_D then 1 else if c == CMD_E then -1 else 0)
    ensures NeverBelow(cmds + [c]) <==> NeverBelow(cmds) && LevelAfter(cmds + [c], 0) >= 0
  {
    var all := cmds + [c];
    assert all[..|cmds|] == cmds && all[..|all|] == all;
    assert forall k :: 0 <= k <= |cmds| ==> all[..k] == cmds[..k];
  }

  lemma NeverBelowPrefix(a: seq<byte>, b: seq<byte>)
    requires a <= b && NeverBelow(b)
    ensures NeverBelow(a)
  {
    assert forall k :: 0 <= k <= |a| ==> a[..k] == b[..k];
  }

  /** The counter is the level of the commands, which never was negative. */
  ghost predicate Sound(s: State) {
    s.level == LevelAfter(s.cmds, 0) && NeverBelow(s.cmds) && s.level >= 0
  }

  lemma NoCommands()
    ensures LevelAfter([], 0) == 0 && NeverBelow([])
  {
  }

  /** One visit keeps the counter sound exactly when it does not rise from level 0. */
  lemma VisitKeepsSound(s: State, p: Str, t: Tree)
    requires Sound(s) && !s.failed && AllOk(s.replies)
    ensures s.level - Rises(s.cwd, p) >= 0 ==> Sound(OnPath(s, p, t))
    ensures s.level - Rises(s.cwd, p) < 0 ==> !NeverBelow(OnPath(s, p, t).cmds)
  {
    hide OnPath, AllOk, NeverBelow, LevelAfter;
    VisitSends(s, p, t);
    var c: byte := if t.DirNode? then CMD_D else CMD_C;
    LevelSnoc(s.cmds, c);
    if !(s.cwd <= p) {
      LevelSnoc(s.cmds, CMD_E);
      LevelSnoc(s.cmds + [CMD_E], c);
      assert s.cmds + [CMD_E] + [c] == s.cmds + ([CMD_E] + [c]);
    } else {
      assert [] + [c] == [c];
    }
  }

  /** The walk never rises from level 0. */
  predicate LevelsOk(root: Str, vs: seq<Visit>, cwd: Str, level: int)
    decreases |vs|
  {
    vs == [] ||
    var p, t := Seen(root, vs[0]), vs[0].node;
    var l := level - Rises(cwd, p);
    l >= 0 && LevelsOk(root, vs[1..], CwdAfter(p, t), l + Opens(t))
  }

  lemma LevelsUnfold(root: Str, vs: seq<Visit>, cwd: Str, level: int)
    requires vs != []
    ensures var p, t := Seen(root, vs[0]), vs[0].node;
            var l := level - Rises(cwd, p);
            LevelsOk(root, vs, cwd, level) <==> l >= 0 && LevelsOk(root, vs[1..], CwdAfter(p, t), l + Opens(t))
  {
    hide Seen, CwdAfter;
  }

  lemma {:induction false} WalkKeepsSound(root: Str, s: State, vs: seq<Visit>)
    requires Sound(s) && AllOk(s.replies) && (s.failed || LevelsOk(root, vs, s.cwd, s.level))
    ensures Sound(OnWalk(root, s, vs)) && AllOk(OnWalk(root, s, vs).replies)
    decreases |vs|
  {
    if vs != [] && !s.failed {
      hide OnPath, Sound, AllOk, Seen, LevelsOk;
      SoundStep(root, s, vs);
      WalkKeepsSound(root, OnVisit(root, s, vs[0]), vs[1..]);
    }
  }

  lemma SoundStep(root: Str, s: State, vs: seq<Visit>)
    requires Sound(s) && AllOk(s.replies) && !s.failed && vs != [] && LevelsOk(root, vs, s.cwd, s.level)
    ensures var e := OnVisit(root, s, vs[0]);
            Sound(e) && AllOk(e.replies) && (e.failed || LevelsOk(root, vs[1..], e.cwd, e.level))
  {
    hide OnPath, Sound, AllOk, Seen, LevelsOk, CwdAfter, Rises, Es, Unit, CmdsOn;
    LevelsUnfold(root, vs, s.cwd, s.level);
    VisitSends(s, Seen(root, vs[0]), vs[0].node);
    VisitKeepsSound(s, Seen(root, vs[0]), vs[0].node);
  }

  /** A walk that does rise from level 0 closes more than it opened, when the client answers on. */
  lemma {:induction false} WalkDips(root: Str, s: State, vs: seq<Visit>)
    requires Sound(s) && !s.failed && AllOk(s.replies) && !LevelsOk(root, vs, s.cwd, s.level)
    requires |OnWalk(root, s, vs).waits| - |s.waits| <= |s.replies|
    ensures !NeverBelow(OnWalk(root, s, vs).cmds)
    decreases |vs|
  {
    hide OnPath, Sound, AllOk, Seen, NeverBelow, LevelsOk, CwdAfter, Rises, Es, Unit, CmdsOn;
    NoVisits(root, s.cwd, s.level);
    var p, t := Seen(root, vs[0]), vs[0].node;
    LevelsUnfold(root, vs, s.cwd, s.level);
    VisitSends(s, p, t);
    VisitKeepsSound(s, p, t);
    var e := OnVisit(root, s, vs[0]);
    WalkGrows(root, e, vs[1..]);
    if s.level - Rises(s.cwd, p) < 0 {
      if NeverBelow(OnWalk(root, s, vs).cmds) {
        NeverBelowPrefix(e.cmds, OnWalk(root, s, vs).cmds);
      }
    } else {
      WalkDips(root, e, vs[1..]);
    }
  }

  lemma {:induction false} ClosingBalances(s: State)
    requires Sound(s) && AllOk(s.replies)
    ensures var e := CloseLevels(s); Balanced(e.cmds) && e.level == 0
    decreases s.level
  {
    if s.level > 0 {
      hide LevelAfter, NeverBelow, AllOk;
      LevelSnoc(s.cmds, CMD_E);
      OkReplies(s.replies);
      ClosingBalances(OneLevelLess(s));
    }
  }

  /** The walk below the root of a tree never rises from level 0. */
  predicate NeverRisesOut(root: Str, t: Tree) {
    t.DirNode? ==> LevelsOk(root, WalkAll([], t.kids), root, 1)
  }

  /** Then the brackets balance, also when the replies end early. */
  lemma BalancesWhenItNeverRisesOut(root: Str, t: Tree, replies: seq<byte>)
    requires AllOk(replies) && BACKSLASH !in root && NeverRisesOut(root, t)
    ensures Balanced(Source(root, t, replies).cmds) && Source(root, t, replies).level == 0
  {
    hide OnPath, LevelAfter, NeverBelow, AllOk, LevelsOk, WalkAll;
    FirstVisit(root, t, replies);
    var s := Start(root, replies);
    NoCommands();
    assert Sound(s);
    VisitSends(s, root, t);
    VisitKeepsSound(s, root, t);
    var s1 := OnPath(s, root, t);
    var vs := if t.DirNode? then WalkAll([], t.kids) else [];
    if t.FileNode? {
      NoVisits(root, s1.cwd, s1.level);
    }
    WalkKeepsSound(root, s1, vs);
    ClosingBalances(OnWalk(root, s1, vs));
  }

  lemma NoVisits(root: Str, cwd: Str, level: int)
    ensures LevelsOk(root, [], cwd, level)
  {
  }

  /** And only then, for a client that answers every command. */
  lemma BalancedExactly(root: Str, t: Tree, replies: seq<byte>)
    requires AllOk(replies) && BACKSLASH !in root && |Source(root, t, replies).waits| <= |replies|
    ensures Balanced(Source(root, t, replies).cmds) <==> NeverRisesOut(root, t)
  {
    if NeverRisesOut(root, t) {
      BalancesWhenItNeverRisesOut(root, t, replies);
    } else {
      hide OnPath, LevelAfter, NeverBelow, AllOk, LevelsOk, WalkAll;
      FirstVisit(root, t, replies);
      var s, vs := Start(root, replies), WalkAll([], t.kids);
      NoCommands();
      VisitSends(s, root, t);
      VisitKeepsSound(s, root, t);
      var s1 := OnPath(s, root, t);
      var w := OnWalk(root, s1, vs);
      ClosingGrows(w);
      WalkGrows(root, s1, vs);
      WalkDips(root, s1, vs);
      if NeverBelow(CloseLevels(w).cmds) {
        NeverBelowPrefix(w.cmds, CloseLevels(w).cmds);
      }
    }
  }

  /** A path with a backslash does not begin with itself once it is a slash: the source closes a
      directory before it has opened any. */
  lemma BackslashStrays(root: Str, t: Tree, replies: seq<byte>)
    requires BACKSLASH in root
    ensures !NeverBelow(Source(root, t, replies).cmds)
  {
    hide LevelAfter, WalkAll;
    var s := Start(root, replies);
    var i :| 0 <= i < |root| && root[i] == BACKSLASH;
    assert !(root <= Slashed(root)) by {
      assert Slashed(root)[i] == SLASH;
    }
    var first := Rise(s, Slashed(root));
    assert first.cmds == [CMD_E] by {
      assert [] + [CMD_E] == [CMD_E];
    }
    var e := OnVisit(root, s, Visit([], t));
    var vs := Walk([], t);
    assert first.cmds <= e.cmds by {
      AfterRise(first, Slashed(root), t);
    }
    hide OnVisit, NeverBelow;
    WalkGrows(root, e, vs[1..]);
    var w := OnWalk(root, s, vs);
    ClosingGrows(w);
    assert [CMD_E] <= CloseLevels(w).cmds;
    if NeverBelow(CloseLevels(w).cmds) {
      NeverBelowPrefix([CMD_E], CloseLevels(w).cmds);
      ClosesFirst();
    }
  }

  lemma AfterRise(r: State, p: Str, t: Tree)
    ensures r.cmds <= SendDir(r, p, t).cmds && (t.FileNode? ==> r.cmds <= SendFile(r, p, t).cmds)
  {
    hide Line, DirOf;
  }

  lemma ClosesFirst()
    ensures !NeverBelow([CMD_E])
  {
    NoCommands();
    LevelSnoc([], CMD_E);
    assert [] + [CMD_E] == [CMD_E];
  }
}
