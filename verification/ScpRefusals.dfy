/** What the SCP sink and source do when something is wrong, or not part of a plain copy
    (`os/command/scp.go`). */
module ScpRefusals {
  import opened GoBytes
  import opened Numerals
  import opened Paths
  import opened ScpTree
  import opened ScpSink
  import opened ScpSource

  // ---------- lines ----------

  /** A text that can be one field of a line. */
  predicate Field(s: Str) {
    SPACE !in s && LF !in s
  }

  /** A command letter and three fields; what follows a third space is not looked at. */
  function Command(cmd: byte, first: Str, second: Str, third: Str, more: Str): Str {
    [cmd] + first + [SPACE] + second + [SPACE] + third + more
  }

  lemma CommandFields(cmd: byte, first: Str, second: Str, third: Str, more: Str)
    requires Field([cmd] + first) && Field(second) && Field(third) && LF !in more && (more == [] || more[0] == SPACE)
    ensures var line := Command(cmd, first, second, third, more);
            && line != [] && line[0] == cmd && LF !in line
            && var args := Split(line, SPACE);
               |args| >= 3 && args[0] == [cmd] + first && args[1] == second && args[2] == third
  {
    hide Split;
    var line := Command(cmd, first, second, third, more);
    SplitName([cmd] + first, SPACE);
    SplitName(second, SPACE);
    SplitName(third, SPACE);
    if more == [] {
      assert line == ([cmd] + first) + [SPACE] + (second + [SPACE] + third);
      SplitConcat([cmd] + first, second + [SPACE] + third, SPACE);
      SplitConcat(second, third, SPACE);
    } else {
      assert line == ([cmd] + first) + [SPACE] + (second + [SPACE] + (third + [SPACE] + more[1..]));
      SplitConcat([cmd] + first, second + [SPACE] + (third + [SPACE] + more[1..]), SPACE);
      SplitConcat(second, third + [SPACE] + more[1..], SPACE);
      SplitConcat(third, more[1..], SPACE);
    }
  }

  // ---------- the sink ----------

  /** Given this line the sink answers so and goes on with what follows it. */
  ghost predicate Answers(line: seq<byte>, rest: seq<byte>, cwd: Str, fs: FsMap, limit: nat,
                          replies: seq<byte>, cwd': Str, fs': FsMap) {
    SinkFrom(line + [LF] + rest, cwd, fs, limit) == Continued(replies, SinkFrom(rest, cwd', fs', limit))
  }

  /** A T line, the times that `scp -p` sends, is answered OK and does nothing else. */
  lemma TimesAreAnswered(line: seq<byte>, rest: seq<byte>, cwd: Str, fs: FsMap, limit: nat)
    requires line != [] && line[0] == CMD_T && LF !in line
    ensures Answers(line, rest, cwd, fs, limit, [REPLY_OK], cwd, fs)
  {
    SinkUnfolds(line, rest, cwd, fs, limit);
    hide SinkFrom;
  }

  /** So a T line before a tree's stream changes only the number of OK replies. */
  lemma TimesBeforeATree(line: seq<byte>, cs: seq<Str>, t: Tree, rest: seq<byte>, fs: FsMap, limit: nat)
    requires line != [] && line[0] == CMD_T && LF !in line
    requires AllPlain(cs) && Sendable(t, limit) && Compatible(fs, cs, t) && Inside(fs, cs)
    ensures SinkFrom(line + [LF] + (Stream(t) + rest), Rooted(cs), fs, limit)
         == Continued(Oks(1 + Units(t)), SinkFrom(rest, Rooted(cs), fs + Flatten(cs, t), limit))
  {
    hide SinkFrom, Stream, Flatten, Compatible, Sendable, Inside, AllPlain, Rooted, Units;
    TimesAreAnswered(line, Stream(t) + rest, Rooted(cs), fs, limit);
    assert Oks(1) == [REPLY_OK];
    hide Oks;
    SinkTakesTree(cs, t, rest, fs, limit);
    OksAdd(1, Units(t), SinkFrom(rest, Rooted(cs), fs + Flatten(cs, t), limit));
  }

  /** An empty line and an unknown command are answered ERR and do nothing. */
  lemma UnknownIsRefused(line: seq<byte>, rest: seq<byte>, cwd: Str, fs: FsMap, limit: nat)
    requires LF !in line && (line == [] || line[0] !in {CMD_C, CMD_D, CMD_E, CMD_T})
    ensures Answers(line, rest, cwd, fs, limit, [REPLY_ERR], cwd, fs)
  {
    SinkUnfolds(line, rest, cwd, fs, limit);
    hide SinkFrom;
  }

  /** So are a C and a D line with fewer than three fields. */
  lemma ShortLineIsRefused(line: seq<byte>, rest: seq<byte>, cwd: Str, fs: FsMap, limit: nat)
    requires LF !in line && line != [] && (line[0] == CMD_C || line[0] == CMD_D) && |Split(line, SPACE)| < 3
    ensures Answers(line, rest, cwd, fs, limit, [REPLY_ERR], cwd, fs)
  {
    SinkUnfolds(line, rest, cwd, fs, limit);
    hide SinkFrom, Split;
  }

  /** Without a line end nothing is answered. */
  lemma UnfinishedLineEnds(input: seq<byte>, cwd: Str, fs: FsMap, limit: nat)
    requires LF !in input
    ensures SinkFrom(input, cwd, fs, limit) == SinkResult([], fs)
  {
    assert forall i :: 0 <= i < |input| ==> input[i] != LF;
  }

  /** A file is refused, and what follows its line is taken as commands, when the size is no number, when
      it is over the limit, and when its path is a directory or lies outside one. */
  lemma FileIsRefused(mode: Str, size: Str, name: Str, more: Str, rest: seq<byte>, cwd: Str, fs: FsMap, limit: nat)
    requires Field([CMD_C] + mode) && Field(size) && Field(name) && LF !in more && (more == [] || more[0] == SPACE)
    requires var n, path := ParseInt(size, 10), JoinPath(cwd, name);
             n == None || (limit > 0 && n.value > limit) || IsFsDir(fs, path) || !IsFsDir(fs, DirOf(path))
    ensures Answers(Command(CMD_C, mode, size, name, more), rest, cwd, fs, limit, [REPLY_ERR], cwd, fs)
  {
    var line := Command(CMD_C, mode, size, name, more);
    CommandFields(CMD_C, mode, size, name, more);
    hide Split, ParseInt, JoinPath, DirOf, Command;
    SinkUnfolds(line, rest, cwd, fs, limit);
    hide SinkFrom;
  }

  /** A file is stored under its name, whatever its mode says: what there is of its content, up to its
      size. Content that breaks off is answered OK and then ERR; a missing byte after it is answered ERR
      and still OK. */
  lemma FileIsStored(mode: Str, size: nat, name: Str, more: Str, rest: seq<byte>, cwd: Str, fs: FsMap, limit: nat)
    requires Field([CMD_C] + mode) && Field(name) && LF !in more && (more == [] || more[0] == SPACE) && size < U63
    requires limit > 0 ==> size <= limit
    requires !IsFsDir(fs, JoinPath(cwd, name)) && IsFsDir(fs, DirOf(JoinPath(cwd, name)))
    ensures var line, path := Command(CMD_C, mode, Itoa(size), name, more), JoinPath(cwd, name);
            var r := SinkFrom(line + [LF] + rest, cwd, fs, limit);
            && (|rest| < size ==> r == SinkResult([REPLY_OK, REPLY_ERR], fs[path := FsFile(rest)]))
            && (|rest| == size ==> r == SinkResult([REPLY_OK, REPLY_ERR, REPLY_OK], fs[path := FsFile(rest)]))
            && (|rest| > size ==>
                  r == Continued([REPLY_OK, REPLY_OK],
                                 SinkFrom(rest[size + 1..], cwd, fs[path := FsFile(rest[..size])], limit)))
  {
    var line, path := Command(CMD_C, mode, Itoa(size), name, more), JoinPath(cwd, name);
    hide Split, JoinPath, DirOf, Command, Itoa, SinkFrom, OneTurn;
    StoreTurn(mode, size, name, more, rest, cwd, fs, limit);
    SinkUnfolds(line, rest, cwd, fs, limit);
    NothingMore(cwd, fs[path := FsFile(rest)], limit);
    assert [REPLY_OK, REPLY_ERR] + [] == [REPLY_OK, REPLY_ERR];
    assert [REPLY_OK, REPLY_ERR, REPLY_OK] + [] == [REPLY_OK, REPLY_ERR, REPLY_OK];
  }

  lemma StoreTurn(mode: Str, size: nat, name: Str, more: Str, rest: seq<byte>, cwd: Str, fs: FsMap, limit: nat)
    requires Field([CMD_C] + mode) && Field(name) && LF !in more && (more == [] || more[0] == SPACE) && size < U63
    requires limit > 0 ==> size <= limit
    requires !IsFsDir(fs, JoinPath(cwd, name)) && IsFsDir(fs, DirOf(JoinPath(cwd, name)))
    ensures var line, path := Command(CMD_C, mode, Itoa(size), name, more), JoinPath(cwd, name);
            var t := OneTurn(line, rest, cwd, fs, limit);
            && LF !in line
            && (|rest| < size ==> t == Turn([REPLY_OK, REPLY_ERR], cwd, fs[path := FsFile(rest)], []))
            && (|rest| == size ==> t == Turn([REPLY_OK, REPLY_ERR, REPLY_OK], cwd, fs[path := FsFile(rest)], []))
            && (|rest| > size ==>
                  t == Turn([REPLY_OK, REPLY_OK], cwd, fs[path := FsFile(rest[..size])], rest[size + 1..]))
  {
    hide Split, JoinPath, DirOf, Command, Itoa, ParseInt, Octal04;
    DigitsOnly(0, size);
    assert Field(Itoa(size));
    CommandFields(CMD_C, mode, Itoa(size), name, more);
    AtoiItoa(size);
    assert rest[..|rest|] == rest && rest[|rest|..] == [];
  }

  lemma NothingMore(cwd: Str, fs: FsMap, limit: nat)
    ensures SinkFrom([], cwd, fs, limit) == SinkResult([], fs)
  {
  }

  /** A directory is refused without effect when its mode is no octal number. */
  lemma DirModeIsRefused(mode: Str, size: Str, name: Str, more: Str, rest: seq<byte>, cwd: Str, fs: FsMap, limit: nat)
    requires Field([CMD_D] + mode) && Field(size) && Field(name) && LF !in more && (more == [] || more[0] == SPACE)
    requires ParseInt(mode, 8) == None
    ensures Answers(Command(CMD_D, mode, size, name, more), rest, cwd, fs, limit, [REPLY_ERR], cwd, fs)
  {
    DirLine(mode, size, name, more, rest, cwd, fs, limit);
  }

  /** Otherwise the sink goes down into it, and makes it, answered OK; or, with a file at or above its
      path, does not make it, answered ERR, and goes down all the same. */
  lemma DirIsEntered(mode: Str, size: Str, name: Str, more: Str, rest: seq<byte>, cwd: Str, fs: FsMap, limit: nat)
    requires Field([CMD_D] + mode) && Field(size) && Field(name) && LF !in more && (more == [] || more[0] == SPACE)
    requires ParseInt(mode, 8).Some?
    ensures var line, down := Command(CMD_D, mode, size, name, more), JoinPath(cwd, name);
            if exists q <- Above(down) :: IsFsFile(fs, q) then
              Answers(line, rest, cwd, fs, limit, [REPLY_ERR], down, fs)
            else
              Answers(line, rest, cwd, fs, limit, [REPLY_OK], down, fs + map q | q in Above(down) :: FsDir)
  {
    DirLine(mode, size, name, more, rest, cwd, fs, limit);
    hide SinkFrom, Above, JoinPath;
  }

  lemma DirLine(mode: Str, size: Str, name: Str, more: Str, rest: seq<byte>, cwd: Str, fs: FsMap, limit: nat)
    requires Field([CMD_D] + mode) && Field(size) && Field(name) && LF !in more && (more == [] || more[0] == SPACE)
    ensures var line, down := Command(CMD_D, mode, size, name, more), JoinPath(cwd, name);
            if ParseInt(mode, 8) == None then Answers(line, rest, cwd, fs, limit, [REPLY_ERR], cwd, fs)
            else match MkdirAll(fs, down)
              case None => Answers(line, rest, cwd, fs, limit, [REPLY_ERR], down, fs)
              case Some(fs') => Answers(line, rest, cwd, fs, limit, [REPLY_OK], down, fs')
  {
    var line := Command(CMD_D, mode, size, name, more);
    CommandFields(CMD_D, mode, size, name, more);
    hide Split, ParseInt, JoinPath, MkdirAll, Command;
    SinkUnfolds(line, rest, cwd, fs, limit);
    assert ([CMD_D] + mode)[1..] == mode;
    hide SinkFrom;
  }

  /** E goes up, and at the root stays there. */
  lemma LeavingTheRoot(rest: seq<byte>, fs: FsMap, limit: nat)
    ensures Answers([CMD_E], rest, [SLASH], fs, limit, [REPLY_OK], [SLASH], fs)
  {
    RootIsAboveItself();
    SinkUnfolds([CMD_E], rest, [SLASH], fs, limit);
    hide SinkFrom, DirOf;
  }

  lemma RootIsAboveItself()
    ensures DirOf([SLASH]) == [SLASH]
  {
    RootIsSlash();
    NothingNormal(true);
    ShownComps(true, []);
    assert [SLASH][..1] == [SLASH];
    hide Clean;
  }

  // ---------- the source ----------

  /** An error reply to the E, the D line or the C line ends the walk: nothing is sent after it. */
  lemma ErrorEndsTheWalk(root: Str, s: State, vs: seq<Visit>)
    requires vs != [] && !s.failed && Reply(s.replies) != REPLY_OK
    ensures var p, t := Seen(root, vs[0]), vs[0].node;
            var line := if t.DirNode? then Line(CMD_D, t.mode, 0, t.name)
                        else Line(CMD_C, t.mode, |t.content|, t.name);
            var e := OnWalk(root, s, vs);
            && e.failed && e.level == s.level && e.cwd == s.cwd && e.replies == Unread(s.replies)
            && e.out == s.out + if s.cwd <= p then line else E_LINE
  {
    hide Line, Seen, DirOf;
    var e := OnVisit(root, s, vs[0]);
    assert e.failed && OnWalk(root, e, vs[1..]) == e;
  }

  /** An error reply after a file's content is passed over; but when the replies end there, the walk
      ends. */
  lemma ReplyAfterContent(s: State, p: Str, t: Tree)
    requires t.FileNode? && !s.failed && s.cwd <= p && s.replies != [] && s.replies[0] == REPLY_OK
    ensures var e := OnPath(s, p, t);
            && e.out == s.out + Unit(t) && e.level == s.level
            && (e.failed <==> |s.replies| == 1)
            && (!e.failed ==> e.cwd == DirOf(p) && e.replies == s.replies[2..])
  {
    hide Line, DirOf;
  }

  /** An error reply to an E of the closing loop ends the loop. */
  lemma ErrorEndsTheClosing(s: State)
    requires s.level > 0 && Reply(s.replies) != REPLY_OK
    ensures CloseLevels(s).out == s.out + E_LINE && CloseLevels(s).level == s.level
  {
  }
}
