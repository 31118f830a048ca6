/** The SCP sink (`sinkMode` of `os/command/scp.go`): an interpreter of C, D, E and T lines with a
    moving working directory. */
module ScpSink {
  import opened GoBytes
  import opened Numerals
  import opened Paths
  import opened ScpTree

  /** What a sink has done: the replies it sent and the filesystem it left. */
  datatype SinkResult = SinkResult(replies: seq<byte>, fs: FsMap)

  /** The position of the first LF, or the length. */
  function LineEnd(s: seq<byte>): (i: nat)
    ensures i <= |s| && LF !in s[..i] && (i < |s| ==> s[i] == LF)
  {
    if s == [] || s[0] == LF then 0
    else
      var i := 1 + LineEnd(s[1..]);
      assert s[..i] == [s[0]] + s[1..][..i - 1];
      i
  }

  /** One command: the replies to it, and where the sink goes on. */
  datatype Turn = Turn(replies: seq<byte>, cwd: Str, fs: FsMap, rest: seq<byte>)

  /** The size of a C line that the sink accepts. */
  function SizeField(args: seq<Str>, limit: nat): Option<int> {
    if |args| < 3 then None
    else match ParseInt(args[1], 10)
      case None => None
      case Some(size) => if limit > 0 && size > limit then None else Some(size)
  }

  /** A C line with what follows it: the content, then one byte to discard. A mode that is no number
      is not noticed; a missing last byte is answered both ERR and OK. */
  function TurnC(line: seq<byte>, rest: seq<byte>, cwd: Str, fs: FsMap, limit: nat): (t: Turn)
    ensures |t.rest| <= |rest|
  {
    var args := Split(line, SPACE);
    match SizeField(args, limit)
    case None => Turn([REPLY_ERR], cwd, fs, rest)
    case Some(size) =>
      var n := if size < 0 then 0 else if size < |rest| then size else |rest|;
      match WriteFile(fs, JoinPath(cwd, args[2]), rest[..n])
      case None => Turn([REPLY_ERR], cwd, fs, rest)
      case Some(fs') =>
        if n != size then Turn([REPLY_OK, REPLY_ERR], cwd, fs', rest[n..])
        else if rest[n..] == [] then Turn([REPLY_OK, REPLY_ERR, REPLY_OK], cwd, fs', [])
        else Turn([REPLY_OK, REPLY_OK], cwd, fs', rest[n + 1..])
  }

  /** The octal mode after the command letter. */
  function ModeField(arg: Str): Option<int> {
    if arg == [] then None else ParseInt(arg[1..], 8)
  }

  /** A D line: the working directory moves down, also when the directory cannot be made. */
  function TurnD(line: seq<byte>, rest: seq<byte>, cwd: Str, fs: FsMap): Turn {
    var args := Split(line, SPACE);
    if |args| < 3 || ModeField(args[0]).None? then Turn([REPLY_ERR], cwd, fs, rest)
    else
      var down := JoinPath(cwd, args[2]);
      match MkdirAll(fs, down)
      case None => Turn([REPLY_ERR], down, fs, rest)
      case Some(fs') => Turn([REPLY_OK], down, fs', rest)
  }

  /** One line of the input. */
  function OneTurn(line: seq<byte>, rest: seq<byte>, cwd: Str, fs: FsMap, limit: nat): (t: Turn)
    ensures |t.rest| <= |rest|
  {
    if line == [] then Turn([REPLY_ERR], cwd, fs, rest)
    else if line[0] == CMD_C then TurnC(line, rest, cwd, fs, limit)
    else if line[0] == CMD_D then TurnD(line, rest, cwd, fs)
    else if line[0] == CMD_E then Turn([REPLY_OK], DirOf(cwd), fs, rest)
    else if line[0] == CMD_T then Turn([REPLY_OK], cwd, fs, rest)
    else Turn([REPLY_ERR], cwd, fs, rest)
  }

  /** The sink's loop; an unfinished last line ends it. */
  function SinkFrom(input: seq<byte>, cwd: Str, fs: FsMap, limit: nat): SinkResult
    decreases |input|
  {
    var i := LineEnd(input);
    if i == |input| then SinkResult([], fs)
    else
      var t := OneTurn(input[..i], input[i + 1..], cwd, fs, limit);
      var more := SinkFrom(t.rest, t.cwd, t.fs, limit);
      SinkResult(t.replies + more.replies, more.fs)
  }

  /** The whole session: one reply up front. */
  function Sink(input: seq<byte>, path: Str, fs: FsMap, limit: nat): SinkResult {
    var r := SinkFrom(input, path, fs, limit);
    SinkResult([REPLY_OK] + r.replies, r.fs)
  }

  /** The C case of the loop. */
  method ReceiveFile(line: seq<byte>, input: seq<byte>, cwd: Str, fs: FsMap, limit: nat)
    returns (replies: seq<byte>, fs': FsMap, rest: seq<byte>)
    ensures Turn(replies, cwd, fs', rest) == TurnC(line, input, cwd, fs, limit)
  {
    hide Split, ParseInt, JoinPath, WriteFile;
    var args := Split(line, SPACE);
    if |args| < 3 {
      return [REPLY_ERR], fs, input;
    }
    var parsed := ParseInt(args[1], 10);
    if parsed.None? {
      return [REPLY_ERR], fs, input;
    }
    var size := parsed.value;
    if limit > 0 && size > limit {
      return [REPLY_ERR], fs, input;
    }
    var realPath := JoinPath(cwd, args[2]);
    var n := if size < 0 then 0 else if size < |input| then size else |input|;
    var stored := WriteFile(fs, realPath, input[..n]);
    if stored.None? {
      return [REPLY_ERR], fs, input;
    }
    replies := [REPLY_OK];
    rest := input[n..];
    if n != size {
      return replies + [REPLY_ERR], stored.value, rest;
    }
    if rest == [] {
      replies := replies + [REPLY_ERR];
    } else {
      rest := rest[1..];
    }
    return replies + [REPLY_OK], stored.value, rest;
  }

  /** The D case of the loop. */
  method ReceiveDir(line: seq<byte>, cwd: Str, fs: FsMap, ghost rest: seq<byte>)
    returns (replies: seq<byte>, cwd': Str, fs': FsMap)
    ensures Turn(replies, cwd', fs', rest) == TurnD(line, rest, cwd, fs)
  {
    hide Split, MkdirAll, JoinPath, ModeField;
    var args := Split(line, SPACE);
    if |args| < 3 || ModeField(args[0]).None? {
      return [REPLY_ERR], cwd, fs;
    }
    cwd' := JoinPath(cwd, args[2]);
    var made := MkdirAll(fs, cwd');
    if made.None? {
      return [REPLY_ERR], cwd', fs;
    }
    return [REPLY_OK], cwd', made.value;
  }

  /** `sinkMode`. */
  method SinkMode(path: Str, input: seq<byte>, fs: FsMap, limit: nat) returns (replies: seq<byte>, files: FsMap)
    ensures SinkResult(replies, files) == Sink(input, path, fs, limit)
  {
    hide TurnC, TurnD, DirOf, SinkFrom;
    replies, files := [REPLY_OK], fs;
    var cwd, rest := path, input;
    while true
      invariant Sink(input, path, fs, limit) == Continued(replies, SinkFrom(rest, cwd, files, limit))
      decreases |rest|
    {
      SinkStep(rest, cwd, files, limit);
      var i := LineEnd(rest);
      if i == |rest| {
        assert replies + [] == replies;
        return;
      }
      var cmd, after := rest[..i], rest[i + 1..];
      ghost var turn, sent := OneTurn(cmd, after, cwd, files, limit), replies;
      var answer := [REPLY_OK];
      if cmd == [] {
        answer := [REPLY_ERR];
      } else if cmd[0] == CMD_C {
        answer, files, after := ReceiveFile(cmd, after, cwd, files, limit);
      } else if cmd[0] == CMD_D {
        answer, cwd, files := ReceiveDir(cmd, cwd, files, after);
      } else if cmd[0] == CMD_E {
        cwd := DirOf(cwd);
      } else if cmd[0] != CMD_T {
        answer := [REPLY_ERR];
      }
      assert turn == Turn(answer, cwd, files, after);
      ContinuedTwice(sent, answer, SinkFrom(after, cwd, files, limit));
      replies := replies + answer;
      rest := after;
    }
  }

  /** A result with earlier replies in front. */
  function Continued(sent: seq<byte>, r: SinkResult): SinkResult {
    SinkResult(sent + r.replies, r.fs)
  }

  lemma ContinuedTwice(a: seq<byte>, b: seq<byte>, r: SinkResult)
    ensures Continued(a, Continued(b, r)) == Continued(a + b, r)
  {
    assert a + (b + r.replies) == a + b + r.replies;
  }

  lemma SinkStep(input: seq<byte>, cwd: Str, fs: FsMap, limit: nat)
    ensures var i := LineEnd(input);
            SinkFrom(input, cwd, fs, limit) ==
            if i == |input| then SinkResult([], fs)
            else var t := OneTurn(input[..i], input[i + 1..], cwd, fs, limit);
                 Continued(t.replies, SinkFrom(t.rest, t.cwd, t.fs, limit))
  {
    hide OneTurn;
  }

  // ---------- a sink fed a tree ----------

  /** A line ends at its LF. */
  lemma {:induction false} LineEndAt(line: seq<byte>, rest: seq<byte>)
    requires LF !in line
    ensures LineEnd(line + [LF] + rest) == |line|
  {
    var s := line + [LF] + rest;
    if line != [] {
      LineEndAt(line[1..], rest);
      assert s[1..] == line[1..] + [LF] + rest;
    }
  }

  lemma SinkUnfolds(line: seq<byte>, rest: seq<byte>, cwd: Str, fs: FsMap, limit: nat)
    requires LF !in line
    ensures var t := OneTurn(line, rest, cwd, fs, limit);
            SinkFrom(line + [LF] + rest, cwd, fs, limit) == Continued(t.replies, SinkFrom(t.rest, t.cwd, t.fs, limit))
  {
    hide OneTurn;
    LineEndAt(line, rest);
    var s := line + [LF] + rest;
    assert s[..|line|] == line && s[|line| + 1..] == rest;
    SinkStep(s, cwd, fs, limit);
  }

  /** A C or D line without its LF. */
  function LineText(cmd: byte, mode: nat, size: nat, name: Str): seq<byte> {
    [cmd] + Octal04(mode) + [SPACE] + Itoa(size) + [SPACE] + name
  }

  /** The fields of a C or D line read back. */
  lemma LineFields(cmd: byte, mode: nat, size: nat, name: Str)
    requires cmd == CMD_C || cmd == CMD_D
    requires GoodName(name) && mode < U32 && size < U63
    ensures var args := Split(LineText(cmd, mode, size, name), SPACE);
            && args == [[cmd] + Octal04(mode), Itoa(size), name]
            && ParseInt(args[0][1..], 8) == Some(mode) && ParseInt(args[1], 10) == Some(size)
    ensures LF !in LineText(cmd, mode, size, name)
  {
    DigitsOnly(mode, size);
    hide Octal04, Itoa, ParseInt, IsDigit;
    var first, second := [cmd] + Octal04(mode), Itoa(size);
    assert LineText(cmd, mode, size, name) == first + [SPACE] + (second + [SPACE] + name);
    SplitConcat(first, second + [SPACE] + name, SPACE);
    SplitConcat(second, name, SPACE);
    SplitName(first, SPACE);
    SplitName(second, SPACE);
    SplitName(name, SPACE);
    assert first[1..] == Octal04(mode);
    ParseOctal04(mode);
    AtoiItoa(size);
  }

  lemma DigitsOnly(mode: nat, size: nat)
    ensures SPACE !in Octal04(mode) && LF !in Octal04(mode)
    ensures SPACE !in Itoa(size) && LF !in Itoa(size)
    ensures forall s: Str :: Atoi(s) == ParseInt(s, 10)
  {
    hide Octal04, Itoa, ParseInt;
    assert forall c <- Octal04(mode) :: IsDigit(c, 8);
    assert forall c <- Itoa(size) :: IsDigit(c, 10);
  }

  /** n replies, all OK. */
  function Oks(n: nat): seq<byte> {
    seq(n, _ => REPLY_OK)
  }

  lemma OksAdd(a: nat, b: nat, r: SinkResult)
    ensures Continued(Oks(a), Continued(Oks(b), r)) == Continued(Oks(a + b), r)
    ensures Continued(Oks(0), r) == r
  {
    ContinuedTwice(Oks(a), Oks(b), r);
    assert Oks(a) + Oks(b) == Oks(a + b);
    assert Oks(0) + r.replies == r.replies;
  }

  lemma TextStarts(cmd: byte, mode: nat, size: nat, name: Str)
    ensures LineText(cmd, mode, size, name) != [] && LineText(cmd, mode, size, name)[0] == cmd
    ensures LineText(cmd, mode, size, name) + [LF] == Line(cmd, mode, size, name)
  {
  }

  /** The sink's answer to a file's C line. */
  lemma FileTurn(cs: seq<Str>, t: Tree, rest: seq<byte>, fs: FsMap, limit: nat)
    requires t.FileNode? && AllPlain(cs) && Sendable(t, limit) && Compatible(fs, cs, t) && Inside(fs, cs)
    ensures OneTurn(LineText(CMD_C, t.mode, |t.content|, t.name), t.content + [NUL] + rest, Rooted(cs), fs, limit)
         == Turn([REPLY_OK, REPLY_OK], Rooted(cs), fs + Flatten(cs, t), rest)
  {
    hide Split, ParseInt, Octal04, Itoa, LineText, Rooted, JoinPath, DirOf;
    var after := t.content + [NUL] + rest;
    TextStarts(CMD_C, t.mode, |t.content|, t.name);
    LineFields(CMD_C, t.mode, |t.content|, t.name);
    JoinAppends(cs, t.name);
    DirDropsLast(cs, t.name);
    assert cs[..|cs|] == cs && IsFsDir(fs, Rooted(cs[..|cs|]));
    assert after[..|t.content|] == t.content && after[|t.content|..] != [] && after[|t.content| + 1..] == rest;
    var p := Rooted(cs + [t.name]);
    assert fs + map[p := FsFile(t.content)] == fs[p := FsFile(t.content)];
  }

  lemma SinkTakesFile(cs: seq<Str>, t: Tree, rest: seq<byte>, fs: FsMap, limit: nat)
    requires t.FileNode? && AllPlain(cs) && Sendable(t, limit) && Compatible(fs, cs, t) && Inside(fs, cs)
    ensures SinkFrom(Stream(t) + rest, Rooted(cs), fs, limit)
         == Continued(Oks(2), SinkFrom(rest, Rooted(cs), fs + Flatten(cs, t), limit))
  {
    var text, after := LineText(CMD_C, t.mode, |t.content|, t.name), t.content + [NUL] + rest;
    assert Stream(t) + rest == text + [LF] + after by {
      TextStarts(CMD_C, t.mode, |t.content|, t.name);
    }
    assert Oks(2) == [REPLY_OK, REPLY_OK];
    LineFields(CMD_C, t.mode, |t.content|, t.name);
    FileTurn(cs, t, rest, fs, limit);
    SinkUnfolds(text, after, Rooted(cs), fs, limit);
    hide *;
  }

  /** The slashes of a path in a directory are those of the directory and the last one. */
  lemma AboveChild(cs: seq<Str>, name: Str, q: Str)
    requires AllPlain(cs) && Plain(name)
    ensures q in Above(Rooted(cs + [name])) <==> q == Rooted(cs + [name]) || q in Above(Rooted(cs))
  {
    var up, c := if cs == [] then [] else Rooted(cs), Rooted(cs + [name]);
    RootedSnoc(cs, name);
    AboveUp(cs, q);
    PlainHasNoSlash(name);
    hide Rooted, Plain, AllPlain, Above;
    AboveAppended(up, name, q);
    assert IsAbs(c);
    AboveAbs(c, q);
  }

  /** The slashes inside a path, each with what is before it. */
  predicate SlashedOff(p: Str, q: Str) {
    exists i :: 0 < i < |p| && p[i] == SLASH && q == p[..i]
  }

  lemma AboveAbs(p: Str, q: Str)
    requires IsAbs(p)
    ensures q in Above(p) <==> SlashedOff(p, q) || q == p || q == [SLASH]
  {
  }

  lemma AboveUp(cs: seq<Str>, q: Str)
    requires AllPlain(cs)
    ensures var up := if cs == [] then [] else Rooted(cs);
            (up == [] || IsAbs(up)) && (q in Above(Rooted(cs)) <==> SlashedOff(up, q) || q == up != [] || q == [SLASH])
  {
    if cs == [] {
      assert Rooted(cs) == [SLASH];
    }
    AboveAbs(Rooted(cs), q);
    hide Above;
  }

  lemma AboveAppended(up: Str, name: Str, q: Str)
    requires SLASH !in name
    ensures SlashedOff(up + [SLASH] + name, q) <==> SlashedOff(up, q) || q == up != []
  {
    var c := up + [SLASH] + name;
    assert forall i :: |up| < i < |c| ==> c[i] == name[i - |up| - 1];
    assert forall i :: 0 <= i <= |up| ==> c[..i] == up[..i];
    if up != [] {
      assert c[|up|] == SLASH && c[..|up|] == up;
    }
    if SlashedOff(up, q) {
      var i :| 0 < i < |up| && up[i] == SLASH && q == up[..i];
      assert c[i] == SLASH && q == c[..i];
    }
  }

  lemma PlainHasNoSlash(name: Str)
    requires Plain(name)
    ensures SLASH !in name
  {
  }

  lemma {:induction false} AboveRooted(cs: seq<Str>, q: Str)
    requires AllPlain(cs) && q in Above(Rooted(cs))
    ensures exists k :: 0 <= k <= |cs| && q == Rooted(cs[..k])
  {
    if cs == [] {
      assert Rooted(cs) == [SLASH] && cs[..0] == cs;
    } else {
      var up, name := cs[..|cs| - 1], cs[|cs| - 1];
      assert cs == up + [name];
      AboveChild(up, name, q);
      if q == Rooted(cs) {
        assert cs[..|cs|] == cs;
      } else {
        AboveRooted(up, q);
        var k :| 0 <= k <= |up| && q == Rooted(up[..k]);
        assert up[..k] == cs[..k];
      }
    }
  }

  /** Where everything above is a directory, `MkdirAll` only adds the directory itself. */
  lemma MkdirInside(fs: FsMap, cs: seq<Str>, name: Str)
    requires AllPlain(cs) && Plain(name) && Inside(fs, cs) && !IsFsFile(fs, Rooted(cs + [name]))
    ensures MkdirAll(fs, Rooted(cs + [name])) == Some(fs[Rooted(cs + [name]) := FsDir])
  {
    var c := Rooted(cs + [name]);
    hide Rooted;
    forall q | q in Above(c)
      ensures q == c || IsFsDir(fs, q)
    {
      AboveChild(cs, name, q);
      if q != c {
        AboveRooted(cs, q);
      }
    }
    assert fs + (map q | q in Above(c) :: FsDir) == fs[c := FsDir];
  }

  /** A compatible tree replaces no directory by a file. */
  lemma {:induction false} DirsStay(fs: FsMap, cs: seq<Str>, t: Tree, p: Str)
    requires Compatible(fs, cs, t) && IsFsDir(fs, p)
    ensures IsFsDir(fs + Flatten(cs, t), p)
    decreases t, 1
  {
    if t.DirNode? {
      var here := Rooted(cs + [t.name]);
      DirsStayAll(fs[here := FsDir], cs + [t.name], t.kids, p);
      assert fs + Flatten(cs, t) == fs[here := FsDir] + FlattenAll(cs + [t.name], t.kids);
    }
  }

  lemma {:induction false} DirsStayAll(fs: FsMap, cs: seq<Str>, ts: seq<Tree>, p: Str)
    requires CompatibleAll(fs, cs, ts) && IsFsDir(fs, p)
    ensures IsFsDir(fs + FlattenAll(cs, ts), p)
    decreases ts, 0
  {
    if ts != [] {
      DirsStay(fs, cs, ts[0], p);
      DirsStayAll(fs + Flatten(cs, ts[0]), cs, ts[1..], p);
      assert fs + FlattenAll(cs, ts) == fs + Flatten(cs, ts[0]) + FlattenAll(cs, ts[1..]);
    }
  }

  lemma StaysInside(fs: FsMap, cs: seq<Str>, t: Tree)
    requires Compatible(fs, cs, t) && Inside(fs, cs)
    ensures Inside(fs + Flatten(cs, t), cs)
  {
    forall k | 0 <= k <= |cs|
      ensures IsFsDir(fs + Flatten(cs, t), Rooted(cs[..k]))
    {
      DirsStay(fs, cs, t, Rooted(cs[..k]));
    }
  }

  /** The sink's answer to a directory's D line: one level down. */
  lemma SinkEnters(cs: seq<Str>, t: Tree, rest: seq<byte>, fs: FsMap, limit: nat)
    requires t.DirNode? && AllPlain(cs) && Sendable(t, limit) && Compatible(fs, cs, t) && Inside(fs, cs)
    ensures var here := Rooted(cs + [t.name]);
            SinkFrom(Line(CMD_D, t.mode, 0, t.name) + rest, Rooted(cs), fs, limit)
            == Continued(Oks(1), SinkFrom(rest, here, fs[here := FsDir], limit))
    ensures Inside(fs[Rooted(cs + [t.name]) := FsDir], cs + [t.name])
  {
    var text, here := LineText(CMD_D, t.mode, 0, t.name), cs + [t.name];
    forall k | 0 <= k <= |here|
      ensures IsFsDir(fs[Rooted(here) := FsDir], Rooted(here[..k]))
    {
      if k == |here| {
        assert here[..k] == here;
      } else {
        assert here[..k] == cs[..k];
      }
    }
    DirTurn(cs, t, rest, fs, limit);
    TextStarts(CMD_D, t.mode, 0, t.name);
    LineFields(CMD_D, t.mode, 0, t.name);
    SinkUnfolds(text, rest, Rooted(cs), fs, limit);
    assert Oks(1) == [REPLY_OK];
    hide *;
  }

  lemma DirTurn(cs: seq<Str>, t: Tree, rest: seq<byte>, fs: FsMap, limit: nat)
    requires t.DirNode? && AllPlain(cs) && Sendable(t, limit) && Compatible(fs, cs, t) && Inside(fs, cs)
    ensures var here := Rooted(cs + [t.name]);
            OneTurn(LineText(CMD_D, t.mode, 0, t.name), rest, Rooted(cs), fs, limit)
            == Turn([REPLY_OK], here, fs[here := FsDir], rest)
  {
    hide Split, ParseInt, Octal04, Itoa, LineText, Rooted, JoinPath, MkdirAll, Inside;
    TextStarts(CMD_D, t.mode, 0, t.name);
    LineFields(CMD_D, t.mode, 0, t.name);
    JoinAppends(cs, t.name);
    MkdirInside(fs, cs, t.name);
  }

  /** The sink's answer to E: one level up. */
  lemma SinkLeaves(cs: seq<Str>, name: Str, rest: seq<byte>, fs: FsMap, limit: nat)
    requires AllPlain(cs) && Plain(name)
    ensures SinkFrom(E_LINE + rest, Rooted(cs + [name]), fs, limit)
         == Continued(Oks(1), SinkFrom(rest, Rooted(cs), fs, limit))
  {
    hide *;
    DirDropsLast(cs, name);
    TurnE(rest, Rooted(cs + [name]), fs, limit);
    SinkUnfolds([CMD_E], rest, Rooted(cs + [name]), fs, limit);
  }

  lemma TurnE(rest: seq<byte>, cwd: Str, fs: FsMap, limit: nat)
    ensures OneTurn([CMD_E], rest, cwd, fs, limit) == Turn(Oks(1), DirOf(cwd), fs, rest)
    ensures LF !in [CMD_E] && [CMD_E] + [LF] + rest == E_LINE + rest
  {
    hide DirOf;
    assert Oks(1) == [REPLY_OK];
  }

  /** Fed the stream of a tree, the sink answers OK once a unit, adds exactly the tree to the
      filesystem, and goes on from the directory where it started. */
  lemma {:induction false} SinkTakesTree(cs: seq<Str>, t: Tree, rest: seq<byte>, fs: FsMap, limit: nat)
    requires AllPlain(cs) && Sendable(t, limit) && Compatible(fs, cs, t) && Inside(fs, cs)
    ensures SinkFrom(Stream(t) + rest, Rooted(cs), fs, limit)
         == Continued(Oks(Units(t)), SinkFrom(rest, Rooted(cs), fs + Flatten(cs, t), limit))
    decreases t, 1
  {
    if t.FileNode? {
      hide *;
      assert Units(t) == 2 by {
        FileUnits(t);
      }
      SinkTakesFile(cs, t, rest, fs, limit);
    } else {
      hide *;
      DirParts(cs, t, rest, fs, limit);
      var here := cs + [t.name];
      var fs1 := fs[Rooted(here) := FsDir];
      var fs2 := fs1 + FlattenAll(here, t.kids);
      SinkEnters(cs, t, StreamAll(t.kids) + (E_LINE + rest), fs, limit);
      SinkTakesAll(here, t.kids, E_LINE + rest, fs1, limit);
      SinkLeaves(cs, t.name, rest, fs2, limit);
      var last := SinkFrom(rest, Rooted(cs), fs2, limit);
      OksAdd(UnitsAll(t.kids), 1, last);
      OksAdd(1, UnitsAll(t.kids) + 1, last);
    }
  }

  lemma FileUnits(t: Tree)
    requires t.FileNode?
    ensures Units(t) == 2
  {
  }

  /** A directory's stream, conditions and paths in terms of its children's. */
  lemma DirParts(cs: seq<Str>, t: Tree, rest: seq<byte>, fs: FsMap, limit: nat)
    requires t.DirNode? && AllPlain(cs) && Sendable(t, limit) && Compatible(fs, cs, t)
    ensures Stream(t) + rest == Line(CMD_D, t.mode, 0, t.name) + (StreamAll(t.kids) + (E_LINE + rest))
    ensures Units(t) == 1 + (UnitsAll(t.kids) + 1)
    ensures Plain(t.name) && AllPlain(cs + [t.name]) && forall k <- t.kids :: Sendable(k, limit)
    ensures var fs1 := fs[Rooted(cs + [t.name]) := FsDir];
            CompatibleAll(fs1, cs + [t.name], t.kids) && fs + Flatten(cs, t) == fs1 + FlattenAll(cs + [t.name], t.kids)
  {
    hide Line, Rooted;
    assert fs + (map[Rooted(cs + [t.name]) := FsDir] + FlattenAll(cs + [t.name], t.kids))
        == fs[Rooted(cs + [t.name]) := FsDir] + FlattenAll(cs + [t.name], t.kids);
  }

  /** The same for the first of several trees. */
  lemma FirstParts(cs: seq<Str>, ts: seq<Tree>, rest: seq<byte>, fs: FsMap, limit: nat)
    requires ts != [] && (forall t <- ts :: Sendable(t, limit)) && CompatibleAll(fs, cs, ts)
    ensures StreamAll(ts) + rest == Stream(ts[0]) + (StreamAll(ts[1..]) + rest)
    ensures UnitsAll(ts) == Units(ts[0]) + UnitsAll(ts[1..])
    ensures Sendable(ts[0], limit) && forall t <- ts[1..] :: Sendable(t, limit)
    ensures Compatible(fs, cs, ts[0]) && CompatibleAll(fs + Flatten(cs, ts[0]), cs, ts[1..])
    ensures fs + FlattenAll(cs, ts) == fs + Flatten(cs, ts[0]) + FlattenAll(cs, ts[1..])
  {
    hide Stream, Flatten, Compatible, Sendable, Units;
    assert ts[0] in ts && forall t <- ts[1..] :: t in ts;
  }

  lemma NoParts(cs: seq<Str>, rest: seq<byte>, fs: FsMap)
    ensures StreamAll([]) + rest == rest && fs + FlattenAll(cs, []) == fs && UnitsAll([]) == 0
  {
  }

  lemma {:induction false} SinkTakesAll(cs: seq<Str>, ts: seq<Tree>, rest: seq<byte>, fs: FsMap, limit: nat)
    requires AllPlain(cs) && (forall t <- ts :: Sendable(t, limit)) && CompatibleAll(fs, cs, ts) && Inside(fs, cs)
    ensures SinkFrom(StreamAll(ts) + rest, Rooted(cs), fs, limit)
         == Continued(Oks(UnitsAll(ts)), SinkFrom(rest, Rooted(cs), fs + FlattenAll(cs, ts), limit))
    decreases ts, 0
  {
    if ts == [] {
      hide *;
      NoParts(cs, rest, fs);
      OksAdd(0, 0, SinkFrom(rest, Rooted(cs), fs, limit));
    } else {
      hide *;
      FirstParts(cs, ts, rest, fs, limit);
      var t, more := ts[0], ts[1..];
      var fs1 := fs + Flatten(cs, t);
      SinkTakesTree(cs, t, StreamAll(more) + rest, fs, limit);
      StaysInside(fs, cs, t);
      SinkTakesAll(cs, more, rest, fs1, limit);
      OksAdd(Units(t), UnitsAll(more), SinkFrom(rest, Rooted(cs), fs1 + FlattenAll(cs, more), limit));
    }
  }

  lemma {:induction false} SendableNames(t: Tree, limit: nat)
    requires Sendable(t, limit)
    ensures GoodNames(t)
  {
    if t.DirNode? {
      forall k | k in t.kids {
        SendableNames(k, limit);
      }
    }
  }

  /** A sink in an existing directory, sent a tree whose name is free there, answers OK throughout,
      one reply more than the tree has units; the filesystem gains exactly the tree, and holds it. */
  lemma SinkRebuildsTheTree(cs: seq<Str>, t: Tree, fs: FsMap, limit: nat)
    requires AllPlain(cs) && Inside(fs, cs) && Sendable(t, limit) && DistinctNames(t)
    requires NothingAt(fs, cs + [t.name])
    ensures Sink(Stream(t), Rooted(cs), fs, limit) == SinkResult(Oks(1 + Units(t)), fs + Flatten(cs, t))
    ensures Holds(fs + Flatten(cs, t), cs, t)
  {
    hide *;
    SendableNames(t, limit);
    FreshIsCompatible(fs, cs, t);
    SinkTakesTree(cs, t, [], fs, limit);
    FlattenHolds(fs + Flatten(cs, t), cs, t);
    assert Stream(t) + [] == Stream(t);
    SinkEnds(Rooted(cs), fs + Flatten(cs, t), limit, Units(t));
    SinkIsPrefixed(Stream(t), Rooted(cs), fs, limit);
  }

  lemma SinkEnds(cwd: Str, fs: FsMap, limit: nat, n: nat)
    ensures Continued([REPLY_OK], Continued(Oks(n), SinkFrom([], cwd, fs, limit))) == SinkResult(Oks(1 + n), fs)
  {
    assert [REPLY_OK] + (Oks(n) + []) == Oks(1 + n);
  }

  lemma SinkIsPrefixed(input: seq<byte>, path: Str, fs: FsMap, limit: nat)
    ensures Sink(input, path, fs, limit) == Continued([REPLY_OK], SinkFrom(input, path, fs, limit))
  {
    hide SinkFrom;
  }
}
