/** The handshake between source and sink (`os/command/scp.go`): every reply the source waits for has
    been sent by a sink that has seen no more than what the source has flushed. */
module ScpHandshake {
  import opened GoBytes
  import opened Numerals
  import opened Paths
  import opened ScpTree
  import opened ScpSink
  import opened ScpSource
  import opened ScpShapes
  import opened ScpRoundTrip

  // ---------- a sink in mid-stream ----------

  /** A C line that is accepted, while its content or the byte after it is not all there. */
  predicate Receiving(line: seq<byte>, after: seq<byte>, cwd: Str, fs: FsMap, limit: nat) {
    line != [] && line[0] == CMD_C &&
    var args := Split(line, SPACE);
    match SizeField(args, limit)
    case None => false
    case Some(size) => |after| <= size && WriteFile(fs, JoinPath(cwd, args[2]), []).Some?
  }

  /** The replies of a sink that has received this much and waits for more. */
  function Heard(input: seq<byte>, cwd: Str, fs: FsMap, limit: nat): seq<byte>
    decreases |input|
  {
    var i := LineEnd(input);
    if i == |input| then []
    else if Receiving(input[..i], input[i + 1..], cwd, fs, limit) then [REPLY_OK]
    else
      var t := OneTurn(input[..i], input[i + 1..], cwd, fs, limit);
      t.replies + Heard(t.rest, t.cwd, t.fs, limit)
  }

  lemma HeardUnfolds(line: seq<byte>, after: seq<byte>, cwd: Str, fs: FsMap, limit: nat)
    requires LF !in line
    ensures var t := OneTurn(line, after, cwd, fs, limit);
            Heard(line + [LF] + after, cwd, fs, limit)
            == if Receiving(line, after, cwd, fs, limit) then [REPLY_OK]
               else t.replies + Heard(t.rest, t.cwd, t.fs, limit)
  {
    hide OneTurn, Receiving;
    LineEndAt(line, after);
    var s := line + [LF] + after;
    assert s[..|line|] == line && s[|line| + 1..] == after;
  }

  lemma WritesWhatever(fs: FsMap, p: Str, a: seq<byte>, b: seq<byte>)
    ensures WriteFile(fs, p, a).Some? == WriteFile(fs, p, b).Some?
  {
    hide DirOf;
  }

  /** The size that a C line announces cuts what follows the same way, whatever comes later. */
  lemma CutIsCausal(after: seq<byte>, x: seq<byte>, n: nat)
    requires n <= |after|
    ensures (after + x)[..n] == after[..n] && (after + x)[n..] == after[n..] + x
  {
  }

  lemma HasName(args: seq<Str>, limit: nat)
    requires SizeField(args, limit).Some?
    ensures |args| >= 3
  {
  }

  lemma FileIsCausal(line: seq<byte>, after: seq<byte>, x: seq<byte>, cwd: Str, fs: FsMap, limit: nat)
    requires line != [] && line[0] == CMD_C
    ensures var t, u := TurnC(line, after, cwd, fs, limit), TurnC(line, after + x, cwd, fs, limit);
            if Receiving(line, after, cwd, fs, limit) then [REPLY_OK] <= u.replies
            else u == t.(rest := t.rest + x)
  {
    hide Split, JoinPath, WriteFile, SizeField;
    var args := Split(line, SPACE);
    match SizeField(args, limit)
    case None =>
    case Some(size) =>
      HasName(args, limit);
      var p, longer := JoinPath(cwd, args[2]), after + x;
      var n := if size < 0 then 0 else if size < |after| then size else |after|;
      var m := if size < 0 then 0 else if size < |longer| then size else |longer|;
      WritesWhatever(fs, p, [], after[..n]);
      WritesWhatever(fs, p, [], longer[..m]);
      if size < |after| {
        CutIsCausal(after, x, n);
        if 0 <= size {
          CutIsCausal(after, x, n + 1);
        }
      }
  }

  /** A turn that needs no more input is the same whatever follows. */
  lemma TurnIsCausal(line: seq<byte>, after: seq<byte>, x: seq<byte>, cwd: Str, fs: FsMap, limit: nat)
    ensures var t, u := OneTurn(line, after, cwd, fs, limit), OneTurn(line, after + x, cwd, fs, limit);
            if Receiving(line, after, cwd, fs, limit) then [REPLY_OK] <= u.replies
            else u == t.(rest := t.rest + x)
  {
    if line != [] && line[0] == CMD_C {
      FileIsCausal(line, after, x, cwd, fs, limit);
    }
    hide Split, JoinPath, MkdirAll, DirOf, TurnC, WriteFile;
  }

  /** What a sink has sent in mid-stream is the beginning of what it sends, whatever follows. */
  lemma {:induction false} SinkIsCausal(p: seq<byte>, x: seq<byte>, cwd: Str, fs: FsMap, limit: nat)
    ensures Heard(p, cwd, fs, limit) <= SinkFrom(p + x, cwd, fs, limit).replies
    decreases |p|
  {
    hide *;
    if LineEnd(p) == |p| {
      NothingHeard(p, cwd, fs, limit);
    } else {
      OneTurnCausal(p, x, cwd, fs, limit);
      var line, after := p[..LineEnd(p)], p[LineEnd(p) + 1..];
      if !Receiving(line, after, cwd, fs, limit) {
        var t := OneTurn(line, after, cwd, fs, limit);
        SinkIsCausal(t.rest, x, t.cwd, t.fs, limit);
        PrefixAfter(t.replies, Heard(t.rest, t.cwd, t.fs, limit), SinkFrom(t.rest + x, t.cwd, t.fs, limit).replies);
      }
    }
  }

  lemma PrefixAfter(a: seq<byte>, b: seq<byte>, c: seq<byte>)
    requires b <= c
    ensures a + b <= a + c
  {
    assert (a + c)[..|a + b|] == a + c[..|b|];
  }

  lemma NothingHeard(p: seq<byte>, cwd: Str, fs: FsMap, limit: nat)
    requires LineEnd(p) == |p|
    ensures Heard(p, cwd, fs, limit) == []
  {
    hide LineEnd;
  }

  /** One turn, of what has been received and of all that will be. */
  lemma OneTurnCausal(p: seq<byte>, x: seq<byte>, cwd: Str, fs: FsMap, limit: nat)
    requires LineEnd(p) < |p|
    ensures var line, after := p[..LineEnd(p)], p[LineEnd(p) + 1..];
            var t, all := OneTurn(line, after, cwd, fs, limit), SinkFrom(p + x, cwd, fs, limit).replies;
            && |t.rest| < |p|
            && if Receiving(line, after, cwd, fs, limit) then Heard(p, cwd, fs, limit) == [REPLY_OK] <= all
               else
                 && Heard(p, cwd, fs, limit) == t.replies + Heard(t.rest, t.cwd, t.fs, limit)
                 && all == t.replies + SinkFrom(t.rest + x, t.cwd, t.fs, limit).replies
  {
    var i := LineEnd(p);
    var line, after := p[..i], p[i + 1..];
    hide Heard, SinkFrom, Receiving, OneTurn, LineEnd;
    assert p == line + [LF] + after && p + x == line + [LF] + (after + x);
    HeardUnfolds(line, after, cwd, fs, limit);
    SinkUnfolds(line, after + x, cwd, fs, limit);
    TurnIsCausal(line, after, x, cwd, fs, limit);
  }

  // ---------- what a sink takes whole ----------

  /** Where a sink stands between two commands. */
  datatype Place = Place(cwd: Str, fs: FsMap)

  function HeardFrom(input: seq<byte>, at: Place, limit: nat): seq<byte> { Heard(input, at.cwd, at.fs, limit) }

  function SunkFrom(input: seq<byte>, at: Place, limit: nat): SinkResult { SinkFrom(input, at.cwd, at.fs, limit) }

  /** Given these bytes the sink answers OK n times and stands at `to`, whatever follows. */
  ghost predicate Took(a: seq<byte>, from: Place, limit: nat, n: nat, to: Place) {
    forall y: seq<byte> ::
      && HeardFrom(a + y, from, limit) == Oks(n) + HeardFrom(y, to, limit)
      && SunkFrom(a + y, from, limit) == Continued(Oks(n), SunkFrom(y, to, limit))
  }

  lemma TookNothing(from: Place, limit: nat)
    ensures Took([], from, limit, 0, from)
  {
    hide HeardFrom, SunkFrom;
    forall y: seq<byte>
      ensures HeardFrom([] + y, from, limit) == Oks(0) + HeardFrom(y, from, limit)
      ensures SunkFrom([] + y, from, limit) == Continued(Oks(0), SunkFrom(y, from, limit))
    {
      assert [] + y == y;
      OksAdd(0, 0, SunkFrom(y, from, limit));
    }
  }

  lemma TookBoth(a: seq<byte>, b: seq<byte>, from: Place, mid: Place, to: Place, limit: nat, n: nat, m: nat)
    requires Took(a, from, limit, n, mid) && Took(b, mid, limit, m, to)
    ensures Took(a + b, from, limit, n + m, to)
  {
    hide HeardFrom, SunkFrom;
    forall y: seq<byte>
      ensures HeardFrom(a + b + y, from, limit) == Oks(n + m) + HeardFrom(y, to, limit)
      ensures SunkFrom(a + b + y, from, limit) == Continued(Oks(n + m), SunkFrom(y, to, limit))
    {
      assert a + b + y == a + (b + y);
      assert HeardFrom(a + (b + y), from, limit) == Oks(n) + HeardFrom(b + y, mid, limit);
      assert Oks(n) + Oks(m) == Oks(n + m);
      OksAdd(n, m, SunkFrom(y, to, limit));
    }
  }

  lemma TakesE(at: Place, limit: nat)
    ensures Took(E_LINE, at, limit, 1, Place(DirOf(at.cwd), at.fs))
  {
    var to := Place(DirOf(at.cwd), at.fs);
    forall y: seq<byte>
      ensures HeardFrom(E_LINE + y, at, limit) == Oks(1) + HeardFrom(y, to, limit)
      ensures SunkFrom(E_LINE + y, at, limit) == Continued(Oks(1), SunkFrom(y, to, limit))
    {
      TurnE(y, at.cwd, at.fs, limit);
      NotReceiving([CMD_E], y, at, limit);
      hide OneTurn, Heard, SinkFrom, Receiving, DirOf, Oks;
      HeardUnfolds([CMD_E], y, at.cwd, at.fs, limit);
      SinkUnfolds([CMD_E], y, at.cwd, at.fs, limit);
    }
  }

  lemma NotReceiving(line: seq<byte>, after: seq<byte>, at: Place, limit: nat)
    requires line == [] || line[0] != CMD_C
    ensures !Receiving(line, after, at.cwd, at.fs, limit)
  {
  }

  /** A D line that the sink answers OK. */
  lemma TakesDir(t: Tree, y0: seq<byte>, at: Place, limit: nat) returns (to: Place)
    requires t.DirNode? && Carried(t) && AllOk(SunkFrom(Unit(t) + y0, at, limit).replies)
    ensures Took(Unit(t), at, limit, 1, to)
  {
    var text, down := LineText(CMD_D, t.mode, 0, t.name), JoinPath(at.cwd, t.name);
    var made := MkdirAll(at.fs, down);
    to := Place(down, if made.Some? then made.value else at.fs);
    hide Heard, SinkFrom, Receiving, OneTurn, JoinPath, MkdirAll, LineText, Unit, Carried, AllOk, Oks;
    forall y: seq<byte>
      ensures made.Some? ==> HeardFrom(Unit(t) + y, at, limit) == Oks(1) + HeardFrom(y, to, limit)
      ensures made.Some? ==> SunkFrom(Unit(t) + y, at, limit) == Continued(Oks(1), SunkFrom(y, to, limit))
      ensures made.None? ==> !AllOk(SunkFrom(Unit(t) + y, at, limit).replies)
    {
      DirText(t, y);
      DirAnswer(t, y, at, limit);
      NotReceiving(text, y, at, limit);
      HeardUnfolds(text, y, at.cwd, at.fs, limit);
      SinkUnfolds(text, y, at.cwd, at.fs, limit);
      if made.None? {
        StartsBad(SunkFrom(Unit(t) + y, at, limit).replies);
      }
    }
  }

  lemma DirText(t: Tree, y: seq<byte>)
    requires t.DirNode? && Carried(t)
    ensures var text := LineText(CMD_D, t.mode, 0, t.name);
            text != [] && text[0] == CMD_D && LF !in text && Unit(t) + y == text + [LF] + y
  {
    TextStarts(CMD_D, t.mode, 0, t.name);
    LineFields(CMD_D, t.mode, 0, t.name);
    hide Line, LineText, Split;
  }

  lemma DirAnswer(t: Tree, y: seq<byte>, at: Place, limit: nat)
    requires t.DirNode? && Carried(t)
    ensures var down := JoinPath(at.cwd, t.name);
            OneTurn(LineText(CMD_D, t.mode, 0, t.name), y, at.cwd, at.fs, limit)
            == match MkdirAll(at.fs, down)
               case None => Turn([REPLY_ERR], down, at.fs, y)
               case Some(fs') => Turn(Oks(1), down, fs', y)
  {
    TextStarts(CMD_D, t.mode, 0, t.name);
    LineFields(CMD_D, t.mode, 0, t.name);
    assert Oks(1) == [REPLY_OK];
    hide Split, ParseInt, Octal04, Itoa, LineText, JoinPath, MkdirAll;
  }

  /** A node whose line the protocol can carry. */
  predicate Carried(t: Tree) {
    GoodName(t.name) && t.mode < U32 && (t.FileNode? ==> |t.content| < U63)
  }

  /** The sink stores this file here. */
  predicate Stores(t: Tree, at: Place, limit: nat)
    requires t.FileNode?
  {
    (limit == 0 || |t.content| <= limit) && WriteFile(at.fs, JoinPath(at.cwd, t.name), t.content).Some?
  }

  function Stored(t: Tree, at: Place, limit: nat): Place
    requires t.FileNode? && Stores(t, at, limit)
  {
    Place(at.cwd, WriteFile(at.fs, JoinPath(at.cwd, t.name), t.content).value)
  }

  /** A file that the sink answers OK. */
  lemma TakesFile(t: Tree, y0: seq<byte>, at: Place, limit: nat)
    requires t.FileNode? && Carried(t) && AllOk(SunkFrom(Unit(t) + y0, at, limit).replies)
    ensures Stores(t, at, limit) && Took(Unit(t), at, limit, 2, Stored(t, at, limit))
  {
    FileBefore(t, y0, at, limit);
    hide HeardFrom, SunkFrom, Unit, Stores, Stored, Oks;
    assert Stores(t, at, limit);
    forall y: seq<byte>
      ensures HeardFrom(Unit(t) + y, at, limit) == Oks(2) + HeardFrom(y, Stored(t, at, limit), limit)
      ensures SunkFrom(Unit(t) + y, at, limit) == Continued(Oks(2), SunkFrom(y, Stored(t, at, limit), limit))
    {
      FileBefore(t, y, at, limit);
    }
  }

  lemma FileBefore(t: Tree, y: seq<byte>, at: Place, limit: nat)
    requires t.FileNode? && Carried(t)
    ensures Stores(t, at, limit) ==>
              && HeardFrom(Unit(t) + y, at, limit) == Oks(2) + HeardFrom(y, Stored(t, at, limit), limit)
              && SunkFrom(Unit(t) + y, at, limit) == Continued(Oks(2), SunkFrom(y, Stored(t, at, limit), limit))
    ensures !Stores(t, at, limit) ==> !AllOk(SunkFrom(Unit(t) + y, at, limit).replies)
  {
    hide Heard, SinkFrom, Receiving, OneTurn, LineText, Line, Unit, Oks, Stores, Stored, Carried, AllOk;
    var text, after := LineText(CMD_C, t.mode, |t.content|, t.name), t.content + [NUL] + y;
    FileText(t, y);
    FileAnswer(t, y, at, limit);
    HeardUnfolds(text, after, at.cwd, at.fs, limit);
    SinkUnfolds(text, after, at.cwd, at.fs, limit);
    if !Stores(t, at, limit) {
      StartsBad(SunkFrom(Unit(t) + y, at, limit).replies);
    }
  }

  lemma StartsBad(replies: seq<byte>)
    requires [REPLY_ERR] <= replies
    ensures !AllOk(replies)
  {
    assert replies[0] == REPLY_ERR;
  }

  lemma FileText(t: Tree, y: seq<byte>)
    requires t.FileNode? && Carried(t)
    ensures var text := LineText(CMD_C, t.mode, |t.content|, t.name);
            && LF !in text && Unit(t) + y == text + [LF] + (t.content + [NUL] + y)
            && Line(CMD_C, t.mode, |t.content|, t.name) == text + [LF] + []
  {
    TextStarts(CMD_C, t.mode, |t.content|, t.name);
    LineFields(CMD_C, t.mode, |t.content|, t.name);
    hide Line, LineText, Split;
    var text := LineText(CMD_C, t.mode, |t.content|, t.name);
    assert text + [LF] + [] == text + [LF];
    assert text + [LF] + t.content + [NUL] + y == text + [LF] + (t.content + [NUL] + y);
  }

  /** After the line alone the sink has answered it. */
  lemma LineAnswered(t: Tree, at: Place, limit: nat)
    requires t.FileNode? && Carried(t) && Stores(t, at, limit)
    ensures HeardFrom(Line(CMD_C, t.mode, |t.content|, t.name), at, limit) == Oks(1)
  {
    hide Heard, Receiving, OneTurn, LineText, Line, Oks, Stores, Stored, Carried;
    FileText(t, []);
    FileAnswer(t, [], at, limit);
    HeardUnfolds(LineText(CMD_C, t.mode, |t.content|, t.name), [], at.cwd, at.fs, limit);
  }

  lemma FileAnswer(t: Tree, y: seq<byte>, at: Place, limit: nat)
    requires t.FileNode? && Carried(t)
    ensures var text, after := LineText(CMD_C, t.mode, |t.content|, t.name), t.content + [NUL] + y;
            var turn := OneTurn(text, after, at.cwd, at.fs, limit);
            if Stores(t, at, limit) then
              && turn == Turn(Oks(2), Stored(t, at, limit).cwd, Stored(t, at, limit).fs, y) && [REPLY_OK] == Oks(1)
              && !Receiving(text, after, at.cwd, at.fs, limit) && Receiving(text, [], at.cwd, at.fs, limit)
            else turn.replies == [REPLY_ERR]
  {
    var n, after := |t.content|, t.content + [NUL] + y;
    TextStarts(CMD_C, t.mode, n, t.name);
    LineFields(CMD_C, t.mode, n, t.name);
    assert Oks(1) == [REPLY_OK] && Oks(2) == [REPLY_OK, REPLY_OK];
    assert after[..n] == t.content && after[n..] != [] && after[n + 1..] == y;
    WritesWhatever(at.fs, JoinPath(at.cwd, t.name), [], t.content);
    hide Split, ParseInt, Octal04, Itoa, LineText, JoinPath, WriteFile;
  }

  // ---------- source and sink in step ----------

  /** Before its i-th read of a reply the source has flushed enough for the sink to have answered OK i
      times, besides the reply it sends up front. */
  ghost predicate Answered(out: seq<byte>, waits: seq<nat>, from: Place, limit: nat) {
    forall i :: 0 <= i < |waits| ==> waits[i] <= |out| && Oks(i) <= HeardFrom(out[..waits[i]], from, limit)
  }

  /** The sink has taken all that is written, with one reply for each one read. */
  ghost predicate InStep(s: State, from: Place, limit: nat, to: Place) {
    Took(s.out, from, limit, |s.waits|, to) && Answered(s.out, s.waits, from, limit)
  }

  lemma HeardAfter(a: seq<byte>, from: Place, limit: nat, n: nat, to: Place)
    requires Took(a, from, limit, n, to)
    ensures HeardFrom(a, from, limit) == Oks(n)
  {
    assert a + [] == a && HeardFrom([], to, limit) == [] && Oks(n) + [] == Oks(n);
    assert HeardFrom(a + [], from, limit) == Oks(n) + HeardFrom([], to, limit);
  }

  /** One more reply is read after more output. */
  lemma OneMoreWait(out: seq<byte>, waits: seq<nat>, b: seq<byte>, k: nat, from: Place, limit: nat)
    requires Answered(out, waits, from, limit)
    requires k <= |out + b| && Oks(|waits|) <= HeardFrom((out + b)[..k], from, limit)
    ensures Answered(out + b, waits + [k], from, limit)
  {
    hide HeardFrom, Oks;
    forall i | 0 <= i < |waits|
      ensures (out + b)[..waits[i]] == out[..waits[i]]
    {
    }
  }

  /** A command that the sink takes, its reply read when at least what was written before it has
      been flushed. */
  lemma CommandInStep(s: State, b: seq<byte>, k: nat, from: Place, mid: Place, to: Place, limit: nat)
    requires InStep(s, from, limit, mid) && Took(b, mid, limit, 1, to) && (k == |s.out| || k == |s.out + b|)
    ensures Took(s.out + b, from, limit, |s.waits + [k]|, to) && Answered(s.out + b, s.waits + [k], from, limit)
  {
    hide HeardFrom, Took;
    TookBoth(s.out, b, from, mid, to, limit, |s.waits|, 1);
    HeardAfter(s.out, from, limit, |s.waits|, mid);
    HeardAfter(s.out + b, from, limit, |s.waits| + 1, to);
    assert (s.out + b)[..|s.out|] == s.out && (s.out + b)[..|s.out + b|] == s.out + b;
    assert Oks(|s.waits|) <= Oks(|s.waits| + 1);
    OneMoreWait(s.out, s.waits, b, k, from, limit);
  }

  lemma RiseInStep(s: State, p: Str, from: Place, limit: nat, to: Place) returns (up: Place)
    requires InStep(s, from, limit, to) && s.flushed == |s.out| && AllOk(s.replies)
    ensures InStep(Rise(s, p), from, limit, up)
  {
    up := to;
    if !(s.cwd <= p) {
      up := Place(DirOf(to.cwd), to.fs);
      TakesE(to, limit);
      hide Took, Answered, DirOf;
      CommandInStep(s, E_LINE, |s.out|, from, to, up, limit);
    }
  }

  /** The E within the walk is not flushed: the sink has answered all that it has seen, and only the
      reply it sent up front is there to be read. */
  lemma RiseReadsTheUpFrontReply(s: State, p: Str, from: Place, limit: nat, to: Place)
    requires InStep(s, from, limit, to) && s.flushed == |s.out| && !(s.cwd <= p)
    ensures var r, i := Rise(s, p), |s.waits|;
            && |r.waits| == i + 1 && r.waits[i] <= |r.out| && HeardFrom(r.out[..r.waits[i]], from, limit) == Oks(i)
            && Hears(r.out[..r.waits[i]], from.cwd, from.fs, limit) == Oks(i + 1)
  {
    hide Heard, Took, Answered;
    HeardAfter(s.out, from, limit, |s.waits|, to);
    assert (s.out + E_LINE)[..|s.out|] == s.out && [REPLY_OK] + Oks(|s.waits|) == Oks(|s.waits| + 1);
  }

  lemma DirSends(r: State, p: Str, t: Tree)
    requires AllOk(r.replies) && t.DirNode?
    ensures var e, out := SendDir(r, p, t), r.out + Unit(t);
            e.out == out && e.waits == r.waits + [|out|] && e.flushed == |out|
  {
    OkReplies(r.replies);
    hide Line, AllOk;
  }

  lemma DirInStep(r: State, p: Str, t: Tree, y: seq<byte>, from: Place, limit: nat, to: Place) returns (inside: Place)
    requires InStep(r, from, limit, to) && AllOk(r.replies) && t.DirNode? && Carried(t)
    requires AllOk(SunkFrom(r.out + Unit(t) + y, from, limit).replies)
    ensures InStep(SendDir(r, p, t), from, limit, inside) && SendDir(r, p, t).flushed == |SendDir(r, p, t).out|
  {
    hide Took, Answered, Carried, Unit, SendDir, SunkFrom, AllOk;
    DirSends(r, p, t);
    AcceptsRest(r.out, Unit(t), y, from, limit, |r.waits|, to);
    inside := TakesDir(t, y, to, limit);
    CommandInStep(r, Unit(t), |r.out + Unit(t)|, from, to, inside, limit);
  }

  /** What is answered OK altogether is answered OK from any place on the way. */
  lemma AcceptsRest(a: seq<byte>, b: seq<byte>, y: seq<byte>, from: Place, limit: nat, n: nat, mid: Place)
    requires Took(a, from, limit, n, mid) && AllOk(SunkFrom(a + b + y, from, limit).replies)
    ensures AllOk(SunkFrom(b + y, mid, limit).replies)
  {
    hide SunkFrom, HeardFrom, Oks;
    assert a + b + y == a + (b + y);
    var all, rest := SunkFrom(a + (b + y), from, limit).replies, SunkFrom(b + y, mid, limit).replies;
    assert all == Oks(n) + rest;
    assert forall i :: 0 <= i < |rest| ==> rest[i] == all[|Oks(n)| + i];
  }

  lemma FileSends(r: State, p: Str, t: Tree)
    requires AllOk(r.replies) && |r.replies| >= 2 && t.FileNode?
    ensures var e, line, out := SendFile(r, p, t), r.out + Line(CMD_C, t.mode, |t.content|, t.name), r.out + Unit(t);
            e.out == out == line + (t.content + [NUL]) && e.waits == r.waits + [|line|] + [|out|] && e.flushed == |out|
  {
    OkReplies(r.replies);
    hide Line, AllOk, DirOf;
    var line := Line(CMD_C, t.mode, |t.content|, t.name);
    assert r.out + (line + t.content + [NUL]) == r.out + line + t.content + [NUL];
  }

  lemma FileInStep(r: State, p: Str, t: Tree, y: seq<byte>, from: Place, limit: nat, to: Place) returns (after: Place)
    requires InStep(r, from, limit, to) && AllOk(r.replies) && |r.replies| >= 2 && t.FileNode? && Carried(t)
    requires AllOk(SunkFrom(r.out + Unit(t) + y, from, limit).replies)
    ensures InStep(SendFile(r, p, t), from, limit, after) && SendFile(r, p, t).flushed == |SendFile(r, p, t).out|
  {
    hide Took, Answered, Carried, Stores, Stored, Unit, Line, SendFile, SunkFrom, HeardFrom, AllOk;
    FileSends(r, p, t);
    AcceptsRest(r.out, Unit(t), y, from, limit, |r.waits|, to);
    TakesFile(t, y, to, limit);
    after := Stored(t, to, limit);
    LineAnswered(t, to, limit);
    var n, line, rest := |r.waits|, Line(CMD_C, t.mode, |t.content|, t.name), t.content + [NUL];
    TookBoth(r.out, Unit(t), from, to, after, limit, n, 2);
    HeardAfter(r.out + Unit(t), from, limit, n + 2, after);
    HeardThen(r.out, line, from, limit, n, to);
    assert (r.out + line)[..|r.out + line|] == r.out + line;
    assert (r.out + line + rest)[..|r.out + line + rest|] == r.out + line + rest;
    assert Oks(n) <= Oks(n + 1) <= Oks(n + 2);
    OneMoreWait(r.out, r.waits, line, |r.out + line|, from, limit);
    OneMoreWait(r.out + line, r.waits + [|r.out + line|], rest, |r.out + line + rest|, from, limit);
  }

  lemma HeardThen(a: seq<byte>, b: seq<byte>, from: Place, limit: nat, n: nat, mid: Place)
    requires Took(a, from, limit, n, mid) && HeardFrom(b, mid, limit) == Oks(1)
    ensures HeardFrom(a + b, from, limit) == Oks(n + 1)
  {
    hide HeardFrom, SunkFrom;
    assert Oks(n) + Oks(1) == Oks(n + 1);
  }

  /** One visit of the walk keeps them in step, as far as the sink accepts what is sent. */
  lemma VisitInStep(s: State, p: Str, t: Tree, y: seq<byte>, from: Place, limit: nat, to: Place) returns (next: Place)
    requires InStep(s, from, limit, to) && s.flushed == |s.out| && !s.failed && AllOk(s.replies)
    requires |s.replies| >= Rises(s.cwd, p) + Reads(t) && Carried(t)
    requires AllOk(SunkFrom(s.out + Es(Rises(s.cwd, p)) + Unit(t) + y, from, limit).replies)
    ensures InStep(OnPath(s, p, t), from, limit, next) && OnPath(s, p, t).flushed == |OnPath(s, p, t).out|
  {
    RiseSends(s, p);
    var up := RiseInStep(s, p, from, limit, to);
    var r := Rise(s, p);
    hide InStep, SunkFrom, Rise, SendDir, SendFile, Unit, Es, AllOk, Carried;
    if t.DirNode? {
      next := DirInStep(r, p, t, y, from, limit, up);
    } else {
      next := FileInStep(r, p, t, y, from, limit, up);
    }
  }

  lemma {:induction false} ClosingInStep(s: State, from: Place, limit: nat, to: Place) returns (end: Place)
    requires InStep(s, from, limit, to) && AllOk(s.replies)
    requires |CloseLevels(s).waits| - |s.waits| <= |s.replies|
    ensures InStep(CloseLevels(s), from, limit, end)
    ensures |s.replies| - |CloseLevels(s).replies| == |CloseLevels(s).waits| - |s.waits|
    decreases s.level
  {
    if s.level <= 0 {
      return to;
    }
    hide Took, Answered, DirOf, AllOk;
    OkReplies(s.replies);
    TakesE(to, limit);
    var up := Place(DirOf(to.cwd), to.fs);
    ClosingGrows(OneLevelLess(s));
    CommandInStep(s, E_LINE, |s.out + E_LINE|, from, to, up, limit);
    end := ClosingInStep(OneLevelLess(s), from, limit, up);
  }

  ghost predicate AllCarried(vs: seq<Visit>) { forall v <- vs :: Carried(v.node) }

  /** The whole walk and the closing loop, as far as there are replies to read and the sink accepts what
      is sent. */
  lemma {:induction false} WalkInStep(root: Str, s: State, vs: seq<Visit>, from: Place, limit: nat, to: Place)
    returns (end: Place)
    requires !s.failed && AllOk(s.replies) && AllCarried(vs) && InStep(s, from, limit, to) && s.flushed == |s.out|
    requires |CloseLevels(OnWalk(root, s, vs)).waits| - |s.waits| <= |s.replies|
    requires AllOk(SunkFrom(CloseLevels(OnWalk(root, s, vs)).out, from, limit).replies)
    ensures var e := CloseLevels(OnWalk(root, s, vs));
            InStep(e, from, limit, end) && |s.replies| - |e.replies| == |e.waits| - |s.waits|
    decreases |vs|
  {
    if vs == [] {
      end := ClosingInStep(s, from, limit, to);
    } else {
      hide *;
      var v := vs[0];
      var p := Seen(root, v);
      VisitOnWay(root, s, vs);
      var e := OnPath(s, p, v.node);
      var final := CloseLevels(OnWalk(root, e, vs[1..])).out;
      var next := VisitInStep(s, p, v.node, final[|e.out|..], from, limit, to);
      end := WalkInStep(root, e, vs[1..], from, limit, next);
    }
  }

  /** What one visit of the walk leaves to the others. */
  lemma VisitOnWay(root: Str, s: State, vs: seq<Visit>)
    requires !s.failed && AllOk(s.replies) && AllCarried(vs) && vs != []
    requires |CloseLevels(OnWalk(root, s, vs)).waits| - |s.waits| <= |s.replies|
    ensures var v, p := vs[0], Seen(root, vs[0]);
            var e := OnPath(s, p, v.node);
            var final := CloseLevels(OnWalk(root, e, vs[1..])).out;
            && OnWalk(root, s, vs) == OnWalk(root, e, vs[1..])
            && Carried(v.node) && AllCarried(vs[1..]) && !e.failed && AllOk(e.replies)
            && |s.replies| >= Rises(s.cwd, p) + Reads(v.node)
            && |s.replies| - |e.replies| == |e.waits| - |s.waits|
            && |e.out| <= |final| && final == s.out + Es(Rises(s.cwd, p)) + Unit(v.node) + final[|e.out|..]
  {
    hide OnPath, Seen, CloseLevels, AllOk, Carried, Unit, Es, Rises;
    var v, p := vs[0], Seen(root, vs[0]);
    assert v in vs && Carried(v.node);
    VisitSends(s, p, v.node);
    var e := OnPath(s, p, v.node);
    WalkGrows(root, e, vs[1..]);
    ClosingGrows(OnWalk(root, e, vs[1..]));
  }

  lemma {:induction false} WalkCarries(at: seq<Str>, t: Tree, limit: nat)
    requires Sendable(t, limit)
    ensures AllCarried(Walk(at, t))
    decreases t, 1
  {
    if t.DirNode? {
      WalkAllCarries(at, t.kids, limit);
    }
  }

  lemma {:induction false} WalkAllCarries(at: seq<Str>, ts: seq<Tree>, limit: nat)
    requires forall t <- ts :: Sendable(t, limit)
    ensures AllCarried(WalkAll(at, ts))
    decreases ts, 0
  {
    if ts != [] {
      WalkCarries(at + [ts[0].name], ts[0], limit);
      WalkAllCarries(at, ts[1..], limit);
    }
  }

  // ---------- the theorems ----------

  /** The replies of a sink that has received this much, with the one it sends up front. */
  function Hears(input: seq<byte>, path: Str, fs: FsMap, limit: nat): seq<byte> {
    [REPLY_OK] + Heard(input, path, fs, limit)
  }

  /** The source's i-th read of a reply finds one: a sink that has received only what was flushed has
      already sent more than i, all OK. */
  ghost predicate NeverStalls(sent: State, path: Str, fs: FsMap, limit: nat) {
    forall i :: 0 <= i < |sent.waits| ==>
      sent.waits[i] <= |sent.out| && Oks(i + 1) <= Hears(sent.out[..sent.waits[i]], path, fs, limit)
  }

  /** For every tree, from every path, in balance or not, and every sink that answers OK to all that the
      source sends of it: the sink sends exactly one reply more than the source reads, and the source
      never waits for a reply that the sink has not sent. */
  lemma Handshake(root: Str, t: Tree, replies: seq<byte>, path: Str, fs: FsMap, limit: nat)
    requires Sendable(t, 0) && AllOk(replies) && |Source(root, t, replies).waits| <= |replies|
    requires AllOk(Sink(Source(root, t, replies).out, path, fs, limit).replies)
    ensures var sent := Source(root, t, replies);
            && |replies| - |sent.replies| == |sent.waits|
            && Sink(sent.out, path, fs, limit).replies == Oks(|sent.waits| + 1)
            && NeverStalls(sent, path, fs, limit)
  {
    hide *;
    var vs, s, from := Walk([], t), Start(root, replies), Place(path, fs);
    var sent := Source(root, t, replies);
    SourceWalks(root, t, replies);
    WalkCarries([], t, 0);
    StartInStep(root, replies, from, limit);
    UpFront(sent.out, from, limit);
    var end := WalkInStep(root, s, vs, from, limit, from);
    EndInStep(sent, from, limit, end);
  }

  lemma SourceWalks(root: Str, t: Tree, replies: seq<byte>)
    ensures Source(root, t, replies) == CloseLevels(OnWalk(root, Start(root, replies), Walk([], t)))
  {
  }

  lemma StartInStep(cwd: Str, replies: seq<byte>, from: Place, limit: nat)
    ensures var s := Start(cwd, replies);
            && InStep(s, from, limit, from) && s.flushed == |s.out| && !s.failed
            && s.replies == replies && s.waits == []
  {
    TookNothing(from, limit);
    hide Took;
  }

  lemma UpFront(input: seq<byte>, from: Place, limit: nat)
    ensures Sink(input, from.cwd, from.fs, limit).replies == [REPLY_OK] + SunkFrom(input, from, limit).replies
    ensures AllOk(Sink(input, from.cwd, from.fs, limit).replies) ==> AllOk(SunkFrom(input, from, limit).replies)
  {
    SinkIsPrefixed(input, from.cwd, from.fs, limit);
    hide SinkFrom, Sink;
    var all, sunk := Sink(input, from.cwd, from.fs, limit).replies, SunkFrom(input, from, limit).replies;
    assert forall i :: 0 <= i < |sunk| ==> sunk[i] == all[i + 1];
  }

  lemma EndInStep(e: State, from: Place, limit: nat, end: Place)
    requires InStep(e, from, limit, end)
    ensures Sink(e.out, from.cwd, from.fs, limit).replies == Oks(|e.waits| + 1)
    ensures NeverStalls(e, from.cwd, from.fs, limit)
  {
    UpFront(e.out, from, limit);
    TookAll(e.out, from, limit, |e.waits|, end);
    hide Took, Heard, SunkFrom, Sink;
    forall n: nat
      ensures [REPLY_OK] + Oks(n) == Oks(n + 1)
    {
    }
    forall i | 0 <= i < |e.waits|
      ensures e.waits[i] <= |e.out| && Oks(i + 1) <= Hears(e.out[..e.waits[i]], from.cwd, from.fs, limit)
    {
      var heard := HeardFrom(e.out[..e.waits[i]], from, limit);
      assert Oks(i) <= heard && Oks(i + 1) == [REPLY_OK] + Oks(i);
      assert ([REPLY_OK] + heard)[..i + 1] == [REPLY_OK] + heard[..i];
    }
  }

  lemma TookAll(a: seq<byte>, from: Place, limit: nat, n: nat, to: Place)
    requires Took(a, from, limit, n, to)
    ensures SunkFrom(a, from, limit).replies == Oks(n)
  {
    assert a + [] == a && SunkFrom([], to, limit).replies == [];
    assert SunkFrom(a + [], from, limit) == Continued(Oks(n), SunkFrom([], to, limit));
  }

  lemma {:induction false} SendableToAll(t: Tree, limit: nat)
    requires Sendable(t, limit)
    ensures Sendable(t, 0)
  {
    if t.DirNode? {
      forall k | k in t.kids {
        SendableToAll(k, limit);
      }
    }
  }

  /** The copy of a tree that is sent right, from a clean path other than "." a straight one: a sink fed
      what the source sends, while the source is fed what the sink replies, gains exactly the tree, has
      sent exactly one reply more than was read, and is never waited for in vain. */
  lemma CopyRoundTrip(root: Str, t: Tree, cs: seq<Str>, fs: FsMap, limit: nat)
    requires BACKSLASH !in root && SendsRight(root, t)
    requires AllPlain(cs) && Sendable(t, limit) && DistinctNames(t)
    requires Inside(fs, cs) && NothingAt(fs, cs + [t.name])
    ensures var replies := Oks(1 + Units(t));
            var sent := Source(root, t, replies);
            var sunk := Sink(sent.out, Rooted(cs), fs, limit);
            && sunk == SinkResult(replies, fs + Flatten(cs, t)) && Holds(sunk.fs, cs, t)
            && |sunk.replies| == (|replies| - |sent.replies|) + 1
            && NeverStalls(sent, Rooted(cs), fs, limit)
  {
    hide *;
    var replies := Oks(1 + Units(t));
    SendableNames(t, limit);
    NamesOfKids(t);
    SendableToAll(t, limit);
    OksAreOk(1 + Units(t));
    SourceSendsTheStreamExactly(root, t, replies);
    SendsRightFloats(root, t);
    SourceReadsOneReplyAUnit(root, t, replies);
    SinkRebuildsTheTree(cs, t, fs, limit);
    Handshake(root, t, replies, Rooted(cs), fs, limit);
  }

  lemma NamesOfKids(t: Tree)
    requires GoodNames(t)
    ensures KidNames(t)
  {
  }

  lemma OksAreOk(n: nat)
    ensures AllOk(Oks(n)) && |Oks(n)| == n
  {
  }
}
