/** What a client can rely on across requests: what an opened handle reads, and what a CLOSE ends. */
module SftpAnswers {
  import opened GoBytes
  import opened Numerals
  import opened VirtualFile
  import opened FlatTree
  import opened SymLinks
  import opened SftpTypes
  import opened SftpFrames
  import ExtraField
  import opened SftpSession
  import opened SftpRuns
  import opened SftpCrashes
  import opened SftpDownload
  import opened SftpRequests

  // ---------- opening ----------

  /** An OPEN, not for creation, of a name that means a file whose entry opens and that no one has
      closed. */
  ghost predicate OpensFile(w: World, st: Session, m: Msg, p: Path) {
    && m.typ == OPEN && WellFormed(w, m)
    && ByteToStr(m.payload).Some? && |m.payload| >= |ByteToStr(m.payload).value| + 8 && !Creates(m)
    && Means(w.flat, Walked(ByteToStr(m.payload).value), p)
    && p in w.flat && w.flat[p].info.kind != Directory && w.flat[p].opens && p !in st.closed
  }

  lemma InvNext(w: World, st: Session, h: int)
    requires Inv(w, st) && h >= st.next
    ensures h !in st.handles && h !in st.dirs && h !in st.eof
  {
  }

  /** It gives a new handle, from which the file can be read from the start. */
  lemma OpenGivesReadableHandle(w: World, st: Session, m: Msg, listing: seq<Info>, p: Path)
    requires ValidWorld(w) && Inv(w, st) && OpensFile(w, st, m, p)
    ensures var o := Step(w, st, m, listing);
            && o.Replied? && o.reply == Msg(HANDLE, m.id, StrBytes(Itoa(st.next)))
            && Reading(w, o.st, st.next, p, 0) && Inv(w, o.st)
  {
    hide Walked, ByteToStr, StrBytes, Itoa, FromBE32, Settles, TreeShaped, Step, Means, Inv;
    OpenOpensTheNode(w, st, m, listing, p);
    assert w.flat[p].info.size == |w.flat[p].content| < U63;
    IssueKeepsInv(w, st, m.id, p);
    InvNext(w, st, st.next);
  }

  /** The session that an OPEN leaves. */
  function AfterOpen(w: World, st: Session, m: Msg, listing: seq<Info>): Session {
    match Step(w, st, m, listing) case Replied(st', _) => st' case Crashed => st
  }

  /** The whole transfer: OPEN of a path, then consecutive READs on the handle it gave, return the
      content of the file at that path. The OPEN and every READ are answered. */
  lemma OpenThenDownload(w: World, st: Session, m: Msg, reqs: seq<Msg>, oracle: Oracle, p: Path, n: nat)
    requires n >= 1 && st.next + 1 + |reqs| <= U63 && ValidWorld(w) && Inv(w, st) && OpensFile(w, st, m, p)
    requires Consecutive(reqs, st.next, 0, n) && ChunksFit(w.flat[p].content, n)
    requires KeepsOpen(w, AfterOpen(w, st, m, Head(oracle)), reqs, Tail(oracle), p)
    ensures var r := Run(w, st, [m] + reqs, oracle);
            && 1 <= |r.replies| && HandleNumber(r.replies[0]) == Some(st.next)
            && Downloads(reqs, RunResult(r.st, r.replies[1..], r.crashed), st.next, w.flat[p].content, n)
            && (OthersWhole(w, AfterOpen(w, st, m, Head(oracle)), reqs, Tail(oracle), READ, st.next) ==>
                  !r.crashed && |r.replies| == 1 + |reqs|)
  {
    hide *;
    OpenGivesReadableHandle(w, st, m, Head(oracle), p);
    ShortNumeral(st.next);
    var o := Step(w, st, m, Head(oracle));
    IssuedNumber(st.next, o.reply);
    HandleIsSent(w, st, m, Head(oracle));
    RunUnfolds(w, st, [m] + reqs, oracle);
    assert ([m] + reqs)[1..] == reqs;
    OpenedForDownload(w, st, m, reqs, oracle, p, n);
    DownloadGivesTheFile(w, o.st, reqs, Tail(oracle), st.next, p, n);
    var r, more := Run(w, st, [m] + reqs, oracle), Run(w, o.st, reqs, Tail(oracle));
    assert r.replies[1..] == more.replies;
    RunEnds(w, st, [m] + reqs, oracle);
    assert RunResult(r.st, r.replies[1..], r.crashed) == more;
  }

  lemma RunEnds(w: World, st: Session, reqs: seq<Msg>, oracle: Oracle)
    requires reqs != [] && Respond(w, st, reqs[0], Head(oracle)).Replied?
    ensures Run(w, st, reqs, oracle).st
         == Run(w, Respond(w, st, reqs[0], Head(oracle)).st, reqs[1..], Tail(oracle)).st
  {
    hide Respond;
  }

  lemma OpenedForDownload(w: World, st: Session, m: Msg, reqs: seq<Msg>, oracle: Oracle, p: Path, n: nat)
    requires st.next + 1 + |reqs| <= U63 && ValidWorld(w) && Inv(w, st) && OpensFile(w, st, m, p)
    requires Consecutive(reqs, st.next, 0, n) && ChunksFit(w.flat[p].content, n)
    requires KeepsOpen(w, AfterOpen(w, st, m, Head(oracle)), reqs, Tail(oracle), p)
    ensures var o := Step(w, st, m, Head(oracle));
            && o.Replied? && o.st == AfterOpen(w, st, m, Head(oracle))
            && Downloading(w, o.st, reqs, Tail(oracle), st.next, p, 0, n)
  {
    OpenGivesReadableHandle(w, st, m, Head(oracle), p);
    StepCountsUp(w, st, m, Head(oracle));
    hide Step, ValidWorld, Inv, OpensFile, Consecutive, KeepsOpen, ChunksFit, Reading;
  }

  lemma HandleIsSent(w: World, st: Session, m: Msg, listing: seq<Info>)
    requires Step(w, st, m, listing).Replied?
    requires Step(w, st, m, listing).reply == Msg(HANDLE, m.id, StrBytes(Itoa(st.next))) && |Itoa(st.next)| <= 19
    ensures Respond(w, st, m, listing) == Step(w, st, m, listing)
  {
    hide Step, Itoa;
  }

  // ---------- closing ----------

  /** A READ on an open handle of the node. */
  predicate ReadsNode(st: Session, m: Msg, p: Path) {
    m.typ == READ && HandleOf(m).Some? && HandleOf(m).value in st.handles && st.handles[HandleOf(m).value] == p
  }

  /** No READ of the node in the run is answered with data. */
  ghost predicate NeverRead(w: World, st: Session, reqs: seq<Msg>, oracle: Oracle, p: Path)
    decreases |reqs|
  {
    reqs == [] ||
    var o := Respond(w, st, reqs[0], Head(oracle));
    o.Replied? ==>
      && (ReadsNode(st, reqs[0], p) ==> o.reply.typ == STATUS)
      && NeverRead(w, o.st, reqs[1..], Tail(oracle), p)
  }

  lemma StepKeepsShut(w: World, st: Session, m: Msg, listing: seq<Info>, p: Path)
    requires p in st.closed && Step(w, st, m, listing).Replied?
    ensures p in Step(w, st, m, listing).st.closed
    ensures ReadsNode(st, m, p) ==> Step(w, st, m, listing).reply.typ == STATUS
  {
    hide Followed, Opened, StatusText, NamePacket, AttrBytes, FromBE32, FromBE64, BE32, Min, ByteToStr, StrBytes,
         Itoa, Atoi;
  }

  /** Once a node is shut, no READ of it is ever answered with data again. */
  lemma {:induction false} ShutNodeIsNeverRead(w: World, st: Session, reqs: seq<Msg>, oracle: Oracle, p: Path)
    requires p in st.closed
    ensures NeverRead(w, st, reqs, oracle, p)
    decreases |reqs|
  {
    if reqs != [] {
      var o := Respond(w, st, reqs[0], Head(oracle));
      if o.Replied? {
        StepKeepsShut(w, st, reqs[0], Head(oracle), p);
        hide Step, ReadsNode;
        ShutNodeIsNeverRead(w, o.st, reqs[1..], Tail(oracle), p);
      }
    }
  }

  /** A request on a handle that is not open changes nothing and is answered FAILURE. */
  lemma DeadHandleFails(w: World, st: Session, m: Msg, listing: seq<Info>, h: int)
    requires HandleOf(m) == Some(h) && h !in st.handles && h !in st.eof
    requires Step(w, st, m, listing).Replied?
    ensures Step(w, st, m, listing) == Outcome.Replied(st, StatusMsg(m.id, Failure))
  {
    hide ByteToStr, Atoi, StatusText, FromBE32, FromBE64, PlainReadAt;
  }

  lemma DeadHandleStep(w: World, st: Session, m: Msg, listing: seq<Info>, h: int)
    requires Inv(w, st) && ValidWorld(w) && h < st.next && h !in st.handles
    requires Respond(w, st, m, listing).Replied?
    ensures var o := Respond(w, st, m, listing);
            && Inv(w, o.st) && h < o.st.next && h !in o.st.handles
            && (HandleOf(m) == Some(h) ==> o.reply == StatusMsg(m.id, Failure))
  {
    assert h !in st.eof;
    hide Step, HandleOf, Inv, ValidWorld, StatusMsg;
    StepKeepsInv(w, st, m, listing);
    StepCountsUp(w, st, m, listing);
    if HandleOf(m) == Some(h) {
      DeadHandleFails(w, st, m, listing, h);
    } else {
      StepIsolatesHandles(w, st, m, listing, h);
    }
  }

  /** A handle that is not open any more stays so for the rest of every run: each request on it is
      answered FAILURE, and the number is never given out again. */
  lemma {:induction false} GoneHandleStaysGone(w: World, st: Session, reqs: seq<Msg>, oracle: Oracle, h: int)
    requires Inv(w, st) && ValidWorld(w) && h < st.next && h !in st.handles
    ensures h !in Run(w, st, reqs, oracle).st.handles
    ensures var r := Run(w, st, reqs, oracle);
            |r.replies| <= |reqs| &&
            forall i :: 0 <= i < |r.replies| && HandleOf(reqs[i]) == Some(h) ==>
              r.replies[i] == StatusMsg(reqs[i].id, Failure)
    decreases |reqs|
  {
    RepliesInOrder(w, st, reqs, oracle);
    if reqs != [] {
      var m := reqs[0];
      RunUnfolds(w, st, reqs, oracle);
      var o := Respond(w, st, m, Head(oracle));
      hide Respond, HandleOf, Inv, ValidWorld, Answers, StatusMsg;
      if o.Replied? {
        DeadHandleStep(w, st, m, Head(oracle), h);
        RunEnds(w, st, reqs, oracle);
        GoneHandleStaysGone(w, o.st, reqs[1..], Tail(oracle), h);
      }
    }
  }

  lemma CloseIsSent(w: World, st: Session, m: Msg, listing: seq<Info>, h: int)
    requires m.typ == CLOSE && HandleOf(m) == Some(h) && h in st.handles && Inv(w, st) && st.next < U63
    ensures Respond(w, st, m, listing) == Step(w, st, m, listing)
  {
    hide ByteToStr, Atoi, Inv, InfosSent, Step, Frame;
    CloseShutsTheHandle(w, st, m, listing, h);
    assert WellFormed(w, m) && BulkSize(w, st, m, listing) == 0 && AllDescribed(InfosSent(w, st, m, listing)) by {
      CloseSendsNoInfos(w, st, m, listing);
    }
    ShortReplyFits(m.id, 0);
    CrashesInv(w, st, m, listing);
  }

  lemma CloseSendsNoInfos(w: World, st: Session, m: Msg, listing: seq<Info>)
    requires m.typ == CLOSE && HandleOf(m).Some?
    ensures WellFormed(w, m) && BulkSize(w, st, m, listing) == 0 && AllDescribed(InfosSent(w, st, m, listing))
  {
    hide ByteToStr, Atoi;
  }

  /** Nodes are shared: from a CLOSE on any handle of a node on, no READ of the node is ever answered with
      data, not even through another handle or one opened later. */
  lemma ClosedNodeIsNeverRead(w: World, st: Session, m: Msg, reqs: seq<Msg>, oracle: Oracle, h: int)
    requires m.typ == CLOSE && HandleOf(m) == Some(h) && h in st.handles
    ensures NeverRead(w, st, [m] + reqs, oracle, st.handles[h])
  {
    var o := Respond(w, st, m, Head(oracle));
    hide Step, ReadsNode;
    assert ([m] + reqs)[1..] == reqs;
    CloseShutsTheHandle(w, st, m, Head(oracle), h);
    NotARead(st, m, st.handles[h]);
    if o.Replied? {
      ShutNodeIsNeverRead(w, o.st, reqs, Tail(oracle), st.handles[h]);
    }
  }

  lemma NotARead(st: Session, m: Msg, p: Path)
    requires m.typ == CLOSE
    ensures !ReadsNode(st, m, p)
  {
  }

  /** The requests on a handle from its CLOSE on: the CLOSE is answered 0, and each later one 4. */
  ghost predicate DeadAfter(reqs: seq<Msg>, replies: seq<Msg>, h: int) {
    && 1 <= |replies| <= |reqs| && StatusOf(replies[0]) == Some(0)
    && forall i :: 1 <= i < |replies| && HandleOf(reqs[i]) == Some(h) ==> StatusOf(replies[i]) == Some(4)
  }

  /** From its CLOSE on a handle is dead for the rest of every run: the CLOSE is answered 0, every later
      request on the handle 4, and the number is never given out again. */
  lemma DeadHandleStaysDead(w: World, st: Session, m: Msg, reqs: seq<Msg>, oracle: Oracle, h: int)
    requires m.typ == CLOSE && HandleOf(m) == Some(h) && h in st.handles
    requires ValidWorld(w) && Inv(w, st) && st.next < U63
    ensures var r := Run(w, st, [m] + reqs, oracle);
            DeadAfter([m] + reqs, r.replies, h) && h !in r.st.handles
  {
    hide *;
    var o := Respond(w, st, m, Head(oracle));
    CloseStep(w, st, m, Head(oracle), h);
    RunUnfolds(w, st, [m] + reqs, oracle);
    RunEnds(w, st, [m] + reqs, oracle);
    assert ([m] + reqs)[1..] == reqs && ([m] + reqs)[0] == m;
    GoneHandleStaysGone(w, o.st, reqs, Tail(oracle), h);
    var more := Run(w, o.st, reqs, Tail(oracle)).replies;
    DeadFrom(m, reqs, o.reply, more, h);
  }

  lemma CloseStep(w: World, st: Session, m: Msg, listing: seq<Info>, h: int)
    requires m.typ == CLOSE && HandleOf(m) == Some(h) && h in st.handles
    requires ValidWorld(w) && Inv(w, st) && st.next < U63
    ensures var o := Respond(w, st, m, listing);
            && o.Replied? && StatusOf(o.reply) == Some(0) && ValidWorld(w) && Inv(w, o.st)
            && h < o.st.next && h !in o.st.handles
  {
    assert h < st.next;
    hide Step, Respond, HandleOf, Inv, ValidWorld, StatusOf;
    CloseIsSent(w, st, m, listing, h);
    CloseShutsTheHandle(w, st, m, listing, h);
    StepKeepsInv(w, st, m, listing);
  }

  lemma DeadFrom(m: Msg, reqs: seq<Msg>, reply: Msg, more: seq<Msg>, h: int)
    requires StatusOf(reply) == Some(0) && |more| <= |reqs|
    requires forall i :: 0 <= i < |more| && HandleOf(reqs[i]) == Some(h) ==> more[i] == StatusMsg(reqs[i].id, Failure)
    ensures DeadAfter([m] + reqs, [reply] + more, h)
  {
    hide HandleOf, StatusMsg, StatusOf;
    forall i | 1 <= i < 1 + |more| && HandleOf(([m] + reqs)[i]) == Some(h)
      ensures StatusOf(([reply] + more)[i]) == Some(4)
    {
      StatusNumbers(reqs[i - 1].id);
    }
  }
}
