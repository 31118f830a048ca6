/** What a client decodes from the bytes the server writes (`HandleRequest` of `sftp/sftp.go`). */
module SftpWire {
  import opened GoBytes
  import opened Numerals
  import opened Paths
  import opened WorkingDir
  import opened VirtualFile
  import opened FlatTree
  import opened SftpTypes
  import opened SftpFrames
  import opened SftpSession
  import opened SftpRuns
  import opened SftpCrashes
  import opened SftpDownload
  import opened SftpPaging
  import opened SftpAnswers
  import opened SftpRequests

  /** The replies a client reads: the VERSION message has no id. */
  function ReadReplies(output: seq<byte>): Option<seq<Msg>> {
    ReadAll(output, VERSION)
  }

  /** Requests as a client frames them, and what the server, handling them, writes. */
  ghost predicate Exchange(w: World, st: Session, reqs: seq<Msg>, output: seq<byte>, oracle: Oracle) {
    && ValidWorld(w) && Inv(w, st) && st.next + |reqs| <= U63
    && (forall m <- reqs :: Sendable(m) && Framed(m, INIT))
    && Handled(w, st, Frames(reqs), output, oracle)
  }

  lemma {:induction false} SentIsFrames(replies: seq<Msg>)
    requires forall m <- replies :: Sendable(m)
    ensures SentAll(replies) == Frames(replies)
  {
    hide Frame, Sendable;
    if replies != [] {
      SendableFits(replies[0]);
      SentIsFrames(replies[1..]);
    }
  }

  lemma ReplyIsFramed(m: Msg, reply: Msg)
    requires Sendable(m) && Framed(m, INIT) && Answers(m, reply) && Fits(m.id, |reply.payload|)
    ensures Sendable(reply) && Framed(reply, VERSION)
  {
  }

  /** A client that has sent requests, all of which are answered whole, reads exactly their replies
      from what the server wrote, to the last byte. */
  lemma ClientReadsTheReplies(w: World, st: Session, reqs: seq<Msg>, output: seq<byte>, oracle: Oracle)
    requires Exchange(w, st, reqs, output, oracle) && AllWhole(w, st, reqs, oracle)
    ensures ReadReplies(output) == Some(Run(w, st, reqs, oracle).replies)
    ensures |Run(w, st, reqs, oracle).replies| == |reqs| && TruthfulRun(w, st, reqs, oracle)
  {
    var replies := Run(w, st, reqs, oracle).replies;
    WholeRun(w, st, reqs, oracle);
    OneReplyPerRequest(w, st, reqs, oracle);
    TruthfulFrames(w, st, reqs, oracle);
    ServeWritesTheReplies(w, st, reqs, oracle);
    hide Run, AllWhole, NoneCrashes, Truthful, Serve, Frames, Sendable, Framed, Fits, Answers, ValidWorld, Inv, ReadAll;
    forall i | 0 <= i < |replies|
      ensures Sendable(replies[i]) && Framed(replies[i], VERSION)
    {
      assert reqs[i] in reqs;
      ReplyIsFramed(reqs[i], replies[i]);
    }
    SentIsFrames(replies);
    FrameStreamReadsBack(replies, VERSION);
  }

  /** A download as the client sees it: from the bytes the server wrote in answer to its requests, the
      replies to its READs decode to the file, one for each. */
  lemma ClientDownloadsTheFile(w: World, st: Session, reqs: seq<Msg>, output: seq<byte>, oracle: Oracle,
                               h: int, p: Path, n: nat)
    requires Exchange(w, st, reqs, output, oracle) && n >= 1
    requires Downloading(w, st, reqs, oracle, h, p, 0, n) && OthersWhole(w, st, reqs, oracle, READ, h)
    ensures p in w.flat && ReadReplies(output).Some?
    ensures var replies := ReadReplies(output).value;
            && |replies| == |reqs|
            && var got := RepliesTo(reqs, replies, READ, h);
               |got| == Asked(reqs, READ, h) && IsTheFile(got, w.flat[p].content, n)
  {
    hide Exchange, Downloading, OthersWhole, AllWhole, ReadReplies, IsTheFile, Run, Asked, RepliesTo, IsOn;
    DownloadGivesTheFile(w, st, reqs, oracle, h, p, n);
    ClientReadsTheReplies(w, st, reqs, output, oracle);
  }

  /** A first request that is answered whole, before a run that is. */
  lemma WholeAfter(w: World, st: Session, m: Msg, reqs: seq<Msg>, oracle: Oracle)
    requires AnsweredWhole(w, st, m, Head(oracle)) && Respond(w, st, m, Head(oracle)).Replied?
    requires AllWhole(w, Respond(w, st, m, Head(oracle)).st, reqs, Tail(oracle))
    ensures AllWhole(w, st, [m] + reqs, oracle)
  {
    hide AnsweredWhole, Respond;
    assert ([m] + reqs)[1..] == reqs;
  }

  /** An OPEN of a file is answered whole. */
  lemma OpenIsWhole(w: World, st: Session, m: Msg, listing: seq<Info>, p: Path)
    requires Inv(w, st) && st.next < U63 && OpensFile(w, st, m, p)
    ensures AnsweredWhole(w, st, m, listing) && Respond(w, st, m, listing).Replied?
    ensures Respond(w, st, m, listing) == Step(w, st, m, listing)
  {
    hide Inv, WellFormed, Step, Frame, Means, Walked, Creates, ReadsOutside, BulkSize, InfosSent, AllDescribed, Crashes;
    assert m.typ == OPEN && WellFormed(w, m);
    OpenSendsNoInfos(w, st, m, listing);
    ShortReplyFits(m.id, 0);
    CrashesInv(w, st, m, listing);
  }

  lemma OpenSendsNoInfos(w: World, st: Session, m: Msg, listing: seq<Info>)
    requires m.typ == OPEN || m.typ == OPENDIR
    ensures BulkSize(w, st, m, listing) == 0 && AllDescribed(InfosSent(w, st, m, listing)) && !ReadsOutside(w, st, m)
  {
    hide ByteToStr, WellFormed;
  }

  /** A transfer as the client sees it: it sends an OPEN, then consecutive READs on the handle that it
      will be given; from the bytes the server wrote, it decodes that handle and then the file. */
  lemma ClientOpensAndDownloads(w: World, st: Session, m: Msg, reqs: seq<Msg>, output: seq<byte>, oracle: Oracle,
                                p: Path, n: nat)
    requires Exchange(w, st, [m] + reqs, output, oracle) && n >= 1 && OpensFile(w, st, m, p)
    requires Consecutive(reqs, st.next, 0, n) && ChunksFit(w.flat[p].content, n)
    requires KeepsOpen(w, AfterOpen(w, st, m, Head(oracle)), reqs, Tail(oracle), p)
    requires OthersWhole(w, AfterOpen(w, st, m, Head(oracle)), reqs, Tail(oracle), READ, st.next)
    ensures ReadReplies(output).Some?
    ensures var replies := ReadReplies(output).value;
            && |replies| == 1 + |reqs| && HandleNumber(replies[0]) == Some(st.next)
            && var got := RepliesTo(reqs, replies[1..], READ, st.next);
               |got| == Asked(reqs, READ, st.next) && IsTheFile(got, w.flat[p].content, n)
  {
    ExchangeStarts(w, st, [m] + reqs, output, oracle);
    hide *;
    OpenedForDownload(w, st, m, reqs, oracle, p, n);
    OpenIsWhole(w, st, m, Head(oracle), p);
    var after := Respond(w, st, m, Head(oracle)).st;
    DownloadIsWhole(w, after, reqs, Tail(oracle), st.next, p, 0, n);
    WholeAfter(w, st, m, reqs, oracle);
    ClientReadsTheReplies(w, st, [m] + reqs, output, oracle);
    OpenThenDownload(w, st, m, reqs, oracle, p, n);
    var r := Run(w, st, [m] + reqs, oracle);
    AllAsked(reqs, RunResult(r.st, r.replies[1..], r.crashed), st.next, w.flat[p].content, n);
  }

  lemma ExchangeStarts(w: World, st: Session, reqs: seq<Msg>, output: seq<byte>, oracle: Oracle)
    requires Exchange(w, st, reqs, output, oracle)
    ensures ValidWorld(w) && Inv(w, st) && st.next + |reqs| <= U63
  {
  }

  lemma AllAsked(reqs: seq<Msg>, r: RunResult, h: int, s: seq<byte>, n: nat)
    requires n >= 1 && Downloads(reqs, r, h, s, n) && |r.replies| == |reqs|
    ensures var got := RepliesTo(reqs, r.replies, READ, h);
            |got| == Asked(reqs, READ, h) && IsTheFile(got, s, n)
  {
    hide Asked, IsTheFile, RepliesTo;
    assert reqs[..|r.replies|] == reqs;
  }

  /** A listing as the client sees it: from the bytes the server wrote, the replies to its READDIRs, one
      page for each, decode to the children of the handle's directory, each once; and once it has read
      to the end, the names it has decoded are exactly the directory's, each once. */
  lemma ClientListsTheDirectory(w: World, st: Session, reqs: seq<Msg>, output: seq<byte>, oracle: Oracle, h: int)
    requires Exchange(w, st, reqs, output, oracle)
    requires h in st.handles && h !in st.dirs && forall m <- reqs :: !IsOn(m, CLOSE, h)
    requires PagesFit(FirstListing(reqs, oracle, h)) && AllDescribed(FirstListing(reqs, oracle, h))
    requires forall fi <- FirstListing(reqs, oracle, h) :: FitsWire(fi.name, fi)
    requires OthersWhole(w, st, reqs, oracle, READDIR, h)
    ensures ReadReplies(output).Some?
    ensures var replies, fi := ReadReplies(output).value, FirstListing(reqs, oracle, h);
            && |replies| == |reqs|
            && var pages := RepliesTo(reqs, replies, READDIR, h);
               && |pages| == Asked(reqs, READDIR, h) && AreTheListing(pages, fi)
               && (pages != [] ==> IsListing(w.flat, st.handles[h], fi))
               && (|pages| > |fi| / ENTRIES_PER_FETCH && WellNamed(w.flat) && st.handles[h] + [[]] !in w.flat ==>
                     NamesOf(w.flat, st.handles[h], NamesRead(pages)))
  {
    assert ValidWorld(w) && Inv(w, st) && st.next + |reqs| <= U63 && h < st.next;
    hide *;
    DirectoryPagingConserves(w, st, reqs, oracle, h);
    ListsThem(reqs, Run(w, st, reqs, oracle), h, FirstListing(reqs, oracle, h));
    ClientReadsTheReplies(w, st, reqs, output, oracle);
    var pages, fi := RepliesTo(reqs, Run(w, st, reqs, oracle).replies, READDIR, h), FirstListing(reqs, oracle, h);
    if pages != [] {
      FirstListingIsTheDirectory(w, st, reqs, oracle, h);
    }
    if |pages| > |fi| / ENTRIES_PER_FETCH && WellNamed(w.flat) && st.handles[h] + [[]] !in w.flat {
      NamesReadAll(pages, fi);
      NamesAre(fi);
      ListingNames(w.flat, st.handles[h], fi, Names(fi));
    }
  }

  lemma ListsThem(reqs: seq<Msg>, r: RunResult, h: int, fi: seq<Info>)
    requires Lists(reqs, r, h, fi)
    ensures |r.replies| <= |reqs| && AreTheListing(RepliesTo(reqs, r.replies, READDIR, h), fi)
  {
    hide AreTheListing, RepliesTo, Asked;
  }

  lemma NamesAre(fi: seq<Info>)
    ensures forall i :: 0 <= i < |fi| ==> Names(fi)[i] == fi[i].name
  {
  }

  /** An OPENDIR of an argument that resolves to the path of a node. */
  ghost predicate OpensDir(w: World, st: Session, m: Msg, p: Path) {
    && m.typ == OPENDIR && AllPlain(p) && p in w.flat && ByteToStr(m.payload).Some?
    && ByteToStr(m.payload).value != [] && RealPath(st.cwd, ByteToStr(m.payload).value) == Rooted(p)
  }

  /** It is answered whole, with a new handle on that node. */
  lemma OpenDirIsWhole(w: World, st: Session, m: Msg, listing: seq<Info>, p: Path)
    requires ValidWorld(w) && Inv(w, st) && st.next < U63 && OpensDir(w, st, m, p)
    ensures AnsweredWhole(w, st, m, listing) && Respond(w, st, m, listing) == Step(w, st, m, listing)
    ensures GivesHandle(Step(w, st, m, listing), st, m.id, p)
  {
    hide Inv, ValidWorld, Step, Frame, ByteToStr, RealPath, Rooted, GivesHandle, ReadsOutside, BulkSize, InfosSent,
         AllDescribed, Crashes;
    OpenDirOpensTheDirectory(w, st, m, listing, ByteToStr(m.payload).value, p);
    OpenSendsNoInfos(w, st, m, listing);
    ShortReplyFits(m.id, 0);
    CrashesInv(w, st, m, listing);
  }

  /** What its handle starts with. */
  lemma DirIsOpened(w: World, st: Session, m: Msg, listing: seq<Info>, p: Path)
    requires ValidWorld(w) && Inv(w, st) && st.next < U63 && OpensDir(w, st, m, p)
    ensures var o := Respond(w, st, m, listing);
            && o.Replied? && HandleNumber(o.reply) == Some(st.next)
            && ValidWorld(w) && Inv(w, o.st) && o.st.next == st.next + 1
            && st.next in o.st.handles && st.next !in o.st.dirs && o.st.handles[st.next] == p
  {
    OpenDirIsWhole(w, st, m, listing, p);
    ShortNumeral(st.next);
    InvNext(w, st, st.next);
    hide Step, Respond, Inv, ValidWorld, OpensDir, StrBytes, Itoa, HandleNumber;
    StepKeepsInv(w, st, m, listing);
    IssuedNumber(st.next, Step(w, st, m, listing).reply);
  }

  /** A listing from its path, as the client sees it: it sends an OPENDIR, then READDIRs on the handle that
      it will be given; from the bytes the server wrote it decodes that handle, then the children of
      the node at the path, each once, one page for each READDIR; and once it has read to the end, the
      names it has decoded are exactly those in that directory. */
  lemma ClientOpensAndLists(w: World, st: Session, m: Msg, reqs: seq<Msg>, output: seq<byte>, oracle: Oracle, p: Path)
    requires Exchange(w, st, [m] + reqs, output, oracle) && OpensDir(w, st, m, p)
    requires forall x <- reqs :: !IsOn(x, CLOSE, st.next)
    requires var fi := FirstListing(reqs, Tail(oracle), st.next);
             PagesFit(fi) && AllDescribed(fi) && forall f <- fi :: FitsWire(f.name, f)
    requires OthersWhole(w, AfterOpen(w, st, m, Head(oracle)), reqs, Tail(oracle), READDIR, st.next)
    ensures ReadReplies(output).Some?
    ensures var replies, fi := ReadReplies(output).value, FirstListing(reqs, Tail(oracle), st.next);
            && |replies| == 1 + |reqs| && HandleNumber(replies[0]) == Some(st.next)
            && var pages := RepliesTo(reqs, replies[1..], READDIR, st.next);
               && |pages| == Asked(reqs, READDIR, st.next) && AreTheListing(pages, fi)
               && (pages != [] ==> IsListing(w.flat, p, fi))
               && (|pages| > |fi| / ENTRIES_PER_FETCH && WellNamed(w.flat) && p + [[]] !in w.flat ==>
                     NamesOf(w.flat, p, NamesRead(pages)))
  {
    ExchangeStarts(w, st, [m] + reqs, output, oracle);
    hide *;
    var h, fi := st.next, FirstListing(reqs, Tail(oracle), st.next);
    OpenDirIsWhole(w, st, m, Head(oracle), p);
    DirIsOpened(w, st, m, Head(oracle), p);
    var after := Respond(w, st, m, Head(oracle)).st;
    AfterIsStep(w, st, m, Head(oracle));
    DirectoryPagingConserves(w, after, reqs, Tail(oracle), h);
    WholeAfter(w, st, m, reqs, oracle);
    ClientReadsTheReplies(w, st, [m] + reqs, output, oracle);
    RunUnfolds(w, st, [m] + reqs, oracle);
    assert ([m] + reqs)[1..] == reqs && ([m] + reqs)[0] == m;
    var more := Run(w, after, reqs, Tail(oracle));
    assert Run(w, st, [m] + reqs, oracle).replies[1..] == more.replies;
    ListsThem(reqs, more, h, fi);
    TruthfulAfter(w, st, m, reqs, oracle);
    var pages := RepliesTo(reqs, more.replies, READDIR, h);
    if pages != [] {
      NextIsBelow(w, after, h);
      FirstListingIsTheDirectory(w, after, reqs, Tail(oracle), h);
    }
    if |pages| > |fi| / ENTRIES_PER_FETCH && WellNamed(w.flat) && p + [[]] !in w.flat {
      NamesReadAll(pages, fi);
      NamesAre(fi);
      ListingNames(w.flat, p, fi, Names(fi));
    }
  }

  lemma AfterIsStep(w: World, st: Session, m: Msg, listing: seq<Info>)
    requires Respond(w, st, m, listing).Replied?
    ensures AfterOpen(w, st, m, listing) == Respond(w, st, m, listing).st
  {
    hide Step, Frame;
  }

  lemma TruthfulAfter(w: World, st: Session, m: Msg, reqs: seq<Msg>, oracle: Oracle)
    requires TruthfulRun(w, st, [m] + reqs, oracle) && Respond(w, st, m, Head(oracle)).Replied?
    ensures TruthfulRun(w, Respond(w, st, m, Head(oracle)).st, reqs, Tail(oracle))
  {
    hide Respond, TrueListing;
    assert ([m] + reqs)[1..] == reqs;
  }

  lemma NextIsBelow(w: World, st: Session, h: int)
    requires Inv(w, st) && h in st.handles
    ensures h < st.next
  {
  }
}
