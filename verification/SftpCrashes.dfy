/** When a request crashes the session, and runs in which none does. */
module SftpCrashes {
  import opened GoBytes
  import opened Numerals
  import opened WorkingDir
  import opened VirtualFile
  import opened FlatTree
  import opened SftpTypes
  import opened SftpFrames
  import opened SftpSession
  import opened SftpRuns

  // ---------- one request ----------

  /** The payload has every field its request type reads. */
  predicate WellFormed(w: World, m: Msg) {
    if m.typ in {REALPATH, OPENDIR, READDIR, CLOSE, LSTAT, STAT, FSTAT, MKDIR} then ByteToStr(m.payload).Some?
    else if m.typ == OPEN then
      match ByteToStr(m.payload)
      case None => false
      case Some(name) =>
        var rest := |m.payload| - |name| - 4;
        rest >= 8 || (rest >= 4 && FromBE32(m.payload[|name| + 4..]) / FXF_CREAT % 2 == 1)
    else if m.typ == READ then
      ByteToStr(m.payload).Some? && |m.payload| >= |ByteToStr(m.payload).value| + 16
    else if m.typ == WRITE then
      match ByteToStr(m.payload)
      case None => false
      case Some(handle) =>
        var pos := |handle| + 4;
        && |m.payload| >= pos + 12
        && var n := FromBE32(m.payload[pos + 8..]);
           (w.limit > 0 && (FromBE64(m.payload[pos..]) + n) % U64 > w.limit) || |m.payload| >= pos + 12 + n
    else true
  }

  /** A read of a file: its size and whether its entry opens, the offset and the count asked for. */
  datatype Span = Span(size: nat, opens: bool, off: int, count: nat)

  /** The read that a READ makes: on an open handle that has not met the end, of a file no one closed. */
  function SpanOf(w: World, st: Session, m: Msg): Option<Span> {
    if m.typ != READ || !WellFormed(w, m) then None
    else
      var handle := ByteToStr(m.payload).value;
      var pos := |handle| + 4;
      match OpenHandle(st, handle)
      case None => None
      case Some(h) =>
        var p := st.handles[h];
        if (h in st.eof && st.eof[h]) || NodeAt(w, p).info.kind == Directory || p in st.closed then None
        else Some(Span(|NodeAt(w, p).content|, NodeAt(w, p).opens,
                       Signed64(FromBE64(m.payload[pos..])), FromBE32(m.payload[pos + 8..])))
  }

  /** The offset is outside what there is to read: nothing, of an entry that does not open. */
  predicate Outside(s: Span) { s.off < 0 || s.off > if s.opens then s.size else 0 }

  /** A READ of an offset outside its file. */
  predicate ReadsOutside(w: World, st: Session, m: Msg) {
    SpanOf(w, st, m).Some? && Outside(SpanOf(w, st, m).value)
  }

  /** The page that a READDIR sends. */
  function PageSent(st: Session, m: Msg, listing: seq<Info>): Option<seq<Info>> {
    if m.typ != READDIR || ByteToStr(m.payload).None? then None
    else match OpenHandle(st, ByteToStr(m.payload).value)
      case None => None
      case Some(h) =>
        var dir := if h in st.dirs then st.dirs[h] else DirState(0, listing);
        if dir.offset > |dir.fi| then None
        else Some(dir.fi[dir.offset..Min(dir.offset + ENTRIES_PER_FETCH, |dir.fi|)])
  }

  /** The payload length of a reply that carries data, a page or a path; 0 for the other replies, which
      are short. */
  function BulkSize(w: World, st: Session, m: Msg, listing: seq<Info>): nat {
    if m.typ == READ then
      match SpanOf(w, st, m)
      case None => 0
      case Some(s) => if Outside(s) || !s.opens then 0 else 4 + Min(s.count, s.size - s.off)
    else if m.typ == READDIR then
      match PageSent(st, m, listing)
      case None => 0
      case Some(page) => PacketSize(Names(page), page)
    else if m.typ == REALPATH && ByteToStr(m.payload).Some? then
      var path := RealPath(st.cwd, ByteToStr(m.payload).value);
      match Followed(w, path)
      case Found(p) => 44 + |path| + |NodeAt(w, p).info.longName|
      case _ => 0
    else 0
  }

  /** The entries whose attributes the reply sends. */
  function InfosSent(w: World, st: Session, m: Msg, listing: seq<Info>): seq<Info> {
    if ByteToStr(m.payload).None? then []
    else
      var arg := ByteToStr(m.payload).value;
      if m.typ == REALPATH || ((m.typ == STAT || m.typ == LSTAT) && arg != []) then
        match Followed(w, RealPath(st.cwd, arg))
        case Found(p) => [NodeAt(w, p).info]
        case _ => []
      else if m.typ == FSTAT then
        match OpenHandle(st, arg)
        case None => []
        case Some(h) => [NodeAt(w, st.handles[h]).info]
      else if m.typ == READDIR then
        match PageSent(st, m, listing)
        case None => []
        case Some(page) => page
      else []
  }

  /** A request that crashes the session: its payload lacks a field that its type reads, it reads
      outside its file, it sends the attributes of an entry whose extra field does not parse, or its
      reply is so long that the frame's 32-bit length wraps below the header. */
  predicate Crashes(w: World, st: Session, m: Msg, listing: seq<Info>) {
    || !WellFormed(w, m) || ReadsOutside(w, st, m) || !AllDescribed(InfosSent(w, st, m, listing))
    || Wraps(m.id, BulkSize(w, st, m, listing))
  }

  /** A request that is answered, by a reply that its frame has room for. */
  predicate AnsweredWhole(w: World, st: Session, m: Msg, listing: seq<Info>) {
    && WellFormed(w, m) && !ReadsOutside(w, st, m) && AllDescribed(InfosSent(w, st, m, listing))
    && Fits(m.id, BulkSize(w, st, m, listing))
  }

  /** Handling the request, up to writing the reply, fails on its payload, its offset or an entry. */
  lemma StepCrashesExactly(w: World, st: Session, m: Msg, listing: seq<Info>)
    requires forall h <- st.eof :: h in st.handles
    ensures Step(w, st, m, listing).Crashed? <==>
            !WellFormed(w, m) || ReadsOutside(w, st, m) || !AllDescribed(InfosSent(w, st, m, listing))
  {
    hide Step, WellFormed, ReadsOutside, InfosSent, AllDescribed;
    if m.typ == READ {
      ReadCrashesExactly(w, st, m, listing);
    } else if m.typ in {REALPATH, STAT, LSTAT, FSTAT} {
      AttrsCrashExactly(w, st, m, listing);
    } else {
      OthersCrashExactly(w, st, m, listing);
    }
  }

  lemma ReadCrashesExactly(w: World, st: Session, m: Msg, listing: seq<Info>)
    requires m.typ == READ && forall h <- st.eof :: h in st.handles
    ensures Step(w, st, m, listing).Crashed? <==> !WellFormed(w, m) || ReadsOutside(w, st, m)
    ensures AllDescribed(InfosSent(w, st, m, listing))
  {
    hide Step, Atoi, StatusText, FromBE32, FromBE64, BE32, Min, NodeAt, ByteToStr;
    Dispatched(w, st, m, listing);
    ReadSendsNoInfos(w, st, m, listing);
  }

  lemma AttrsCrashExactly(w: World, st: Session, m: Msg, listing: seq<Info>)
    requires m.typ in {REALPATH, STAT, LSTAT, FSTAT}
    ensures Step(w, st, m, listing).Crashed? <==> !WellFormed(w, m) || !AllDescribed(InfosSent(w, st, m, listing))
    ensures !ReadsOutside(w, st, m)
  {
    hide Step, Atoi, Followed, StatusText, NamePacket, AttrBytes, RealPath, Described, NodeAt, ByteToStr;
    Dispatched(w, st, m, listing);
    forall fi: Info
      ensures AllDescribed([fi]) <==> Described(fi)
    {
      assert fi in [fi];
    }
  }

  lemma OthersCrashExactly(w: World, st: Session, m: Msg, listing: seq<Info>)
    requires m.typ !in {READ, REALPATH, STAT, LSTAT, FSTAT}
    ensures Step(w, st, m, listing).Crashed? <==> !WellFormed(w, m) || !AllDescribed(InfosSent(w, st, m, listing))
    ensures !ReadsOutside(w, st, m)
  {
    hide Step, Atoi, Followed, Opened, StatusText, NamePacket, FromBE32, FromBE64, BE32, Min, RealPath, Itoa, StrBytes,
         Described, NodeAt, ByteToStr;
    Dispatched(w, st, m, listing);
  }

  lemma ReadReplySize(w: World, st: Session, m: Msg, listing: seq<Info>)
    requires m.typ == READ && Step(w, st, m, listing).Replied?
    requires forall h <- st.eof :: h in st.handles
    ensures var n, reply := BulkSize(w, st, m, listing), Step(w, st, m, listing).reply;
            |reply.payload| == n || (n == 0 && reply.typ == STATUS && |reply.payload| <= 20)
  {
    hide Step, Atoi, FromBE32, FromBE64, BE32, NodeAt, ByteToStr, AfterRead, PlainReadAt;
    Dispatched(w, st, m, listing);
    if SpanOf(w, st, m).Some? {
      var s := SpanOf(w, st, m).value;
      var h := OpenHandle(st, ByteToStr(m.payload).value).value;
      var node := NodeAt(w, st.handles[h]);
      AfterReadSize(st, m.id, h, node, s.off, s.count);
    } else {
      NotReadSize(w, st, m);
    }
  }

  lemma AfterReadSize(st: Session, id: int, h: int, node: Node, off: int, n: nat)
    requires node.info.kind != Directory
    ensures var o := AfterRead(st, id, h, PlainReadAt(node.info.kind, node.content, false, node.opens, off, n));
            o.Replied? ==>
              if node.opens then 0 <= off <= |node.content| && |o.reply.payload| == 4 + Min(n, |node.content| - off)
              else o.reply.typ == STATUS && |o.reply.payload| <= 20 && off == 0
  {
    hide BE32;
  }

  /** A READ that reads no file is answered with a status. */
  lemma NotReadSize(w: World, st: Session, m: Msg)
    requires m.typ == READ && SpanOf(w, st, m).None? && DoRead(w, st, m.id, m.payload).Replied?
    requires forall h <- st.eof :: h in st.handles
    ensures var reply := DoRead(w, st, m.id, m.payload).reply;
            reply.typ == STATUS && |reply.payload| <= 20
  {
    hide Atoi, FromBE32, FromBE64, BE32, NodeAt, ByteToStr;
  }

  lemma PageReplySize(w: World, st: Session, m: Msg, listing: seq<Info>)
    requires m.typ == READDIR && Step(w, st, m, listing).Replied?
    ensures var n, reply := BulkSize(w, st, m, listing), Step(w, st, m, listing).reply;
            |reply.payload| == n || (n == 0 && reply.typ == STATUS && |reply.payload| <= 20)
  {
    hide Step, Atoi, BE32, ByteToStr, NamePacket, PacketSize, Names;
    Dispatched(w, st, m, listing);
    if PageSent(st, m, listing).Some? {
      var page := PageSent(st, m, listing).value;
      PacketHasItsSize(Names(page), page);
    }
  }

  lemma PathReplySize(w: World, st: Session, m: Msg, listing: seq<Info>)
    requires m.typ == REALPATH && Step(w, st, m, listing).Replied?
    ensures var n, reply := BulkSize(w, st, m, listing), Step(w, st, m, listing).reply;
            |reply.payload| == n || (n == 0 && reply.typ == STATUS && |reply.payload| <= 20)
  {
    hide Step, BE32, ByteToStr, Followed, NamePacket, RealPath;
    Dispatched(w, st, m, listing);
    if ByteToStr(m.payload).Some? {
      var path := RealPath(st.cwd, ByteToStr(m.payload).value);
      if Followed(w, path).Found? {
        var fi := NodeAt(w, Followed(w, path).path).info;
        PacketHasItsSize([path], [fi]);
        OneEntrySize(path, fi);
      }
    }
  }

  lemma OneEntrySize(name: Str, fi: Info)
    ensures PacketSize([name], [fi]) == 44 + |name| + |fi.longName|
  {
    assert [name][..0] == [] && [fi][..0] == [];
    assert PacketSize([], []) == 4;
  }

  lemma OtherReplySize(w: World, st: Session, m: Msg, listing: seq<Info>)
    requires m.typ !in {READ, READDIR, REALPATH} && st.next < U63 && Step(w, st, m, listing).Replied?
    ensures |Step(w, st, m, listing).reply.payload| <= 94 && BulkSize(w, st, m, listing) == 0
  {
    hide Atoi, Itoa, Numeral, BE32, ByteToStr, Followed, Opened, NodeAt, AttrBytes, FromBE32, FromBE64, StrBytes,
         RealPath;
    ShortNumeral(st.next);
  }

  /** A reply's payload is of its bulk size, or short. */
  lemma ReplySize(w: World, st: Session, m: Msg, listing: seq<Info>)
    requires Step(w, st, m, listing).Replied? && st.next < U63
    requires forall h <- st.eof :: h in st.handles
    ensures var n, len := BulkSize(w, st, m, listing), |Step(w, st, m, listing).reply.payload|;
            len == n || (n == 0 && len <= 94)
  {
    hide Step, BulkSize;
    if m.typ == READ {
      ReadReplySize(w, st, m, listing);
    } else if m.typ == READDIR {
      PageReplySize(w, st, m, listing);
    } else if m.typ == REALPATH {
      PathReplySize(w, st, m, listing);
    } else {
      OtherReplySize(w, st, m, listing);
    }
  }

  /** A request crashes the session exactly on a malformed payload, a read outside its file, an entry
      whose extra field does not parse, or a reply too long for its frame's length. */
  lemma CrashesExactly(w: World, st: Session, m: Msg, listing: seq<Info>)
    requires st.next < U63 && forall h <- st.eof :: h in st.handles
    ensures Respond(w, st, m, listing).Crashed? <==> Crashes(w, st, m, listing)
    ensures Respond(w, st, m, listing).Replied? && Fits(m.id, |Respond(w, st, m, listing).reply.payload|)
            <==> AnsweredWhole(w, st, m, listing)
  {
    hide Step, WellFormed, ReadsOutside, BulkSize, InfosSent, AllDescribed, Frame, Fits, Wraps, Permitted;
    StepCrashesExactly(w, st, m, listing);
    StepAnswers(w, st, m, listing);
    var o := Step(w, st, m, listing);
    if o.Replied? {
      ReplySize(w, st, m, listing);
      HasFrame(o.reply);
      ShortReplyFits(m.id, |o.reply.payload|);
      if m.typ == INIT {
        OtherReplySize(w, st, m, listing);
        ShortReplyFits(o.reply.id, |o.reply.payload|);
      }
    }
  }

  lemma HasFrame(m: Msg)
    ensures Frame(m).Some? <==> !Wraps(m.id, |m.payload|)
  {
    hide BE32;
  }

  lemma ShortReplyFits(id: int, len: nat)
    ensures Fits(id, 0) && !Wraps(id, 0)
    ensures len <= 94 ==> Fits(id, len) && !Wraps(id, len)
    ensures Fits(id, len) ==> !Wraps(id, len)
  {
  }

  /** A READ with an id, at an offset inside its file, is sent back whole exactly when the chunk, its
      length word and the header fit 32 bits; for the nine next lengths it crashes, and beyond them the
      frame is cut short. */
  lemma ReadIsWholeExactly(w: World, st: Session, m: Msg, listing: seq<Info>)
    requires Inv(w, st) && st.next < U63 && m.id > 0
    requires SpanOf(w, st, m).Some? && SpanOf(w, st, m).value.opens && !Outside(SpanOf(w, st, m).value)
    ensures var s, o := SpanOf(w, st, m).value, Respond(w, st, m, listing);
            var chunk := Min(s.count, s.size - s.off);
            && (o.Crashed? <==> U32 - 13 <= chunk <= U32 - 5)
            && (o.Replied? && Fits(m.id, |o.reply.payload|) <==> chunk < U32 - 13)
  {
    hide Respond, SpanOf, WellFormed, Wraps, Fits, InfosSent;
    CrashesExactly(w, st, m, listing);
    SpanIsRead(w, st, m);
    ReadSendsNoInfos(w, st, m, listing);
    var chunk := Min(SpanOf(w, st, m).value.count, SpanOf(w, st, m).value.size - SpanOf(w, st, m).value.off);
    assert BulkSize(w, st, m, listing) == 4 + chunk;
    ChunkWraps(m.id, chunk);
  }

  lemma ReadSendsNoInfos(w: World, st: Session, m: Msg, listing: seq<Info>)
    requires m.typ == READ
    ensures AllDescribed(InfosSent(w, st, m, listing))
  {
    hide ByteToStr;
  }

  /** What the READ of an open file, not yet read to its end, is answered depends on whether the file's
      entry opens: it is data exactly when it does, the offset is inside and the chunk does not make the
      frame's length wrap; it is FAILURE exactly when it does not open and the offset is 0; and any other
      READ crashes the session. */
  lemma ReadOutcome(w: World, st: Session, m: Msg, listing: seq<Info>)
    requires Inv(w, st) && st.next < U63 && SpanOf(w, st, m).Some?
    ensures var s, o := SpanOf(w, st, m).value, Respond(w, st, m, listing);
            && (o.Replied? && o.reply.typ == DATA <==>
                  s.opens && 0 <= s.off <= s.size && !Wraps(m.id, 4 + Min(s.count, s.size - s.off)))
            && (o.Replied? && o.reply == StatusMsg(m.id, Failure) <==> !s.opens && s.off == 0)
            && (o.Replied? ==> o.reply.typ == DATA || o.reply == StatusMsg(m.id, Failure))
  {
    hide Respond, WellFormed, Wraps, InfosSent, SpanOf, BulkSize, StatusText;
    CrashesExactly(w, st, m, listing);
    SpanIsRead(w, st, m);
    ReadSendsNoInfos(w, st, m, listing);
    ReadBulk(w, st, m, listing);
    ShortReplyFits(m.id, 0);
    if Respond(w, st, m, listing).Replied? {
      ReadReply(w, st, m, listing);
    }
  }

  lemma ReadBulk(w: World, st: Session, m: Msg, listing: seq<Info>)
    requires SpanOf(w, st, m).Some?
    ensures var s := SpanOf(w, st, m).value;
            BulkSize(w, st, m, listing) == if Outside(s) || !s.opens then 0 else 4 + Min(s.count, s.size - s.off)
  {
    SpanIsRead(w, st, m);
    hide SpanOf;
  }

  lemma ReadReply(w: World, st: Session, m: Msg, listing: seq<Info>)
    requires SpanOf(w, st, m).Some? && Respond(w, st, m, listing).Replied?
    requires forall h <- st.eof :: h in st.handles
    ensures var s, reply := SpanOf(w, st, m).value, Respond(w, st, m, listing).reply;
            && (s.opens ==> reply.typ == DATA)
            && (!s.opens ==> reply == StatusMsg(m.id, Failure) && reply.typ == STATUS)
  {
    hide Step, Atoi, FromBE32, FromBE64, BE32, ByteToStr, StatusText, Frame, NodeAt;
    Dispatched(w, st, m, listing);
  }

  lemma ChunkWraps(id: int, chunk: nat)
    requires id > 0 && chunk < U32
    ensures Wraps(id, 4 + chunk) <==> U32 - 13 <= chunk <= U32 - 5
    ensures Fits(id, 4 + chunk) <==> chunk < U32 - 13
  {
    if chunk + 13 >= U32 {
      assert Low32(chunk + 13) == chunk + 13 - U32;
    }
  }

  lemma SpanIsRead(w: World, st: Session, m: Msg)
    requires SpanOf(w, st, m).Some?
    ensures m.typ == READ && WellFormed(w, m) && SpanOf(w, st, m).value.count < U32
  {
    hide WellFormed, ByteToStr, FromBE64, FromBE32, OpenHandle, NodeAt;
  }

  /** A request for 2^32 - 10 bytes from the start of a file of that size or more is well-formed and
      inside the file, and crashes the session. */
  lemma LongReadCrashes(w: World, st: Session, m: Msg, listing: seq<Info>)
    requires Inv(w, st) && st.next < U63 && m.id > 0 && SpanOf(w, st, m).Some?
    requires var s := SpanOf(w, st, m).value; s.opens && s.off == 0 && s.count == U32 - 10 <= s.size
    ensures WellFormed(w, m) && !ReadsOutside(w, st, m) && Respond(w, st, m, listing).Crashed?
  {
    hide Respond, SpanOf, WellFormed;
    SpanIsRead(w, st, m);
    ReadIsWholeExactly(w, st, m, listing);
  }

  // ---------- runs ----------

  /** No request of the run, at the state it meets, is one that crashes. */
  ghost predicate NoneCrashes(w: World, st: Session, reqs: seq<Msg>, oracle: Oracle)
    decreases |reqs|
  {
    reqs == [] ||
    (!Crashes(w, st, reqs[0], Head(oracle)) &&
     var o := Respond(w, st, reqs[0], Head(oracle));
     o.Replied? ==> NoneCrashes(w, o.st, reqs[1..], Tail(oracle)))
  }

  /** One step keeps what the results about runs assume of the session. */
  lemma StepKeepsAll(w: World, st: Session, m: Msg, listing: seq<Info>)
    requires ValidWorld(w) && Inv(w, st) && Respond(w, st, m, listing).Replied?
    ensures var st' := Respond(w, st, m, listing).st;
            Inv(w, st') && st'.next <= st.next + 1
  {
    hide Step, Inv, ValidWorld, Frame;
    StepKeepsInv(w, st, m, listing);
    StepCountsUp(w, st, m, listing);
  }

  lemma CrashesInv(w: World, st: Session, m: Msg, listing: seq<Info>)
    requires Inv(w, st) && st.next < U63
    ensures Respond(w, st, m, listing).Crashed? <==> Crashes(w, st, m, listing)
    ensures Respond(w, st, m, listing).Replied? && Fits(m.id, |Respond(w, st, m, listing).reply.payload|)
            <==> AnsweredWhole(w, st, m, listing)
  {
    hide Crashes, AnsweredWhole, Respond, Fits;
    CrashesExactly(w, st, m, listing);
  }

  /** In every run each request gets exactly one reply, in order, with its id (0 for INIT) and of a
      type it permits, exactly when none of them crashes at the state it meets. */
  lemma {:induction false} OneReplyPerRequest(w: World, st: Session, reqs: seq<Msg>, oracle: Oracle)
    requires ValidWorld(w) && Inv(w, st) && st.next + |reqs| <= U63
    ensures var r := Run(w, st, reqs, oracle);
            && |r.replies| <= |reqs|
            && (forall i :: 0 <= i < |r.replies| ==> Answers(reqs[i], r.replies[i]))
            && (|r.replies| == |reqs| && !r.crashed <==> NoneCrashes(w, st, reqs, oracle))
    decreases |reqs|
  {
    RepliesInOrder(w, st, reqs, oracle);
    hide Crashes, Respond, Inv, ValidWorld, Answers;
    if reqs != [] {
      var m := reqs[0];
      CrashesInv(w, st, m, Head(oracle));
      RunUnfolds(w, st, reqs, oracle);
      var o := Respond(w, st, m, Head(oracle));
      if o.Replied? {
        StepKeepsAll(w, st, m, Head(oracle));
        OneReplyPerRequest(w, o.st, reqs[1..], Tail(oracle));
      }
    }
  }

  /** Every request of the run is answered whole. */
  ghost predicate AllWhole(w: World, st: Session, reqs: seq<Msg>, oracle: Oracle)
    decreases |reqs|
  {
    reqs == [] ||
    (AnsweredWhole(w, st, reqs[0], Head(oracle)) &&
     var o := Respond(w, st, reqs[0], Head(oracle));
     o.Replied? ==> AllWhole(w, o.st, reqs[1..], Tail(oracle)))
  }

  /** Every request of the run but those of a type on a handle is answered whole. */
  ghost predicate OthersWhole(w: World, st: Session, reqs: seq<Msg>, oracle: Oracle, typ: byte, h: int)
    decreases |reqs|
  {
    reqs == [] ||
    ((IsOn(reqs[0], typ, h) || AnsweredWhole(w, st, reqs[0], Head(oracle))) &&
     var o := Respond(w, st, reqs[0], Head(oracle));
     o.Replied? ==> OthersWhole(w, o.st, reqs[1..], Tail(oracle), typ, h))
  }

  /** Then there is one reply for each, and each fits its frame. */
  lemma {:induction false} WholeRun(w: World, st: Session, reqs: seq<Msg>, oracle: Oracle)
    requires ValidWorld(w) && Inv(w, st) && st.next + |reqs| <= U63 && AllWhole(w, st, reqs, oracle)
    ensures var r := Run(w, st, reqs, oracle);
            && !r.crashed && |r.replies| == |reqs|
            && (forall i :: 0 <= i < |reqs| ==> Fits(reqs[i].id, |r.replies[i].payload|))
    decreases |reqs|
  {
    hide AnsweredWhole, Crashes, Respond, Inv, ValidWorld, Fits;
    if reqs != [] {
      var m := reqs[0];
      CrashesInv(w, st, m, Head(oracle));
      RunUnfolds(w, st, reqs, oracle);
      var o := Respond(w, st, m, Head(oracle));
      StepKeepsAll(w, st, m, Head(oracle));
      WholeRun(w, o.st, reqs[1..], Tail(oracle));
    }
  }

  // ---------- a closed archive ----------

  /** A READ of a tree in which no entry opens is never answered with data. */
  lemma StepSendsNoData(w: World, st: Session, m: Msg, listing: seq<Info>)
    requires (forall p <- w.flat :: !w.flat[p].opens) && Step(w, st, m, listing).Replied?
    ensures Step(w, st, m, listing).reply.typ != DATA
  {
    StepAnswers(w, st, m, listing);
    hide Step, Atoi, FromBE32, FromBE64, BE32, ByteToStr, StatusText;
    Dispatched(w, st, m, listing);
  }

  /** So of a tree as it is loaded, whose archive is closed, no run sends any of a file. */
  lemma {:induction false} ClosedArchiveSendsNoData(w: World, st: Session, reqs: seq<Msg>, oracle: Oracle)
    requires forall p <- w.flat :: !w.flat[p].opens
    ensures forall i :: 0 <= i < |Run(w, st, reqs, oracle).replies| ==> Run(w, st, reqs, oracle).replies[i].typ != DATA
    decreases |reqs|
  {
    if reqs != [] {
      hide Step, Frame;
      var o := Respond(w, st, reqs[0], Head(oracle));
      if o.Replied? {
        StepSendsNoData(w, st, reqs[0], Head(oracle));
        ClosedArchiveSendsNoData(w, o.st, reqs[1..], Tail(oracle));
      }
    }
  }
}
