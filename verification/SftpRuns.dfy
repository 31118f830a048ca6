/** What holds of every run of an SFTP session. */
module SftpRuns {
  import opened GoBytes
  import opened Numerals
  import opened VirtualFile
  import opened FlatTree
  import opened SymLinks
  import opened WorkingDir
  import opened SftpTypes
  import opened SftpFrames
  import opened SftpSession

  // ---------- one reply per request ----------

  /** The reply types sections 4 and 7 of draft-ietf-secsh-filexfer-02 give each request type. */
  predicate Permitted(request: byte, reply: byte) {
    if request == INIT then reply == VERSION
    else
      || reply == STATUS
      || (reply == HANDLE && (request == OPEN || request == OPENDIR))
      || (reply == DATA && request == READ)
      || (reply == NAME && (request == READDIR || request == REALPATH))
      || (reply == ATTRS && (request == LSTAT || request == STAT || request == FSTAT))
  }

  predicate Answers(request: Msg, reply: Msg) {
    reply.id == (if request.typ == INIT then 0 else request.id) && Permitted(request.typ, reply.typ)
  }

  lemma StepAnswers(w: World, st: Session, m: Msg, listing: seq<Info>)
    ensures Step(w, st, m, listing).Replied? ==> Answers(m, Step(w, st, m, listing).reply)
  {
    hide Atoi, ByteToStr, Followed, Opened, PlainReadAt, StatusText, NamePacket, AttrBytes;
  }

  /** In every run the replies answer the requests in order, each with its request's id (0 for INIT)
      and of a type it permits; they stop short exactly when a request crashes the session. */
  lemma {:induction false} RepliesInOrder(w: World, st: Session, reqs: seq<Msg>, oracle: Oracle)
    ensures var r := Run(w, st, reqs, oracle);
            && |r.replies| <= |reqs|
            && (r.crashed <==> |r.replies| < |reqs|)
            && forall i :: 0 <= i < |r.replies| ==> Answers(reqs[i], r.replies[i])
    decreases |reqs|
  {
    if reqs != [] {
      StepAnswers(w, st, reqs[0], Head(oracle));
      var o := Respond(w, st, reqs[0], Head(oracle));
      hide Step, Answers;
      if o.Replied? {
        RepliesInOrder(w, o.st, reqs[1..], Tail(oracle));
      }
    }
  }

  /** On the wire: fed the frames of any requests, the server writes exactly the frames of their
      replies, back to back. */
  lemma {:induction false} ServeWritesTheReplies(w: World, st: Session, reqs: seq<Msg>, oracle: Oracle)
    requires forall m <- reqs :: Sendable(m) && Framed(m, INIT)
    ensures Serve(w, st, Frames(reqs), oracle) == SentAll(Run(w, st, reqs, oracle).replies)
    decreases |reqs|
  {
    if reqs != [] {
      FirstFrame(reqs, INIT);
      hide ParseMsg, Frames, Sendable, Framed, Respond;
      var o := Respond(w, st, reqs[0], Head(oracle));
      if o.Replied? {
        ServeWritesTheReplies(w, o.st, reqs[1..], Tail(oracle));
      }
    }
  }

  /** When the input ends after the requests, or breaks off in something that is no request, that is all
      that is written. */
  lemma {:induction false} ServeStopsAtTheEnd(w: World, st: Session, reqs: seq<Msg>, tail: seq<byte>, oracle: Oracle)
    requires (forall m <- reqs :: Sendable(m) && Framed(m, INIT)) && !ParseFrame(tail).Request?
    ensures Serve(w, st, Frames(reqs) + tail, oracle) == SentAll(Run(w, st, reqs, oracle).replies)
    decreases |reqs|
  {
    if reqs == [] {
      assert Frames(reqs) + tail == tail;
    } else {
      var m := reqs[0];
      assert Sendable(m) && Framed(m, INIT);
      hide ParseMsg, Frame, Sendable, Framed, Respond;
      SendableFits(m);
      assert Frames(reqs) + tail == FrameBytes(m) + (Frames(reqs[1..]) + tail);
      FrameReadsBack(m, Frames(reqs[1..]) + tail, INIT);
      hide Frames;
      var o := Respond(w, st, m, Head(oracle));
      if o.Replied? {
        ServeStopsAtTheEnd(w, o.st, reqs[1..], tail, Tail(oracle));
      }
    }
  }

  /** One step of a run. */
  lemma RunUnfolds(w: World, st: Session, reqs: seq<Msg>, oracle: Oracle)
    requires reqs != []
    ensures var o := Respond(w, st, reqs[0], Head(oracle));
            && (o.Crashed? ==> Run(w, st, reqs, oracle).replies == [] && Run(w, st, reqs, oracle).crashed)
            && (o.Replied? ==>
                  && o == Step(w, st, reqs[0], Head(oracle))
                  && Run(w, st, reqs, oracle).crashed == Run(w, o.st, reqs[1..], Tail(oracle)).crashed
                  && Run(w, st, reqs, oracle).replies == [o.reply] + Run(w, o.st, reqs[1..], Tail(oracle)).replies)
  {
    hide Step;
  }

  // ---------- handles ----------

  /** Every table's keys are open handles, and those are below the next one. */
  ghost predicate Inv(w: World, st: Session) {
    && (forall h <- st.handles :: 0 <= h < st.next && st.handles[h] in w.flat)
    && (forall h <- st.dirs :: h in st.handles)
    && (forall h <- st.eof :: h in st.handles)
    && (forall p <- st.closed :: p in w.flat)
  }

  /** The handle a request works on. */
  function HandleOf(m: Msg): Option<int> {
    if m.typ !in {CLOSE, READ, WRITE, FSTAT, READDIR} then None
    else match ByteToStr(m.payload) case None => None case Some(s) => Atoi(s)
  }

  predicate SameAt<V(==)>(a: map<int, V>, b: map<int, V>, h: int) {
    (h in a <==> h in b) && (h in a ==> a[h] == b[h])
  }

  /** Nothing in the session about this handle changes. */
  predicate SameHandle(a: Session, b: Session, h: int) {
    SameAt(a.handles, b.handles, h) && SameAt(a.dirs, b.dirs, h) && SameAt(a.eof, b.eof, h)
  }

  lemma IssueKeepsInv(w: World, st: Session, id: int, p: Path)
    requires Inv(w, st) && p in w.flat
    ensures Inv(w, Issue(st, id, p).st)
  {
  }

  lemma CloseKeepsInv(w: World, st: Session, id: int, payload: seq<byte>)
    requires Inv(w, st)
    ensures DoClose(st, id, payload).Replied? ==> Inv(w, DoClose(st, id, payload).st)
  {
  }

  lemma ReadKeepsInv(w: World, st: Session, id: int, payload: seq<byte>, listing: seq<Info>)
    requires Inv(w, st)
    ensures DoRead(w, st, id, payload).Replied? ==> Inv(w, DoRead(w, st, id, payload).st)
    ensures DoReadDir(st, id, payload, listing).Replied? ==> Inv(w, DoReadDir(st, id, payload, listing).st)
  {
    hide PlainReadAt, FromBE32, FromBE64, BE32, NamePacket, Min;
  }

  lemma OpenKeepsInv(w: World, st: Session, id: int, payload: seq<byte>)
    requires ValidWorld(w) && Inv(w, st)
    ensures DoOpen(w, st, id, payload).Replied? ==> Inv(w, DoOpen(w, st, id, payload).st)
    ensures DoOpenDir(w, st, id, payload).Replied? ==> Inv(w, DoOpenDir(w, st, id, payload).st)
  {
    hide Inv, Walked, ByteToStr, StrBytes, Itoa, FromBE32, StatusText;
    RootIsDir(w);
    if ByteToStr(payload).Some? {
      WalkFindsNodes(w.flat, [], Walked(ByteToStr(payload).value), w.depth);
    }
    forall p | p in w.flat {
      IssueKeepsInv(w, st, id, p);
    }
  }

  /** Every request keeps the tables consistent. */
  lemma StepKeepsInv(w: World, st: Session, m: Msg, listing: seq<Info>)
    requires ValidWorld(w) && Inv(w, st) && Step(w, st, m, listing).Replied?
    ensures Inv(w, Step(w, st, m, listing).st)
  {
    hide Step, Inv, ValidWorld, DoRead, DoReadDir, DoOpen, DoOpenDir, DoClose;
    Dispatched(w, st, m, listing);
    ReadKeepsInv(w, st, m.id, m.payload, listing);
    OpenKeepsInv(w, st, m.id, m.payload);
    CloseKeepsInv(w, st, m.id, m.payload);
    if m.typ !in {READ, READDIR, OPEN, OPENDIR, CLOSE} {
      OthersKeepTables(w, st, m, listing);
    }
  }

  /** Requests other than these leave the session as it is. */
  lemma OthersKeepTables(w: World, st: Session, m: Msg, listing: seq<Info>)
    requires m.typ !in {READ, READDIR, OPEN, OPENDIR, CLOSE} && Step(w, st, m, listing).Replied?
    ensures Step(w, st, m, listing).st == st
  {
    hide Step, RealPath, StatusText, NamePacket, AttrBytes, Followed, ByteToStr, FromBE32, FromBE64, OpenHandle;
    Dispatched(w, st, m, listing);
  }

  /** Handles are only ever numbered upwards. */
  lemma StepCountsUp(w: World, st: Session, m: Msg, listing: seq<Info>)
    requires Step(w, st, m, listing).Replied?
    ensures var o := Step(w, st, m, listing);
            && st.next <= o.st.next <= st.next + 1
            && (o.reply.typ == HANDLE <==> o.st.next == st.next + 1)
            && (o.reply.typ == HANDLE ==> o.reply.payload == StrBytes(Itoa(st.next)))
  {
    hide Followed, Opened, StatusText, NamePacket, AttrBytes, FromBE32, FromBE64, BE32, Min, PlainReadAt, ByteToStr,
         Atoi, Itoa, RealPath, StrBytes;
  }

  lemma RootIsDir(w: World)
    requires ValidWorld(w)
    ensures IsDir(w.flat, [])
  {
  }

  /** A request changes nothing about an issued handle it does not name. */
  lemma StepIsolatesHandles(w: World, st: Session, m: Msg, listing: seq<Info>, h: int)
    requires Step(w, st, m, listing).Replied? && h < st.next && HandleOf(m) != Some(h)
    ensures SameHandle(st, Step(w, st, m, listing).st, h)
  {
    hide Step, SameHandle;
    if m.typ in {READ, READDIR, CLOSE} {
      NamedIsolates(w, st, m, listing, h);
    } else if m.typ == OPEN || m.typ == OPENDIR {
      IssueIsolates(w, st, m, listing, h);
    } else {
      OthersKeepTables(w, st, m, listing);
      SameAsItself(st, h);
    }
  }

  lemma SameAsItself(st: Session, h: int)
    ensures SameHandle(st, st, h)
  {
  }

  lemma NamedIsolates(w: World, st: Session, m: Msg, listing: seq<Info>, h: int)
    requires m.typ in {READ, READDIR, CLOSE} && Step(w, st, m, listing).Replied? && HandleOf(m) != Some(h)
    ensures SameHandle(st, Step(w, st, m, listing).st, h)
  {
    hide Step, SameHandle, DoRead, DoReadDir, DoClose, HandleOf;
    Dispatched(w, st, m, listing);
    if m.typ == READ {
      ReadIsolates(w, st, m, h);
    } else if m.typ == READDIR {
      ReadDirIsolates(st, m, listing, h);
    } else {
      CloseIsolates(st, m, h);
    }
  }

  lemma ReadIsolates(w: World, st: Session, m: Msg, h: int)
    requires m.typ == READ && DoRead(w, st, m.id, m.payload).Replied? && HandleOf(m) != Some(h)
    ensures SameHandle(st, DoRead(w, st, m.id, m.payload).st, h)
  {
    hide StatusText, FromBE32, FromBE64, BE32, PlainReadAt, ByteToStr, Atoi, NodeAt;
  }

  lemma ReadDirIsolates(st: Session, m: Msg, listing: seq<Info>, h: int)
    requires m.typ == READDIR && DoReadDir(st, m.id, m.payload, listing).Replied? && HandleOf(m) != Some(h)
    ensures SameHandle(st, DoReadDir(st, m.id, m.payload, listing).st, h)
  {
    hide StatusText, NamePacket, Min, ByteToStr, Atoi, Names, AllDescribed;
  }

  lemma CloseIsolates(st: Session, m: Msg, h: int)
    requires m.typ == CLOSE && DoClose(st, m.id, m.payload).Replied? && HandleOf(m) != Some(h)
    ensures SameHandle(st, DoClose(st, m.id, m.payload).st, h)
  {
    hide StatusText, ByteToStr, Atoi;
  }

  lemma IssueIsolates(w: World, st: Session, m: Msg, listing: seq<Info>, h: int)
    requires (m.typ == OPEN || m.typ == OPENDIR) && Step(w, st, m, listing).Replied? && h < st.next
    ensures SameHandle(st, Step(w, st, m, listing).st, h)
  {
    hide Step, StatusText, FromBE32, ByteToStr, Followed, Opened, StrBytes, Itoa, RealPath;
    Dispatched(w, st, m, listing);
  }

  /** Over a whole run the tables stay consistent, and the handle numbers only grow. */
  lemma {:induction false} RunKeepsInv(w: World, st: Session, reqs: seq<Msg>, oracle: Oracle)
    requires ValidWorld(w) && Inv(w, st)
    ensures Inv(w, Run(w, st, reqs, oracle).st)
    ensures st.next <= Run(w, st, reqs, oracle).st.next <= st.next + |reqs|
    decreases |reqs|
  {
    if reqs != [] {
      var o := Respond(w, st, reqs[0], Head(oracle));
      hide Inv, ValidWorld, Step;
      if o.Replied? {
        StepKeepsInv(w, st, reqs[0], Head(oracle));
        StepCountsUp(w, st, reqs[0], Head(oracle));
        RunKeepsInv(w, o.st, reqs[1..], Tail(oracle));
      }
    }
  }

  /** Over a run in which no request names an issued handle, nothing about that handle changes. */
  lemma {:induction false} RunIsolatesHandles(w: World, st: Session, reqs: seq<Msg>, oracle: Oracle, h: int)
    requires h < st.next && forall m <- reqs :: HandleOf(m) != Some(h)
    ensures SameHandle(st, Run(w, st, reqs, oracle).st, h)
    decreases |reqs|
  {
    if reqs != [] {
      var m := reqs[0];
      assert HandleOf(m) != Some(h);
      var o := Respond(w, st, m, Head(oracle));
      hide Step, HandleOf;
      if o.Replied? {
        StepIsolatesHandles(w, st, m, Head(oracle), h);
        StepCountsUp(w, st, m, Head(oracle));
        RunIsolatesHandles(w, o.st, reqs[1..], Tail(oracle), h);
      }
    }
  }

  /** The number a HANDLE reply carries. */
  function HandleNumber(reply: Msg): Option<int> {
    match ByteToStr(reply.payload) case None => None case Some(s) => Atoi(s)
  }

  /** The handles issued in a run of replies, in order. */
  function Issued(replies: seq<Msg>): seq<Option<int>> {
    if replies == [] then []
    else (if replies[0].typ == HANDLE then [HandleNumber(replies[0])] else []) + Issued(replies[1..])
  }

  lemma IssuedNumber(n: nat, reply: Msg)
    requires n < U63 && reply.payload == StrBytes(Itoa(n)) && |Itoa(n)| + 4 < U32
    ensures HandleNumber(reply) == Some(n)
  {
    hide StrBytes, Atoi, Itoa;
    StringReadsBack(Itoa(n), []);
    assert StrBytes(Itoa(n)) + [] == StrBytes(Itoa(n));
    AtoiItoa(n);
  }

  /** Handle numbers that go strictly upwards between two bounds. */
  ghost predicate Ascending(issued: seq<Option<int>>, from: int, to: int) {
    && (forall i :: 0 <= i < |issued| ==> issued[i].Some? && from <= issued[i].value < to)
    && (forall i, j :: 0 <= i < j < |issued| ==> issued[i].value < issued[j].value)
  }

  lemma OneMoreIssued(issued: seq<Option<int>>, from: int, to: int)
    requires Ascending(issued, from + 1, to) && from < to
    ensures Ascending([Some(from)] + issued, from, to)
  {
  }

  lemma WiderBounds(issued: seq<Option<int>>, from: int, from': int, to: int)
    requires Ascending(issued, from', to) && from <= from'
    ensures Ascending(issued, from, to) && [] + issued == issued
  {
  }

  /** One step gives out the next number, or none. */
  lemma StepIssues(w: World, st: Session, m: Msg, listing: seq<Info>)
    requires Step(w, st, m, listing).Replied? && st.next < U63
    ensures var o := Step(w, st, m, listing);
            if o.reply.typ == HANDLE then o.st.next == st.next + 1 && HandleNumber(o.reply) == Some(st.next)
            else o.st.next == st.next
  {
    hide Step, StrBytes, Itoa, HandleNumber, Numeral;
    StepCountsUp(w, st, m, listing);
    if Step(w, st, m, listing).reply.typ == HANDLE {
      ShortNumeral(st.next);
      IssuedNumber(st.next, Step(w, st, m, listing).reply);
    }
  }

  /** In every run the issued handles are numbered strictly upwards from the first free one: all
      different, and none ever issued again, also after it was closed. */
  lemma {:induction false} HandlesAreNeverReissued(w: World, st: Session, reqs: seq<Msg>, oracle: Oracle)
    requires st.next + |reqs| < U63
    ensures Ascending(Issued(Run(w, st, reqs, oracle).replies), st.next, st.next + |reqs|)
    decreases |reqs|
  {
    hide *;
    var to := st.next + |reqs|;
    RepliesInOrder(w, st, reqs, oracle);
    if reqs != [] {
      RunUnfolds(w, st, reqs, oracle);
    }
    if Run(w, st, reqs, oracle).replies == [] {
      NoneIssued(st.next, to);
    } else {
      var o := Respond(w, st, reqs[0], Head(oracle));
      StepIssues(w, st, reqs[0], Head(oracle));
      HandlesAreNeverReissued(w, o.st, reqs[1..], Tail(oracle));
      var later := Issued(Run(w, o.st, reqs[1..], Tail(oracle)).replies);
      IssuedUnfolds(o.reply, Run(w, o.st, reqs[1..], Tail(oracle)).replies);
      FartherBound(later, o.st.next, o.st.next + |reqs| - 1, to);
      WiderBounds(later, st.next, o.st.next, to);
      if o.reply.typ == HANDLE {
        OneMoreIssued(later, st.next, to);
      }
    }
  }

  lemma NoneIssued(from: int, to: int)
    ensures Issued([]) == [] && Ascending([], from, to)
  {
  }

  lemma FartherBound(issued: seq<Option<int>>, from: int, to: int, to': int)
    requires Ascending(issued, from, to) && to <= to'
    ensures Ascending(issued, from, to')
  {
  }

  lemma IssuedUnfolds(reply: Msg, rest: seq<Msg>)
    ensures Issued([reply] + rest) == (if reply.typ == HANDLE then [HandleNumber(reply)] else []) + Issued(rest)
  {
    hide HandleNumber;
    assert ([reply] + rest)[1..] == rest;
  }

  /** A 64-bit number has few digits. */
  lemma {:induction false} ShortNumeral(n: nat)
    requires n < U63
    ensures |Itoa(n)| <= 19 && |Itoa(n)| + 4 < U32
  {
    assert Pow10(5) == 100_000;
    assert Pow10(10) == 100_000 * Pow10(5);
    assert Pow10(15) == 100_000 * Pow10(10);
    assert Pow10(19) == 10_000 * Pow10(15);
    NumeralLength(n, 19);
  }

  lemma {:induction false} NumeralLength(n: nat, k: nat)
    requires k > 0 && n < Pow10(k)
    ensures |Numeral(n, 10)| <= k
  {
    if n >= 10 {
      NumeralLength(n / 10, k - 1);
    }
  }

  function Pow10(k: nat): nat
  {
    if k == 0 then 1 else 10 * Pow10(k - 1)
  }

  // ---------- the replies to one kind of request on one handle ----------

  predicate IsOn(m: Msg, typ: byte, h: int) {
    m.typ == typ && HandleOf(m) == Some(h)
  }

  /** The replies, in order, to the requests of a type on a handle. */
  function RepliesTo(reqs: seq<Msg>, replies: seq<Msg>, typ: byte, h: int): seq<Msg>
    requires |replies| <= |reqs|
  {
    if replies == [] then []
    else (if IsOn(reqs[0], typ, h) then [replies[0]] else []) + RepliesTo(reqs[1..], replies[1..], typ, h)
  }

  lemma RepliesToUnfolds(reqs: seq<Msg>, reply: Msg, rest: seq<Msg>, typ: byte, h: int)
    requires reqs != [] && |rest| <= |reqs| - 1
    ensures RepliesTo(reqs, [reply] + rest, typ, h) ==
            (if IsOn(reqs[0], typ, h) then [reply] else []) + RepliesTo(reqs[1..], rest, typ, h)
  {
    hide IsOn;
    assert ([reply] + rest)[1..] == rest;
  }

  /** How many requests of a type there are on a handle. */
  function Asked(reqs: seq<Msg>, typ: byte, h: int): nat {
    if reqs == [] then 0 else (if IsOn(reqs[0], typ, h) then 1 else 0) + Asked(reqs[1..], typ, h)
  }

  /** Each of them that is answered has its reply. */
  lemma {:induction false} RepliesToCount(reqs: seq<Msg>, replies: seq<Msg>, typ: byte, h: int)
    requires |replies| <= |reqs|
    ensures |RepliesTo(reqs, replies, typ, h)| == Asked(reqs[..|replies|], typ, h)
  {
    hide IsOn;
    if replies != [] {
      RepliesToCount(reqs[1..], replies[1..], typ, h);
      var asked := reqs[..|replies|];
      assert asked[0] == reqs[0] && asked[1..] == reqs[1..][..|replies| - 1];
    }
  }

  predicate SameBody(a: Msg, b: Msg) {
    a.typ == b.typ && a.payload == b.payload
  }

  // ---------- truthful listings ----------

  /** A request that takes a directory snapshot was given the directory's children, each once. */
  ghost predicate TrueListing(w: World, st: Session, m: Msg, listing: seq<Info>) {
    m.typ == READDIR && ByteToStr(m.payload).Some? ==>
      var h := OpenHandle(st, ByteToStr(m.payload).value);
      h.Some? && h.value !in st.dirs ==> IsListing(w.flat, st.handles[h.value], listing)
  }

  /** All listings of a served input are truthful. */
  ghost predicate Truthful(w: World, st: Session, input: seq<byte>, oracle: Oracle)
    decreases |input|
  {
    match ParseFrame(input)
    case Request(m, rest) =>
      TrueListing(w, st, m, Head(oracle)) &&
      (match Respond(w, st, m, Head(oracle))
       case Crashed => true
       case Replied(st', _) => Truthful(w, st', rest, Tail(oracle)))
    case _ => true
  }

  /** What the server has done with an input: written what the state machine serves, for listings that
      are the directories' children. */
  ghost predicate Handled(w: World, st: Session, input: seq<byte>, output: seq<byte>, oracle: Oracle) {
    output == Serve(w, st, input, oracle) && Truthful(w, st, input, oracle)
  }

  /** Serving the input begins with the output `out`, by listings `oracle`, and continues from session
      `st` on what is left of the input. */
  ghost predicate ServedSoFar(w: World, start: Session, input: seq<byte>, oracle: Oracle,
                              out: seq<byte>, st: Session, rest: seq<byte>) {
    forall more: Oracle {:trigger oracle + more} ::
      && Serve(w, start, input, oracle + more) == out + Serve(w, st, rest, more)
      && (Truthful(w, st, rest, more) ==> Truthful(w, start, input, oracle + more))
  }

  lemma NothingServed(w: World, start: Session, input: seq<byte>)
    ensures ServedSoFar(w, start, input, [], [], start, input)
  {
    forall more: Oracle
      ensures Serve(w, start, input, [] + more) == [] + Serve(w, start, input, more)
      ensures Truthful(w, start, input, more) ==> Truthful(w, start, input, [] + more)
    {
      assert [] + more == more;
    }
  }

  lemma OneMoreServed(w: World, start: Session, input: seq<byte>, oracle: Oracle, out: seq<byte>,
                      st: Session, rest: seq<byte>, listing: seq<Info>)
    requires ServedSoFar(w, start, input, oracle, out, st, rest) && ParseFrame(rest).Request?
    requires TrueListing(w, st, ParseFrame(rest).m, listing)
    ensures var o := Respond(w, st, ParseFrame(rest).m, listing);
            && (o.Crashed? ==> Handled(w, start, input, out, oracle + [listing]))
            && (o.Replied? ==> ServedSoFar(w, start, input, oracle + [listing], out + Sent(o.reply), o.st,
                                           ParseFrame(rest).rest))
  {
    hide ParseFrame, Respond, TrueListing, Sent, Serve, Truthful;
    var tail := ParseFrame(rest).rest;
    var o := Respond(w, st, ParseFrame(rest).m, listing);
    forall more: Oracle
      ensures o.Replied? ==>
        && Serve(w, start, input, oracle + [listing] + more) == out + Sent(o.reply) + Serve(w, o.st, tail, more)
        && (Truthful(w, o.st, tail, more) ==> Truthful(w, start, input, oracle + [listing] + more))
    {
      assert oracle + [listing] + more == oracle + ([listing] + more);
      ServeUnfolds(w, st, rest, listing, more);
      if o.Replied? {
        assert out + (Sent(o.reply) + Serve(w, o.st, tail, more)) == out + Sent(o.reply) + Serve(w, o.st, tail, more);
      }
    }
    if o.Crashed? {
      ServeUnfolds(w, st, rest, listing, []);
      assert [listing] + [] == [listing] && out + [] == out;
    }
  }

  lemma ServeUnfolds(w: World, st: Session, input: seq<byte>, listing: seq<Info>, more: Oracle)
    requires ParseFrame(input).Request?
    ensures var m, tail := ParseFrame(input).m, ParseFrame(input).rest;
            var o, all := Respond(w, st, m, listing), [listing] + more;
            && Serve(w, st, input, all) == (if o.Crashed? then [] else Sent(o.reply) + Serve(w, o.st, tail, more))
            && (Truthful(w, st, input, all) <==>
                  TrueListing(w, st, m, listing) && (o.Replied? ==> Truthful(w, o.st, tail, more)))
  {
    hide ParseFrame, Respond, TrueListing, Sent;
    assert Head([listing] + more) == listing && Tail([listing] + more) == more;
  }

  lemma AllServed(w: World, start: Session, input: seq<byte>, oracle: Oracle, out: seq<byte>,
                  st: Session, rest: seq<byte>)
    requires ServedSoFar(w, start, input, oracle, out, st, rest) && !ParseFrame(rest).Request?
    ensures Handled(w, start, input, out, oracle)
  {
    hide ParseFrame;
    assert oracle + [] == oracle;
    assert Serve(w, st, rest, []) == [] && Truthful(w, st, rest, []);
  }

  /** The same for a run of requests. */
  ghost predicate TruthfulRun(w: World, st: Session, reqs: seq<Msg>, oracle: Oracle)
    decreases |reqs|
  {
    reqs == [] ||
    (TrueListing(w, st, reqs[0], Head(oracle)) &&
     var o := Respond(w, st, reqs[0], Head(oracle));
     o.Replied? ==> TruthfulRun(w, o.st, reqs[1..], Tail(oracle)))
  }

  lemma {:induction false} TruthfulFrames(w: World, st: Session, reqs: seq<Msg>, oracle: Oracle)
    requires forall m <- reqs :: Sendable(m) && Framed(m, INIT)
    requires Truthful(w, st, Frames(reqs), oracle)
    ensures TruthfulRun(w, st, reqs, oracle)
    decreases |reqs|
  {
    if reqs != [] {
      FirstFrame(reqs, INIT);
      hide ParseMsg, Frames, Sendable, Framed, Respond, TrueListing;
      var o := Respond(w, st, reqs[0], Head(oracle));
      if o.Replied? {
        TruthfulFrames(w, o.st, reqs[1..], Tail(oracle));
      }
    }
  }
}
