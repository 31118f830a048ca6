/** Downloading a file by consecutive reads gives exactly the file. */
module SftpDownload {
  import opened GoBytes
  import opened Numerals
  import opened VirtualFile
  import opened FlatTree
  import opened SftpTypes
  import opened SftpSession
  import opened SftpRuns
  import opened SftpCrashes

  /** The chunk of n bytes at an offset, cut at the end of the file. */
  function Chunk(s: seq<byte>, n: nat, off: nat): seq<byte> {
    if off > |s| then [] else s[off..Min(off + n, |s|)]
  }

  /** What the READ of n bytes at an offset is answered, up to the id, when all before it were
      consecutive: data as long as the offset is within the file, EOF after that. */
  function ChunkReply(s: seq<byte>, n: nat, off: nat): Msg {
    if off <= |s| then Msg(DATA, 0, StrBytes(Chunk(s, n, off))) else StatusMsg(0, EOF)
  }

  /** A READ of n bytes at an offset on a handle. */
  predicate IsReadAt(m: Msg, h: int, off: nat, n: nat) {
    && IsOn(m, READ, h)
    && var pos := |ByteToStr(m.payload).value| + 4;
       && |m.payload| >= pos + 12
       && FromBE64(m.payload[pos..]) == off && FromBE32(m.payload[pos + 8..]) == n
  }

  /** The READs on the handle ask for consecutive chunks, starting at `off`. */
  predicate Consecutive(reqs: seq<Msg>, h: int, off: nat, n: nat)
    decreases |reqs|
  {
    reqs == [] ||
    if IsOn(reqs[0], READ, h) then IsReadAt(reqs[0], h, off, n) && Consecutive(reqs[1..], h, off + n, n)
    else Consecutive(reqs[1..], h, off, n)
  }

  /** A CLOSE of some open handle on the node. */
  predicate ClosesNode(st: Session, m: Msg, p: Path) {
    m.typ == CLOSE && HandleOf(m).Some? && HandleOf(m).value in st.handles && st.handles[HandleOf(m).value] == p
  }

  /** No request of the run closes the node, through this handle or another. */
  ghost predicate KeepsOpen(w: World, st: Session, reqs: seq<Msg>, oracle: Oracle, p: Path)
    decreases |reqs|
  {
    reqs == [] ||
    (!ClosesNode(st, reqs[0], p) &&
     var o := Respond(w, st, reqs[0], Head(oracle));
     o.Replied? ==> KeepsOpen(w, o.st, reqs[1..], Tail(oracle), p))
  }

  /** The handle is open on a file the session can read, whose entry opens, and has met its end exactly
      when the offset has passed it. */
  ghost predicate Reading(w: World, st: Session, h: int, p: Path, off: nat) {
    && h in st.handles && h < st.next && st.handles[h] == p && p in w.flat && p !in st.closed
    && w.flat[p].info.kind != Directory && w.flat[p].opens && |w.flat[p].content| < U63
    && (h in st.eof && st.eof[h] <==> off > |w.flat[p].content|)
  }

  lemma ReadSendsChunk(w: World, st: Session, m: Msg, listing: seq<Info>, h: int, p: Path, off: nat, n: nat)
    requires Reading(w, st, h, p, off) && IsReadAt(m, h, off, n)
    ensures var o := Step(w, st, m, listing);
            o.Replied? && Reading(w, o.st, h, p, off + n) && SameBody(o.reply, ChunkReply(w.flat[p].content, n, off))
  {
    hide Step, ByteToStr, Atoi, StatusText, FromBE32, FromBE64, BE32;
    Dispatched(w, st, m, listing);
  }

  lemma StepKeepsReading(w: World, st: Session, m: Msg, listing: seq<Info>, h: int, p: Path, off: nat)
    requires Step(w, st, m, listing).Replied?
    requires Reading(w, st, h, p, off) && !IsOn(m, READ, h) && !ClosesNode(st, m, p)
    ensures Reading(w, Step(w, st, m, listing).st, h, p, off)
  {
    hide Step, Followed, Opened, StatusText, NamePacket, AttrBytes, FromBE32, FromBE64, BE32, Min, PlainReadAt,
         ByteToStr, StrBytes, Itoa, Atoi;
    Dispatched(w, st, m, listing);
  }

  /** Replies that are the chunks from an offset on. */
  ghost predicate AreChunks(replies: seq<Msg>, s: seq<byte>, n: nat, off: nat) {
    replies == [] || (SameBody(replies[0], ChunkReply(s, n, off)) && AreChunks(replies[1..], s, n, off + n))
  }

  lemma AreChunksUnfolds(reply: Msg, rest: seq<Msg>, s: seq<byte>, n: nat, off: nat)
    requires SameBody(reply, ChunkReply(s, n, off)) && AreChunks(rest, s, n, off + n)
    ensures AreChunks([reply] + rest, s, n, off)
  {
    hide ChunkReply;
    assert ([reply] + rest)[1..] == rest;
  }

  /** The chunks of n bytes are short enough for their frames. */
  predicate ChunksFit(s: seq<byte>, n: nat) {
    Min(n, |s|) + 13 < U32
  }

  /** Each READ of such a download is answered whole. */
  lemma ReadIsWhole(w: World, st: Session, m: Msg, listing: seq<Info>, h: int, p: Path, off: nat, n: nat)
    requires Reading(w, st, h, p, off) && IsReadAt(m, h, off, n) && ChunksFit(w.flat[p].content, n)
    ensures AnsweredWhole(w, st, m, listing)
  {
    hide ByteToStr, Atoi, FromBE32, FromBE64;
  }

  lemma ReadIsSent(w: World, st: Session, m: Msg, listing: seq<Info>, h: int, p: Path, off: nat, n: nat)
    requires Inv(w, st) && st.next < U63
    requires Reading(w, st, h, p, off) && IsReadAt(m, h, off, n) && ChunksFit(w.flat[p].content, n)
    ensures Respond(w, st, m, listing).Replied?
  {
    hide Inv, Reading, IsReadAt, ChunksFit, Respond, AnsweredWhole, Crashes;
    ReadIsWhole(w, st, m, listing, h, p, off, n);
    CrashesInv(w, st, m, listing);
  }

  /** What the steps of a download hand on to the next. */
  lemma DownloadStep(w: World, st: Session, reqs: seq<Msg>, oracle: Oracle, h: int, p: Path, off: nat, n: nat)
    requires Downloading(w, st, reqs, oracle, h, p, off, n) && reqs != []
    ensures var o, mine := Respond(w, st, reqs[0], Head(oracle)), IsOn(reqs[0], READ, h);
            var off' := if mine then off + n else off;
            && (mine ==> AnsweredWhole(w, st, reqs[0], Head(oracle)) && o.Replied?)
            && (o.Replied? ==> Downloading(w, o.st, reqs[1..], Tail(oracle), h, p, off', n))
            && (mine ==> SameBody(o.reply, ChunkReply(w.flat[p].content, n, off)))
  {
    var m, listing := reqs[0], Head(oracle);
    ConsecutiveUnfolds(reqs, h, off, n);
    assert p in w.flat && !ClosesNode(st, m, p);
    var o := Respond(w, st, m, listing);
    hide Step, Inv, ValidWorld, IsReadAt, Reading, IsOn, ClosesNode, Consecutive, AnsweredWhole, ChunkReply, ChunksFit;
    if IsOn(m, READ, h) {
      ReadIsWhole(w, st, m, listing, h, p, off, n);
      ReadIsSent(w, st, m, listing, h, p, off, n);
      ReadSendsChunk(w, st, m, listing, h, p, off, n);
    } else if o.Replied? {
      StepKeepsReading(w, st, m, listing, h, p, off);
    }
    if o.Replied? {
      StepKeepsAll(w, st, m, listing);
    }
  }

  /** A session, a run and a file open on a handle: the READs on the handle ask for consecutive chunks
      from `off`, each short enough for a frame, and nothing closes the file. */
  ghost predicate Downloading(w: World, st: Session, reqs: seq<Msg>, oracle: Oracle, h: int, p: Path,
                              off: nat, n: nat) {
    && ValidWorld(w) && Inv(w, st) && st.next + |reqs| <= U63
    && Reading(w, st, h, p, off) && Consecutive(reqs, h, off, n) && KeepsOpen(w, st, reqs, oracle, p)
    && ChunksFit(w.flat[p].content, n)
  }

  lemma ReadingIsThere(w: World, st: Session, reqs: seq<Msg>, oracle: Oracle, h: int, p: Path, off: nat, n: nat)
    requires Downloading(w, st, reqs, oracle, h, p, off, n)
    ensures p in w.flat
  {
  }

  lemma NoChunks(reqs: seq<Msg>, replies: seq<Msg>, h: int, s: seq<byte>, n: nat, off: nat)
    requires replies == []
    ensures AreChunks(RepliesTo(reqs, replies, READ, h), s, n, off)
  {
  }

  /** In any run that keeps the node open, whatever other requests come between, consecutive READs on
      the handle are answered with consecutive chunks, then EOF, and none of them crashes the session. */
  lemma {:induction false} ReadsSendChunks(w: World, st: Session, reqs: seq<Msg>, oracle: Oracle, h: int, p: Path,
                                           off: nat, n: nat)
    requires Downloading(w, st, reqs, oracle, h, p, off, n)
    ensures p in w.flat
    ensures var r := Run(w, st, reqs, oracle);
            && |r.replies| <= |reqs|
            && (r.crashed ==> |r.replies| < |reqs| && !IsOn(reqs[|r.replies|], READ, h))
            && AreChunks(RepliesTo(reqs, r.replies, READ, h), w.flat[p].content, n, off)
    decreases |reqs|
  {
    hide *;
    RepliesInOrder(w, st, reqs, oracle);
    ReadingIsThere(w, st, reqs, oracle, h, p, off, n);
    if reqs == [] {
      NoChunks(reqs, Run(w, st, reqs, oracle).replies, h, w.flat[p].content, n, off);
    } else {
      RunUnfolds(w, st, reqs, oracle);
      DownloadStep(w, st, reqs, oracle, h, p, off, n);
      var m := reqs[0];
      var o := Respond(w, st, m, Head(oracle));
      if o.Crashed? {
        NoChunks(reqs, Run(w, st, reqs, oracle).replies, h, w.flat[p].content, n, off);
      } else {
        var rest := Run(w, o.st, reqs[1..], Tail(oracle)).replies;
        var mine := IsOn(m, READ, h);
        RepliesToUnfolds(reqs, o.reply, rest, READ, h);
        ReadsSendChunks(w, o.st, reqs[1..], Tail(oracle), h, p, if mine then off + n else off, n);
        var more := RepliesTo(reqs[1..], rest, READ, h);
        assert [] + more == more;
        if mine {
          AreChunksUnfolds(o.reply, more, w.flat[p].content, n, off);
        }
      }
    }
  }

  /** When every other request is answered whole, so is the whole run. */
  lemma {:induction false} DownloadIsWhole(w: World, st: Session, reqs: seq<Msg>, oracle: Oracle, h: int, p: Path,
                                           off: nat, n: nat)
    requires Downloading(w, st, reqs, oracle, h, p, off, n) && OthersWhole(w, st, reqs, oracle, READ, h)
    ensures AllWhole(w, st, reqs, oracle)
    decreases |reqs|
  {
    hide Downloading, AnsweredWhole, Respond, IsOn, ChunkReply;
    if reqs != [] {
      DownloadStep(w, st, reqs, oracle, h, p, off, n);
      var o := Respond(w, st, reqs[0], Head(oracle));
      if o.Replied? {
        DownloadIsWhole(w, o.st, reqs[1..], Tail(oracle), h, p, if IsOn(reqs[0], READ, h) then off + n else off, n);
      }
    }
  }

  lemma ConsecutiveUnfolds(reqs: seq<Msg>, h: int, off: nat, n: nat)
    requires Consecutive(reqs, h, off, n) && reqs != []
    ensures IsOn(reqs[0], READ, h) ==> IsReadAt(reqs[0], h, off, n) && Consecutive(reqs[1..], h, off + n, n)
    ensures !IsOn(reqs[0], READ, h) ==> Consecutive(reqs[1..], h, off, n)
  {
  }

  // ---------- the chunks are the file ----------

  /** The offset of the k-th chunk. */
  function At(k: nat, n: nat): nat { k * n }

  /** The number of DATA replies a file of that size takes. */
  function Replies(size: nat, n: nat): nat
    requires n >= 1
  {
    size / n + 1
  }

  lemma AtNext(k: nat, n: nat)
    ensures At(0, n) == 0 && At(k + 1, n) == At(k, n) + n
  {
  }

  /** A chunk is within the file exactly when it is one of those counted. */
  lemma CountedChunks(size: nat, n: nat, k: nat)
    requires n >= 1
    ensures k < Replies(size, n) <==> At(k, n) <= size
  {
    var q, r := size / n, size % n;
    assert size == q * n + r;
    if k <= q {
      assert k * n <= q * n;
    } else {
      assert (q + 1) * n <= k * n;
      assert (q + 1) * n == q * n + n;
    }
  }

  lemma {:induction false} ChunkAt(replies: seq<Msg>, s: seq<byte>, n: nat, from: nat, k: nat)
    requires AreChunks(replies, s, n, At(from, n)) && k < |replies|
    ensures SameBody(replies[k], ChunkReply(s, n, At(from + k, n)))
  {
    hide ChunkReply, At;
    if k > 0 {
      AtNext(from, n);
      ChunkAt(replies[1..], s, n, from + 1, k - 1);
    }
  }

  /** The first `count` chunks put together. */
  function FirstChunks(s: seq<byte>, n: nat, count: nat): seq<byte> {
    if count == 0 then [] else FirstChunks(s, n, count - 1) + Chunk(s, n, At(count - 1, n))
  }

  lemma {:induction false} FirstChunksArePrefix(s: seq<byte>, n: nat, count: nat)
    requires count == 0 || At(count - 1, n) <= |s|
    ensures FirstChunks(s, n, count) == s[..Min(At(count, n), |s|)]
  {
    hide At;
    AtNext(0, n);
    if count > 0 {
      AtNext(count - 1, n);
      if count > 1 {
        AtNext(count - 2, n);
      }
      FirstChunksArePrefix(s, n, count - 1);
      hide FirstChunks;
      FirstChunksSnoc(s, n, count);
      ChunkExtends(s, n, At(count - 1, n));
    }
  }

  lemma FirstChunksSnoc(s: seq<byte>, n: nat, count: nat)
    requires count > 0
    ensures FirstChunks(s, n, count) == FirstChunks(s, n, count - 1) + Chunk(s, n, At(count - 1, n))
  {
  }

  lemma ChunkExtends(s: seq<byte>, n: nat, off: nat)
    requires off <= |s|
    ensures s[..off] + Chunk(s, n, off) == s[..Min(off + n, |s|)]
  {
  }

  /** The replies are the file: as many DATA replies as it takes, each with its chunk, then EOF; and
      the chunks put together are the content. */
  ghost predicate IsTheFile(got: seq<Msg>, s: seq<byte>, n: nat)
    requires n >= 1
  {
    && (forall k: nat :: k < |got| && k < Replies(|s|, n) ==>
          got[k].typ == DATA && got[k].payload == StrBytes(Chunk(s, n, At(k, n))))
    && (forall k: nat :: Replies(|s|, n) <= k < |got| ==> StatusOf(got[k]) == Some(1))
    && FirstChunks(s, n, Replies(|s|, n)) == s
  }

  lemma ChunksAreTheFile(got: seq<Msg>, s: seq<byte>, n: nat)
    requires n >= 1 && AreChunks(got, s, n, 0)
    ensures IsTheFile(got, s, n)
  {
    hide Chunk, StrBytes, StatusText, StatusMsg, FromBE32, At, Replies, AreChunks, FirstChunks;
    AtNext(0, n);
    forall k: nat | k < |got|
      ensures k < Replies(|s|, n) ==> got[k].typ == DATA && got[k].payload == StrBytes(Chunk(s, n, At(k, n)))
      ensures k >= Replies(|s|, n) ==> StatusOf(got[k]) == Some(1)
    {
      ChunkAt(got, s, n, 0, k);
      CountedChunks(|s|, n, k);
      StatusNumbers(0);
    }
    ChunksReachTheEnd(s, n);
  }

  lemma ChunksReachTheEnd(s: seq<byte>, n: nat)
    requires n >= 1
    ensures FirstChunks(s, n, Replies(|s|, n)) == s
  {
    hide At, FirstChunks;
    var count := Replies(|s|, n);
    CountedChunks(|s|, n, count);
    CountedChunks(|s|, n, count - 1);
    FirstChunksArePrefix(s, n, count);
    assert s[..|s|] == s;
  }

  /** The READs of a run, all answered up to where the run ends: as many replies as READs asked, which
      are the file; a crash is never at one of them. */
  ghost predicate Downloads(reqs: seq<Msg>, r: RunResult, h: int, s: seq<byte>, n: nat)
    requires n >= 1
  {
    && |r.replies| <= |reqs|
    && (r.crashed ==> |r.replies| < |reqs| && !IsOn(reqs[|r.replies|], READ, h))
    && var got := RepliesTo(reqs, r.replies, READ, h);
       |got| == Asked(reqs[..|r.replies|], READ, h) && IsTheFile(got, s, n)
  }

  /** End to end: a client that reads an open file from the start in chunks of n gets exactly
      |S|/n + 1 DATA replies, which together are the content S, and EOF from then on, one reply for
      each READ. Other requests, also reads of the same file through other handles, may come in
      between; only one of those can crash the session, and when all of them are answered whole the
      run reaches its end. */
  lemma DownloadGivesTheFile(w: World, st: Session, reqs: seq<Msg>, oracle: Oracle, h: int, p: Path, n: nat)
    requires n >= 1 && Downloading(w, st, reqs, oracle, h, p, 0, n)
    ensures p in w.flat && Downloads(reqs, Run(w, st, reqs, oracle), h, w.flat[p].content, n)
    ensures OthersWhole(w, st, reqs, oracle, READ, h) ==>
              && AllWhole(w, st, reqs, oracle)
              && var r := Run(w, st, reqs, oracle);
                 !r.crashed && |r.replies| == |reqs| && |RepliesTo(reqs, r.replies, READ, h)| == Asked(reqs, READ, h)
  {
    var r := Run(w, st, reqs, oracle);
    hide Run, RepliesTo, IsTheFile, AreChunks, Consecutive, KeepsOpen, OthersWhole, AllWhole, Asked, IsOn, Inv,
         ValidWorld;
    ReadsSendChunks(w, st, reqs, oracle, h, p, 0, n);
    ChunksAreTheFile(RepliesTo(reqs, r.replies, READ, h), w.flat[p].content, n);
    RepliesToCount(reqs, r.replies, READ, h);
    if OthersWhole(w, st, reqs, oracle, READ, h) {
      DownloadIsWhole(w, st, reqs, oracle, h, p, 0, n);
      WholeRun(w, st, reqs, oracle);
      assert reqs[..|r.replies|] == reqs;
    }
  }
}
