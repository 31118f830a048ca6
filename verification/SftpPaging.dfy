/** Reading a directory page by page loses nothing. */
module SftpPaging {
  import opened GoBytes
  import opened Numerals
  import opened VirtualFile
  import opened FlatTree
  import opened SftpTypes
  import opened SftpSession
  import opened SftpRuns
  import opened SftpCrashes

  /** The k-th page of a snapshot; past the last one there is none. */
  function PageOf(fi: seq<Info>, k: nat): (page: seq<Info>)
    ensures |page| <= ENTRIES_PER_FETCH
  {
    var from := ENTRIES_PER_FETCH * k;
    if from > |fi| then [] else fi[from..Min(from + ENTRIES_PER_FETCH, |fi|)]
  }

  /** The pages from the k-th on, for as long as there are any, put together. */
  function PagesFrom(fi: seq<Info>, k: nat): seq<Info>
    decreases |fi| - ENTRIES_PER_FETCH * k
  {
    if ENTRIES_PER_FETCH * k > |fi| then [] else PageOf(fi, k) + PagesFrom(fi, k + 1)
  }

  /** The pages hold the snapshot: each entry once, in order. */
  lemma {:induction false} PagesConserveTheListing(fi: seq<Info>, k: nat)
    ensures PagesFrom(fi, k) == if ENTRIES_PER_FETCH * k > |fi| then [] else fi[ENTRIES_PER_FETCH * k..]
    decreases |fi| - ENTRIES_PER_FETCH * k
  {
    if ENTRIES_PER_FETCH * k <= |fi| {
      PagesConserveTheListing(fi, k + 1);
    }
  }

  /** What the k-th READDIR of a snapshot is answered, up to the id. */
  function PageReply(fi: seq<Info>, k: nat): Msg {
    if ENTRIES_PER_FETCH * k <= |fi| then Msg(NAME, 0, NamePacket(Names(PageOf(fi, k)), PageOf(fi, k)))
    else StatusMsg(0, EOF)
  }

  /** The session will send page k of the snapshot next on this handle, or has sent them all. */
  predicate AtPage(st: Session, h: int, fi: seq<Info>, k: nat) {
    && h in st.handles && h in st.dirs && st.dirs[h].fi == fi
    && (ENTRIES_PER_FETCH * k <= |fi| ==> st.dirs[h].offset == ENTRIES_PER_FETCH * k)
    && (ENTRIES_PER_FETCH * k > |fi| ==> st.dirs[h].offset > |fi|)
  }

  lemma ReadDirSendsPage(w: World, st: Session, m: Msg, listing: seq<Info>, h: int, fi: seq<Info>, k: nat)
    requires IsOn(m, READDIR, h) && h in st.handles && AllDescribed(fi)
    requires AtPage(st, h, fi, k) || (h !in st.dirs && fi == listing && k == 0)
    ensures var o := Step(w, st, m, listing);
            o.Replied? && AtPage(o.st, h, fi, k + 1) && SameBody(o.reply, PageReply(fi, k))
  {
    hide Step, ByteToStr, Atoi, NamePacket, StatusText, Names, AllDescribed;
    Dispatched(w, st, m, listing);
    PartDescribed(fi);
  }

  lemma PartDescribed(fi: seq<Info>)
    requires AllDescribed(fi)
    ensures forall i, j :: 0 <= i <= j <= |fi| ==> AllDescribed(fi[i..j])
  {
    forall i, j | 0 <= i <= j <= |fi|
      ensures AllDescribed(fi[i..j])
    {
      assert forall f <- fi[i..j] :: f in fi;
    }
  }

  lemma StepKeepsPage(w: World, st: Session, m: Msg, listing: seq<Info>, h: int)
    requires Step(w, st, m, listing).Replied? && h in st.handles && h < st.next
    requires !IsOn(m, READDIR, h) && !IsOn(m, CLOSE, h)
    ensures var st' := Step(w, st, m, listing).st;
            SameAt(st.handles, st'.handles, h) && SameAt(st.dirs, st'.dirs, h) && h < st'.next
  {
    hide Step, ByteToStr, Atoi;
    StepCountsUp(w, st, m, listing);
    if HandleOf(m) != Some(h) {
      StepIsolatesHandles(w, st, m, listing, h);
    } else if m.typ == READ {
      ReadKeepsDirs(w, st, m, listing);
    } else {
      OthersKeepTables(w, st, m, listing);
    }
  }

  lemma ReadKeepsDirs(w: World, st: Session, m: Msg, listing: seq<Info>)
    requires m.typ == READ && Step(w, st, m, listing).Replied?
    ensures var st' := Step(w, st, m, listing).st;
            st'.handles == st.handles && st'.dirs == st.dirs && st'.next == st.next
  {
    hide Step, ByteToStr, Atoi, FromBE32, FromBE64, BE32, PlainReadAt, NodeAt, StatusText;
    Dispatched(w, st, m, listing);
  }

  lemma StillAtPage(st: Session, st': Session, h: int, fi: seq<Info>, k: nat)
    requires AtPage(st, h, fi, k) && SameAt(st.handles, st'.handles, h) && SameAt(st.dirs, st'.dirs, h)
    ensures AtPage(st', h, fi, k)
  {
  }

  /** Replies that are the pages from the k-th on. */
  ghost predicate ArePages(replies: seq<Msg>, fi: seq<Info>, k: nat) {
    replies == [] || (SameBody(replies[0], PageReply(fi, k)) && ArePages(replies[1..], fi, k + 1))
  }

  lemma {:induction false} PageAt(replies: seq<Msg>, fi: seq<Info>, k: nat, i: nat)
    requires ArePages(replies, fi, k) && i < |replies|
    ensures SameBody(replies[i], PageReply(fi, k + i))
  {
    hide PageReply;
    if i > 0 {
      PageAt(replies[1..], fi, k + 1, i - 1);
    }
  }

  lemma ArePagesUnfolds(reply: Msg, rest: seq<Msg>, fi: seq<Info>, k: nat)
    requires SameBody(reply, PageReply(fi, k)) && ArePages(rest, fi, k + 1)
    ensures ArePages([reply] + rest, fi, k)
  {
    hide PageReply;
    assert ([reply] + rest)[1..] == rest;
  }

  /** The listing the filesystem gave at the first READDIR on the handle. */
  function FirstListing(reqs: seq<Msg>, oracle: Oracle, h: int): seq<Info>
    decreases |reqs|
  {
    if reqs == [] then [] else if IsOn(reqs[0], READDIR, h) then Head(oracle)
    else FirstListing(reqs[1..], Tail(oracle), h)
  }

  /** The pages of a listing are short enough for their frames. */
  ghost predicate PagesFit(fi: seq<Info>) {
    forall k: nat :: PacketSize(Names(PageOf(fi, k)), PageOf(fi, k)) + 9 < U32
  }

  /** A session and a run that does not close the handle: page k of the listing `fi` comes next on it,
      or nothing has been sent yet and `fi` is the listing its first READDIR will be given. */
  ghost predicate Paging(w: World, st: Session, reqs: seq<Msg>, oracle: Oracle, h: int, fi: seq<Info>, k: nat) {
    && ValidWorld(w) && Inv(w, st) && st.next + |reqs| <= U63
    && h in st.handles && (forall m <- reqs :: !IsOn(m, CLOSE, h)) && PagesFit(fi) && AllDescribed(fi)
    && (AtPage(st, h, fi, k) || (h !in st.dirs && k == 0 && fi == FirstListing(reqs, oracle, h)))
  }

  /** Each READDIR of such a run is answered whole. */
  lemma PageIsWhole(w: World, st: Session, m: Msg, listing: seq<Info>, h: int, fi: seq<Info>, k: nat)
    requires IsOn(m, READDIR, h) && h in st.handles && PagesFit(fi) && AllDescribed(fi)
    requires AtPage(st, h, fi, k) || (h !in st.dirs && fi == listing && k == 0)
    ensures AnsweredWhole(w, st, m, listing)
  {
    hide ByteToStr, Atoi, PacketSize, Names, FromBE32, FromBE64, AllDescribed, PageSent, PageOf, AtPage;
    assert PacketSize(Names(PageOf(fi, k)), PageOf(fi, k)) + 9 < U32;
    hide PagesFit;
    PageIsDescribed(fi, k);
    NoneDescribed();
    PageSentIs(st, m, listing, h, fi, k);
  }

  lemma PageSentIs(st: Session, m: Msg, listing: seq<Info>, h: int, fi: seq<Info>, k: nat)
    requires IsOn(m, READDIR, h) && h in st.handles
    requires AtPage(st, h, fi, k) || (h !in st.dirs && fi == listing && k == 0)
    ensures PageSent(st, m, listing) == if ENTRIES_PER_FETCH * k <= |fi| then Some(PageOf(fi, k)) else None
  {
    hide ByteToStr, Atoi;
  }

  lemma PageIsDescribed(fi: seq<Info>, k: nat)
    requires AllDescribed(fi)
    ensures AllDescribed(PageOf(fi, k))
  {
    hide AllDescribed;
    PartDescribed(fi);
    NoneDescribed();
  }

  lemma NoneDescribed()
    ensures AllDescribed([])
  {
  }

  lemma PageIsSent(w: World, st: Session, m: Msg, listing: seq<Info>, h: int, fi: seq<Info>, k: nat)
    requires Inv(w, st) && st.next < U63
    requires IsOn(m, READDIR, h) && h in st.handles && PagesFit(fi) && AllDescribed(fi)
    requires AtPage(st, h, fi, k) || (h !in st.dirs && fi == listing && k == 0)
    ensures Respond(w, st, m, listing).Replied?
  {
    hide Inv, AtPage, IsOn, PagesFit, Respond, AnsweredWhole, Crashes;
    PageIsWhole(w, st, m, listing, h, fi, k);
    CrashesInv(w, st, m, listing);
  }

  /** What the steps of a paging hand on to the next. */
  lemma PagingStep(w: World, st: Session, reqs: seq<Msg>, oracle: Oracle, h: int, fi: seq<Info>, k: nat)
    requires Paging(w, st, reqs, oracle, h, fi, k) && reqs != []
    ensures var o, mine := Respond(w, st, reqs[0], Head(oracle)), IsOn(reqs[0], READDIR, h);
            && (mine ==> AnsweredWhole(w, st, reqs[0], Head(oracle)) && o.Replied?)
            && (o.Replied? ==> Paging(w, o.st, reqs[1..], Tail(oracle), h, fi, if mine then k + 1 else k))
            && (mine ==> SameBody(o.reply, PageReply(fi, k)))
  {
    hide Step, ValidWorld, IsOn, AnsweredWhole, PageReply, PagesFit, AtPage;
    var m, listing := reqs[0], Head(oracle);
    var o := Respond(w, st, m, listing);
    assert !IsOn(m, CLOSE, h) && forall x <- reqs[1..] :: x in reqs;
    assert h < st.next;
    hide Inv;
    if IsOn(m, READDIR, h) {
      PageIsWhole(w, st, m, listing, h, fi, k);
      PageIsSent(w, st, m, listing, h, fi, k);
      ReadDirSendsPage(w, st, m, listing, h, fi, k);
      StillOpen(o.st, h, fi, k + 1);
    } else if o.Replied? {
      StepKeepsPage(w, st, m, listing, h);
      if AtPage(st, h, fi, k) {
        StillAtPage(st, o.st, h, fi, k);
      }
    }
    if o.Replied? {
      StepKeepsAll(w, st, m, listing);
    }
  }

  lemma StillOpen(st: Session, h: int, fi: seq<Info>, k: nat)
    requires AtPage(st, h, fi, k)
    ensures h in st.handles
  {
  }

  lemma NoPages(reqs: seq<Msg>, replies: seq<Msg>, h: int, fi: seq<Info>, k: nat)
    requires replies == []
    ensures ArePages(RepliesTo(reqs, replies, READDIR, h), fi, k)
  {
  }

  /** In any run without a CLOSE of the handle, whatever else happens, the READDIRs on it are
      answered with the pages of one snapshot in order, then EOF forever, and none of them crashes the
      session. */
  lemma {:induction false} ReadDirsSendPages(w: World, st: Session, reqs: seq<Msg>, oracle: Oracle, h: int,
                                             fi: seq<Info>, k: nat)
    requires Paging(w, st, reqs, oracle, h, fi, k)
    ensures var r := Run(w, st, reqs, oracle);
            && |r.replies| <= |reqs|
            && (r.crashed ==> |r.replies| < |reqs| && !IsOn(reqs[|r.replies|], READDIR, h))
            && ArePages(RepliesTo(reqs, r.replies, READDIR, h), fi, k)
    decreases |reqs|
  {
    hide *;
    RepliesInOrder(w, st, reqs, oracle);
    if reqs == [] {
      NoPages(reqs, Run(w, st, reqs, oracle).replies, h, fi, k);
    } else {
      RunUnfolds(w, st, reqs, oracle);
      PagingStep(w, st, reqs, oracle, h, fi, k);
      var m := reqs[0];
      var o := Respond(w, st, m, Head(oracle));
      if o.Crashed? {
        NoPages(reqs, Run(w, st, reqs, oracle).replies, h, fi, k);
      } else {
        var rest := Run(w, o.st, reqs[1..], Tail(oracle)).replies;
        var mine := IsOn(m, READDIR, h);
        RepliesToUnfolds(reqs, o.reply, rest, READDIR, h);
        ReadDirsSendPages(w, o.st, reqs[1..], Tail(oracle), h, fi, if mine then k + 1 else k);
        var more := RepliesTo(reqs[1..], rest, READDIR, h);
        assert [] + more == more;
        if mine {
          ArePagesUnfolds(o.reply, more, fi, k);
        }
      }
    }
  }

  /** When every other request is answered whole, so is the whole run. */
  lemma {:induction false} PagingIsWhole(w: World, st: Session, reqs: seq<Msg>, oracle: Oracle, h: int,
                                         fi: seq<Info>, k: nat)
    requires Paging(w, st, reqs, oracle, h, fi, k) && OthersWhole(w, st, reqs, oracle, READDIR, h)
    ensures AllWhole(w, st, reqs, oracle)
    decreases |reqs|
  {
    hide Paging, AnsweredWhole, Respond, IsOn, PageReply;
    if reqs != [] {
      PagingStep(w, st, reqs, oracle, h, fi, k);
      var o := Respond(w, st, reqs[0], Head(oracle));
      if o.Replied? {
        PagingIsWhole(w, o.st, reqs[1..], Tail(oracle), h, fi, if IsOn(reqs[0], READDIR, h) then k + 1 else k);
      }
    }
  }

  /** The pages are the listing: NAME replies for as long as there are entries left, and for the first
      page past them, each of at most 120 entries that decode to its part of the listing; then EOF; and
      the parts put together are the listing. */
  ghost predicate AreTheListing(pages: seq<Msg>, fi: seq<Info>) {
    && (forall k :: 0 <= k < |pages| && k <= |fi| / ENTRIES_PER_FETCH ==>
          && pages[k].typ == NAME && |PageOf(fi, k)| <= ENTRIES_PER_FETCH
          && DecodeNames(pages[k].payload) == Some(ShownAll(Names(PageOf(fi, k)), PageOf(fi, k))))
    && (forall k :: |fi| / ENTRIES_PER_FETCH < k < |pages| ==> StatusOf(pages[k]) == Some(1))
    && PagesFrom(fi, 0) == fi
  }

  lemma PagesAreTheListing(pages: seq<Msg>, fi: seq<Info>)
    requires ArePages(pages, fi, 0) && forall f <- fi :: FitsWire(f.name, f)
    ensures AreTheListing(pages, fi)
  {
    hide DecodeNames, StatusText, PageReply, NamePacket, PageOf, FitsWire, ArePages;
    forall k | 0 <= k < |pages|
      ensures k <= |fi| / ENTRIES_PER_FETCH ==>
                && pages[k].typ == NAME && |PageOf(fi, k)| <= ENTRIES_PER_FETCH
                && DecodeNames(pages[k].payload) == Some(ShownAll(Names(PageOf(fi, k)), PageOf(fi, k)))
      ensures k > |fi| / ENTRIES_PER_FETCH ==> StatusOf(pages[k]) == Some(1)
    {
      PageAt(pages, fi, 0, k);
      PageDecodes(fi, k);
    }
    PagesConserveTheListing(fi, 0);
    assert fi[0..] == fi;
  }

  function ListedNames(es: seq<Listed>): seq<Str> {
    seq(|es|, i requires 0 <= i < |es| => es[i].name)
  }

  /** The names a client decodes from the NAME replies among these. */
  function NamesRead(pages: seq<Msg>): seq<Str> {
    if pages == [] then []
    else
      (if pages[0].typ != NAME then [] else
         match DecodeNames(pages[0].payload) case None => [] case Some(es) => ListedNames(es))
      + NamesRead(pages[1..])
  }

  lemma PageNames(page: seq<Info>)
    ensures ListedNames(ShownAll(Names(page), page)) == Names(page)
  {
  }

  lemma NamesConcat(a: seq<Info>, b: seq<Info>)
    ensures Names(a + b) == Names(a) + Names(b)
  {
  }

  /** Read to the end, the pages give the names of the listing, each once and in order. */
  lemma {:induction false} NamesReadFrom(pages: seq<Msg>, fi: seq<Info>, k: nat)
    requires AreTheListing(pages, fi) && |fi| / ENTRIES_PER_FETCH < |pages| && k <= |pages|
    ensures NamesRead(pages[k..]) == Names(PagesFrom(fi, k))
    decreases |pages| - k
  {
    hide DecodeNames, PageOf, ShownAll, Names, ListedNames;
    if k == |pages| {
      assert PagesFrom(fi, k) == [] && Names([]) == [];
    } else {
      assert pages[k..][0] == pages[k] && pages[k..][1..] == pages[k + 1..];
      NamesReadFrom(pages, fi, k + 1);
      if k <= |fi| / ENTRIES_PER_FETCH {
        PageNames(PageOf(fi, k));
        NamesConcat(PageOf(fi, k), PagesFrom(fi, k + 1));
      } else {
        assert StatusOf(pages[k]) == Some(1);
      }
    }
  }

  lemma NamesReadAll(pages: seq<Msg>, fi: seq<Info>)
    requires AreTheListing(pages, fi) && |fi| / ENTRIES_PER_FETCH < |pages|
    ensures NamesRead(pages) == Names(fi)
  {
    hide AreTheListing, NamesRead, Names;
    NamesReadFrom(pages, fi, 0);
    assert pages[0..] == pages;
    ListingIsWhole(pages, fi);
  }

  lemma ListingIsWhole(pages: seq<Msg>, fi: seq<Info>)
    requires AreTheListing(pages, fi)
    ensures PagesFrom(fi, 0) == fi
  {
    hide DecodeNames, PageOf, ShownAll;
  }

  /** The READDIRs of a run, all answered up to where the run ends: as many replies as READDIRs asked,
      which are the listing; a crash is never at one of them. */
  ghost predicate Lists(reqs: seq<Msg>, r: RunResult, h: int, fi: seq<Info>) {
    && |r.replies| <= |reqs|
    && (r.crashed ==> |r.replies| < |reqs| && !IsOn(reqs[|r.replies|], READDIR, h))
    && var pages := RepliesTo(reqs, r.replies, READDIR, h);
       |pages| == Asked(reqs[..|r.replies|], READDIR, h) && AreTheListing(pages, fi)
  }

  /** A client that reads a directory of n entries to the end gets n/120 + 1 pages, the last of them
      possibly empty, which decode to the entries of the first-read listing, each once and in order;
      every later READDIR is answered EOF. There is one reply for each READDIR: only another request
      can crash the session, and when all of them are answered whole the run reaches its end. */
  lemma DirectoryPagingConserves(w: World, st: Session, reqs: seq<Msg>, oracle: Oracle, h: int)
    requires ValidWorld(w) && Inv(w, st) && st.next + |reqs| <= U63
    requires h in st.handles && h !in st.dirs && forall m <- reqs :: !IsOn(m, CLOSE, h)
    requires PagesFit(FirstListing(reqs, oracle, h)) && AllDescribed(FirstListing(reqs, oracle, h))
    requires forall fi <- FirstListing(reqs, oracle, h) :: FitsWire(fi.name, fi)
    ensures Lists(reqs, Run(w, st, reqs, oracle), h, FirstListing(reqs, oracle, h))
    ensures OthersWhole(w, st, reqs, oracle, READDIR, h) ==>
              && AllWhole(w, st, reqs, oracle)
              && var r := Run(w, st, reqs, oracle);
                 !r.crashed && |r.replies| == |reqs|
                 && |RepliesTo(reqs, r.replies, READDIR, h)| == Asked(reqs, READDIR, h)
  {
    var r, fi := Run(w, st, reqs, oracle), FirstListing(reqs, oracle, h);
    hide *;
    PagingStarts(w, st, reqs, oracle, h);
    ReadDirsSendPages(w, st, reqs, oracle, h, fi, 0);
    PagesAreTheListing(RepliesTo(reqs, r.replies, READDIR, h), fi);
    RepliesToCount(reqs, r.replies, READDIR, h);
    IsListed(reqs, r, h, fi);
    if OthersWhole(w, st, reqs, oracle, READDIR, h) {
      PagingIsWhole(w, st, reqs, oracle, h, fi, 0);
      WholeRun(w, st, reqs, oracle);
      assert reqs[..|r.replies|] == reqs;
    }
  }

  lemma PagingStarts(w: World, st: Session, reqs: seq<Msg>, oracle: Oracle, h: int)
    requires ValidWorld(w) && Inv(w, st) && st.next + |reqs| <= U63
    requires h in st.handles && h !in st.dirs && forall m <- reqs :: !IsOn(m, CLOSE, h)
    requires PagesFit(FirstListing(reqs, oracle, h)) && AllDescribed(FirstListing(reqs, oracle, h))
    ensures Paging(w, st, reqs, oracle, h, FirstListing(reqs, oracle, h), 0)
  {
  }

  lemma IsListed(reqs: seq<Msg>, r: RunResult, h: int, fi: seq<Info>)
    requires |r.replies| <= |reqs|
    requires r.crashed ==> |r.replies| < |reqs| && !IsOn(reqs[|r.replies|], READDIR, h)
    requires var pages := RepliesTo(reqs, r.replies, READDIR, h);
             |pages| == Asked(reqs[..|r.replies|], READDIR, h) && AreTheListing(pages, fi)
    ensures Lists(reqs, r, h, fi)
  {
  }

  lemma {:induction false} SmallEntries(names: seq<Str>, infos: seq<Info>, most: nat)
    requires |names| == |infos| && forall i :: 0 <= i < |names| ==> |names[i]| + |infos[i].longName| <= most
    ensures PacketSize(names, infos) <= 4 + (40 + most) * |names|
  {
    if names != [] {
      var n := |names| - 1;
      SmallEntries(names[..n], infos[..n], most);
      assert (40 + most) * |names| == (40 + most) * n + (40 + most);
    }
  }

  /** The most bytes of an entry's name and listing line together for which any page fits. */
  const SHORT := 0x200_0000

  lemma ShortPage(page: seq<Info>)
    requires |page| <= ENTRIES_PER_FETCH && forall f <- page :: |f.name| + |f.longName| <= SHORT
    ensures PacketSize(Names(page), page) + 9 < U32
  {
    hide PacketSize;
    forall i | 0 <= i < |page|
      ensures |Names(page)[i]| + |page[i].longName| <= SHORT
    {
      assert page[i] in page;
    }
    SmallEntries(Names(page), page, SHORT);
    var n := |page|;
    assert (40 + SHORT) * n <= (40 + SHORT) * ENTRIES_PER_FETCH;
  }

  /** Names that together with their listing lines take at most 2^25 bytes make pages that fit. */
  lemma ShortNamesFit(fi: seq<Info>)
    requires forall f <- fi :: |f.name| + |f.longName| <= SHORT
    ensures PagesFit(fi)
  {
    hide PacketSize, Names;
    forall k: nat
      ensures PacketSize(Names(PageOf(fi, k)), PageOf(fi, k)) + 9 < U32
    {
      assert forall f <- PageOf(fi, k) :: f in fi;
      ShortPage(PageOf(fi, k));
    }
  }

  lemma PageDecodes(fi: seq<Info>, k: nat)
    requires forall f <- fi :: FitsWire(f.name, f)
    ensures k <= |fi| / ENTRIES_PER_FETCH ==>
              && PageReply(fi, k).typ == NAME
              && DecodeNames(PageReply(fi, k).payload) == Some(ShownAll(Names(PageOf(fi, k)), PageOf(fi, k)))
    ensures k > |fi| / ENTRIES_PER_FETCH ==>
              PageReply(fi, k).typ == STATUS && StatusOf(PageReply(fi, k)) == Some(1)
  {
    var page := PageOf(fi, k);
    assert forall i :: 0 <= i < |page| ==> page[i] in fi;
    hide FitsWire, DecodeNames, NamePacket, StatusText, StatusMsg;
    NamePacketReadsBack(Names(page), page);
    StatusNumbers(0);
  }

  /** The listing a client is sent is the directory: the children of the handle's path, each once. */
  lemma {:induction false} FirstListingIsTheDirectory(w: World, st: Session, reqs: seq<Msg>, oracle: Oracle, h: int)
    requires h in st.handles && h !in st.dirs && h < st.next && forall m <- reqs :: !IsOn(m, CLOSE, h)
    requires TruthfulRun(w, st, reqs, oracle)
    requires |Run(w, st, reqs, oracle).replies| <= |reqs|
    requires RepliesTo(reqs, Run(w, st, reqs, oracle).replies, READDIR, h) != []
    ensures IsListing(w.flat, st.handles[h], FirstListing(reqs, oracle, h))
    decreases |reqs|
  {
    var m := reqs[0];
    RunUnfolds(w, st, reqs, oracle);
    var o := Respond(w, st, m, Head(oracle));
    assert o.Replied?;
    var rest := Run(w, o.st, reqs[1..], Tail(oracle)).replies;
    RepliesToUnfolds(reqs, o.reply, rest, READDIR, h);
    if IsOn(m, READDIR, h) {
      TakesTrueListing(w, st, m, Head(oracle), h);
    } else {
      StepKeepsPage(w, st, m, Head(oracle), h);
      hide Step, Respond, IsListing, TrueListing, RepliesTo, Run;
      assert !IsOn(m, CLOSE, h);
      FirstListingIsTheDirectory(w, o.st, reqs[1..], Tail(oracle), h);
    }
  }

  lemma TakesTrueListing(w: World, st: Session, m: Msg, listing: seq<Info>, h: int)
    requires IsOn(m, READDIR, h) && h in st.handles && h !in st.dirs && TrueListing(w, st, m, listing)
    ensures IsListing(w.flat, st.handles[h], listing)
  {
    hide ByteToStr, Atoi, IsListing;
  }
}
