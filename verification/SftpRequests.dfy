/** What each request is answered and what it does to the session's tables, on the paths it names: the
    client's view, in the numbers of the protocol. */
module SftpRequests {
  import opened GoBytes
  import opened Numerals
  import opened Paths
  import opened WorkingDir
  import opened VirtualFile
  import opened FlatTree
  import opened SymLinks
  import opened SftpTypes
  import ExtraField
  import opened SftpSession
  import opened SftpRuns
  import opened SftpCrashes

  // ---------- lookups ----------

  /** No directory on the way to a path is a link. */
  ghost predicate LinkFree(flat: Flat, p: Path) {
    forall k :: 0 <= k < |p| ==> !IsLink(flat, p[..k])
  }

  /** The first k names of p are a link, and q is p with that link's target in their place; the target is
      no link itself, and neither is anything else on the way to q. */
  ghost predicate ThroughLink(flat: Flat, p: Path, k: nat, q: Path) {
    && k < |p| && IsLink(flat, p[..k]) && LinkFree(flat, q)
    && q == Walked(flat[p[..k]].content) + p[k..]
  }

  /** The path p leads to q: there is no link on its way, or it goes through one. */
  ghost predicate Means(flat: Flat, p: Path, q: Path) {
    (q == p && LinkFree(flat, p)) || exists k: nat :: ThroughLink(flat, p, k, q)
  }

  /** A lookup that follows links finds what is in the flat map at the path that p means. */
  lemma WalkMeans(w: World, p: Path, q: Path)
    requires ValidWorld(w) && Means(w.flat, p, q)
    ensures Walk(w.flat, [], p, w.depth) == Find(w.flat, q)
  {
    hide Walk, Walked, TreeShaped;
    if q == p && LinkFree(w.flat, p) {
      LinkFreeLookupsAgree(w.flat, p, w.depth);
    } else {
      var k: nat :| ThroughLink(w.flat, p, k, q);
      LinkIsFound(w.flat, p[..k], w.depth);
      assert p == p[..k] + p[k..];
      var target := Walked(w.flat[p[..k]].content);
      TargetIsFound(w.flat, target, p[k..], w.depth);
      LinkMeansItsTarget(w.flat, p[..k], p[k..], w.depth);
      LinkFreeLookupsAgree(w.flat, q, w.depth);
    }
  }

  /** A node is looked up through directories. */
  lemma {:induction false} NodesAreLinkFree(flat: Flat, p: Path)
    requires TreeShaped(flat) && p in flat
    ensures LinkFree(flat, p)
  {
    if p != [] {
      NodesAreLinkFree(flat, Parent(p));
      forall k | 0 <= k < |p|
        ensures !IsLink(flat, p[..k])
      {
        if k < |p| - 1 {
          assert p[..k] == Parent(p)[..k];
        }
      }
    }
  }

  lemma LinkIsFound(flat: Flat, p: Path, depth: nat)
    requires TreeShaped(flat) && IsLink(flat, p)
    ensures Walk(flat, [], p, depth) == Found(p)
  {
    hide Walk;
    NodesAreLinkFree(flat, p);
    LinkFreeLookupsAgree(flat, p, depth);
  }

  lemma TargetIsFound(flat: Flat, target: Path, rest: Path, depth: nat)
    requires TreeShaped(flat) && rest != [] && LinkFree(flat, target + rest)
    ensures Walk(flat, [], target, depth) == Find(flat, target) && !IsLink(flat, target)
  {
    hide Walk, TreeShaped;
    forall k | 0 <= k <= |target|
      ensures !IsLink(flat, target[..k])
    {
      assert (target + rest)[..k] == target[..k];
    }
    assert target[..|target|] == target;
    LinkFreeLookupsAgree(flat, target, depth);
  }

  /** Through a link whose target is a link, nothing is found. */
  lemma LinkToLink(w: World, p: Path, k: nat)
    requires ValidWorld(w) && k < |p| && IsLink(w.flat, p[..k])
    requires IsLink(w.flat, Walked(w.flat[p[..k]].content))
    ensures Walk(w.flat, [], p, w.depth) == Missing
  {
    hide Walk, Walked, TreeShaped;
    LinkIsFound(w.flat, p[..k], w.depth);
    LinkIsFound(w.flat, Walked(w.flat[p[..k]].content), w.depth);
    assert p == p[..k] + p[k..];
    LinkMeansItsTarget(w.flat, p[..k], p[k..], w.depth);
  }

  /** What an absolute clean path is looked up as, with and without following links. */
  lemma PathLookup(w: World, p: Path, q: Path)
    requires ValidWorld(w) && AllPlain(p)
    ensures Opened(w, Rooted(p)) == Find(w.flat, p) && Rooted(p) != []
    ensures Means(w.flat, p, q) ==> Followed(w, Rooted(p)) == Find(w.flat, q)
  {
    hide Walked, Rooted, Settles, TreeShaped, Walk, Means;
    WalkedRooted(p);
    RootedIsNotEmpty(p);
    if Means(w.flat, p, q) {
      WalkMeans(w, p, q);
    }
  }

  lemma RootedIsNotEmpty(p: Path)
    requires AllPlain(p)
    ensures Rooted(p) != []
  {
    RootedIsAbsClean(p);
  }

  // ---------- answers ----------

  /** A request that changes nothing and is answered this status number. */
  predicate Refused(o: Outcome, st: Session, id: int, number: int) {
    o.Replied? && o.st == st && o.reply.typ == STATUS && o.reply.id == id && StatusOf(o.reply) == Some(number)
  }

  /** A request that gives a new handle on a node, and changes nothing else. */
  predicate GivesHandle(o: Outcome, st: Session, id: int, q: Path) {
    && o.Replied? && o.reply == Msg(HANDLE, id, StrBytes(Itoa(st.next)))
    && o.st == st.(next := st.next + 1, handles := st.handles[st.next := q])
  }

  lemma AnswerRefuses(st: Session, id: int)
    ensures Refused(Answer(st, id, OK), st, id, 0) && Refused(Answer(st, id, EOF), st, id, 1)
    ensures Refused(Answer(st, id, NoSuchFile), st, id, 2) && Refused(Answer(st, id, Failure), st, id, 4)
    ensures Refused(Answer(st, id, BadMessage), st, id, 5)
  {
    hide StatusOf, StatusText;
    StatusNumbers(id);
  }

  // ---------- attributes ----------

  /** The attributes decode to a node's, with 4096 as the size of a directory. */
  predicate Describes(a: seq<byte>, fi: Info, size: nat) {
    && |a| == 32 && FromBE32(a) == ATTR_FLAGS
    && FromBE64(a[4..]) == (if fi.kind == Directory then 4096 else size)
    && FromBE32(a[20..]) == Low32(fi.mode)
    && var x := ExtraOf(fi);
       && FromBE32(a[12..]) == Low32(x.uid) && FromBE32(a[16..]) == Low32(x.gid)
       && FromBE32(a[24..]) == Low32(x.atime) && FromBE32(a[28..]) == Low32(x.mtime)
  }

  lemma AttrsDescribe(fi: Info)
    requires fi.size < U63
    ensures Describes(AttrBytes(fi), fi, fi.size)
  {
    hide FromBE32, FromBE64, Low32, AttrBytes, ExtraOf;
    AttrsReadBack(fi, []);
    assert AttrBytes(fi) + [] == AttrBytes(fi);
  }

  /** A request for attributes that is answered with an entry's, or crashes for its extra field. */
  predicate SendsAttrs(o: Outcome, st: Session, id: int, node: Node) {
    if Described(node.info) then
      && o.Replied? && o.st == st && o.reply.typ == ATTRS && o.reply.id == id
      && Describes(o.reply.payload, node.info, |node.content|)
    else o.Crashed?
  }

  lemma SendsItsAttrs(w: World, st: Session, id: int, q: Path)
    requires ValidWorld(w) && q in w.flat
    ensures SendsAttrs(SendAttrs(st, id, w.flat[q].info), st, id, w.flat[q])
  {
    hide Describes, AttrBytes, Described;
    assert w.flat[q].info.size == |w.flat[q].content| < U63;
    AttrsDescribe(w.flat[q].info);
  }

  /** STAT and LSTAT of an argument that resolves to a path describe exactly the node the path means, and
      are answered 2 exactly when there is none; an empty argument is answered 5. */
  lemma StatDescribesTheNode(w: World, st: Session, m: Msg, listing: seq<Info>, arg: Str, p: Path, q: Path)
    requires ValidWorld(w) && AllPlain(p) && Means(w.flat, p, q)
    requires m.typ == STAT || m.typ == LSTAT
    requires ByteToStr(m.payload) == Some(arg) && RealPath(st.cwd, arg) == Rooted(p)
    ensures var o := Step(w, st, m, listing);
            if arg == [] then Refused(o, st, m.id, 5)
            else if q in w.flat then SendsAttrs(o, st, m.id, w.flat[q])
            else Refused(o, st, m.id, 2)
  {
    hide Walked, Rooted, Followed, ByteToStr, StatusMsg, Settles, TreeShaped, RealPath, Step, Refused, SendsAttrs,
         SendAttrs, AllPlain, Means;
    PathLookup(w, p, q);
    Dispatched(w, st, m, listing);
    AnswerRefuses(st, m.id);
    if q in w.flat {
      SendsItsAttrs(w, st, m.id, q);
    }
  }

  /** Through a link to a link, STAT is answered 2 and OPEN 4. */
  lemma LinkToLinkFails(w: World, st: Session, m: Msg, listing: seq<Info>, arg: Str, p: Path, k: nat)
    requires ValidWorld(w) && AllPlain(p) && k < |p| && IsLink(w.flat, p[..k])
    requires IsLink(w.flat, Walked(w.flat[p[..k]].content)) && WellFormed(w, m) && ByteToStr(m.payload) == Some(arg)
    ensures (m.typ == STAT || m.typ == LSTAT) && arg != [] && RealPath(st.cwd, arg) == Rooted(p) ==>
              Refused(Step(w, st, m, listing), st, m.id, 2)
    ensures m.typ == OPEN && Walked(arg) == p ==> Refused(Step(w, st, m, listing), st, m.id, 4)
  {
    hide Walked, Rooted, ByteToStr, StatusMsg, Settles, TreeShaped, RealPath, Step, Refused, Walk, FromBE32;
    LinkToLink(w, p, k);
    WalkedRooted(p);
    Dispatched(w, st, m, listing);
    AnswerRefuses(st, m.id);
  }

  /** FSTAT on an open handle describes exactly the handle's node. */
  lemma FstatDescribesTheNode(w: World, st: Session, m: Msg, listing: seq<Info>, h: int)
    requires ValidWorld(w) && Inv(w, st) && m.typ == FSTAT && HandleOf(m) == Some(h) && h in st.handles
    ensures SendsAttrs(Step(w, st, m, listing), st, m.id, w.flat[st.handles[h]])
  {
    hide Step, ByteToStr, Atoi, SendAttrs, SendsAttrs, TreeShaped, Settles;
    Dispatched(w, st, m, listing);
    SendsItsAttrs(w, st, m.id, st.handles[h]);
  }

  /** From the image builder to the client: the owner and the times that were written into an entry's
      extra field, whenever they read back, are those that a STAT of the entry decodes to. A time that
      was not given is the zero time. */
  lemma StatSendsWhatWasWritten(w: World, st: Session, m: Msg, listing: seq<Info>, p: Path,
                                uid: int, gid: int, atime: int, mtime: int, ctime: int)
    requires ValidWorld(w) && AllPlain(p) && p in w.flat
    requires (m.typ == STAT || m.typ == LSTAT) && ByteToStr(m.payload) == Some(Rooted(p))
    requires w.flat[p].info.extra == Some(ExtraField.Written(uid, gid, atime, mtime, ctime))
    requires ExtraField.Fits32(uid) && ExtraField.Fits32(gid)
    requires ExtraField.Fits32(atime) && ExtraField.Fits32(mtime) && ExtraField.Fits32(ctime)
    requires ExtraField.InitialRun(atime, mtime, ctime)
    ensures var o := Step(w, st, m, listing);
            && o.Replied? && o.reply.typ == ATTRS && |o.reply.payload| == 32
            && var a := o.reply.payload;
               && FromBE32(a[12..]) == uid && FromBE32(a[16..]) == gid
               && FromBE32(a[24..]) == (if atime == 0 then Low32(ExtraField.ZERO_TIME) else atime)
               && FromBE32(a[28..]) == (if mtime == 0 then Low32(ExtraField.ZERO_TIME) else mtime)
  {
    NodesAreLinkFree(w.flat, p);
    assert Means(w.flat, p, p);
    hide Step, ByteToStr, Rooted, ValidWorld, Means, FromBE32, FromBE64, RealPath;
    ExtraField.WrittenExtraInfo(uid, gid, atime, mtime, ctime);
    RealPathOfAbs(st.cwd, p);
    RootedIsNotEmpty(p);
    StatDescribesTheNode(w, st, m, listing, Rooted(p), p, p);
    hide ExtraField.Written, ExtraField.GetExtraInfo;
    LowWord(uid);
    LowWord(gid);
    LowWord(atime);
    LowWord(mtime);
  }

  // ---------- REALPATH ----------

  /** REALPATH of an argument that resolves to a path sends that path, with the attributes of the node it
      means; it is answered 2 exactly when there is none. */
  lemma RealPathSendsThePath(w: World, st: Session, m: Msg, listing: seq<Info>, arg: Str, p: Path, q: Path)
    requires ValidWorld(w) && AllPlain(p) && Means(w.flat, p, q)
    requires m.typ == REALPATH && ByteToStr(m.payload) == Some(arg) && RealPath(st.cwd, arg) == Rooted(p)
    ensures var o := Step(w, st, m, listing);
            if q !in w.flat then Refused(o, st, m.id, 2)
            else if !Described(w.flat[q].info) then o.Crashed?
            else
              && o.Replied? && o.st == st && o.reply.typ == NAME && o.reply.id == m.id
              && (FitsWire(Rooted(p), w.flat[q].info) ==>
                    DecodeNames(o.reply.payload) == Some([Shown(Rooted(p), w.flat[q].info)]))
  {
    hide Walked, Rooted, Followed, ByteToStr, StatusMsg, Settles, TreeShaped, RealPath, Step, Refused, AllPlain, Means,
         NamePacket, DecodeNames, FitsWire, Shown, Described;
    PathLookup(w, p, q);
    Dispatched(w, st, m, listing);
    AnswerRefuses(st, m.id);
    if q in w.flat && FitsWire(Rooted(p), w.flat[q].info) {
      NamePacketReadsBack([Rooted(p)], [w.flat[q].info]);
      assert ShownAll([Rooted(p)], [w.flat[q].info]) == [Shown(Rooted(p), w.flat[q].info)];
    }
  }

  /** REALPATH of any argument that names a node sends one entry, with the argument's absolute clean
      path; a REALPATH of that path, from any session in whatever directory, sends the same again. */
  lemma RealPathSettles(w: World, st: Session, m: Msg, later: Session, again: Msg,
                        l1: seq<Info>, l2: seq<Info>, arg: Str)
    requires AbsClean(st.cwd) && m.typ == again.typ == REALPATH && ByteToStr(m.payload) == Some(arg)
    requires Step(w, st, m, l1).Replied? && Step(w, st, m, l1).reply.typ == NAME
    requires ByteToStr(again.payload) == Some(RealPath(st.cwd, arg))
    ensures var path := RealPath(st.cwd, arg);
            && AbsClean(path) && Followed(w, path).Found?
            && var fi := NodeAt(w, Followed(w, path).path).info;
               FitsWire(path, fi) ==> DecodeNames(Step(w, st, m, l1).reply.payload) == Some([Shown(path, fi)])
    ensures Step(w, later, again, l2) == Replied(later, Msg(NAME, again.id, Step(w, st, m, l1).reply.payload))
  {
    hide Followed, RealPath, AbsClean, ByteToStr, StatusText, NamePacket, DecodeNames, FitsWire, Shown, Step;
    Dispatched(w, st, m, l1);
    Dispatched(w, later, again, l2);
    RealPathIsClean(st.cwd, arg);
    RealPathIdempotent(st.cwd, later.cwd, arg);
    var path := RealPath(st.cwd, arg);
    var fi := NodeAt(w, Followed(w, path).path).info;
    if FitsWire(path, fi) {
      NamePacketReadsBack([path], [fi]);
      assert ShownAll([path], [fi]) == [Shown(path, fi)];
    }
  }

  // ---------- handles ----------

  /** OPENDIR of an argument that resolves to a path gives a handle on the node at that path, not
      following links, and is answered 2 exactly when there is none; an empty argument is answered 5. */
  lemma OpenDirOpensTheDirectory(w: World, st: Session, m: Msg, listing: seq<Info>, arg: Str, p: Path)
    requires ValidWorld(w) && AllPlain(p)
    requires m.typ == OPENDIR && ByteToStr(m.payload) == Some(arg) && RealPath(st.cwd, arg) == Rooted(p)
    ensures var o := Step(w, st, m, listing);
            if arg == [] then Refused(o, st, m.id, 5)
            else if p in w.flat then GivesHandle(o, st, m.id, p)
            else Refused(o, st, m.id, 2)
  {
    hide Walked, Rooted, Opened, ByteToStr, StatusMsg, Settles, TreeShaped, RealPath, Step, Refused, AllPlain, StrBytes,
         Itoa;
    PathLookup(w, p, p);
    Dispatched(w, st, m, listing);
    AnswerRefuses(st, m.id);
  }

  /** OPEN asks for creation. */
  predicate Creates(m: Msg)
    requires ByteToStr(m.payload).Some? && |m.payload| >= |ByteToStr(m.payload).value| + 8
  {
    FromBE32(m.payload[|ByteToStr(m.payload).value| + 4..]) / FXF_CREAT % 2 == 1
  }

  /** OPEN gives a handle on the node that its name means, links on the way followed; it is answered 4
      exactly when there is none, or creation is asked for. Unlike the others it does not go by the
      working directory: a relative name is walked from the root, without its first piece. */
  lemma OpenOpensTheNode(w: World, st: Session, m: Msg, listing: seq<Info>, q: Path)
    requires ValidWorld(w) && m.typ == OPEN && WellFormed(w, m)
    requires ByteToStr(m.payload).Some? && |m.payload| >= |ByteToStr(m.payload).value| + 8
    requires Means(w.flat, Walked(ByteToStr(m.payload).value), q)
    ensures var o := Step(w, st, m, listing);
            if q in w.flat && !Creates(m) then GivesHandle(o, st, m.id, q) else Refused(o, st, m.id, 4)
  {
    hide Walked, ByteToStr, StatusMsg, Settles, TreeShaped, Step, Refused, StrBytes, Itoa, FromBE32, Means, Walk;
    WalkMeans(w, Walked(ByteToStr(m.payload).value), q);
    Dispatched(w, st, m, listing);
    AnswerRefuses(st, m.id);
  }

  /** CLOSE of an open handle is answered 0, takes the handle out of every table and shuts its node; it
      changes nothing else. */
  lemma CloseShutsTheHandle(w: World, st: Session, m: Msg, listing: seq<Info>, h: int)
    requires m.typ == CLOSE && HandleOf(m) == Some(h) && h in st.handles
    ensures var o := Step(w, st, m, listing);
            && o.Replied? && o.reply.typ == STATUS && o.reply.id == m.id && StatusOf(o.reply) == Some(0)
            && h !in o.st.handles && h !in o.st.dirs && h !in o.st.eof
            && o.st.closed == st.closed + {st.handles[h]} && o.st.next == st.next && o.st.cwd == st.cwd
            && forall g :: g != h ==> SameHandle(st, o.st, g)
  {
    hide Step, ByteToStr, Atoi, StatusMsg, StatusOf;
    Dispatched(w, st, m, listing);
    StatusNumbers(m.id);
    assert StatusMsg(m.id, OK).typ == STATUS && StatusMsg(m.id, OK).id == m.id by {
      StatusHead(m.id, OK);
    }
  }

  lemma StatusHead(id: int, c: StatusCode)
    ensures StatusMsg(id, c).typ == STATUS && StatusMsg(id, c).id == id
  {
    hide StatusText;
  }

  /** A request on a handle that is not open, or on something that is no number, is answered 4. */
  lemma NoHandleFails(w: World, st: Session, m: Msg, listing: seq<Info>)
    requires Inv(w, st) && WellFormed(w, m) && m.typ in {CLOSE, READ, WRITE, FSTAT, READDIR}
    requires HandleOf(m) == None || HandleOf(m).value !in st.handles
    ensures Refused(Step(w, st, m, listing), st, m.id, 4)
  {
    hide Step, Refused, DoClose, DoRead, DoWrite, DoFstat, DoReadDir, Inv, WellFormed, HandleOf, StatusMsg;
    Dispatched(w, st, m, listing);
    AnswerRefuses(st, m.id);
    EofIsOpen(w, st);
    if m.typ == READ || m.typ == WRITE {
      NoHandleToRead(w, st, m);
    } else {
      NoHandleToUse(w, st, m, listing);
    }
  }

  lemma EofIsOpen(w: World, st: Session)
    requires Inv(w, st)
    ensures forall h <- st.eof :: h in st.handles
  {
  }

  lemma NoHandleToUse(w: World, st: Session, m: Msg, listing: seq<Info>)
    requires WellFormed(w, m) && m.typ in {CLOSE, FSTAT, READDIR}
    requires HandleOf(m) == None || HandleOf(m).value !in st.handles
    ensures var o := Answer(st, m.id, Failure);
            && (m.typ == CLOSE ==> DoClose(st, m.id, m.payload) == o)
            && (m.typ == FSTAT ==> DoFstat(w, st, m.id, m.payload) == o)
            && (m.typ == READDIR ==> DoReadDir(st, m.id, m.payload, listing) == o)
  {
    hide ByteToStr, Atoi, StatusMsg, SendPage, SendAttrs;
  }

  lemma NoHandleToRead(w: World, st: Session, m: Msg)
    requires WellFormed(w, m) && m.typ in {READ, WRITE}
    requires (HandleOf(m) == None || HandleOf(m).value !in st.handles) && forall h <- st.eof :: h in st.handles
    ensures m.typ == READ ==> DoRead(w, st, m.id, m.payload) == Answer(st, m.id, Failure)
    ensures m.typ == WRITE ==> DoWrite(w, st, m.id, m.payload) == Answer(st, m.id, Failure)
  {
    hide ByteToStr, Atoi, StatusMsg, FromBE32, FromBE64, PlainReadAt, AfterRead, NodeAt;
  }

  /** A READ on an open handle is answered 1 once the handle has met the end; before that, 4 on a
      directory and on a node that is shut. */
  lemma ReadRefusals(w: World, st: Session, m: Msg, listing: seq<Info>, h: int)
    requires m.typ == READ && WellFormed(w, m) && HandleOf(m) == Some(h) && h in st.handles
    ensures var o, met := Step(w, st, m, listing), h in st.eof && st.eof[h];
            var node := NodeAt(w, st.handles[h]);
            && (met ==> Refused(o, st, m.id, 1))
            && (!met && (node.info.kind == Directory || st.handles[h] in st.closed) ==> Refused(o, st, m.id, 4))
  {
    hide Step, ByteToStr, Atoi, StatusMsg, Refused, FromBE32, FromBE64, NodeAt;
    Dispatched(w, st, m, listing);
    AnswerRefuses(st, m.id);
  }

  // ---------- requests with one answer ----------

  /** The requests that the server knows. */
  const KNOWN: set<byte> := {INIT, REALPATH, OPENDIR, READDIR, CLOSE, LSTAT, STAT, FSTAT, OPEN, READ, WRITE, MKDIR,
                             RMDIR, SETSTAT, REMOVE, RENAME}

  /** RMDIR, SETSTAT, REMOVE and RENAME are answered 0 and do nothing; WRITE and MKDIR, on the archive,
      are answered 4; an unknown request is answered 5; and INIT with the version. */
  lemma FixedAnswers(w: World, st: Session, m: Msg, listing: seq<Info>)
    requires WellFormed(w, m)
    ensures m.typ in {RMDIR, SETSTAT, REMOVE, RENAME} ==> Refused(Step(w, st, m, listing), st, m.id, 0)
    ensures m.typ == WRITE || m.typ == MKDIR ==> Refused(Step(w, st, m, listing), st, m.id, 4)
    ensures m.typ !in KNOWN ==> Refused(Step(w, st, m, listing), st, m.id, 5)
    ensures m.typ == INIT ==> Step(w, st, m, listing) == Replied(st, InitReply())
  {
    hide ByteToStr, StatusMsg, Refused, FromBE32, FromBE64, InitReply, DoRealPath, DoOpenDir, DoReadDir, DoClose,
         DoStat, DoFstat, DoOpen, DoRead;
    AnswerRefuses(st, m.id);
  }
}
