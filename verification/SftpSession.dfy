/** The SFTP server session as a state machine (`sftp/sftp.go`): what each request does to the
    session and what it is answered. The filesystem is a loaded archive. */
module SftpSession {
  import opened GoBytes
  import opened Numerals
  import opened WorkingDir
  import opened VirtualFile
  import opened FlatTree
  import opened SymLinks
  import opened SftpTypes
  import opened SftpFrames

  const ENTRIES_PER_FETCH := 120

  /** What does not change during a session: the archive's nodes, an allowance that settles every
      lookup, and the configured upload limit (0 for none). */
  datatype World = World(flat: Flat, depth: nat, limit: nat)

  ghost predicate ValidWorld(w: World) {
    && TreeShaped(w.flat) && Settles(w.flat, w.depth)
    && forall p <- w.flat :: w.flat[p].info.size == |w.flat[p].content| < U63
  }

  /** A directory snapshot and how far it has been sent. */
  datatype DirState = DirState(offset: nat, fi: seq<Info>)

  /** The session's tables, and the nodes that some close has shut for every user. */
  datatype Session = Session(cwd: Str, next: nat, handles: map<int, Path>, dirs: map<int, DirState>,
                             eof: map<int, bool>, closed: set<Path>)

  /** `Crashed` is a panic on a malformed payload or extra field or an out-of-range read: the session
      ends. */
  datatype Outcome = Replied(st: Session, reply: Msg) | Crashed

  function NodeAt(w: World, p: Path): Node {
    if p in w.flat then w.flat[p] else Node(Info([], [], Regular, 0, 0, None), [], false)
  }

  /** `Fs.Open` does not follow links; `Fs.Stat` and `Fs.OpenFile` do. */
  function Opened(w: World, path: Str): Lookup {
    Find(w.flat, Walked(path))
  }

  function Followed(w: World, path: Str): Lookup {
    Walk(w.flat, [], Walked(path), w.depth)
  }

  function Answer(st: Session, id: int, c: StatusCode): Outcome {
    Replied(st, StatusMsg(id, c))
  }

  // ---------- requests on paths ----------

  function DoRealPath(w: World, st: Session, id: int, payload: seq<byte>): Outcome {
    match ByteToStr(payload)
    case None => Crashed
    case Some(arg) =>
      var path := RealPath(st.cwd, arg);
      match Followed(w, path)
      case Found(p) =>
        if !Described(NodeAt(w, p).info) then Crashed
        else Replied(st, Msg(NAME, id, NamePacket([path], [NodeAt(w, p).info])))
      case _ => Answer(st, id, NoSuchFile)
  }

  /** A new handle for a node. */
  function Issue(st: Session, id: int, p: Path): Outcome {
    Replied(st.(next := st.next + 1, handles := st.handles[st.next := p]),
            Msg(HANDLE, id, StrBytes(Itoa(st.next))))
  }

  function DoOpenDir(w: World, st: Session, id: int, payload: seq<byte>): Outcome {
    match ByteToStr(payload)
    case None => Crashed
    case Some(arg) =>
      if arg == [] then Answer(st, id, BadMessage)
      else match Opened(w, RealPath(st.cwd, arg))
        case Found(p) => Issue(st, id, p)
        case _ => Answer(st, id, NoSuchFile)
  }

  /** The flag that asks for creation; the archive refuses it. */
  const FXF_CREAT := 8

  function DoOpen(w: World, st: Session, id: int, payload: seq<byte>): Outcome {
    match ByteToStr(payload)
    case None => Crashed
    case Some(name) =>
      var pos := |name| + 4;
      if |payload| < pos + 4 then Crashed
      else if FromBE32(payload[pos..]) / FXF_CREAT % 2 == 1 then Answer(st, id, Failure)
      else if |payload| < pos + 8 then Crashed
      else match Followed(w, name)
        case Found(p) => Issue(st, id, p)
        case _ => Answer(st, id, Failure)
  }

  /** The attributes of an entry, unless its extra field does not parse. */
  function SendAttrs(st: Session, id: int, fi: Info): Outcome {
    if Described(fi) then Replied(st, Msg(ATTRS, id, AttrBytes(fi))) else Crashed
  }

  function DoStat(w: World, st: Session, id: int, payload: seq<byte>): Outcome {
    match ByteToStr(payload)
    case None => Crashed
    case Some(arg) =>
      if arg == [] then Answer(st, id, BadMessage)
      else match Followed(w, RealPath(st.cwd, arg))
        case Found(p) => SendAttrs(st, id, NodeAt(w, p).info)
        case _ => Answer(st, id, NoSuchFile)
  }

  /** The archive refuses new directories. */
  function DoMkdir(st: Session, id: int, payload: seq<byte>): Outcome {
    if ByteToStr(payload).None? then Crashed else Answer(st, id, Failure)
  }

  // ---------- requests on handles ----------

  /** The open handle a handle string names. */
  function OpenHandle(st: Session, handle: Str): Option<int> {
    match Atoi(handle)
    case None => None
    case Some(h) => if h in st.handles then Some(h) else None
  }

  function DoClose(st: Session, id: int, payload: seq<byte>): Outcome {
    match ByteToStr(payload)
    case None => Crashed
    case Some(handle) =>
      match OpenHandle(st, handle)
      case None => Answer(st, id, Failure)
      case Some(h) =>
        Answer(st.(handles := st.handles - {h}, dirs := st.dirs - {h}, eof := st.eof - {h},
                   closed := st.closed + {st.handles[h]}), id, OK)
  }

  function DoFstat(w: World, st: Session, id: int, payload: seq<byte>): Outcome {
    match ByteToStr(payload)
    case None => Crashed
    case Some(handle) =>
      match OpenHandle(st, handle)
      case None => Answer(st, id, Failure)
      case Some(h) => SendAttrs(st, id, NodeAt(w, st.handles[h]).info)
  }

  /** The first READDIR on a handle takes a snapshot, here `listing`; each one sends the next page. */
  function DoReadDir(st: Session, id: int, payload: seq<byte>, listing: seq<Info>): Outcome {
    match ByteToStr(payload)
    case None => Crashed
    case Some(handle) =>
      match OpenHandle(st, handle)
      case None => Answer(st, id, Failure)
      case Some(h) => SendPage(st, id, h, if h in st.dirs then st.dirs[h] else DirState(0, listing))
  }

  function SendPage(st: Session, id: int, h: int, dir: DirState): Outcome {
    if dir.offset > |dir.fi| then Answer(st.(dirs := st.dirs[h := dir]), id, EOF)
    else
      var bound := dir.offset + ENTRIES_PER_FETCH;
      var page := dir.fi[dir.offset..Min(bound, |dir.fi|)];
      if !AllDescribed(page) then Crashed
      else Replied(st.(dirs := st.dirs[h := dir.(offset := bound)]), Msg(NAME, id, NamePacket(Names(page), page)))
  }

  lemma SnapshotThenPage(st: Session, id: int, h: int, dir: DirState)
    ensures SendPage(st.(dirs := st.dirs[h := dir]), id, h, dir) == SendPage(st, id, h, dir)
  {
    hide NamePacket, Names, StatusText, Min, AllDescribed;
    assert st.dirs[h := dir][h := dir] == st.dirs[h := dir];
  }

  function DoRead(w: World, st: Session, id: int, payload: seq<byte>): Outcome {
    match ByteToStr(payload)
    case None => Crashed
    case Some(handle) =>
      var pos := |handle| + 4;
      if |payload| < pos + 12 then Crashed
      else ReadFile(w, st, id, handle, Signed64(FromBE64(payload[pos..])), FromBE32(payload[pos + 8..]))
  }

  /** Once a read on a handle has met the end of the file, every later one is answered EOF. */
  function ReadFile(w: World, st: Session, id: int, handle: Str, off: int, n: nat): Outcome {
    match Atoi(handle)
    case None => Answer(st, id, Failure)
    case Some(h) =>
      if h in st.eof && st.eof[h] then Answer(st, id, EOF)
      else if h !in st.handles then Answer(st, id, Failure)
      else
        var p := st.handles[h];
        var node := NodeAt(w, p);
        AfterRead(st, id, h, PlainReadAt(node.info.kind, node.content, p in st.closed, node.opens, off, n))
  }

  function AfterRead(st: Session, id: int, h: int, r: ReadResult): Outcome {
    match r
    case Data(b, end) =>
      Replied(if end then st.(eof := st.eof[h := true]) else st, Msg(DATA, id, BE32(|b|) + b))
    case OutOfRange => Crashed
    case _ => Answer(st, id, Failure)
  }

  /** The archive refuses writes; a request over the limit is refused before its data is looked at. */
  function DoWrite(w: World, st: Session, id: int, payload: seq<byte>): Outcome {
    match ByteToStr(payload)
    case None => Crashed
    case Some(handle) =>
      var pos := |handle| + 4;
      if |payload| < pos + 12 then Crashed
      else
        var n := FromBE32(payload[pos + 8..]);
        if w.limit > 0 && (FromBE64(payload[pos..]) + n) % U64 > w.limit then Answer(st, id, Failure)
        else if |payload| < pos + 12 + n then Crashed
        else Answer(st, id, Failure)
  }

  // ---------- dispatch ----------

  function Step(w: World, st: Session, m: Msg, listing: seq<Info>): Outcome {
    if m.typ == INIT then Replied(st, InitReply())
    else if m.typ == REALPATH then DoRealPath(w, st, m.id, m.payload)
    else if m.typ == OPENDIR then DoOpenDir(w, st, m.id, m.payload)
    else if m.typ == READDIR then DoReadDir(st, m.id, m.payload, listing)
    else if m.typ == CLOSE then DoClose(st, m.id, m.payload)
    else if m.typ == LSTAT || m.typ == STAT then DoStat(w, st, m.id, m.payload)
    else if m.typ == FSTAT then DoFstat(w, st, m.id, m.payload)
    else if m.typ == OPEN then DoOpen(w, st, m.id, m.payload)
    else if m.typ == READ then DoRead(w, st, m.id, m.payload)
    else if m.typ == WRITE then DoWrite(w, st, m.id, m.payload)
    else if m.typ == MKDIR then DoMkdir(st, m.id, m.payload)
    else if m.typ == RMDIR || m.typ == SETSTAT || m.typ == REMOVE || m.typ == RENAME then Answer(st, m.id, OK)
    else Answer(st, m.id, BadMessage)
  }

  /** What a request of each type does. */
  lemma Dispatched(w: World, st: Session, m: Msg, listing: seq<Info>)
    ensures m.typ == REALPATH ==> Step(w, st, m, listing) == DoRealPath(w, st, m.id, m.payload)
    ensures m.typ == OPENDIR ==> Step(w, st, m, listing) == DoOpenDir(w, st, m.id, m.payload)
    ensures m.typ == READDIR ==> Step(w, st, m, listing) == DoReadDir(st, m.id, m.payload, listing)
    ensures m.typ == CLOSE ==> Step(w, st, m, listing) == DoClose(st, m.id, m.payload)
    ensures m.typ == STAT || m.typ == LSTAT ==> Step(w, st, m, listing) == DoStat(w, st, m.id, m.payload)
    ensures m.typ == FSTAT ==> Step(w, st, m, listing) == DoFstat(w, st, m.id, m.payload)
    ensures m.typ == OPEN ==> Step(w, st, m, listing) == DoOpen(w, st, m.id, m.payload)
    ensures m.typ == READ ==> Step(w, st, m, listing) == DoRead(w, st, m.id, m.payload)
    ensures m.typ == WRITE ==> Step(w, st, m, listing) == DoWrite(w, st, m.id, m.payload)
    ensures m.typ == MKDIR ==> Step(w, st, m, listing) == DoMkdir(st, m.id, m.payload)
    ensures m.typ !in {REALPATH, OPENDIR, READDIR, CLOSE, STAT, LSTAT, FSTAT, OPEN, READ, WRITE, MKDIR} ==>
              Step(w, st, m, listing).Replied? && Step(w, st, m, listing).st == st
  {
    hide DoRealPath, DoOpenDir, DoReadDir, DoClose, DoStat, DoFstat, DoOpen, DoRead, DoWrite, DoMkdir;
  }

  /** A step whose reply is also written out: a reply too long for a frame panics there. */
  function Respond(w: World, st: Session, m: Msg, listing: seq<Info>): Outcome {
    var o := Step(w, st, m, listing);
    if o.Replied? && Frame(o.reply).None? then Crashed else o
  }

  // ---------- runs ----------

  /** The listings the filesystem gives, one per request; only a first READDIR looks at its own. */
  type Oracle = seq<seq<Info>>

  function Head(o: Oracle): seq<Info> { if o == [] then [] else o[0] }

  function Tail(o: Oracle): Oracle { if o == [] then [] else o[1..] }

  datatype RunResult = RunResult(st: Session, replies: seq<Msg>, crashed: bool)

  /** The session over a run of requests, up to the first crash. */
  function Run(w: World, st: Session, reqs: seq<Msg>, oracle: Oracle): RunResult
    decreases |reqs|
  {
    if reqs == [] then RunResult(st, [], false)
    else match Respond(w, st, reqs[0], Head(oracle))
      case Crashed => RunResult(st, [], true)
      case Replied(st', reply) =>
        var rest := Run(w, st', reqs[1..], Tail(oracle));
        RunResult(rest.st, [reply] + rest.replies, rest.crashed)
  }

  /** `HandleRequest`: the bytes written for the bytes read, until the input ends, breaks off, or a
      request crashes the session. */
  function Serve(w: World, st: Session, input: seq<byte>, oracle: Oracle): seq<byte>
    decreases |input|
  {
    match ParseFrame(input)
    case Request(m, rest) =>
      (match Respond(w, st, m, Head(oracle))
       case Crashed => []
       case Replied(st', reply) => Sent(reply) + Serve(w, st', rest, Tail(oracle)))
    case _ => []
  }

  /** The bytes of a reply. */
  function Sent(reply: Msg): seq<byte> {
    match Frame(reply) case Some(b) => b case None => []
  }

  function SentAll(replies: seq<Msg>): seq<byte> {
    if replies == [] then [] else Sent(replies[0]) + SentAll(replies[1..])
  }
}
