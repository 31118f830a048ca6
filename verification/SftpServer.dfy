/** The SFTP server as the program runs it (`sftp/sftp.go`): tables of open files on the shared nodes
    of the virtual filesystem, proved against the state machine of `SftpSession`. */
module SftpServer {
  import opened GoBytes
  import opened Numerals
  import opened WorkingDir
  import opened VirtualFile
  import opened FlatTree
  import opened VirtualFS
  import opened SftpTypes
  import opened SftpFrames
  import opened SftpSession
  import opened SftpRuns

  /** `dirContent`. */
  class DirContent {
    const fi: seq<Info>
    var offset: nat

    constructor (fi: seq<Info>)
      ensures this.fi == fi && offset == 0
    {
      this.fi, offset := fi, 0;
    }
  }

  ghost function DirsOf(cache: map<int, DirContent>): map<int, DirState>
    reads cache.Values`offset
  {
    map h | h in cache :: DirState(cache[h].offset, cache[h].fi)
  }

  lemma DirsWithout(cache: map<int, DirContent>, h: int)
    ensures DirsOf(cache - {h}) == DirsOf(cache) - {h}
    ensures OwnSnapshots(cache) ==> OwnSnapshots(cache - {h})
    ensures (cache - {h}).Values <= cache.Values
  {
  }

  lemma DirsWith(cache: map<int, DirContent>, h: int, c: DirContent)
    requires h !in cache && c !in cache.Values
    ensures DirsOf(cache[h := c]) == DirsOf(cache)[h := DirState(c.offset, c.fi)]
    ensures OwnSnapshots(cache) ==> OwnSnapshots(cache[h := c])
    ensures cache[h := c].Values <= cache.Values + {c}
  {
  }

  lemma OnTreeWithout(files: map<int, File>, paths: map<int, Path>, nodes: map<Path, File>, h: int)
    requires OnTree(files, paths, nodes)
    ensures OnTree(files - {h}, paths - {h}, nodes)
  {
  }

  ghost function ClosedOf(nodes: map<Path, File>): set<Path>
    reads nodes.Values`closed
  {
    set p | p in nodes && nodes[p].closed
  }

  /** Every handle's file is the tree's node at the handle's path. */
  ghost predicate OnTree(files: map<int, File>, paths: map<int, Path>, nodes: map<Path, File>) {
    files.Keys == paths.Keys && forall h <- files :: paths[h] in nodes && nodes[paths[h]] == files[h]
  }

  lemma ClosedAreNodes(nodes: map<Path, File>)
    ensures forall p <- ClosedOf(nodes) :: p in nodes
  {
  }

  lemma OneDescribed(fi: Info)
    ensures AllDescribed([fi]) <==> Described(fi)
  {
    hide Described;
    assert fi in [fi];
  }

  lemma OnTreeAt(files: map<int, File>, paths: map<int, Path>, nodes: map<Path, File>, h: int)
    requires OnTree(files, paths, nodes) && h in files
    ensures h in paths && paths[h] in nodes && nodes[paths[h]] == files[h]
  {
  }

  /** No two handles share a snapshot. */
  ghost predicate OwnSnapshots(cache: map<int, DirContent>) {
    forall g, h :: g in cache && h in cache && cache[g] == cache[h] ==> g == h
  }

  class Sftp {
    const vfs: Tree
    const cwd: Str
    const limit: nat
    /** An allowance that settles every lookup in the tree. */
    ghost const depth: nat
    var fileHandleMap: map<int, File>
    var nextHandle: nat
    var dirCache: map<int, DirContent>
    var fileEOFCache: map<int, bool>
    /** Where in the tree the open files are. */
    ghost var paths: map<int, Path>

    ghost predicate Valid()
      reads this, vfs, vfs.nodes.Values, vfs.archive
    {
      && vfs.Valid() && ValidWorld(TheWorld())
      && OnTree(fileHandleMap, paths, vfs.nodes)
      && OwnSnapshots(dirCache)
    }

    ghost function TheWorld(): World
      reads vfs`nodes, vfs.archive`open
    {
      World(vfs.FlatMap(), depth, limit)
    }

    /** The session state the tables stand for. */
    ghost function Abs(): Session
      reads this, vfs`nodes, vfs.nodes.Values`closed, dirCache.Values`offset
    {
      Session(cwd, nextHandle, paths, DirsOf(dirCache), fileEOFCache, ClosedOf(vfs.nodes))
    }

    /** The reply and the new tables are those of the state machine; no reply is a panic. */
    ghost predicate Agrees(o: Outcome, reply: Option<Msg>)
      reads this, vfs`nodes, vfs.nodes.Values`closed, dirCache.Values`offset
    {
      match o
      case Crashed => reply.None?
      case Replied(st, m) => reply == Some(m) && Abs() == st
    }

    /** `NewSftp`. */
    constructor (vfs: Tree, home: Str, limit: nat, ghost depth: nat)
      requires vfs.Valid() && ValidWorld(World(vfs.FlatMap(), depth, limit))
      ensures Valid() && this.vfs == vfs && dirCache == map[]
      ensures TheWorld() == World(vfs.FlatMap(), depth, limit)
      ensures Abs() == Session(home, 0, map[], map[], map[], ClosedOf(vfs.nodes)) && Inv(TheWorld(), Abs())
    {
      hide Tree.Valid, Tree.FlatMap, ValidWorld, ClosedOf;
      this.vfs, this.cwd, this.limit, this.depth := vfs, home, limit, depth;
      fileHandleMap, nextHandle, dirCache, fileEOFCache, paths := map[], 0, map[], map[], map[];
      new;
      vfs.RootIsFlat();
      ClosedAreNodes(vfs.nodes);
    }

    method Status(id: int, c: StatusCode) returns (reply: Option<Msg>)
      ensures reply == Some(StatusMsg(id, c))
      ensures Agrees(Answer(Abs(), id, c), reply)
    {
      hide Abs, StatusText;
      var m := CreateStatusMsg(id, c);
      reply := Some(m);
    }

    method Init() returns (reply: Option<Msg>)
      ensures Agrees(Replied(Abs(), InitReply()), reply)
    {
      hide Abs, InitReply;
      var m := CreateInit();
      reply := Some(m);
    }

    /** A new handle for an opened node: the last lines of `Open` and `openFile`. */
    method NewHandle(id: int, file: File, ghost at: Path) returns (reply: Option<Msg>)
      requires Valid() && at in vfs.nodes && file == vfs.nodes[at]
      modifies this`fileHandleMap, this`nextHandle, this`paths
      ensures Valid() && TheWorld() == old(TheWorld())
      ensures Agrees(Issue(old(Abs()), id, at), reply)
    {
      hide ValidWorld, Itoa, StrBytes, DirsOf, ClosedOf, Tree.Valid, Tree.FlatMap, Numeral;
      var hnd := nextHandle;
      fileHandleMap := fileHandleMap[hnd := file];
      paths := paths[hnd := at];
      nextHandle := nextHandle + 1;
      var handle := Itoa(hnd);
      var b := StringPayload(handle);
      reply := Some(Msg(HANDLE, id, b));
    }

    /** Lookups of the state machine, answered by the tree. */
    method Lookup(path: Str, follow: bool) returns (node: File?, ghost at: Path)
      requires Valid()
      ensures var found := if follow then Followed(TheWorld(), path) else Opened(TheWorld(), path);
              if node == null then found == Missing else found == Found(at)
      ensures node != null ==>
                && at in vfs.nodes && node == vfs.nodes[at]
                && NodeAt(TheWorld(), at) == NodeOf(node, vfs.archive.open)
    {
      hide Tree.Valid, Tree.FlatMap, Walked, OnTree, OwnSnapshots;
      Settled(path);
      node := vfs.FetchNode(path, follow, depth);
      at := [];
      if node != null {
        at := (if follow then Followed(TheWorld(), path) else Opened(TheWorld(), path)).path;
        vfs.StepIsFlat(at, []);
      }
    }

    lemma Settled(path: Str)
      requires Valid()
      ensures Followed(TheWorld(), path) != TooDeep
    {
    }

    /** The REALPATH case of `HandleRequest`. */
    method RealPathRequest(id: int, payload: seq<byte>) returns (reply: Option<Msg>)
      requires Valid()
      ensures Agrees(DoRealPath(TheWorld(), Abs(), id, payload), reply)
    {
      hide Valid, TheWorld, DirsOf, ClosedOf, NamePacket, Followed, NodeAt, ByteToStr, RealPath;
      var arg := ByteToStr(payload);
      if arg.None? {
        return None;
      }
      var path := RealPath(cwd, arg.value);
      var node, at := Lookup(path, true);
      if node == null {
        reply := Status(id, NoSuchFile);
        return;
      }
      var b := CreateNamePacket(Some([path]), [node.info]);
      if b.Broken? {
        return None;
      }
      OneDescribed(node.info);
      return Some(Msg(NAME, id, b.bytes));
    }

    /** The OPENDIR case, and `Open`. */
    method OpenDirRequest(id: int, payload: seq<byte>) returns (reply: Option<Msg>)
      requires Valid()
      modifies this`fileHandleMap, this`nextHandle, this`paths
      ensures Valid() && TheWorld() == old(TheWorld())
      ensures Agrees(DoOpenDir(old(TheWorld()), old(Abs()), id, payload), reply)
    {
      hide Valid, TheWorld, DirsOf, ClosedOf, Opened, ByteToStr, RealPath, Issue;
      var arg := ByteToStr(payload);
      if arg.None? {
        return None;
      }
      if |arg.value| == 0 {
        reply := Status(id, BadMessage);
        return;
      }
      var node, at := Lookup(RealPath(cwd, arg.value), false);
      if node == null {
        reply := Status(id, NoSuchFile);
        return;
      }
      reply := NewHandle(id, node, at);
    }

    /** The OPEN case, and `openFile` on the archive. */
    method OpenRequest(id: int, payload: seq<byte>) returns (reply: Option<Msg>)
      requires Valid()
      modifies this`fileHandleMap, this`nextHandle, this`paths
      ensures Valid() && TheWorld() == old(TheWorld())
      ensures Agrees(DoOpen(old(TheWorld()), old(Abs()), id, payload), reply)
    {
      hide Valid, TheWorld, DirsOf, ClosedOf, Followed, ByteToStr, Issue, FromBE32;
      var name := ByteToStr(payload);
      if name.None? {
        return None;
      }
      var pos := |name.value| + 4;
      if |payload| < pos + 4 {
        return None;
      }
      var flags := FromBE32(payload[pos..]);
      pos := pos + 4;
      if flags / FXF_CREAT % 2 == 1 {
        reply := Status(id, Failure);
        return;
      }
      if |payload| < pos + 4 {
        return None;
      }
      var node, at := Lookup(name.value, true);
      if node == null {
        reply := Status(id, Failure);
        return;
      }
      reply := NewHandle(id, node, at);
    }

    /** The LSTAT and STAT case. */
    method StatRequest(id: int, payload: seq<byte>) returns (reply: Option<Msg>)
      requires Valid()
      ensures Agrees(DoStat(TheWorld(), Abs(), id, payload), reply)
    {
      hide Valid, TheWorld, DirsOf, ClosedOf, AttrBytes, Followed, NodeAt, ByteToStr, RealPath;
      var arg := ByteToStr(payload);
      if arg.None? {
        return None;
      }
      if |arg.value| == 0 {
        reply := Status(id, BadMessage);
        return;
      }
      var node, at := Lookup(RealPath(cwd, arg.value), true);
      if node == null {
        reply := Status(id, NoSuchFile);
        return;
      }
      var b := AttrPayload(node.info);
      if b.None? {
        return None;
      }
      return Some(Msg(ATTRS, id, b.value));
    }

    /** The open file a handle string names. */
    method FileOf(handle: Str) returns (hnd: int, file: File?)
      requires Valid()
      ensures file == null <==> OpenHandle(Abs(), handle) == None
      ensures file != null ==>
                && OpenHandle(Abs(), handle) == Some(hnd) && hnd in fileHandleMap && file == fileHandleMap[hnd]
                && paths[hnd] in vfs.nodes && vfs.nodes[paths[hnd]] == file
                && NodeAt(TheWorld(), paths[hnd]) == NodeOf(file, vfs.archive.open) && file.archive == vfs.archive
    {
      hide Tree.Valid, Tree.FlatMap, Atoi, ValidWorld, OwnSnapshots;
      match Atoi(handle) {
        case None =>
          return 0, null;
        case Some(h) =>
          if h !in fileHandleMap {
            return 0, null;
          }
          vfs.StepIsFlat(paths[h], []);
          return h, fileHandleMap[h];
      }
    }

    /** The FSTAT case, and `readStat`. */
    method FstatRequest(id: int, payload: seq<byte>) returns (reply: Option<Msg>)
      requires Valid()
      ensures Agrees(DoFstat(TheWorld(), Abs(), id, payload), reply)
    {
      hide Valid, TheWorld, DirsOf, ClosedOf, AttrBytes, NodeAt, ByteToStr, OpenHandle;
      var handle := ByteToStr(payload);
      if handle.None? {
        return None;
      }
      var hnd, file := FileOf(handle.value);
      if file == null {
        reply := Status(id, Failure);
        return;
      }
      var b := AttrPayload(file.info);
      if b.None? {
        return None;
      }
      return Some(Msg(ATTRS, id, b.value));
    }

    /** The CLOSE case, and `close`: the handle's entries go, and the node is shut. */
    method CloseRequest(id: int, payload: seq<byte>) returns (reply: Option<Msg>)
      requires Valid()
      modifies this, vfs.nodes.Values
      ensures Valid() && TheWorld() == old(TheWorld())
      ensures Agrees(DoClose(old(Abs()), id, payload), reply)
      ensures dirCache.Values <= old(dirCache.Values)
    {
      hide Valid, TheWorld, DirsOf, ClosedOf, ByteToStr, OpenHandle;
      var handle := ByteToStr(payload);
      if handle.None? {
        return None;
      }
      var hnd, file := FileOf(handle.value);
      if file == null {
        reply := Status(id, Failure);
        return;
      }
      ShutHandle(hnd, file);
      reply := Status(id, OK);
    }

    /** The second half of `close`: the node is shut, and the handle leaves every table. */
    method ShutHandle(hnd: int, file: File)
      requires Valid() && hnd in fileHandleMap && file == fileHandleMap[hnd]
      modifies this, vfs.nodes.Values
      ensures Valid() && TheWorld() == old(TheWorld())
      ensures var st := old(Abs());
              Abs() == st.(handles := st.handles - {hnd}, dirs := st.dirs - {hnd}, eof := st.eof - {hnd},
                           closed := st.closed + {st.handles[hnd]})
      ensures dirCache.Values <= old(dirCache.Values)
    {
      hide Valid, TheWorld, Abs, DirsOf, OwnSnapshots;
      ShutNode(hnd, file);
      DirsWithout(dirCache, hnd);
      Forget(hnd);
    }

    /** The node of an open handle is shut, for every handle on it. */
    method ShutNode(hnd: int, file: File)
      requires Valid() && hnd in fileHandleMap && file == fileHandleMap[hnd]
      modifies vfs.nodes.Values
      ensures Valid() && TheWorld() == old(TheWorld())
      ensures hnd in Abs().handles
      ensures Abs() == old(Abs()).(closed := old(Abs()).closed + {old(Abs()).handles[hnd]})
    {
      hide Tree.Valid, Tree.FlatMap, ValidWorld, DirsOf, OwnSnapshots;
      ghost var at := paths[hnd];
      ghost var closed := ClosedOf(vfs.nodes);
      vfs.CloseNode(file, at);
      assert ClosedOf(vfs.nodes) == closed + {at};
    }

    /** The handle leaves every table. */
    method Forget(hnd: int)
      requires Valid()
      modifies this`fileHandleMap, this`paths, this`dirCache, this`fileEOFCache
      ensures Valid() && TheWorld() == old(TheWorld())
      ensures var st := old(Abs());
              Abs() == st.(handles := st.handles - {hnd}, dirs := st.dirs - {hnd}, eof := st.eof - {hnd})
      ensures dirCache == old(dirCache) - {hnd}
    {
      hide Tree.Valid, Tree.FlatMap, ValidWorld, DirsOf, OwnSnapshots, ClosedOf, OnTree;
      OnTreeWithout(fileHandleMap, paths, vfs.nodes, hnd);
      DirsWithout(dirCache, hnd);
      fileHandleMap, paths := fileHandleMap - {hnd}, paths - {hnd};
      dirCache, fileEOFCache := dirCache - {hnd}, fileEOFCache - {hnd};
    }

    /** The READ case. */
    method ReadRequest(id: int, payload: seq<byte>) returns (reply: Option<Msg>)
      requires Valid()
      modifies this`fileEOFCache, vfs.nodes.Values
      ensures Valid() && TheWorld() == old(TheWorld())
      ensures Agrees(DoRead(old(TheWorld()), old(Abs()), id, payload), reply)
    {
      hide Valid, TheWorld, Abs, ByteToStr, FromBE32, FromBE64, ReadFile;
      var handle := ByteToStr(payload);
      if handle.None? {
        return None;
      }
      var pos := |handle.value| + 4;
      if |payload| < pos + 12 {
        return None;
      }
      var offset := Signed64(FromBE64(payload[pos..]));
      var n := FromBE32(payload[pos + 8..]);
      reply := ReadHandle(id, handle.value, offset, n);
    }

    /** `ReadFile`. */
    method ReadHandle(id: int, handle: Str, off: int, n: nat) returns (reply: Option<Msg>)
      requires Valid()
      modifies this`fileEOFCache, vfs.nodes.Values
      ensures Valid() && TheWorld() == old(TheWorld())
      ensures Agrees(ReadFile(old(TheWorld()), old(Abs()), id, handle, off, n), reply)
    {
      hide Valid, TheWorld, DirsOf, ClosedOf, PlainReadAt, AfterRead, NodeAt, Atoi, StatusText;
      match Atoi(handle) {
        case None =>
          reply := Status(id, Failure);
          return;
        case Some(h) =>
          if h in fileEOFCache && fileEOFCache[h] {
            reply := Status(id, EOF);
            return;
          }
      }
      var hnd, file := FileOf(handle);
      if file == null {
        reply := Status(id, Failure);
        return;
      }
      reply := AnswerRead(id, hnd, file, off, n);
    }

    /** The answer to a read on an open handle. */
    method AnswerRead(id: int, hnd: int, file: File, off: int, n: nat) returns (reply: Option<Msg>)
      requires Valid() && hnd in fileHandleMap && file == fileHandleMap[hnd]
      modifies this`fileEOFCache, vfs.nodes.Values
      ensures Valid() && TheWorld() == old(TheWorld())
      ensures var st := old(Abs());
              var closed := paths[hnd] in st.closed;
              var r := PlainReadAt(file.info.kind, file.content, closed, file.Opens(), off, n);
              Agrees(AfterRead(st, id, hnd, r), reply)
    {
      hide Valid, TheWorld, Abs, PlainReadAt, BE32, StatusText;
      var r := ReadOpen(hnd, file, n, off);
      match r {
        case Data(bytes, eof) =>
          return Some(Msg(DATA, id, BE32(|bytes|) + bytes));
        case OutOfRange =>
          return None;
        case _ =>
          reply := Status(id, Failure);
      }
    }

    /** The read itself, which remembers that it met the end of the file. */
    method ReadOpen(hnd: int, file: File, n: nat, off: int) returns (r: ReadResult)
      requires Valid() && hnd in fileHandleMap && file == fileHandleMap[hnd]
      modifies this`fileEOFCache, vfs.nodes.Values
      ensures Valid() && TheWorld() == old(TheWorld())
      ensures r == PlainReadAt(file.info.kind, file.content, paths[hnd] in old(Abs()).closed, file.Opens(), off, n)
      ensures var st := old(Abs());
              Abs() == if r.Data? && r.eof then st.(eof := st.eof[hnd := true]) else st
    {
      hide Tree.Valid, Tree.FlatMap, ValidWorld, DirsOf, PlainReadAt, OwnSnapshots;
      ghost var nodes := vfs.nodes;
      ghost var closed := ClosedOf(nodes);
      assert paths[hnd] in closed <==> file.closed;
      r := vfs.ReadNode(file, paths[hnd], n, off);
      assert ClosedOf(nodes) == closed;
      hide ClosedOf;
      if r.Data? && r.eof {
        fileEOFCache := fileEOFCache[hnd := true];
      }
    }

    /** The READDIR case, and `readDir`. `listing` is what the filesystem listed, if it was asked. */
    method ReadDirRequest(id: int, payload: seq<byte>) returns (reply: Option<Msg>, ghost listing: seq<Info>)
      requires Valid()
      modifies this`dirCache, dirCache.Values
      ensures Valid() && TheWorld() == old(TheWorld())
      ensures Agrees(DoReadDir(old(Abs()), id, payload, listing), reply)
      ensures TrueListing(old(TheWorld()), old(Abs()), Msg(READDIR, id, payload), listing)
      ensures fresh(dirCache.Values - old(dirCache.Values))
    {
      hide Valid, TheWorld, ClosedOf, DirsOf, ByteToStr, OpenHandle, SendPage, IsListing, StatusText;
      listing := [];
      var handle := ByteToStr(payload);
      if handle.None? {
        return None, [];
      }
      var hnd, file := FileOf(handle.value);
      if file == null {
        reply := Status(id, Failure);
        return;
      }
      reply, listing := ReadDirOf(id, hnd, file);
    }

    /** The listing of an open handle: a snapshot at the first call, then page after page. */
    method ReadDirOf(id: int, hnd: int, file: File) returns (reply: Option<Msg>, ghost listing: seq<Info>)
      requires Valid() && hnd in fileHandleMap && file == fileHandleMap[hnd]
      modifies this`dirCache, dirCache.Values
      ensures Valid() && TheWorld() == old(TheWorld())
      ensures var st := old(Abs());
              Agrees(SendPage(st, id, hnd, if hnd in st.dirs then st.dirs[hnd] else DirState(0, listing)), reply)
      ensures hnd !in old(Abs()).dirs ==> IsListing(old(TheWorld()).flat, paths[hnd], listing)
      ensures fresh(dirCache.Values - old(dirCache.Values))
    {
      hide Valid, TheWorld, Abs, SendPage, IsListing;
      CacheIsDirs();
      listing := [];
      if hnd !in dirCache {
        listing := Snapshot(hnd, file);
        SnapshotThenPage(old(Abs()), id, hnd, DirState(0, listing));
      }
      reply := NextPage(id, hnd);
    }

    lemma CacheIsDirs()
      ensures Abs().dirs.Keys == dirCache.Keys
    {
    }

    /** The first read of a directory handle: its whole listing is kept. */
    method Snapshot(hnd: int, file: File) returns (fi: seq<Info>)
      requires Valid() && hnd in fileHandleMap && file == fileHandleMap[hnd] && hnd !in dirCache
      modifies this`dirCache
      ensures Valid() && TheWorld() == old(TheWorld())
      ensures Abs() == old(Abs()).(dirs := old(Abs()).dirs[hnd := DirState(0, fi)])
      ensures IsListing(TheWorld().flat, paths[hnd], fi)
      ensures hnd in dirCache && fresh(dirCache.Values - old(dirCache.Values))
    {
      hide Tree.Valid, Tree.FlatMap, ValidWorld, IsListing, ClosedOf, DirsOf, OwnSnapshots, OnTree;
      assert paths[hnd] in vfs.nodes && file == vfs.nodes[paths[hnd]] by {
        OnTreeAt(fileHandleMap, paths, vfs.nodes, hnd);
      }
      fi := vfs.ReadDirNode(file, paths[hnd]);
      hide Valid, TheWorld, Abs;
      KeepSnapshot(hnd, fi);
    }

    method KeepSnapshot(hnd: int, fi: seq<Info>)
      requires Valid() && hnd !in dirCache
      modifies this`dirCache
      ensures Valid() && TheWorld() == old(TheWorld())
      ensures Abs() == old(Abs()).(dirs := old(Abs()).dirs[hnd := DirState(0, fi)])
      ensures hnd in dirCache && fresh(dirCache.Values - old(dirCache.Values))
    {
      hide Tree.Valid, Tree.FlatMap, ValidWorld, ClosedOf, DirsOf, OwnSnapshots, OnTree;
      var content := new DirContent(fi);
      DirsWith(dirCache, hnd, content);
      dirCache := dirCache[hnd := content];
    }

    /** The rest of `readDir`: one page of the snapshot, and the cursor moves on. */
    method NextPage(id: int, hnd: int) returns (reply: Option<Msg>)
      requires Valid() && hnd in dirCache
      modifies dirCache[hnd]
      ensures Valid() && TheWorld() == old(TheWorld())
      ensures Agrees(SendPage(old(Abs()), id, hnd, old(Abs()).dirs[hnd]), reply)
    {
      hide Tree.Valid, Tree.FlatMap, ValidWorld, ClosedOf, OnTree, OwnSnapshots, NamePacket, Names, DirsOf, StatusText;
      var dir := dirCache[hnd];
      DirAt(hnd);
      if dir.offset > |dir.fi| {
        reply := Status(id, EOF);
        return;
      }
      var bound := dir.offset + ENTRIES_PER_FETCH;
      var page := dir.fi[dir.offset..Min(bound, |dir.fi|)];
      var b := CreateNamePacket(None, page);
      if b.Broken? {
        return None;
      }
      MoveCursor(hnd, bound);
      reply := Some(Msg(NAME, id, b.bytes));
    }

    lemma DirAt(hnd: int)
      requires hnd in dirCache
      ensures var dirs := DirsOf(dirCache);
              && hnd in dirs && dirs[hnd] == DirState(dirCache[hnd].offset, dirCache[hnd].fi)
              && dirs[hnd := dirs[hnd]] == dirs
    {
    }

    /** The cursor of one handle's snapshot moves, and no other. */
    method MoveCursor(hnd: int, bound: nat)
      requires hnd in dirCache && OwnSnapshots(dirCache)
      modifies dirCache[hnd]
      ensures DirsOf(dirCache) == old(DirsOf(dirCache))[hnd := DirState(bound, dirCache[hnd].fi)]
    {
      var dir := dirCache[hnd];
      ghost var dirs := DirsOf(dirCache);
      assert forall h <- dirCache :: h != hnd ==> dirCache[h] != dir;
      dir.offset := bound;
      assert forall h <- dirCache :: h != hnd ==> DirState(dirCache[h].offset, dirCache[h].fi) == dirs[h];
    }

    /** The WRITE case, and `writeFile` on the archive. */
    method WriteRequest(id: int, payload: seq<byte>) returns (reply: Option<Msg>)
      requires Valid()
      ensures Agrees(DoWrite(TheWorld(), Abs(), id, payload), reply)
    {
      hide Valid, DirsOf, ClosedOf, ByteToStr, FromBE32, FromBE64;
      var handle := ByteToStr(payload);
      if handle.None? {
        return None;
      }
      var pos := |handle.value| + 4;
      if |payload| < pos + 12 {
        return None;
      }
      var offset := FromBE64(payload[pos..]);
      var dataLen := FromBE32(payload[pos + 8..]);
      pos := pos + 12;
      if limit > 0 && (offset + dataLen) % U64 > limit {
        reply := Status(id, Failure);
        return;
      }
      if |payload| < pos + dataLen {
        return None;
      }
      reply := Status(id, Failure);
    }

    /** The MKDIR case on the archive. */
    method MkdirRequest(id: int, payload: seq<byte>) returns (reply: Option<Msg>)
      requires Valid()
      ensures Agrees(DoMkdir(Abs(), id, payload), reply)
    {
      hide Valid, DirsOf, ClosedOf, ByteToStr;
      if ByteToStr(payload).None? {
        return None;
      }
      reply := Status(id, Failure);
    }

    /** One turn of the switch in `HandleRequest`: the reply and the new state are the state machine's
        for this request; no reply is a panic. */
    method Dispatch(m: Msg) returns (reply: Option<Msg>, ghost listing: seq<Info>)
      requires Valid()
      modifies this, vfs.nodes.Values, dirCache.Values
      ensures Valid() && TheWorld() == old(TheWorld())
      ensures Agrees(Step(old(TheWorld()), old(Abs()), m, listing), reply)
      ensures TrueListing(old(TheWorld()), old(Abs()), m, listing)
      ensures fresh(dirCache.Values - old(dirCache.Values))
    {
      hide Valid, TheWorld, Abs, Agrees, DoRealPath, DoOpenDir, DoReadDir, DoClose, DoStat, DoFstat, DoOpen, DoRead,
           DoWrite, DoMkdir, IsListing, OpenHandle, InitReply, StatusMsg;
      listing := [];
      if m.typ == INIT {
        reply := Init();
      } else if m.typ == REALPATH {
        reply := RealPathRequest(m.id, m.payload);
      } else if m.typ == OPENDIR {
        reply := OpenDirRequest(m.id, m.payload);
      } else if m.typ == READDIR {
        reply, listing := ReadDirRequest(m.id, m.payload);
      } else if m.typ == CLOSE {
        reply := CloseRequest(m.id, m.payload);
      } else if m.typ == LSTAT || m.typ == STAT {
        reply := StatRequest(m.id, m.payload);
      } else if m.typ == FSTAT {
        reply := FstatRequest(m.id, m.payload);
      } else if m.typ == OPEN {
        reply := OpenRequest(m.id, m.payload);
      } else if m.typ == READ {
        reply := ReadRequest(m.id, m.payload);
      } else if m.typ == WRITE {
        reply := WriteRequest(m.id, m.payload);
      } else if m.typ == MKDIR {
        reply := MkdirRequest(m.id, m.payload);
      } else if m.typ == RMDIR || m.typ == SETSTAT || m.typ == REMOVE || m.typ == RENAME {
        reply := Status(m.id, OK);
      } else {
        reply := Status(m.id, BadMessage);
      }
    }

    /** `HandleRequest`: reads frames and writes reply frames until the input ends or a request
        panics. What it writes is what the state machine serves, for truthful directory listings. */
    method HandleRequest(input: seq<byte>) returns (output: seq<byte>, ghost oracle: Oracle)
      requires Valid()
      modifies this, vfs.nodes.Values, dirCache.Values
      ensures Valid() && TheWorld() == old(TheWorld())
      ensures Handled(old(TheWorld()), old(Abs()), input, output, oracle)
    {
      hide Valid, TheWorld, Abs, Step, ParseFrame, Frame, TrueListing, ServedSoFar, Handled;
      ghost var w, start := TheWorld(), Abs();
      output, oracle := [], [];
      var rest := input;
      NothingServed(w, start, input);
      while true
        invariant Valid() && TheWorld() == w
        invariant fresh(dirCache.Values - old(dirCache.Values))
        invariant ServedSoFar(w, start, input, oracle, output, Abs(), rest)
        decreases |rest|
      {
        match ParseFrame(rest) {
          case Request(m, tail) =>
            ghost var st := Abs();
            var reply, listing := Dispatch(m);
            OneMoreServed(w, start, input, oracle, output, st, rest, listing);
            oracle := oracle + [listing];
            if reply.None? {
              return;
            }
            var frame := LayOutReply(reply.value);
            if frame.None? {
              return;
            }
            output := output + frame.value;
            rest := tail;
          case _ =>
            AllServed(w, start, input, oracle, output, Abs(), rest);
            return;
        }
      }
    }
  }
}
