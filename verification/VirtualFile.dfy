/** A node of the virtual filesystem (`virtualfs/file.go`): a file whose content is decompressed
    into a growing buffer on demand. */
module VirtualFile {
  import opened GoBytes
  import ExtraField

  datatype Kind = Directory | Link | Regular

  /** The metadata `os.FileInfo` gives for an entry, with the bytes of its extra field, which the root
      does not have. `longName` is the listing line, whose layout is not modelled. */
  datatype Info = Info(name: Str, longName: Str, kind: Kind, size: nat, mode: int, extra: Option<seq<byte>>)

  /** The extra field of the entry parses; otherwise asking for its owner or times panics. */
  predicate Described(fi: Info) {
    ExtraField.GetExtraInfo(fi.extra).Some?
  }

  /** Owner and times of an entry that is described; nothing else asks for them. */
  function ExtraOf(fi: Info): ExtraField.Extra {
    match ExtraField.GetExtraInfo(fi.extra) case Some(x) => x case None => ExtraField.Extra(0, 0, 0, 0)
  }

  /** `OutOfRange` is Go's run-time panic on a slice past the end; `CannotOpen` is the error of opening
      the entry in the archive. */
  datatype ReadResult = Data(bytes: seq<byte>, eof: bool) | IsDirectory | FileClosed | CannotOpen | OutOfRange

  datatype SeekResult = At(pos: int) | SeekDirectory | SeekClosed | BadWhence | SeekOutOfRange

  function Min(a: int, b: int): int { if a < b then a else b }

  function Max(a: int, b: int): int { if a < b then b else a }

  // ---------- plain random access ----------

  /** What reading n bytes at an offset gives on the whole content: no buffer, no reader. Of an entry
      that does not open there is nothing, so any offset but the start is past the end. */
  function PlainReadAt(kind: Kind, content: seq<byte>, closed: bool, opens: bool, off: int, n: nat): ReadResult {
    if kind == Directory then IsDirectory
    else if closed then FileClosed
    else if !opens then if off == 0 then CannotOpen else OutOfRange
    else if off < 0 || off > |content| then OutOfRange
    else Data(content[off..Min(off + n, |content|)], off + n > |content|)
  }

  const SEEK_SET := 0
  const SEEK_CUR := 1
  const SEEK_END := 2

  function PlainSeek(kind: Kind, size: nat, closed: bool, at: int, offset: int, whence: int): SeekResult {
    if kind == Directory then SeekDirectory
    else if closed then SeekClosed
    else if whence != SEEK_SET && whence != SEEK_CUR && whence != SEEK_END then BadWhence
    else
      var target := offset + if whence == SEEK_CUR then at else if whence == SEEK_END then size else 0;
      if target < 0 || target > size then SeekOutOfRange else At(target)
  }

  // ---------- the node ----------

  /** The archive that the entries are read from. */
  class Archive {
    var open: bool

    constructor ()
      ensures open
    {
      open := true;
    }

    method Close()
      modifies this
      ensures !open
    {
      open := false;
    }
  }

  datatype Fill = Filled | MetEnd | NotOpened

  class File {
    const info: Info
    /** The decompressed bytes of `zipFile`. */
    const content: seq<byte>
    /** The archive of `zipFile`, and whether the entry opens while it is open. */
    const archive: Archive
    const supported: bool
    var children: map<Str, File>
    /** The open decompressor: the bytes it has yet to deliver. */
    var reader: Option<seq<byte>>
    var closed: bool
    var offset: int
    var buf: seq<byte>

    constructor (info: Info, content: seq<byte>, archive: Archive, supported: bool)
      requires info.size == |content|
      ensures this.info == info && this.content == content && this.archive == archive && this.supported == supported
      ensures Valid() && !closed && offset == 0 && children == map[] && reader == None
    {
      this.info, this.content, this.archive, this.supported := info, content, archive, supported;
      children, reader, closed, offset, buf := map[], None, false, 0, [];
    }

    /** `zipFile.Open` succeeds. */
    predicate Opens()
      reads archive`open
    {
      supported && archive.open
    }

    /** The buffer is a prefix of the content and the reader stands exactly at its end; an entry that
        does not open has neither. */
    ghost predicate Valid()
      reads this`reader, this`buf, archive`open
    {
      && info.size == |content|
      && (reader.None? ==> buf == [])
      && (reader.Some? ==> buf + reader.value == content && Opens())
    }

    /** `fillBuffer`: makes the first `upTo` bytes available, and never shortens the buffer. */
    method FillBuffer(upTo: int) returns (r: Fill)
      requires Valid()
      modifies this`buf, this`reader
      ensures Valid() && (reader.Some? <==> Opens())
      ensures r == if !Opens() then NotOpened else if upTo > |content| then MetEnd else Filled
      ensures |buf| == if Opens() then Max(old(|buf|), Min(upTo, |content|)) else 0
    {
      if reader.None? {
        if !Opens() {
          return NotOpened;
        }
        reader := Some(content);
      }
      var wanted := upTo;
      r := Filled;
      if wanted > info.size {
        wanted := info.size;
        r := MetEnd;
      }
      if |buf| >= wanted {
        return;
      }
      var n := wanted - |buf|;
      assert |reader.value| == |content| - |buf|;
      var chunk := reader.value[..n];
      assert buf + reader.value == (buf + chunk) + reader.value[n..];
      reader := Some(reader.value[n..]);
      buf := buf + chunk;
    }

    method Close()
      modifies this`closed, this`buf, this`reader
      ensures closed && buf == [] && reader == None
    {
      closed, buf, reader := true, [], None;
    }

    /** `ReadAt` is plain random access, whatever the buffer held before. */
    method ReadAt(n: nat, off: int) returns (r: ReadResult)
      requires Valid()
      modifies this`buf, this`reader
      ensures Valid()
      ensures r == PlainReadAt(info.kind, content, closed, Opens(), off, n)
    {
      if info.kind == Directory {
        return IsDirectory;
      }
      if closed {
        return FileClosed;
      }
      var filled := FillBuffer(off + n);
      if off < 0 || off > |buf| {
        return OutOfRange;
      }
      if filled == NotOpened {
        return CannotOpen;
      }
      BufferIsPrefix();
      return Data(buf[off..Min(off + n, |buf|)], filled == MetEnd);
    }

    /** `Read`: the offset moves by the length asked for, also at the end of the file or when the entry
        does not open. */
    method Read(n: nat) returns (r: ReadResult)
      requires Valid()
      modifies this`buf, this`reader, this`offset
      ensures Valid()
      ensures r == PlainReadAt(info.kind, content, closed, Opens(), old(offset), n)
      ensures offset == if r.Data? || r.CannotOpen? then old(offset) + n else old(offset)
    {
      if info.kind == Directory {
        return IsDirectory;
      }
      if closed {
        return FileClosed;
      }
      var filled := FillBuffer(offset + n);
      if offset < 0 || offset > |buf| {
        return OutOfRange;
      }
      if filled == NotOpened {
        offset := offset + n;
        return CannotOpen;
      }
      BufferIsPrefix();
      r := Data(buf[offset..Min(offset + n, |buf|)], filled == MetEnd);
      offset := offset + n;
    }

    method Seek(off: int, whence: int) returns (r: SeekResult)
      requires Valid()
      modifies this`offset
      ensures r == PlainSeek(info.kind, |content|, closed, old(offset), off, whence)
      ensures offset == if r.At? then r.pos else old(offset)
    {
      if info.kind == Directory {
        return SeekDirectory;
      }
      if closed {
        return SeekClosed;
      }
      var target := off;
      if whence == SEEK_CUR {
        target := target + offset;
      } else if whence == SEEK_END {
        target := target + info.size;
      } else if whence != SEEK_SET {
        return BadWhence;
      }
      if target < 0 || target > info.size {
        return SeekOutOfRange;
      }
      offset := target;
      return At(target);
    }

    lemma BufferIsPrefix()
      requires Valid() && reader.Some?
      ensures |buf| <= |content|
      ensures forall i, j :: 0 <= i <= j <= |buf| ==> buf[i..j] == content[i..j]
    {
      forall i, j | 0 <= i <= j <= |buf|
        ensures buf[i..j] == content[i..j]
      {
        assert content[..|buf|] == buf;
      }
    }
  }

  // ---------- runs ----------

  datatype Op = OpRead(n: nat) | OpReadAt(n: nat, off: int) | OpSeek(off: int, whence: int)

  /** The offset after one operation on a file whose entry opens, and the bytes it gave, if it did not
      panic. */
  datatype Effect = Effect(offset: int, bytes: seq<byte>, eof: bool) | Panic

  function Apply(content: seq<byte>, offset: int, op: Op): Effect {
    match op
    case OpRead(n) =>
      (match PlainReadAt(Regular, content, false, true, offset, n)
       case Data(b, eof) => Effect(offset + n, b, eof)
       case _ => Panic)
    case OpReadAt(n, off) =>
      (match PlainReadAt(Regular, content, false, true, off, n)
       case Data(b, eof) => Effect(offset, b, eof)
       case _ => Panic)
    case OpSeek(off, whence) =>
      (match PlainSeek(Regular, |content|, false, offset, off, whence)
       case At(pos) => Effect(pos, [], false)
       case _ => Effect(offset, [], false))
  }

  function ApplyAll(content: seq<byte>, offset: int, ops: seq<Op>): Effect
    decreases |ops|
  {
    if ops == [] then Effect(offset, [], false)
    else match Apply(content, offset, ops[0])
      case Panic => Panic
      case Effect(o, b, _) =>
        match ApplyAll(content, o, ops[1..])
        case Panic => Panic
        case Effect(o', rest, eof') => Effect(o', b + rest, eof')
  }

  predicate InRange(content: seq<byte>, offset: int) {
    0 <= offset <= |content|
  }

  /** From an offset in range, an operation leaves it in range exactly when it is not a `Read` that
      reported EOF; after such a `Read`, another one panics and a `Seek` to the start recovers. */
  lemma OffsetLeavesRangeExactlyAtEof(content: seq<byte>, offset: int, op: Op, n: nat)
    requires InRange(content, offset) && Apply(content, offset, op).Effect?
    ensures var e := Apply(content, offset, op);
            && (InRange(content, e.offset) <==> !(op.OpRead? && e.eof))
            && (Apply(content, e.offset, OpRead(n)).Panic? <==> op.OpRead? && e.eof)
            && Apply(content, e.offset, OpSeek(0, SEEK_SET)) == Effect(0, [], false)
  {
  }

  function Total(ns: seq<nat>): nat {
    if ns == [] then 0 else ns[0] + Total(ns[1..])
  }

  function Reads(ns: seq<nat>): seq<Op> {
    if ns == [] then [] else [OpRead(ns[0])] + Reads(ns[1..])
  }

  /** Successive `Read`s of any sizes, all but the last within the file, give the content from the
      starting offset on, cut at the end of the file. */
  lemma {:induction false} ReadsConcatenate(content: seq<byte>, offset: int, ns: seq<nat>)
    requires InRange(content, offset) && ns != []
    requires offset + Total(ns[..|ns| - 1]) <= |content|
    ensures ApplyAll(content, offset, Reads(ns)).Effect?
    ensures var e := ApplyAll(content, offset, Reads(ns));
            && e.offset == offset + Total(ns)
            && e.bytes == content[offset..Min(offset + Total(ns), |content|)]
    decreases |ns|
  {
    hide Apply, ApplyAll, Total, Reads;
    var n, rest := ns[0], ns[1..];
    TotalOf(ns);
    ReadWhole(content, offset, n);
    ReadsUnfold(content, offset, ns);
    if rest == [] {
      ReadToEnd(content, offset, n);
    } else {
      assert ns[..|ns| - 1][1..] == rest[..|rest| - 1];
      TotalOf(ns[..|ns| - 1]);
      ReadsConcatenate(content, offset + n, rest);
      ReadWithin(content, offset, n, Min(offset + n + Total(rest), |content|));
    }
  }

  lemma TotalOf(ns: seq<nat>)
    requires ns != []
    ensures Total(ns) == ns[0] + Total(ns[1..]) && Total([]) == 0
  {
  }

  /** The first of several reads, then the others. */
  lemma ReadsUnfold(content: seq<byte>, offset: int, ns: seq<nat>)
    requires ns != [] && Apply(content, offset, OpRead(ns[0])).Effect?
    ensures var e := Apply(content, offset, OpRead(ns[0]));
            var more := ApplyAll(content, e.offset, Reads(ns[1..]));
            && ApplyAll(content, e.offset, Reads([])) == Effect(e.offset, [], false)
            && ApplyAll(content, offset, Reads(ns)) ==
               if more.Panic? then Panic else Effect(more.offset, e.bytes + more.bytes, more.eof)
  {
    hide Apply;
    assert Reads(ns)[1..] == Reads(ns[1..]);
  }

  lemma ReadWhole(content: seq<byte>, offset: int, n: nat)
    requires InRange(content, offset)
    ensures var e := Apply(content, offset, OpRead(n));
            e.Effect? && e.offset == offset + n
  {
  }

  lemma ReadToEnd(content: seq<byte>, offset: int, n: nat)
    requires InRange(content, offset)
    ensures var e := Apply(content, offset, OpRead(n));
            e.Effect? && e.offset == offset + n && e.bytes + [] == content[offset..Min(offset + n, |content|)]
  {
  }

  lemma ReadWithin(content: seq<byte>, offset: int, n: nat, end: int)
    requires 0 <= offset && offset + n <= end <= |content|
    ensures var e := Apply(content, offset, OpRead(n));
            e.Effect? && e.offset == offset + n && e.bytes + content[offset + n..end] == content[offset..end]
  {
  }

  /** Where a `Seek` lands: counted from the start, from where the file stands, or from its end; outside
      the file it is refused. */
  lemma SeekLands(kind: Kind, size: nat, at: int, off: int)
    requires kind != Directory
    ensures PlainSeek(kind, size, false, at, off, 0) == if 0 <= off <= size then At(off) else SeekOutOfRange
    ensures PlainSeek(kind, size, false, at, off, 1) == if 0 <= at + off <= size then At(at + off) else SeekOutOfRange
    ensures PlainSeek(kind, size, false, at, off, 2)
         == if 0 <= size + off && off <= 0 then At(size + off) else SeekOutOfRange
    ensures forall whence: int :: whence < 0 || whence > 2 ==>
              PlainSeek(kind, size, false, at, off, whence) == BadWhence
  {
  }

  /** A relative seek and a read give the bytes from there; a seek back from the end and a read as long
      give the last bytes, without reporting the end. */
  lemma SeekThenRead(content: seq<byte>, at: int, off: int, n: nat, last: int)
    requires InRange(content, at) && InRange(content, at + off) && 0 <= last <= |content|
    ensures ApplyAll(content, at, [OpSeek(off, 1), OpRead(n)])
         == Effect(at + off + n, content[at + off..Min(at + off + n, |content|)], false)
    ensures ApplyAll(content, at, [OpSeek(-last, 2), OpRead(last)])
         == Effect(|content|, content[|content| - last..], false)
    ensures !Apply(content, |content| - last, OpRead(last)).eof
  {
    SeekReads(content, at, off, 1, n, at + off);
    SeekReads(content, at, -last, 2, last, |content| - last);
  }

  lemma SeekReads(content: seq<byte>, at: int, off: int, whence: int, n: nat, to: int)
    requires Apply(content, at, OpSeek(off, whence)) == Effect(to, [], false) && InRange(content, to)
    ensures ApplyAll(content, at, [OpSeek(off, whence), OpRead(n)])
         == Effect(to + n, content[to..Min(to + n, |content|)], false)
  {
    var ops := [OpSeek(off, whence), OpRead(n)];
    assert ops[1..] == [OpRead(n)] && ops[1..][1..] == [];
    assert ApplyAll(content, to + n, []) == Effect(to + n, [], false);
    var chunk := content[to..Min(to + n, |content|)];
    assert chunk + [] == chunk && [] + chunk == chunk;
  }
}
