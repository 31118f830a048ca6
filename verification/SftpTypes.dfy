/** The contents of SFTP version 3 messages on the wire (`sftp/types.go`). */
module SftpTypes {
  import opened GoBytes
  import ExtraField
  import opened VirtualFile

  const INIT: byte := 1
  const VERSION: byte := 2
  const OPEN: byte := 3
  const CLOSE: byte := 4
  const READ: byte := 5
  const WRITE: byte := 6
  const LSTAT: byte := 7
  const FSTAT: byte := 8
  const SETSTAT: byte := 9
  const OPENDIR: byte := 11
  const READDIR: byte := 12
  const REMOVE: byte := 13
  const MKDIR: byte := 14
  const RMDIR: byte := 15
  const REALPATH: byte := 16
  const STAT: byte := 17
  const RENAME: byte := 18
  const STATUS: byte := 101
  const HANDLE: byte := 102
  const DATA: byte := 103
  const NAME: byte := 104
  const ATTRS: byte := 105

  datatype StatusCode = OK | EOF | NoSuchFile | Failure | BadMessage

  /** A request or reply; `id` 0 stands for no id. */
  datatype Msg = Msg(typ: byte, id: int, payload: seq<byte>)

  // ---------- strings ----------

  function StrBytes(s: Str): (b: seq<byte>)
    ensures |b| == 4 + |s|
  {
    BE32(|s|) + s
  }

  /** `byteToStr`; None when an index leaves the payload. The end is computed in 32 bits. */
  function ByteToStr(b: seq<byte>): (s: Option<Str>)
    ensures s.Some? ==> 4 + |s.value| <= |b|
  {
    if |b| < 4 then None
    else
      var end := (4 + FromBE32(b)) % U32;
      if 4 <= end <= |b| then Some(b[4..end]) else None
  }

  lemma StringReadsBack(s: Str, rest: seq<byte>)
    requires |s| + 4 < U32
    ensures ByteToStr(StrBytes(s) + rest) == Some(s)
  {
    hide BE32, FromBE32;
    var b := StrBytes(s) + rest;
    HeadWord(|s|, s + rest);
    assert b == BE32(|s|) + (s + rest);
    assert b[4..4 + |s|] == s;
  }

  lemma HeadWord(n: int, rest: seq<byte>)
    ensures FromBE32(BE32(n) + rest) == Low32(n)
    ensures (BE32(n) + rest)[4..] == rest
  {
    hide BE32;
    BE32RoundTrip(n);
    var b := BE32(n) + rest;
    assert b[0] == BE32(n)[0] && b[1] == BE32(n)[1] && b[2] == BE32(n)[2] && b[3] == BE32(n)[3];
  }

  /** A string is read exactly when its bytes are there and its end is below 2^32; otherwise reading it
      panics. */
  lemma StringReadsExactly(n: nat, s: Str)
    requires n < U32
    ensures ByteToStr(BE32(n) + s) == if n <= |s| && n + 4 < U32 then Some(s[..n]) else None
  {
    hide BE32, FromBE32;
    HeadWord(n, s);
    LowWord(n);
    var b := BE32(n) + s;
    if n + 4 < U32 {
      if n <= |s| {
        assert b[4..4 + n] == s[..n];
      }
    } else {
      assert (4 + n) % U32 == n + 4 - U32;
    }
  }

  lemma LowWord(n: nat)
    requires n < U32
    ensures Low32(n) == n
  {
  }

  /** `strToByte`. */
  method StrToByte(b: array<byte>, at: nat, s: Str)
    requires at + 4 + |s| <= b.Length
    modifies b
    ensures b[..at + 4 + |s|] == old(b[..at]) + StrBytes(s)
  {
    hide BE32;
    CopyAt(b, at, BE32(|s|));
    CopyAt(b, at + 4, s);
  }

  /** A payload that is one string: `make` and `strToByte`. */
  method StringPayload(s: Str) returns (b: seq<byte>)
    ensures b == StrBytes(s)
  {
    hide StrBytes;
    var buf := new byte[4 + |s|](_ => 0);
    StrToByte(buf, 0, s);
    b := buf[..];
    assert b == buf[..0 + 4 + |s|];
  }

  // ---------- attributes ----------

  /** Size, uid/gid, permissions and times are present. */
  const ATTR_FLAGS := 15

  function WireSize(fi: Info): nat {
    if fi.kind == Directory then 4096 else fi.size
  }

  function AttrBytes(fi: Info): (b: seq<byte>)
    ensures |b| == 32
  {
    var x := ExtraOf(fi);
    BE32(ATTR_FLAGS) + BE64(WireSize(fi)) + BE32(x.uid) + BE32(x.gid) + BE32(fi.mode) + BE32(x.atime) + BE32(x.mtime)
  }

  predicate AllDescribed(infos: seq<Info>) { forall fi <- infos :: Described(fi) }

  /** `fileAttrToByte`; not ok is the panic of parsing the entry's extra field. */
  method FileAttrToByte(b: array<byte>, at: nat, fi: Info) returns (ok: bool)
    requires at + 32 <= b.Length
    modifies b
    ensures ok <==> Described(fi)
    ensures ok ==> b[..at + 32] == old(b[..at]) + AttrBytes(fi)
  {
    hide BE32, BE64, AttrBytes, WireSize;
    ghost var before := b[..at];
    var extra := ExtraField.ReadExtraInfo(fi.extra);
    if extra.None? {
      return false;
    }
    var x := extra.value;
    CopyAt(b, at, BE32(ATTR_FLAGS));
    if fi.kind == Directory {
      CopyAt(b, at + 4, BE64(4096));
    } else {
      CopyAt(b, at + 4, BE64(fi.size));
    }
    SizeSent(fi);
    CopyAt(b, at + 12, BE32(x.uid));
    CopyAt(b, at + 16, BE32(x.gid));
    CopyAt(b, at + 20, BE32(fi.mode));
    CopyAt(b, at + 24, BE32(x.atime));
    CopyAt(b, at + 28, BE32(x.mtime));
    AttrsAfter(before, fi);
    return true;
  }

  lemma SizeSent(fi: Info)
    ensures WireSize(fi) == if fi.kind == Directory then 4096 else fi.size
  {
  }

  lemma AttrsAfter(before: seq<byte>, fi: Info)
    ensures var x := ExtraOf(fi);
            before + BE32(ATTR_FLAGS) + BE64(WireSize(fi)) + BE32(x.uid) + BE32(x.gid) + BE32(fi.mode)
              + BE32(x.atime) + BE32(x.mtime) == before + AttrBytes(fi)
  {
    hide BE32, BE64, WireSize, ExtraOf;
  }

  /** A payload that is one set of attributes; none is the panic. */
  method AttrPayload(fi: Info) returns (b: Option<seq<byte>>)
    ensures b == if Described(fi) then Some(AttrBytes(fi)) else None
  {
    hide AttrBytes, Described;
    var buf := new byte[32](_ => 0);
    ghost var before := buf[..0];
    assert before == [];
    var ok := FileAttrToByte(buf, 0, fi);
    if !ok {
      return None;
    }
    assert buf[..] == buf[..0 + 32] == before + AttrBytes(fi);
    return Some(buf[..]);
  }

  // ---------- NAME packets ----------

  function NameEntry(name: Str, fi: Info): (b: seq<byte>)
    ensures |b| == 8 + |name| + |fi.longName| + 32
  {
    StrBytes(name) + StrBytes(fi.longName) + AttrBytes(fi)
  }

  function NameEntries(names: seq<Str>, infos: seq<Info>): seq<byte>
    requires |names| == |infos|
  {
    if names == [] then []
    else NameEntries(names[..|names| - 1], infos[..|names| - 1]) + NameEntry(names[|names| - 1], infos[|names| - 1])
  }

  function NamePacket(names: seq<Str>, infos: seq<Info>): seq<byte>
    requires |names| == |infos|
  {
    BE32(|names|) + NameEntries(names, infos)
  }

  /** The length of a NAME packet: its entries' names and long names, and what is of fixed size. */
  function PacketSize(names: seq<Str>, infos: seq<Info>): nat
    requires |names| == |infos|
  {
    if names == [] then 4
    else
      var n := |names| - 1;
      PacketSize(names[..n], infos[..n]) + 40 + |names[n]| + |infos[n].longName|
  }

  lemma {:induction false} PacketHasItsSize(names: seq<Str>, infos: seq<Info>)
    requires |names| == |infos|
    ensures |NamePacket(names, infos)| == PacketSize(names, infos)
  {
    hide BE32, StrBytes, AttrBytes;
    if names != [] {
      var n := |names| - 1;
      PacketHasItsSize(names[..n], infos[..n]);
    }
  }

  function Names(infos: seq<Info>): (ns: seq<Str>)
    ensures |ns| == |infos|
  {
    seq(|infos|, i requires 0 <= i < |infos| => infos[i].name)
  }

  /** `Broken` is the panic of parsing an entry's extra field. */
  datatype Packed = Packed(bytes: seq<byte>) | Mismatch | Broken

  /** `createNamePacket`; nil names stand for each entry's own name. */
  method CreateNamePacket(given: Option<seq<Str>>, infos: seq<Info>) returns (b: Packed)
    ensures var names := if given.Some? then given.value else Names(infos);
            b == if |names| != |infos| then Mismatch
                 else if AllDescribed(infos) then Packed(NamePacket(names, infos)) else Broken
  {
    hide BE32, NameEntry, NameEntries, Described;
    var names := if given.Some? then given.value else Names(infos);
    if |names| != |infos| {
      return Mismatch;
    }
    var out := BE32(|names|);
    var i := 0;
    NoEntries(names[..0], infos[..0]);
    while i < |names|
      invariant 0 <= i <= |names| && AllDescribed(infos[..i])
      invariant out == BE32(|names|) + NameEntries(names[..i], infos[..i])
    {
      var entry := CreateNameEntry(names[i], infos[i]);
      if entry.None? {
        assert infos[i] in infos;
        return Broken;
      }
      EntriesSnoc(names[..i + 1], infos[..i + 1]);
      assert names[..i + 1][..i] == names[..i] && infos[..i + 1][..i] == infos[..i];
      assert infos[..i + 1] == infos[..i] + [infos[i]];
      out := out + entry.value;
      i := i + 1;
    }
    assert names[..i] == names && infos[..i] == infos;
    return Packed(out);
  }

  lemma NoEntries(names: seq<Str>, infos: seq<Info>)
    requires |names| == |infos| == 0
    ensures NameEntries(names, infos) == []
  {
  }

  /** One turn of its loop: the short name, the long name and the attributes in one buffer. */
  method CreateNameEntry(name: Str, fi: Info) returns (entry: Option<seq<byte>>)
    ensures entry == if Described(fi) then Some(NameEntry(name, fi)) else None
  {
    hide StrBytes, AttrBytes;
    var b := new byte[8 + |name| + |fi.longName| + 32](_ => 0);
    StrToByte(b, 0, name);
    StrToByte(b, 4 + |name|, fi.longName);
    var ok := FileAttrToByte(b, 8 + |name| + |fi.longName|, fi);
    if !ok {
      return None;
    }
    var bytes := b[..];
    assert bytes == b[..8 + |name| + |fi.longName| + 32];
    assert bytes == NameEntry(name, fi);
    return Some(bytes);
  }

  /** An entry as a client reads it. */
  datatype Listed = Listed(name: Str, longName: Str, flags: int, size: int, uid: int, gid: int,
                           mode: int, atime: int, mtime: int)

  /** What a client should read for an entry: integers reduced to their fields. */
  function Shown(name: Str, fi: Info): Listed {
    var x := ExtraOf(fi);
    Listed(name, fi.longName, ATTR_FLAGS, WireSize(fi), Low32(x.uid), Low32(x.gid), Low32(fi.mode),
           Low32(x.atime), Low32(x.mtime))
  }

  function ShownAll(names: seq<Str>, infos: seq<Info>): (r: seq<Listed>)
    requires |names| == |infos|
    ensures |r| == |names|
  {
    seq(|names|, i requires 0 <= i < |names| => Shown(names[i], infos[i]))
  }

  /** A string off the front, with what follows it. */
  function TakeString(b: seq<byte>): (r: Option<(Str, seq<byte>)>)
    ensures r.Some? ==> |r.value.1| < |b|
  {
    match ByteToStr(b)
    case None => None
    case Some(s) => Some((s, b[4 + |s|..]))
  }

  /** One entry off the front. */
  function TakeEntry(b: seq<byte>): (r: Option<(Listed, seq<byte>)>)
  {
    match TakeString(b)
    case None => None
    case Some((name, b1)) =>
      match TakeString(b1)
      case None => None
      case Some((long, a)) =>
        if |a| < 32 then None
        else Some((Listed(name, long, FromBE32(a), FromBE64(a[4..]), FromBE32(a[12..]), FromBE32(a[16..]),
                          FromBE32(a[20..]), FromBE32(a[24..]), FromBE32(a[28..])), a[32..]))
  }

  /** `count` entries that use up the bytes exactly. */
  function TakeEntries(b: seq<byte>, count: nat): Option<seq<Listed>>
  {
    if count == 0 then if b == [] then Some([]) else None
    else match TakeEntry(b)
      case None => None
      case Some((e, rest)) =>
        match TakeEntries(rest, count - 1)
        case None => None
        case Some(es) => Some([e] + es)
  }

  function DecodeNames(b: seq<byte>): Option<seq<Listed>> {
    if |b| < 4 then None else TakeEntries(b[4..], FromBE32(b))
  }

  predicate FitsWire(name: Str, fi: Info) {
    |name| + 4 < U32 && |fi.longName| + 4 < U32 && WireSize(fi) < U64
  }

  lemma TakesString(s: Str, rest: seq<byte>)
    requires |s| + 4 < U32
    ensures TakeString(StrBytes(s) + rest) == Some((s, rest))
  {
    hide StrBytes;
    StringReadsBack(s, rest);
  }

  lemma AttrsReadBack(fi: Info, rest: seq<byte>)
    requires WireSize(fi) < U64
    ensures var a, x := AttrBytes(fi) + rest, ExtraOf(fi);
            && FromBE32(a) == ATTR_FLAGS && FromBE64(a[4..]) == WireSize(fi)
            && FromBE32(a[12..]) == Low32(x.uid) && FromBE32(a[16..]) == Low32(x.gid)
            && FromBE32(a[20..]) == Low32(fi.mode) && FromBE32(a[24..]) == Low32(x.atime)
            && FromBE32(a[28..]) == Low32(x.mtime) && a[32..] == rest
  {
    hide BE32, FromBE32, BE64, FromBE64, ExtraOf;
    var x := ExtraOf(fi);
    var t5 := BE32(x.mtime) + rest;
    var t4 := BE32(x.atime) + t5;
    var t3 := BE32(fi.mode) + t4;
    var t2 := BE32(x.gid) + t3;
    var t1 := BE32(x.uid) + t2;
    var t0 := BE64(WireSize(fi)) + t1;
    var a := AttrBytes(fi) + rest;
    assert a == BE32(ATTR_FLAGS) + t0;
    hide AttrBytes;
    HeadWord(ATTR_FLAGS, t0);
    HeadLong(WireSize(fi), t1);
    assert a[12..] == t0[8..] == t1 && a[16..] == t1[4..] && a[20..] == t2[4..] && a[24..] == t3[4..]
        && a[28..] == t4[4..] && a[32..] == t5[4..];
    HeadWord(x.uid, t2);
    HeadWord(x.gid, t3);
    HeadWord(fi.mode, t4);
    HeadWord(x.atime, t5);
    HeadWord(x.mtime, rest);
  }

  lemma HeadLong(n: int, rest: seq<byte>)
    requires 0 <= n < U64
    ensures FromBE64(BE64(n) + rest) == n
  {
    hide FromBE32;
    BE64RoundTrip(n);
    var b := BE64(n) + rest;
    assert b[..4] == BE64(n)[..4] && b[4..8] == BE64(n)[4..8];
  }

  lemma TakesEntry(name: Str, fi: Info, rest: seq<byte>)
    requires FitsWire(name, fi)
    ensures TakeEntry(NameEntry(name, fi) + rest) == Some((Shown(name, fi), rest))
  {
    hide StrBytes, AttrBytes, TakeString, FromBE32, FromBE64;
    var a := AttrBytes(fi) + rest;
    var b1 := StrBytes(fi.longName) + a;
    assert NameEntry(name, fi) + rest == StrBytes(name) + b1;
    TakesString(name, b1);
    TakesString(fi.longName, a);
    AttrsReadBack(fi, rest);
  }

  lemma {:induction false} EntriesFromFront(names: seq<Str>, infos: seq<Info>)
    requires |names| == |infos| && names != []
    ensures NameEntries(names, infos) == NameEntry(names[0], infos[0]) + NameEntries(names[1..], infos[1..])
  {
    hide NameEntry;
    var n := |names| - 1;
    EntriesSnoc(names, infos);
    if n > 0 {
      EntriesFromFront(names[..n], infos[..n]);
      EntriesSnoc(names[1..], infos[1..]);
      assert names[..n][1..] == names[1..][..n - 1] && infos[..n][1..] == infos[1..][..n - 1];
      hide NameEntries;
      Reassociated(NameEntry(names[0], infos[0]), NameEntries(names[..n][1..], infos[..n][1..]),
                   NameEntry(names[n], infos[n]));
    } else {
      assert names[..n] == [] && names[1..] == [];
    }
  }

  lemma EntriesSnoc(names: seq<Str>, infos: seq<Info>)
    requires |names| == |infos| && names != []
    ensures var n := |names| - 1;
            NameEntries(names, infos) == NameEntries(names[..n], infos[..n]) + NameEntry(names[n], infos[n])
  {
    hide NameEntry;
  }

  lemma Reassociated(a: seq<byte>, b: seq<byte>, c: seq<byte>)
    ensures (a + b) + c == a + (b + c)
  {
  }

  lemma ShownFromFront(names: seq<Str>, infos: seq<Info>)
    requires |names| == |infos| && names != []
    ensures ShownAll(names, infos) == [Shown(names[0], infos[0])] + ShownAll(names[1..], infos[1..])
  {
    hide Shown;
  }

  lemma {:induction false} TakesEntries(names: seq<Str>, infos: seq<Info>)
    requires |names| == |infos|
    requires forall i :: 0 <= i < |names| ==> FitsWire(names[i], infos[i])
    ensures TakeEntries(NameEntries(names, infos), |names|) == Some(ShownAll(names, infos))
  {
    if names != [] {
      hide NameEntry, NameEntries, TakeEntry, Shown, FitsWire;
      EntriesFromFront(names, infos);
      assert FitsWire(names[0], infos[0]);
      TakesEntry(names[0], infos[0], NameEntries(names[1..], infos[1..]));
      TakesEntries(names[1..], infos[1..]);
      ShownFromFront(names, infos);
      hide ShownAll;
    }
  }

  /** Decoding a NAME packet recovers every entry in order and uses up the whole packet. */
  lemma NamePacketReadsBack(names: seq<Str>, infos: seq<Info>)
    requires |names| == |infos| < U32
    requires forall i :: 0 <= i < |names| ==> FitsWire(names[i], infos[i])
    ensures DecodeNames(NamePacket(names, infos)) == Some(ShownAll(names, infos))
  {
    hide BE32, NameEntries, TakeEntries, FitsWire, FromBE32;
    HeadWord(|names|, NameEntries(names, infos));
    TakesEntries(names, infos);
  }

  // ---------- STATUS and VERSION ----------

  function CodeNumber(c: StatusCode): int {
    match c case OK => 0 case EOF => 1 case NoSuchFile => 2 case Failure => 4 case BadMessage => 5
  }

  function StatusText(c: StatusCode): Str {
    match c
    case OK => Ascii("Success")
    case EOF => Ascii("End of file")
    case NoSuchFile => Ascii("No such file")
    case Failure => Ascii("Failure")
    case BadMessage => Ascii("Bad message")
  }

  function StatusMsg(id: int, c: StatusCode): Msg {
    Msg(STATUS, id, BE32(CodeNumber(c)) + StrBytes(StatusText(c)))
  }

  /** `createStatusMsg`. */
  method CreateStatusMsg(id: int, c: StatusCode) returns (m: Msg)
    ensures m == StatusMsg(id, c)
  {
    hide BE32, StrBytes, StatusText;
    var text := StatusText(c);
    var buf := new byte[|text| + 8](_ => 0);
    CopyAt(buf, 0, BE32(CodeNumber(c)));
    StrToByte(buf, 4, text);
    assert buf[..] == buf[..4 + 4 + |text|];
    m := Msg(STATUS, id, buf[..]);
  }

  /** The status code a client reads. */
  function StatusOf(m: Msg): Option<int> {
    if m.typ == STATUS && |m.payload| >= 4 then Some(FromBE32(m.payload)) else None
  }

  /** Section 7 of draft-ietf-secsh-filexfer-02: the numbers a client reads. */
  lemma StatusNumbers(id: int)
    ensures StatusOf(StatusMsg(id, OK)) == Some(0) && StatusOf(StatusMsg(id, EOF)) == Some(1)
    ensures StatusOf(StatusMsg(id, NoSuchFile)) == Some(2) && StatusOf(StatusMsg(id, Failure)) == Some(4)
    ensures StatusOf(StatusMsg(id, BadMessage)) == Some(5)
  {
    hide StatusMsg, StatusOf;
    StatusReadsBack(id, OK);
    StatusReadsBack(id, EOF);
    StatusReadsBack(id, NoSuchFile);
    StatusReadsBack(id, Failure);
    StatusReadsBack(id, BadMessage);
  }

  lemma StatusReadsBack(id: int, c: StatusCode)
    ensures StatusOf(StatusMsg(id, c)) == Some(CodeNumber(c))
    ensures ByteToStr(StatusMsg(id, c).payload[4..]) == Some(StatusText(c))
  {
    hide BE32, FromBE32, StrBytes, Ascii;
    HeadWord(CodeNumber(c), StrBytes(StatusText(c)));
    StringReadsBack(StatusText(c), []);
    assert StrBytes(StatusText(c)) + [] == StrBytes(StatusText(c));
  }

  /** The reply to INIT: version 3 and three extension pairs. */
  function InitReply(): Msg {
    Msg(VERSION, 0,
        BE32(3) + StrBytes(Ascii("posix-rename@openssh.com")) + StrBytes(Ascii("1"))
          + StrBytes(Ascii("statvfs@openssh.com")) + StrBytes(Ascii("2"))
          + StrBytes(Ascii("fstatvfs@openssh.com")) + StrBytes(Ascii("2")))
  }

  /** A version message as a client reads it: the version, then pairs of strings to the end. */
  function DecodePairs(b: seq<byte>): Option<seq<(Str, Str)>>
    decreases |b|
  {
    if b == [] then Some([])
    else match TakeString(b)
      case None => None
      case Some((name, rest)) =>
        match TakeString(rest)
        case None => None
        case Some((data, more)) =>
          match DecodePairs(more)
          case None => None
          case Some(ps) => Some([(name, data)] + ps)
  }

  lemma TakesPair(name: Str, data: Str, more: seq<byte>)
    requires |name| + 4 < U32 && |data| + 4 < U32 && DecodePairs(more).Some?
    ensures DecodePairs(StrBytes(name) + StrBytes(data) + more) == Some([(name, data)] + DecodePairs(more).value)
  {
    hide StrBytes, TakeString;
    var rest := StrBytes(data) + more;
    assert StrBytes(name) + StrBytes(data) + more == StrBytes(name) + rest;
    TakesString(name, rest);
    TakesString(data, more);
  }

  /** The reply to INIT is version 3 with three extensions. */
  lemma InitReadsBack()
    ensures var m := InitReply();
            && m.typ == 2 && |m.payload| >= 4 && FromBE32(m.payload) == 3
            && DecodePairs(m.payload[4..]) ==
               Some([(Ascii("posix-rename@openssh.com"), Ascii("1")), (Ascii("statvfs@openssh.com"), Ascii("2")),
                     (Ascii("fstatvfs@openssh.com"), Ascii("2"))])
  {
    hide BE32, FromBE32, StrBytes, Ascii, DecodePairs;
    var a, b, c := Ascii("posix-rename@openssh.com"), Ascii("statvfs@openssh.com"), Ascii("fstatvfs@openssh.com");
    var one, two := Ascii("1"), Ascii("2");
    NoPairs();
    var last := StrBytes(c) + StrBytes(two) + [];
    var middle := StrBytes(b) + StrBytes(two) + last;
    var all := StrBytes(a) + StrBytes(one) + middle;
    TakesPair(c, two, []);
    TakesPair(b, two, last);
    TakesPair(a, one, middle);
    assert InitReply().payload == BE32(3) + all;
    HeadWord(3, all);
    assert [(b, two)] + ([(c, two)] + []) == [(b, two), (c, two)];
    assert [(a, one)] + [(b, two), (c, two)] == [(a, one), (b, two), (c, two)];
  }

  lemma NoPairs()
    ensures DecodePairs([]) == Some([])
  {
  }

  /** `createInit`, at the fixed offsets it writes. */
  method CreateInit() returns (m: Msg)
    ensures m == InitReply()
  {
    hide BE32, StrBytes, Ascii;
    var payload := new byte[94](_ => 0);
    CopyAt(payload, 0, BE32(3));
    StrToByte(payload, 4, Ascii("posix-rename@openssh.com"));
    StrToByte(payload, 32, Ascii("1"));
    assert payload[..37] == BE32(3) + StrBytes(Ascii("posix-rename@openssh.com")) + StrBytes(Ascii("1"));
    StrToByte(payload, 37, Ascii("statvfs@openssh.com"));
    StrToByte(payload, 60, Ascii("2"));
    assert payload[..65] == BE32(3) + StrBytes(Ascii("posix-rename@openssh.com")) + StrBytes(Ascii("1"))
                            + StrBytes(Ascii("statvfs@openssh.com")) + StrBytes(Ascii("2"));
    StrToByte(payload, 65, Ascii("fstatvfs@openssh.com"));
    StrToByte(payload, 89, Ascii("2"));
    assert payload[..] == payload[..94];
    m := Msg(VERSION, 0, payload[..]);
  }
}
