/** The ZIP extra field: the writer of `cmd/createfs/createFSZip.go` and the parser of
    `virtualfs/fileinfo.go`. */
module ExtraField {
  import opened GoBytes

  const TIMESTAMP := 0x5455
  const UNIX_IDS := 0x7875

  datatype Ids = Ids(uid: int, gid: int)

  /** A time the parser never set is the zero `time.Time`, here None. */
  datatype Times = Times(mod: Option<int>, acc: Option<int>, cre: Option<int>)

  const NO_IDS := Ids(0, 0)
  const NO_TIMES := Times(None, None, None)

  /** `OutOfRange` is Go's run-time panic on an index or slice past the end. */
  datatype Parsed = Parsed(ids: Ids, times: Times) | OutOfRange

  predicate Bit(flag: int, bit: int)
    requires bit > 0
  {
    flag / bit % 2 == 1
  }

  // ---------- the parser ----------

  function ReadVariableInt(field: seq<byte>): (v: int)
    ensures 0 <= v < U32
  {
    if |field| == 4 || |field| == 8 then FromLE32(field) else 0
  }

  datatype Step = Step(ids: Option<Ids>, times: Option<Times>, used: nat) | StepOutOfRange

  /** The next time of a record, when its flag is set, its gate lets it by, and four bytes are left. */
  function TimeAt(d: seq<byte>, wanted: bool): (t: Option<int>)
    ensures t.Some? <==> wanted && |d| >= 4
  {
    if wanted && |d| >= 4 then Some(FromLE32(d)) else None
  }

  /** The bytes after it. */
  function Past(d: seq<byte>, t: Option<int>): (r: seq<byte>)
    requires t.Some? ==> |d| >= 4
    ensures |r| == if t.Some? then |d| - 4 else |d|
  {
    if t.Some? then d[4..] else d
  }

  /** One turn of the parser's loop: the record at the head of what is left. */
  function ReadRecord(d: seq<byte>): (r: Step)
    requires d != []
    ensures r.Step? ==> r.used > 0
  {
    if |d| < 4 then StepOutOfRange
    else
      var id := FromLE16(d);
      var len := FromLE16(d[2..]);
      if id == TIMESTAMP then ReadTimes(d[4..], len)
      else if id == UNIX_IDS then ReadIds(d[4..])
      else Step(None, None, 4 + len)
  }

  function ReadTimes(d: seq<byte>, len: int): (r: Step)
    ensures r.Step? ==> r.used >= 4 && r.times.Some? && r.ids.None?
  {
    if d == [] then StepOutOfRange
    else
      var flag := d[0];
      var m := TimeAt(d[1..], Bit(flag, 1));
      var d1 := Past(d[1..], m);
      var a := TimeAt(d1, Bit(flag, 2) && len > 5);
      var d2 := Past(d1, a);
      var c := TimeAt(d2, Bit(flag, 4) && len > 9);
      Step(None, Some(Times(m, a, c)), 4 + |d| - |Past(d2, c)|)
  }

  function ReadIds(d: seq<byte>): (r: Step)
    ensures r.Step? ==> 4 < r.used <= 4 + |d| && r.ids.Some? && r.times.None?
  {
    if |d| < 2 then StepOutOfRange
    else
      var uidEnd := 2 + Int(d[1]);
      if uidEnd >= |d| then StepOutOfRange
      else
        var gidEnd := uidEnd + 1 + Int(d[uidEnd]);
        if gidEnd > |d| then StepOutOfRange
        else
          var ids := Ids(ReadVariableInt(d[2..uidEnd]), ReadVariableInt(d[uidEnd + 1..gidEnd]));
          Step(Some(ids), None, 4 + gidEnd)
  }

  /** The bytes from `pos` on; none when `pos` has run past the end. */
  function Tail(d: seq<byte>, pos: nat): seq<byte> {
    if pos <= |d| then d[pos..] else []
  }

  lemma TailOfTail(data: seq<byte>, pos: nat, k: nat)
    requires pos <= |data|
    ensures Tail(data, pos) == data[pos..] && Tail(data[pos..], k) == Tail(data, pos + k)
  {
  }

  lemma TailEnds(data: seq<byte>, pos: nat)
    requires pos >= |data|
    ensures Tail(data, pos) == []
  {
  }

  /** The parser's loop over what is left, with what the earlier records left behind. */
  function ParseFrom(d: seq<byte>, ids: Ids, times: Times): Parsed
    decreases |d|
  {
    if d == [] then Parsed(ids, times)
    else
      match ReadRecord(d)
      case StepOutOfRange => OutOfRange
      case Step(i, t, used) =>
        ParseFrom(Tail(d, used), if i.Some? then i.value else ids, if t.Some? then t.value else times)
  }

  function Parse(data: seq<byte>): Parsed {
    ParseFrom(data, NO_IDS, NO_TIMES)
  }

  /** `readExtraHeader`, for a slice whose capacity is its length. */
  method ReadExtraHeader(data: seq<byte>) returns (r: Parsed)
    ensures r == Parse(data)
  {
    hide FromLE16, FromLE32, ReadTimes, ReadIds, Tail;
    assert data[0..] == data;
    TailOfTail(data, 0, 0);
    var pos, ids, times := 0, NO_IDS, NO_TIMES;
    while pos < |data|
      invariant ParseFrom(Tail(data, pos), ids, times) == Parse(data)
      decreases |data| - pos
    {
      ghost var d := data[pos..];
      TailOfTail(data, pos, 0);
      if pos + 4 > |data| {
        return OutOfRange;
      }
      var fieldID := FromLE16(data[pos..]);
      var fieldLen := FromLE16(data[pos + 2..]);
      assert data[pos + 2..] == d[2..];
      pos := pos + 4;
      assert data[pos..] == d[4..];
      if fieldID == TIMESTAMP {
        var ok, stamps, next := ReadTimestamps(data, pos, fieldLen);
        if !ok {
          return OutOfRange;
        }
        TailOfTail(data, pos - 4, next - pos + 4);
        times, pos := stamps, next;
      } else if fieldID == UNIX_IDS {
        var ok, owner, next := ReadOwner(data, pos);
        if !ok {
          return OutOfRange;
        }
        TailOfTail(data, pos - 4, next - pos + 4);
        ids, pos := owner, next;
      } else {
        TailOfTail(data, pos - 4, 4 + fieldLen);
        pos := pos + fieldLen;
      }
    }
    TailEnds(data, pos);
    return Parsed(ids, times);
  }

  /** The timestamp case of `readExtraHeader`; not ok when the flag byte is missing. */
  method ReadTimestamps(data: seq<byte>, start: nat, fieldLen: int) returns (ok: bool, times: Times, pos: nat)
    requires start <= |data|
    ensures ok ==> start < pos <= |data|
    ensures ok ==> ReadTimes(data[start..], fieldLen) == Step(None, Some(times), 4 + pos - start)
    ensures !ok ==> ReadTimes(data[start..], fieldLen) == StepOutOfRange
  {
    hide FromLE32, Bit;
    ok, times, pos := start < |data|, NO_TIMES, start;
    if !ok {
      return;
    }
    var mod, acc, cre := None, None, None;
    var flag := data[start];
    pos := start + 1;
    assert data[pos..] == data[start..][1..];
    if Bit(flag, 1) && |data| - pos >= 4 {
      mod := Some(FromLE32(data[pos..]));
      assert data[pos + 4..] == data[pos..][4..];
      pos := pos + 4;
    }
    if Bit(flag, 2) && |data| - pos >= 4 && fieldLen > 5 {
      acc := Some(FromLE32(data[pos..]));
      assert data[pos + 4..] == data[pos..][4..];
      pos := pos + 4;
    }
    if Bit(flag, 4) && |data| - pos >= 4 && fieldLen > 9 {
      cre := Some(FromLE32(data[pos..]));
      pos := pos + 4;
    }
    times := Times(mod, acc, cre);
  }

  /** The uid/gid case of `readExtraHeader`; not ok when an index leaves the data. */
  method ReadOwner(data: seq<byte>, start: nat) returns (ok: bool, ids: Ids, pos: nat)
    requires start <= |data|
    ensures ok ==> start < pos <= |data| && ReadIds(data[start..]) == Step(Some(ids), None, 4 + pos - start)
    ensures !ok ==> ReadIds(data[start..]) == StepOutOfRange
  {
    hide ReadVariableInt;
    ghost var d := data[start..];
    ok, ids, pos := false, NO_IDS, start;
    if start + 1 >= |data| {
      return;
    }
    var uidEnd := start + 2 + Int(data[start + 1]);
    if uidEnd >= |data| {
      return;
    }
    var gidEnd := uidEnd + 1 + Int(data[uidEnd]);
    if gidEnd > |data| {
      return;
    }
    assert data[start + 2..uidEnd] == d[2..uidEnd - start];
    assert data[uidEnd + 1..gidEnd] == d[uidEnd + 1 - start..gidEnd - start];
    return true, Ids(ReadVariableInt(data[start + 2..uidEnd]), ReadVariableInt(data[uidEnd + 1..gidEnd])), gidEnd;
  }

  // ---------- what it is used for ----------

  /** The Unix time of Go's zero `time.Time`, which an entry without times has. */
  const ZERO_TIME := -62_135_596_800

  /** Owner and times as they are sent to clients. */
  datatype Extra = Extra(uid: int, gid: int, atime: int, mtime: int)

  function UnixTime(t: Option<int>): int {
    match t case None => ZERO_TIME case Some(s) => s
  }

  /** `GetExtraInfo`: a file info without an extra field has neither owner nor times; None is the panic
      of parsing one that breaks off. */
  function GetExtraInfo(field: Option<seq<byte>>): Option<Extra> {
    match field
    case None => Some(Extra(0, 0, ZERO_TIME, ZERO_TIME))
    case Some(data) =>
      match Parse(data)
      case OutOfRange => None
      case Parsed(ids, times) => Some(Extra(ids.uid, ids.gid, UnixTime(times.acc), UnixTime(times.mod)))
  }

  /** `GetExtraInfo`, which parses the field each time. */
  method ReadExtraInfo(field: Option<seq<byte>>) returns (r: Option<Extra>)
    ensures r == GetExtraInfo(field)
  {
    hide Parse;
    if field.None? {
      return Some(Extra(0, 0, ZERO_TIME, ZERO_TIME));
    }
    var parsed := ReadExtraHeader(field.value);
    match parsed {
      case OutOfRange =>
        return None;
      case Parsed(ids, times) =>
        return Some(Extra(ids.uid, ids.gid, UnixTime(times.acc), UnixTime(times.mod)));
    }
  }

  // ---------- records ----------

  datatype Record = Record(id: int, body: seq<byte>)

  function Encoded(r: Record): seq<byte> {
    LE16(r.id) + LE16(|r.body|) + r.body
  }

  function EncodedAll(rs: seq<Record>): seq<byte> {
    if rs == [] then [] else Encoded(rs[0]) + EncodedAll(rs[1..])
  }

  /** The length the parser consumes of a timestamp body. */
  function TimesLength(flag: int, len: int): int {
    1 + (if Bit(flag, 1) then 4 else 0) + (if Bit(flag, 2) && len > 5 then 4 else 0)
      + (if Bit(flag, 4) && len > 9 then 4 else 0)
  }

  /** A record whose consumed length equals its declared length. */
  predicate WellFormed(r: Record) {
    && 0 <= r.id < U16
    && |r.body| < U16
    && (r.id == TIMESTAMP ==> |r.body| > 0 && |r.body| == TimesLength(r.body[0], |r.body|))
    && (r.id == UNIX_IDS ==>
          && |r.body| > 1
          && |r.body| > 2 + Int(r.body[1])
          && |r.body| == 3 + Int(r.body[1]) + Int(r.body[2 + Int(r.body[1])]))
  }

  /** What a well-formed record says by itself. */
  function IdsOf(r: Record): Ids
    requires WellFormed(r) && r.id == UNIX_IDS
  {
    var uidEnd := 2 + Int(r.body[1]);
    Ids(ReadVariableInt(r.body[2..uidEnd]), ReadVariableInt(r.body[uidEnd + 1..]))
  }

  function TimesOf(r: Record): Times
    requires WellFormed(r) && r.id == TIMESTAMP
  {
    var p1 := if Bit(r.body[0], 1) then 5 else 1;
    var acc := Bit(r.body[0], 2) && |r.body| > 5;
    var p2 := if acc then p1 + 4 else p1;
    Times(if Bit(r.body[0], 1) then Some(FromLE32(r.body[1..])) else None,
          if acc then Some(FromLE32(r.body[p1..])) else None,
          if Bit(r.body[0], 4) && |r.body| > 9 then Some(FromLE32(r.body[p2..])) else None)
  }

  /** The ids of the last id record, or what was known before. */
  function LastIds(rs: seq<Record>, before: Ids): Ids
    requires forall r <- rs :: WellFormed(r)
  {
    if rs == [] then before
    else if rs[|rs| - 1].id == UNIX_IDS then IdsOf(rs[|rs| - 1])
    else LastIds(rs[..|rs| - 1], before)
  }

  function LastTimes(rs: seq<Record>, before: Times): Times
    requires forall r <- rs :: WellFormed(r)
  {
    if rs == [] then before
    else if rs[|rs| - 1].id == TIMESTAMP then TimesOf(rs[|rs| - 1])
    else LastTimes(rs[..|rs| - 1], before)
  }

  /** The header of a record decodes to its id and length. */
  lemma ReadsHeader(r: Record, rest: seq<byte>)
    requires 0 <= r.id < U16 && |r.body| < U16
    ensures var d := Encoded(r) + rest;
            FromLE16(d) == r.id && FromLE16(d[2..]) == |r.body| && d[4..] == r.body + rest
  {
    hide LE16, FromLE16;
    LE16RoundTrip(r.id);
    LE16RoundTrip(|r.body|);
    var d := Encoded(r) + rest;
    var d2 := LE16(|r.body|) + (r.body + rest);
    assert d == LE16(r.id) + d2 && d[2..] == d2 && d2[2..] == r.body + rest;
    ShortInFront(LE16(r.id), d2);
    ShortInFront(LE16(|r.body|), r.body + rest);
  }

  lemma ShortInFront(a: seq<byte>, b: seq<byte>)
    requires |a| == 2
    ensures FromLE16(a + b) == FromLE16(a)
  {
  }

  /** At a well-formed record the parser reads exactly that record, whatever stands after it. */
  lemma ReadsWholeRecord(r: Record, rest: seq<byte>)
    requires WellFormed(r)
    ensures ReadRecord(Encoded(r) + rest) ==
            Step(if r.id == UNIX_IDS then Some(IdsOf(r)) else None,
                 if r.id == TIMESTAMP then Some(TimesOf(r)) else None,
                 |Encoded(r)|)
  {
    ReadsHeader(r, rest);
    hide Encoded, LE16, FromLE16;
    if r.id == TIMESTAMP {
      ReadsTimesBody(r, rest);
    } else if r.id == UNIX_IDS {
      ReadsIdsBody(r, rest);
    }
  }

  lemma ReadsIdsBody(r: Record, rest: seq<byte>)
    requires WellFormed(r) && r.id == UNIX_IDS
    ensures ReadIds(r.body + rest) == Step(Some(IdsOf(r)), None, 4 + |r.body|)
  {
    hide ReadVariableInt;
    var d := r.body + rest;
    var uidEnd := 2 + Int(r.body[1]);
    assert d[2..uidEnd] == r.body[2..uidEnd];
    assert d[uidEnd + 1..|r.body|] == r.body[uidEnd + 1..];
  }

  lemma ReadsTimesBody(r: Record, rest: seq<byte>)
    requires WellFormed(r) && r.id == TIMESTAMP
    ensures ReadTimes(r.body + rest, |r.body|) == Step(None, Some(TimesOf(r)), 4 + |r.body|)
  {
    var d := r.body + rest;
    TimeInBody(d, r.body, 1);
    TimeInBody(d, r.body, 5);
    TimeInBody(d, r.body, 9);
  }

  lemma TimeInBody(d: seq<byte>, body: seq<byte>, at: nat)
    requires body <= d
    ensures at + 4 <= |body| ==> FromLE32(d[at..]) == FromLE32(body[at..])
    ensures at <= |d| && at >= 4 ==> d[at - 4..][4..] == d[at..]
  {
  }

  lemma {:induction false} ParseIsFold(rs: seq<Record>, ids: Ids, times: Times)
    requires forall r <- rs :: WellFormed(r)
    ensures ParseFrom(EncodedAll(rs), ids, times) == Parsed(LastIds(rs, ids), LastTimes(rs, times))
  {
    if rs != [] {
      hide ReadRecord, Encoded, IdsOf, TimesOf, WellFormed;
      var r, rest := rs[0], rs[1..];
      ReadsWholeRecord(r, EncodedAll(rest));
      assert Tail(EncodedAll(rs), |Encoded(r)|) == EncodedAll(rest);
      assert [r] + rest == rs;
      LastOfConcat([r], rest, ids, times);
      assert LastIds([r], ids) == if r.id == UNIX_IDS then IdsOf(r) else LastIds([], ids);
      assert LastTimes([r], times) == if r.id == TIMESTAMP then TimesOf(r) else LastTimes([], times);
      ParseIsFold(rest, LastIds([r], ids), LastTimes([r], times));
    }
  }

  lemma {:induction false} EncodedAllConcat(a: seq<Record>, b: seq<Record>)
    ensures EncodedAll(a + b) == EncodedAll(a) + EncodedAll(b)
  {
    if a == [] {
      assert a + b == b;
    } else {
      assert (a + b)[1..] == a[1..] + b;
      EncodedAllConcat(a[1..], b);
    }
  }

  /** Parsing records in a row gives the last record of each kind; other ids are skipped whole. */
  lemma ParseTakesLastOfEachKind(rs: seq<Record>)
    requires forall r <- rs :: WellFormed(r)
    ensures Parse(EncodedAll(rs)) == Parsed(LastIds(rs, NO_IDS), LastTimes(rs, NO_TIMES))
  {
    ParseIsFold(rs, NO_IDS, NO_TIMES);
  }

  lemma {:induction false} LastOfConcat(a: seq<Record>, b: seq<Record>, ids: Ids, times: Times)
    requires forall r <- a + b :: WellFormed(r)
    requires forall r <- a :: WellFormed(r)
    requires forall r <- b :: WellFormed(r)
    ensures LastIds(a + b, ids) == LastIds(b, LastIds(a, ids))
    ensures LastTimes(a + b, times) == LastTimes(b, LastTimes(a, times))
    decreases |b|
  {
    if b == [] {
      assert a + b == a;
    } else {
      assert (a + b)[..|a + b| - 1] == a + b[..|b| - 1];
      LastOfConcat(a, b[..|b| - 1], ids, times);
    }
  }

  /** Parsing a then b is parsing a, overridden by whichever kinds of record occur in b. */
  lemma ParseOfConcat(a: seq<Record>, b: seq<Record>)
    requires forall r <- a :: WellFormed(r)
    requires forall r <- b :: WellFormed(r)
    ensures Parse(EncodedAll(a)).Parsed?
    ensures var first := Parse(EncodedAll(a));
            Parse(EncodedAll(a) + EncodedAll(b)) == Parsed(LastIds(b, first.ids), LastTimes(b, first.times))
  {
    EncodedAllConcat(a, b);
    LastOfConcat(a, b, NO_IDS, NO_TIMES);
    ParseTakesLastOfEachKind(a);
    ParseTakesLastOfEachKind(a + b);
  }

  // ---------- the writer ----------

  /** Times present in the written record: those that are not zero. */
  function Flag(mtime: int, atime: int, ctime: int): (f: byte)
    ensures Bit(f, 1) == (mtime != 0) && Bit(f, 2) == (atime != 0) && Bit(f, 4) == (ctime != 0)
  {
    (if mtime != 0 then 1 else 0) + (if atime != 0 then 2 else 0) + (if ctime != 0 then 4 else 0)
  }

  function Stamp(t: int): (b: seq<byte>)
    ensures |b| == if t == 0 then 0 else 4
  {
    if t == 0 then [] else LE32(t)
  }

  function IdRecord(uid: int, gid: int): Record {
    Record(UNIX_IDS, [1, 4] + LE32(uid) + [4] + LE32(gid))
  }

  function TimeRecord(atime: int, mtime: int, ctime: int): Record {
    Record(TIMESTAMP, [Flag(mtime, atime, ctime)] + Stamp(mtime) + Stamp(atime) + Stamp(ctime))
  }

  /** The writer's output as records. */
  function Written(uid: int, gid: int, atime: int, mtime: int, ctime: int): seq<byte> {
    Encoded(IdRecord(uid, gid)) +
    if atime == 0 && mtime == 0 && ctime == 0 then [] else Encoded(TimeRecord(atime, mtime, ctime))
  }

  /** The records as Info-ZIP lays them out: ids with version 1 and four bytes each, then the times with
      the flag that says which are there. */
  lemma WrittenBytes(uid: int, gid: int, atime: int, mtime: int, ctime: int)
    ensures var stamps := Stamp(mtime) + Stamp(atime) + Stamp(ctime);
            var ids := [0x75, 0x78, 11, 0, 1, 4] + LE32(uid) + [4] + LE32(gid);
            Written(uid, gid, atime, mtime, ctime) ==
            if stamps == [] then ids
            else ids + [0x55, 0x54, 1 + |stamps|, 0, Flag(mtime, atime, ctime)] + stamps
  {
    hide LE32, Stamp, Flag;
    var stamps := Stamp(mtime) + Stamp(atime) + Stamp(ctime);
    ByteOrder(0, 0, 0x78, 0x75);
    ByteOrder(0, 0, 0x54, 0x55);
    assert LE16(UNIX_IDS) == [0x75, 0x78] && LE16(11) == [11, 0];
    assert LE16(TIMESTAMP) == [0x55, 0x54] && LE16(1 + |stamps|) == [1 + |stamps|, 0];
    hide LE16;
    assert |IdRecord(uid, gid).body| == 11;
    var flag: seq<byte> := [Flag(mtime, atime, ctime)];
    assert TimeRecord(atime, mtime, ctime).body == flag + stamps;
  }

  /** `writeExtraUnixInfo`: fills two buffers in place. */
  method WriteExtraUnixInfo(uid: int, gid: int, atime: int, mtime: int, ctime: int) returns (r: seq<byte>)
    ensures r == Written(uid, gid, atime, mtime, ctime)
  {
    hide LE16, LE32;
    var b := new byte[15](_ => 0);
    CopyAt(b, 0, LE16(UNIX_IDS));
    CopyAt(b, 2, LE16(11));
    CopyAt(b, 4, [1, 4]);
    CopyAt(b, 6, LE32(uid));
    CopyAt(b, 10, [4]);
    CopyAt(b, 11, LE32(gid));
    r := b[..];
    assert r == b[..15] == Encoded(IdRecord(uid, gid));
    var flag := Flag(mtime, atime, ctime);
    if flag > 0 {
      var tb := WriteTimes(flag, atime, mtime, ctime);
      r := r + tb;
    }
  }

  /** The timestamp half of `writeExtraUnixInfo`. */
  method WriteTimes(flag: byte, atime: int, mtime: int, ctime: int) returns (r: seq<byte>)
    requires flag == Flag(mtime, atime, ctime)
    ensures r == Encoded(TimeRecord(atime, mtime, ctime))
  {
    hide LE16, Stamp;
    var bLen := |Stamp(mtime)| + |Stamp(atime)| + |Stamp(ctime)|;
    var tb := new byte[bLen + 5](_ => 0);
    CopyAt(tb, 0, LE16(TIMESTAMP));
    CopyAt(tb, 2, LE16(bLen + 1));
    CopyAt(tb, 4, [flag]);
    var pos := PutStamp(tb, 5, mtime);
    pos := PutStamp(tb, pos, atime);
    pos := PutStamp(tb, pos, ctime);
    r := tb[..];
    assert r == tb[..pos];
    assert r == LE16(TIMESTAMP) + LE16(bLen + 1) + ([flag] + Stamp(mtime) + Stamp(atime) + Stamp(ctime));
  }

  /** One present time, written at `pos`; an absent one takes no room. */
  method PutStamp(tb: array<byte>, pos: nat, t: int) returns (next: nat)
    requires pos + |Stamp(t)| <= tb.Length
    modifies tb
    ensures next == pos + |Stamp(t)|
    ensures tb[..next] == old(tb[..pos]) + Stamp(t)
  {
    hide LE32;
    next := pos;
    if t != 0 {
      CopyAt(tb, pos, LE32(t));
      next := pos + 4;
    }
  }

  /** What a reader should get back: the ids, and each nonzero time. */
  function Expected(uid: int, gid: int, atime: int, mtime: int, ctime: int): Parsed {
    Parsed(Ids(uid, gid), Times(Given(mtime), Given(atime), Given(ctime)))
  }

  function Given(t: int): Option<int> {
    if t == 0 then None else Some(t)
  }

  /** The present times are an initial run of mtime, atime, ctime. */
  predicate InitialRun(atime: int, mtime: int, ctime: int) {
    (atime != 0 ==> mtime != 0) && (ctime != 0 ==> atime != 0)
  }

  predicate Fits32(n: int) {
    0 <= n < U32
  }

  lemma StampAt(t: int, rest: seq<byte>)
    ensures TimeAt(Stamp(t) + rest, t != 0) == if t != 0 then Some(Low32(t)) else None
    ensures Past(Stamp(t) + rest, TimeAt(Stamp(t) + rest, t != 0)) == rest
  {
    hide LE32;
    var d := Stamp(t) + rest;
    if t != 0 {
      LE32RoundTrip(t);
      assert d[..4] == LE32(t);
      assert FromLE32(d) == FromLE32(d[..4]);
    }
  }

  /** The times the parser gets out of the written record: every present time modulo 2^32, except
      that the length gates pass over the last one when there is a gap before it. */
  function Seen(atime: int, mtime: int, ctime: int): Times {
    Times(if mtime != 0 then Some(Low32(mtime)) else None,
          if atime != 0 && (mtime != 0 || ctime != 0) then Some(Low32(atime)) else None,
          if ctime != 0 && atime != 0 && mtime != 0 then Some(Low32(ctime)) else None)
  }

  /** A gap also leaves four bytes of the record unread. */
  lemma ReadsWrittenBody(atime: int, mtime: int, ctime: int)
    ensures var d := TimeRecord(atime, mtime, ctime).body;
            ReadTimes(d, |d|) ==
            Step(None, Some(Seen(atime, mtime, ctime)),
                 4 + |d| - if InitialRun(atime, mtime, ctime) then 0 else 4)
  {
    hide Stamp, Flag, FromLE32, Bit, Low32, TimeAt, Past;
    var d := TimeRecord(atime, mtime, ctime).body;
    var d1 := Stamp(atime) + Stamp(ctime);
    var d2 := Stamp(ctime);
    StampAt(mtime, d1);
    StampAt(atime, d2);
    StampAt(ctime, []);
    NotWanted(d1);
    NotWanted(d2);
    assert d[1..] == Stamp(mtime) + d1 && Stamp(ctime) + [] == d2;
    if atime != 0 && mtime == 0 && ctime == 0 {
      assert |d| == 5;
    } else {
      assert atime != 0 ==> |d| > 5;
      assert ctime != 0 ==> (|d| > 9 <==> atime != 0 && mtime != 0);
    }
  }

  lemma NotWanted(d: seq<byte>)
    ensures TimeAt(d, false) == None && Past(d, None) == d
  {
  }

  lemma ReadsWrittenTimes(atime: int, mtime: int, ctime: int)
    ensures var r := TimeRecord(atime, mtime, ctime);
            ReadRecord(Encoded(r)) == ReadTimes(r.body, |r.body|)
  {
    var r := TimeRecord(atime, mtime, ctime);
    ReadsHeader(r, []);
    hide Encoded, FromLE16, ReadTimes;
    assert Encoded(r) + [] == Encoded(r) && r.body + [] == r.body;
  }

  lemma ReadsWrittenIds(uid: int, gid: int, rest: seq<byte>)
    requires Fits32(uid) && Fits32(gid)
    ensures ParseFrom(Encoded(IdRecord(uid, gid)) + rest, NO_IDS, NO_TIMES)
         == ParseFrom(rest, Ids(uid, gid), NO_TIMES)
  {
    var r := IdRecord(uid, gid);
    IdRecordSays(uid, gid);
    ReadsWholeRecord(r, rest);
    hide Encoded, ReadRecord, WellFormed, IdsOf, IdRecord;
    assert Tail(Encoded(r) + rest, |Encoded(r)|) == rest;
  }

  lemma IdRecordSays(uid: int, gid: int)
    requires Fits32(uid) && Fits32(gid)
    ensures var r := IdRecord(uid, gid); WellFormed(r) && r.id == UNIX_IDS && IdsOf(r) == Ids(uid, gid)
  {
    hide LE32, FromLE32;
    var r := IdRecord(uid, gid);
    assert r.body[1] == 4 && r.body[6] == 4;
    assert r.body[2..6] == LE32(uid) && r.body[7..] == LE32(gid);
    LE32RoundTrip(uid);
    LE32RoundTrip(gid);
  }

  /** Four stray bytes at the end never add a time. */
  lemma StrayBytes(d: seq<byte>, ids: Ids, times: Times)
    requires |d| == 4
    ensures ParseFrom(d, ids, times) == OutOfRange || ParseFrom(d, ids, times) == Parsed(ids, times)
  {
    var r := ReadRecord(d);
    if r.Step? {
      assert r.ids.None? && r.times.None? && Tail(d, r.used) == [];
    }
  }

  lemma ParseOfWritten(uid: int, gid: int, atime: int, mtime: int, ctime: int)
    requires Fits32(uid) && Fits32(gid)
    ensures var r := Parse(Written(uid, gid, atime, mtime, ctime));
            || r == Parsed(Ids(uid, gid), Seen(atime, mtime, ctime))
            || (r == OutOfRange && !InitialRun(atime, mtime, ctime))
  {
    if atime == 0 && mtime == 0 && ctime == 0 {
      ReadsWrittenIds(uid, gid, []);
    } else {
      hide ReadRecord, Encoded, IdRecord, ReadTimes, Seen, Low32;
      var second := Encoded(TimeRecord(atime, mtime, ctime));
      ReadsWrittenIds(uid, gid, second);
      ReadsWrittenTimes(atime, mtime, ctime);
      ReadsWrittenBody(atime, mtime, ctime);
      if InitialRun(atime, mtime, ctime) {
        assert Tail(second, |second|) == [];
      } else {
        StrayBytes(second[|second| - 4..], Ids(uid, gid), Seen(atime, mtime, ctime));
      }
    }
  }

  /** The extra field reads back exactly when the present times are an initial run and fit in 32
      bits. With a gap, the length gates of the parser skip a time that was written. */
  lemma RoundTripExactly(uid: int, gid: int, atime: int, mtime: int, ctime: int)
    requires Fits32(uid) && Fits32(gid)
    ensures Parse(Written(uid, gid, atime, mtime, ctime)) == Expected(uid, gid, atime, mtime, ctime)
       <==> InitialRun(atime, mtime, ctime) && Fits32(atime) && Fits32(mtime) && Fits32(ctime)
  {
    hide Parse, Written;
    ParseOfWritten(uid, gid, atime, mtime, ctime);
  }

  /** What the image builder writes is what the server sends: owner and times, a time that was not given
      as the zero time, whenever the field reads back. */
  lemma WrittenExtraInfo(uid: int, gid: int, atime: int, mtime: int, ctime: int)
    requires Fits32(uid) && Fits32(gid) && Fits32(atime) && Fits32(mtime) && Fits32(ctime)
    requires InitialRun(atime, mtime, ctime)
    ensures GetExtraInfo(Some(Written(uid, gid, atime, mtime, ctime)))
         == Some(Extra(uid, gid, UnixTime(Given(atime)), UnixTime(Given(mtime))))
  {
    hide Parse, Written;
    RoundTripExactly(uid, gid, atime, mtime, ctime);
  }

  /** Ids of four bytes are little-endian, of eight bytes their low half, and of any other length 0. */
  lemma VariableInt(low: int, high: int, other: seq<byte>)
    requires Fits32(low) && Fits32(high) && |other| != 4 && |other| != 8
    ensures ReadVariableInt(LE32(low)) == low && ReadVariableInt(LE32(low) + LE32(high)) == low
    ensures ReadVariableInt(other) == 0
  {
    hide LE32;
    LE32RoundTrip(low);
    var both := LE32(low) + LE32(high);
    assert both[..4] == LE32(low) && FromLE32(both) == FromLE32(both[..4]);
  }

  /** Fields that break off: a stray byte panics; a time that is announced and not there is passed over;
      and a record of an unknown kind may be cut short. */
  lemma BrokenFields(b: byte, flag: byte, len: nat, id: int, body: seq<byte>)
    requires len < U16 && 0 <= id < U16 && id != TIMESTAMP && id != UNIX_IDS && |body| <= len
    ensures Parse([b]) == OutOfRange
    ensures Parse(LE16(TIMESTAMP) + LE16(len) + [flag]) == Parsed(NO_IDS, NO_TIMES)
    ensures Parse(LE16(TIMESTAMP) + LE16(len)) == OutOfRange
    ensures Parse(LE16(id) + LE16(len) + body) == Parsed(NO_IDS, NO_TIMES)
  {
    HeaderParses(TIMESTAMP, len, [flag]);
    HeaderParses(TIMESTAMP, len, []);
    HeaderParses(id, len, body);
    assert LE16(TIMESTAMP) + LE16(len) + [] == LE16(TIMESTAMP) + LE16(len);
    hide LE16, FromLE16, FromLE32, Bit;
    var d := LE16(TIMESTAMP) + LE16(len) + [flag];
    assert [flag][1..] == [];
    assert d[4..] == [flag] && ReadTimes([flag], len) == Step(None, Some(NO_TIMES), 5);
    assert ReadRecord(d) == Step(None, Some(NO_TIMES), 5) && Tail(d, 5) == [];
    assert ParseFrom([], NO_IDS, NO_TIMES) == Parsed(NO_IDS, NO_TIMES);
    assert Tail(LE16(id) + LE16(len) + body, 4 + len) == [];
  }

  lemma HeaderParses(id: int, len: nat, rest: seq<byte>)
    requires 0 <= id < U16 && len < U16
    ensures var d := LE16(id) + LE16(len) + rest;
            FromLE16(d) == id && FromLE16(d[2..]) == len && d[4..] == rest
  {
    hide LE16, FromLE16;
    LE16RoundTrip(id);
    LE16RoundTrip(len);
    var d := LE16(id) + LE16(len) + rest;
    assert d == LE16(id) + (LE16(len) + rest) && d[2..] == LE16(len) + rest;
    ShortInFront(LE16(id), LE16(len) + rest);
    ShortInFront(LE16(len), rest);
  }
}
