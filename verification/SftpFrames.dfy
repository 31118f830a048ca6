/** Messages framed for the wire, and frames read back (`sendReply` and `readRequest` of
    `sftp/sftp.go`). */
module SftpFrames {
  import opened GoBytes
  import opened SftpTypes

  // ---------- writing ----------

  /** Length word, type and id. */
  function HeadSize(id: int): nat { if id > 0 then 9 else 5 }

  /** The bytes `sendReply` writes; the id field is left out when the id is 0. Lengths are 32-bit, and
      None is the panic when a length that wrapped around leaves no room for the header. */
  function Frame(m: Msg): Option<seq<byte>> {
    var head := HeadSize(m.id);
    var size := Low32(|m.payload| + head);
    if size < head then None
    else Some(BE32(size - 4) + [m.typ] + (if m.id > 0 then BE32(m.id) else []) + m.payload[..size - head])
  }

  /** `sendReply` up to the write: the frame is laid out in a buffer. */
  method LayOutReply(m: Msg) returns (frame: Option<seq<byte>>)
    ensures frame == Frame(m)
  {
    hide BE32, Low32;
    var payloadLen := Low32(|m.payload| + 1);
    if m.id > 0 {
      payloadLen := Low32(payloadLen + 4);
    }
    var size := Low32(payloadLen + 4);
    var head := HeadSize(m.id);
    SizeWraps(|m.payload|);
    if size < head {
      return None;
    }
    var b := FillFrame(m, payloadLen, head, m.payload[..size - head]);
    return Some(b);
  }

  /** The sizes `sendReply` computes step by step in 32 bits. */
  lemma SizeWraps(n: nat)
    ensures Low32(Low32(n + 1) + 4) == Low32(n + 5)
    ensures Low32(Low32(Low32(n + 1) + 4) + 4) == Low32(n + 9)
    ensures Low32(n + 5) >= 5 ==> Low32(n + 5) == Low32(n + 1) + 4
    ensures Low32(n + 9) >= 9 ==> Low32(n + 9) == Low32(Low32(n + 1) + 4) + 4
    ensures Low32(n + 5) <= n + 5 && Low32(n + 9) <= n + 9
  {
    Low32Step(n + 1, 4);
    Low32Step(n + 5, 4);
    hide Low32;
  }

  lemma Low32Step(n: nat, k: nat)
    requires k < U32
    ensures Low32(Low32(n) + k) == Low32(n + k) <= n + k
    ensures Low32(n + k) >= k ==> Low32(n + k) == Low32(n) + k
  {
    var q, r := n / U32, Low32(n);
    assert n == U32 * q + r;
    LowOf(q, r);
    if r + k < U32 {
      LowOf(q, r + k);
      LowOf(0, r + k);
    } else {
      LowOf(q + 1, r + k - U32);
      LowOf(1, r + k - U32);
    }
    hide Low32;
  }

  lemma LowOf(q: nat, r: nat)
    requires r < U32
    ensures Low32(U32 * q + r) == r
  {
  }

  /** The stores of `sendReply` into the buffer it has sized; `copy` takes what fits of the payload. */
  method FillFrame(m: Msg, payloadLen: int, head: nat, payload: seq<byte>) returns (r: seq<byte>)
    requires head == HeadSize(m.id)
    ensures r == BE32(payloadLen) + [m.typ] + (if m.id > 0 then BE32(m.id) else []) + payload
  {
    hide BE32;
    var b := new byte[head + |payload|](_ => 0);
    CopyAt(b, 0, BE32(payloadLen));
    CopyAt(b, 4, [m.typ]);
    if m.id > 0 {
      CopyAt(b, 5, BE32(m.id));
    }
    assert b[..head] == BE32(payloadLen) + [m.typ] + if m.id > 0 then BE32(m.id) else [];
    CopyAt(b, head, payload);
    r := b[..];
    assert r == b[..head + |payload|];
  }

  // ---------- reading ----------

  /** What is found at the head of the input: a message, the end of the input, a frame cut short, or a
      frame too short for its header, on which the program panics. */
  datatype Incoming = Request(m: Msg, rest: seq<byte>) | EndOfInput | CutShort | BadFrame

  /** Reading one message; messages of the type `bare` have no id. */
  function ParseMsg(input: seq<byte>, bare: byte): (r: Incoming)
    ensures r.Request? ==> |r.rest| < |input|
  {
    if input == [] then EndOfInput
    else if |input| < 4 then CutShort
    else
      var l := FromBE32(input);
      var rest := input[4..];
      if l > 0 && rest == [] then EndOfInput
      else if |rest| < l then CutShort
      else if l == 0 then BadFrame
      else if rest[0] == bare then Request(Msg(bare, 0, rest[1..l]), rest[l..])
      else if l < 5 then BadFrame
      else Request(Msg(rest[0], FromBE32(rest[1..]), rest[5..l]), rest[l..])
  }

  /** `readRequest`. */
  function ParseFrame(input: seq<byte>): (r: Incoming)
    ensures r.Request? ==> |r.rest| < |input|
  {
    ParseMsg(input, INIT)
  }

  /** What the reader makes of a length word and a body. */
  lemma ParsesBody(body: seq<byte>, rest: seq<byte>, bare: byte)
    requires 0 < |body| < U32
    ensures var r := ParseMsg(BE32(|body|) + (body + rest), bare);
            r == if body[0] == bare then Request(Msg(bare, 0, body[1..]), rest)
                 else if |body| < 5 then BadFrame
                 else Request(Msg(body[0], FromBE32(body[1..]), body[5..]), rest)
  {
    hide BE32, FromBE32;
    var input := BE32(|body|) + (body + rest);
    HeadWord(|body|, body + rest);
    assert input != [] && input[4..] == body + rest;
    var l := |body|;
    assert (body + rest)[l..] == rest && (body + rest)[1..l] == body[1..];
    if l >= 5 {
      assert (body + rest)[5..l] == body[5..];
      WordInPrefix(body[1..], rest, (body + rest)[1..]);
    }
  }

  lemma WordInPrefix(a: seq<byte>, rest: seq<byte>, b: seq<byte>)
    requires |a| >= 4 && b == a + rest
    ensures FromBE32(b) == FromBE32(a)
  {
  }

  /** A message the reader can tell apart: it carries an id unless it is of the type without one. */
  predicate Framed(m: Msg, bare: byte) {
    m.typ == bare <==> m.id == 0
  }

  /** A message whose frame has room for all of it. */
  predicate Fits(id: int, payload: nat) {
    payload + HeadSize(id) < U32
  }

  /** A message whose frame has, after wrapping around, not even room for its header. */
  predicate Wraps(id: int, payload: nat) {
    Low32(payload + HeadSize(id)) < HeadSize(id)
  }

  predicate Sendable(m: Msg) {
    0 <= m.id < U32 && Fits(m.id, |m.payload|)
  }

  /** A frame as a length word and a body. */
  lemma FrameIsBody(m: Msg, rest: seq<byte>, bare: byte)
    requires 0 <= m.id < U32 && !Wraps(m.id, |m.payload|)
    ensures Frame(m).Some?
    ensures var kept := m.payload[..Low32(|m.payload| + HeadSize(m.id)) - HeadSize(m.id)];
            ParseMsg(Frame(m).value + rest, bare) ==
            if m.typ == bare then Request(Msg(bare, 0, (if m.id > 0 then BE32(m.id) else []) + kept), rest)
            else if m.id > 0 then Request(Msg(m.typ, m.id, kept), rest)
            else if |kept| < 4 then BadFrame
            else Request(Msg(m.typ, FromBE32(kept), kept[4..]), rest)
  {
    hide BE32, FromBE32, ParseMsg, Low32;
    assert Low32(|m.payload| + HeadSize(m.id)) <= |m.payload| + HeadSize(m.id) by {
      Low32Step(|m.payload| + HeadSize(m.id), 0);
    }
    var kept := m.payload[..Low32(|m.payload| + HeadSize(m.id)) - HeadSize(m.id)];
    var word := if m.id > 0 then BE32(m.id) else [];
    var body := [m.typ] + word + kept;
    assert Frame(m).value + rest == BE32(|body|) + (body + rest);
    ParsesBody(body, rest, bare);
    assert body[1..] == word + kept;
    if m.id > 0 {
      HeadWord(m.id, kept);
      assert body[5..] == kept && Low32(m.id) == m.id by {
        hide *;
        LowWord(m.id);
      }
    } else if |kept| >= 4 {
      assert body[1..] == kept && body[5..] == kept[4..];
    }
  }

  /** A message that fits its frame and carries an id unless it is bare reads back, with what follows
      it; no other does. */
  lemma FrameReadsBack(m: Msg, rest: seq<byte>, bare: byte)
    requires 0 <= m.id < U32
    ensures Frame(m).Some? <==> !Wraps(m.id, |m.payload|)
    ensures Frame(m).Some? ==> (ParseMsg(Frame(m).value + rest, bare) == Request(m, rest)
                                <==> Framed(m, bare) && Fits(m.id, |m.payload|))
    ensures Sendable(m) && ParseMsg(Frame(m).value + rest, bare).Request? ==>
              ParseMsg(Frame(m).value + rest, bare).rest == rest
  {
    hide BE32, FromBE32, ParseMsg;
    if !Wraps(m.id, |m.payload|) {
      FrameIsBody(m, rest, bare);
    }
    assert m.payload[..|m.payload|] == m.payload;
  }

  /** The frame of a message that fits: the length of what follows, the type, the id if there is one, and
      the payload. */
  lemma FrameLayout(m: Msg)
    requires Sendable(m)
    ensures Frame(m) == Some(if m.id > 0 then BE32(5 + |m.payload|) + [m.typ] + BE32(m.id) + m.payload
                             else BE32(1 + |m.payload|) + [m.typ] + m.payload)
  {
    hide BE32, Low32;
    LowWord(|m.payload| + HeadSize(m.id));
    assert m.payload[..|m.payload|] == m.payload && [m.typ] + [] == [m.typ];
    assert BE32(1 + |m.payload|) + [m.typ] + [] + m.payload == BE32(1 + |m.payload|) + [m.typ] + m.payload;
  }

  /** The frames of a run of messages, in order. */
  function Frames(ms: seq<Msg>): seq<byte>
    requires forall m <- ms :: Sendable(m)
  {
    if ms == [] then [] else FrameBytes(ms[0]) + Frames(ms[1..])
  }

  function FrameBytes(m: Msg): seq<byte>
    requires Sendable(m)
  {
    assert Frame(m).Some?;
    Frame(m).value
  }

  /** The head of a run of framed requests is read as its first one. */
  lemma FirstFrame(ms: seq<Msg>, bare: byte)
    requires ms != [] && forall m <- ms :: Sendable(m) && Framed(m, bare)
    ensures forall m <- ms[1..] :: Sendable(m) && Framed(m, bare)
    ensures ParseMsg(Frames(ms), bare) == Request(ms[0], Frames(ms[1..]))
  {
    hide ParseMsg, Frame, Sendable, Framed;
    var m := ms[0];
    assert Sendable(m) && Framed(m, bare);
    SendableFits(m);
    FrameReadsBack(m, Frames(ms[1..]), bare);
  }

  lemma SendableFits(m: Msg)
    requires Sendable(m)
    ensures 0 <= m.id < U32 && Fits(m.id, |m.payload|) && Frame(m).Some?
  {
  }

  /** A frame that is cut short is not read as a message. */
  lemma CutFrame(m: Msg, k: nat, bare: byte)
    requires Sendable(m) && k < |FrameBytes(m)|
    ensures !ParseMsg(FrameBytes(m)[..k], bare).Request?
  {
    hide BE32, FromBE32;
    var word := if m.id > 0 then BE32(m.id) else [];
    var body := [m.typ] + word + m.payload;
    assert m.payload[..|m.payload|] == m.payload;
    assert FrameBytes(m) == BE32(|body|) + body by {
      SendableFits(m);
      LowWord(|m.payload| + HeadSize(m.id));
    }
    HeadWord(|body|, body);
    LowWord(|body|);
    var input := FrameBytes(m)[..k];
    if |input| >= 4 {
      WordInPrefix(input, FrameBytes(m)[k..], FrameBytes(m));
      assert input + FrameBytes(m)[k..] == FrameBytes(m);
    }
  }

  /** Reading messages until the input ends; None when the input does not end on a frame. */
  function ReadAll(input: seq<byte>, bare: byte): Option<seq<Msg>>
    decreases |input|
  {
    match ParseMsg(input, bare)
    case EndOfInput => if input == [] then Some([]) else None
    case Request(m, rest) =>
      (match ReadAll(rest, bare) case None => None case Some(ms) => Some([m] + ms))
    case _ => None
  }

  /** A run of messages written one after the other is read back in order, to the last byte, exactly
      when every one of them carries an id unless it is of the type without one. */
  lemma {:induction false} FrameStreamReadsBack(ms: seq<Msg>, bare: byte)
    requires forall m <- ms :: Sendable(m)
    ensures ReadAll(Frames(ms), bare) == Some(ms) <==> forall m <- ms :: Framed(m, bare)
  {
    if ms != [] {
      var m, rest := ms[0], ms[1..];
      assert Sendable(m);
      FrameReadsBack(m, Frames(rest), bare);
      FrameStreamReadsBack(rest, bare);
      hide ParseMsg, Frame, Sendable;
      assert ms == [m] + rest;
      var r := ParseMsg(FrameBytes(m) + Frames(rest), bare);
      if r.Request? {
        assert Framed(m, bare) <==> r.m == m;
        var more := ReadAll(r.rest, bare);
        assert more.Some? ==> ([r.m] + more.value == ms <==> r.m == m && more.value == rest) by {
          if more.Some? {
            assert ([r.m] + more.value)[0] == r.m && ([r.m] + more.value)[1..] == more.value;
          }
        }
      }
    }
  }
}
