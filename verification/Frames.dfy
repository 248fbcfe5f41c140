/** The gateway's wire format: 16-byte big-endian frame headers, frames on a stream, and
    the JSON/stream split of an operate body. */
module Frames {
  import opened Wrappers

  const MAGIC: nat := 0x4F43_5354
  const VERSION: nat := 1
  const HEADER_LEN: nat := 16
  const MAX_BODY_LEN: nat := 16 * 1024 * 1024

  const U8: nat := 0x100
  const U16: nat := 0x1_0000
  const U32: nat := 0x1_0000_0000

  datatype Header = Header(magic: nat, version: nat, flags: nat, msgType: nat, seqNo: nat, bodyLen: nat)

  /** The fields fit their widths. */
  predicate Fits(h: Header) {
    h.magic < U32 && h.version < U8 && h.flags < U8 && h.msgType < U16 && h.seqNo < U32 && h.bodyLen < U32
  }

  datatype HeaderResult = GoodHeader(header: Header) | TooShort | BadMagic | BadVersion | TooLarge

  function Put(n: nat, width: nat): (bytes: seq<byte>)
    ensures |bytes| == width
  {
    if width == 0 then [] else Put(n / 256, width - 1) + [(n % 256) as byte]
  }

  function Get(bytes: seq<byte>): nat {
    if bytes == [] then 0 else Get(bytes[..|bytes| - 1]) * 256 + bytes[|bytes| - 1] as nat
  }

  function Power(width: nat): nat {
    if width == 0 then 1 else 256 * Power(width - 1)
  }

  lemma {:induction false} GetPut(n: nat, width: nat)
    requires n < Power(width)
    ensures Get(Put(n, width)) == n
  {
    if width > 0 {
      GetPut(n / 256, width - 1);
      assert Put(n, width)[..width - 1] == Put(n / 256, width - 1);
    }
  }

  lemma {:induction false} PutGet(bytes: seq<byte>)
    ensures Put(Get(bytes), |bytes|) == bytes && Get(bytes) < Power(|bytes|)
  {
    if bytes != [] {
      var init := bytes[..|bytes| - 1];
      PutGet(init);
      assert Get(bytes) / 256 == Get(init) && Get(bytes) % 256 == bytes[|bytes| - 1] as nat;
    }
  }

  lemma Widths()
    ensures Power(1) == U8 && Power(2) == U16 && Power(4) == U32
  {
    assert Power(3) == 256 * Power(2) && Power(4) == 256 * Power(3);
  }

  function HeaderBytes(h: Header): (bytes: seq<byte>)
    ensures |bytes| == HEADER_LEN
  {
    Put(h.magic, 4) + Put(h.version, 1) + Put(h.flags, 1) + Put(h.msgType, 2) + Put(h.seqNo, 4) + Put(h.bodyLen, 4)
  }

  function Fields(buf: seq<byte>): Header
    requires |buf| >= HEADER_LEN
  {
    Header(Get(buf[0..4]), Get(buf[4..5]), Get(buf[5..6]), Get(buf[6..8]), Get(buf[8..12]), Get(buf[12..16]))
  }

  function UnmarshalFrameHeader(buf: seq<byte>): HeaderResult {
    if |buf| < HEADER_LEN then TooShort
    else
      var h := Fields(buf);
      if h.magic != MAGIC then BadMagic
      else if h.version != VERSION then BadVersion
      else if h.bodyLen > MAX_BODY_LEN then TooLarge
      else GoodHeader(h)
  }

  /** Writes a number into a buffer, most significant byte first. */
  method PutAt(buf: array<byte>, at: nat, n: nat, width: nat)
    requires at + width <= buf.Length
    modifies buf
    ensures buf[..at + width] == old(buf[..at]) + Put(n, width) && buf[at + width..] == old(buf[at + width..])
  {
    var k, rest := width, n;
    while k > 0
      invariant 0 <= k <= width && buf[..at + k] == old(buf[..at + k]) && buf[at + width..] == old(buf[at + width..])
      invariant Put(n, width) == Put(rest, k) + buf[at + k..at + width]
    {
      k := k - 1;
      buf[at + k] := (rest % 256) as byte;
      rest := rest / 256;
    }
    assert buf[..at + width] == buf[..at] + buf[at..at + width];
  }

  /** The header, written field by field into its buffer. */
  method MarshalFrameHeader(h: Header) returns (buf: array<byte>)
    requires Fits(h)
    ensures fresh(buf) && buf[..] == HeaderBytes(h)
  {
    hide Put;
    buf := new byte[HEADER_LEN];
    assert buf[..0] == [];
    PutAt(buf, 0, h.magic, 4);
    PutAt(buf, 4, h.version, 1);
    PutAt(buf, 5, h.flags, 1);
    PutAt(buf, 6, h.msgType, 2);
    PutAt(buf, 8, h.seqNo, 4);
    PutAt(buf, 12, h.bodyLen, 4);
    assert buf[..] == buf[..HEADER_LEN];
  }

  lemma HeaderParts(h: Header)
    ensures var b := HeaderBytes(h);
            && b[0..4] == Put(h.magic, 4) && b[4..5] == Put(h.version, 1) && b[5..6] == Put(h.flags, 1)
            && b[6..8] == Put(h.msgType, 2) && b[8..12] == Put(h.seqNo, 4) && b[12..16] == Put(h.bodyLen, 4)
  {
  }

  lemma FieldsOfBytes(h: Header)
    requires Fits(h)
    ensures Fields(HeaderBytes(h)) == h
  {
    Widths();
    HeaderParts(h);
    GetPut(h.magic, 4);
    GetPut(h.version, 1);
    GetPut(h.flags, 1);
    GetPut(h.msgType, 2);
    GetPut(h.seqNo, 4);
    GetPut(h.bodyLen, 4);
  }

  lemma BytesOfFields(buf: seq<byte>)
    requires |buf| >= HEADER_LEN
    ensures Fits(Fields(buf)) && HeaderBytes(Fields(buf)) == buf[..HEADER_LEN]
  {
    Widths();
    PutGet(buf[0..4]);
    PutGet(buf[4..5]);
    PutGet(buf[5..6]);
    PutGet(buf[6..8]);
    PutGet(buf[8..12]);
    PutGet(buf[12..16]);
    assert buf[..HEADER_LEN] == buf[0..4] + buf[4..5] + buf[5..6] + buf[6..8] + buf[8..12] + buf[12..16];
  }

  predicate Acceptable(h: Header) {
    Fits(h) && h.magic == MAGIC && h.version == VERSION && h.bodyLen <= MAX_BODY_LEN
  }

  /** A header is read from a buffer exactly when the buffer starts with its bytes and it
      is acceptable. */
  lemma HeaderReadExactly(buf: seq<byte>, h: Header)
    ensures UnmarshalFrameHeader(buf) == GoodHeader(h) <==> |buf| >= HEADER_LEN && Acceptable(h) && buf[..HEADER_LEN] == HeaderBytes(h)
  {
    if |buf| >= HEADER_LEN {
      BytesOfFields(buf);
      if Fits(h) {
        FieldsOfBytes(h);
        SamePrefix(buf);
      }
    }
  }

  lemma SamePrefix(buf: seq<byte>)
    requires |buf| >= HEADER_LEN
    ensures Fields(buf) == Fields(buf[..HEADER_LEN])
  {
    var b := buf[..HEADER_LEN];
    assert b[0..4] == buf[0..4] && b[4..5] == buf[4..5] && b[5..6] == buf[5..6];
    assert b[6..8] == buf[6..8] && b[8..12] == buf[8..12] && b[12..16] == buf[12..16];
  }

  /** A number of four bytes, as it stands in a buffer. */
  lemma FourBytes(b: seq<byte>, at: nat, n: nat)
    requires n < U32 && at + 4 <= |b| && b[at..at + 4] == Put(n, 4)
    ensures b[at] == n / 0x100_0000 && b[at + 1] == n / 0x1_0000 % 256 && b[at + 2] == n / 256 % 256 && b[at + 3] == n % 256
  {
    hide Put;
    DivTwice(n);
    var n1 := n / 256;
    var n2 := n1 / 256;
    var n3 := n2 / 256;
    LastByte(n, 4);
    LastByte(n1, 3);
    LastByte(n2, 2);
    LastByte(n3, 1);
    var part := b[at..at + 4];
    assert b[at] == part[0] && b[at + 1] == part[1] && b[at + 2] == part[2] && b[at + 3] == part[3];
  }

  lemma DivTwice(n: nat)
    ensures n / 256 / 256 == n / 0x1_0000 && n / 256 / 256 / 256 == n / 0x100_0000
    ensures n < U32 ==> n / 0x100_0000 % 256 == n / 0x100_0000
  {
  }

  lemma TwoBytes(b: seq<byte>, at: nat, n: nat)
    requires n < U16 && at + 2 <= |b| && b[at..at + 2] == Put(n, 2)
    ensures b[at] == n / 256 && b[at + 1] == n % 256
  {
    LastByte(n, 2);
    LastByte(n / 256, 1);
    hide Put;
    var part := b[at..at + 2];
    assert b[at] == part[0] && b[at + 1] == part[1];
  }

  lemma OneByte(b: seq<byte>, at: nat, n: nat)
    requires n < U8 && at < |b| && b[at..at + 1] == Put(n, 1)
    ensures b[at] == n
  {
    LastByte(n, 1);
    hide Put;
    assert b[at] == b[at..at + 1][0];
  }

  lemma LastByte(n: nat, width: nat)
    requires width > 0
    ensures Put(n, width)[width - 1] == n % 256
    ensures forall i | 0 <= i < width - 1 :: Put(n, width)[i] == Put(n / 256, width - 1)[i]
  {
  }

  // ----- frames on a stream -----

  /** What a caller sends: flags, type and sequence number, and a body. */
  datatype Frame = Frame(flags: nat, msgType: nat, seqNo: nat, body: seq<byte>)

  predicate Sendable(f: Frame) {
    f.flags < U8 && f.msgType < U16 && f.seqNo < U32
  }

  /** Magic, version and length are filled in; the length keeps its low 32 bits. */
  function HeaderOf(f: Frame): Header {
    Header(MAGIC, VERSION, f.flags, f.msgType, f.seqNo, |f.body| % U32)
  }

  function MarshalFrame(f: Frame): seq<byte> {
    HeaderBytes(HeaderOf(f)) + f.body
  }

  /** Every frame starts with "OCST" and version 1, then flags, type, sequence number and
      length, each with its most significant byte first. */
  lemma FrameLayout(f: Frame)
    requires Sendable(f)
    ensures var b, n := MarshalFrame(f), |f.body| % 0x1_0000_0000;
            && |b| == 16 + |f.body| && b[16..] == f.body
            && b[..5] == [0x4F, 0x43, 0x53, 0x54, 1] && b[5] == f.flags && b[6] == f.msgType / 256 && b[7] == f.msgType % 256
            && b[8] == f.seqNo / 0x100_0000 && b[9] == f.seqNo / 0x1_0000 % 256 && b[10] == f.seqNo / 256 % 256 && b[11] == f.seqNo % 256
            && b[12] == n / 0x100_0000 && b[13] == n / 0x1_0000 % 256 && b[14] == n / 256 % 256 && b[15] == n % 256
  {
    var h, b := HeaderOf(f), MarshalFrame(f);
    var head := HeaderBytes(h);
    HeaderParts(h);
    hide HeaderBytes, Put;
    FourBytes(head, 0, h.magic);
    OneByte(head, 4, h.version);
    OneByte(head, 5, h.flags);
    TwoBytes(head, 6, h.msgType);
    FourBytes(head, 8, h.seqNo);
    FourBytes(head, 12, h.bodyLen);
    assert b[..16] == head;
    assert b[..5] == [b[0], b[1], b[2], b[3], b[4]];
  }

  datatype ReadResult = Read(frame: Frame, rest: seq<byte>) | Closed | Refused(reason: HeaderResult)

  /** One frame from the front of a stream. */
  function ReadFrame(stream: seq<byte>): ReadResult {
    if |stream| < HEADER_LEN then Closed
    else
      match UnmarshalFrameHeader(stream[..HEADER_LEN])
      case GoodHeader(h) =>
        var left := stream[HEADER_LEN..];
        if |left| < h.bodyLen then Closed
        else Read(Frame(h.flags, h.msgType, h.seqNo, left[..h.bodyLen]), left[h.bodyLen..])
      case bad => Refused(bad)
  }

  /** A connection read frame by frame. */
  class Connection {
    var incoming: seq<byte>

    method ReadFull(n: nat) returns (ok: bool, bytes: seq<byte>)
      modifies this
      ensures ok <==> n <= |old(incoming)|
      ensures ok ==> old(incoming) == bytes + incoming && |bytes| == n
    {
      ok, bytes := n <= |incoming|, [];
      if ok {
        bytes, incoming := incoming[..n], incoming[n..];
      }
    }

    method ReadOne() returns (r: ReadResult)
      modifies this
      ensures match r
        case Read(f, rest) => ReadFrame(old(incoming)) == r && incoming == rest
        case Closed => ReadFrame(old(incoming)) == Closed
        case Refused(_) => ReadFrame(old(incoming)) == r
    {
      ghost var stream := incoming;
      var ok, head := ReadFull(HEADER_LEN);
      if !ok {
        return Closed;
      }
      assert stream[..HEADER_LEN] == head && stream[HEADER_LEN..] == incoming;
      var h := UnmarshalFrameHeader(head);
      if !h.GoodHeader? {
        return Refused(h);
      }
      ghost var left := incoming;
      var body: seq<byte>;
      ok, body := ReadFull(h.header.bodyLen);
      if !ok {
        return Closed;
      }
      assert left[..h.header.bodyLen] == body && left[h.header.bodyLen..] == incoming;
      return Read(Frame(h.header.flags, h.header.msgType, h.header.seqNo, body), incoming);
    }
  }

  /** A frame comes back from the stream, with what followed it, exactly when its body is
      within the limit. */
  lemma FrameRoundTripExactly(f: Frame, rest: seq<byte>)
    requires Sendable(f)
    ensures ReadFrame(MarshalFrame(f) + rest) == Read(f, rest) <==> |f.body| <= 0x100_0000
  {
    var stream := MarshalFrame(f) + rest;
    assert stream[..HEADER_LEN] == HeaderBytes(HeaderOf(f));
    assert stream[HEADER_LEN..] == f.body + rest;
    assert stream[..HEADER_LEN][..HEADER_LEN] == stream[..HEADER_LEN];
    FieldsOfBytes(HeaderOf(f));
    if |f.body| <= MAX_BODY_LEN {
      assert |f.body| % U32 == |f.body|;
      assert (f.body + rest)[..|f.body|] == f.body && (f.body + rest)[|f.body|..] == rest;
    }
  }

  function MarshalAll(frames: seq<Frame>): seq<byte> {
    if frames == [] then [] else MarshalFrame(frames[0]) + MarshalAll(frames[1..])
  }

  /** All frames of a stream, as long as they can be read; `left` is what remains. */
  function ReadAll(stream: seq<byte>): (seq<Frame>, seq<byte>)
    decreases |stream|
  {
    match ReadFrame(stream)
    case Read(f, rest) =>
      ReadShrinks(stream);
      var (frames, left) := ReadAll(rest);
      ([f] + frames, left)
    case _ => ([], stream)
  }

  lemma ReadShrinks(stream: seq<byte>)
    ensures ReadFrame(stream).Read? ==> |ReadFrame(stream).rest| < |stream|
  {
  }

  /** Any frames within the limit, one after the other on a stream, are read back in
      order with nothing left over. */
  lemma {:induction false} StreamRoundTrip(frames: seq<Frame>)
    requires forall i | 0 <= i < |frames| :: Sendable(frames[i]) && |frames[i].body| <= MAX_BODY_LEN
    ensures ReadAll(MarshalAll(frames)) == (frames, [])
  {
    if frames != [] {
      FrameRoundTripExactly(frames[0], MarshalAll(frames[1..]));
      StreamRoundTrip(frames[1..]);
      assert [frames[0]] + frames[1..] == frames;
    }
  }

  /** What was read from a stream is, frame by frame, what the stream begins with: no
      other bytes parse to these frames. */
  lemma {:induction false} ReadIsMarshal(stream: seq<byte>)
    ensures var (frames, left) := ReadAll(stream); MarshalAll(frames) + left == stream
    decreases |stream|
  {
    if ReadFrame(stream).Read? {
      var f, rest := ReadFrame(stream).frame, ReadFrame(stream).rest;
      ReadShrinks(stream);
      ReadIsMarshal(rest);
      OneReadIsMarshal(stream);
      var (frames, left) := ReadAll(rest);
      var all := [f] + frames;
      assert ReadAll(stream) == (all, left);
      assert all[0] == f && all[1..] == frames;
      assert MarshalAll(all) == MarshalFrame(f) + MarshalAll(frames);
      Glue(MarshalFrame(f), MarshalAll(frames), left);
      assert MarshalAll(all) + left == stream;
    } else {
      assert ReadAll(stream) == ([], stream);
      assert MarshalAll([]) + stream == stream;
    }
  }

  lemma Glue(a: seq<byte>, b: seq<byte>, c: seq<byte>)
    ensures a + b + c == a + (b + c)
  {
  }

  lemma OneReadIsMarshal(stream: seq<byte>)
    requires ReadFrame(stream).Read?
    ensures MarshalFrame(ReadFrame(stream).frame) + ReadFrame(stream).rest == stream
  {
    var h := UnmarshalFrameHeader(stream[..HEADER_LEN]).header;
    HeaderReadExactly(stream[..HEADER_LEN], h);
    assert stream[..HEADER_LEN][..HEADER_LEN] == stream[..HEADER_LEN];
    assert h.bodyLen % U32 == h.bodyLen;
    assert HeaderOf(ReadFrame(stream).frame) == h;
    var left := stream[HEADER_LEN..];
    assert left[..h.bodyLen] + left[h.bodyLen..] == left;
  }

  // ----- the body of an operation -----

  datatype Split = Parts(json: seq<byte>, data: seq<byte>) | BodyTooShort | LengthOverflow

  function MarshalOperateBody(json: seq<byte>, data: seq<byte>): seq<byte> {
    Put(|json| % U32, 4) + json + data
  }

  function SplitOperateBody(body: seq<byte>): Split {
    if |body| < 4 then BodyTooShort
    else
      var n := Get(body[0..4]);
      if n > |body| - 4 then LengthOverflow else Parts(body[4..4 + n], body[4 + n..])
  }

  /** JSON and stream part come back, for every stream part, exactly when the length of
      the JSON fits its prefix. */
  lemma OperateBodyRoundTripExactly(json: seq<byte>, data: seq<byte>)
    ensures SplitOperateBody(MarshalOperateBody(json, data)) == Parts(json, data) <==> |json| < U32
  {
    var body := MarshalOperateBody(json, data);
    assert body[0..4] == Put(|json| % U32, 4);
    Widths();
    GetPut(|json| % U32, 4);
    var n := |json| % U32;
    assert body[4..] == json + data;
    if |json| < U32 {
      assert body[4..4 + n] == json && body[4 + n..] == data;
    } else {
      assert n < |json|;
    }
  }

  /** The prefix is the length of the JSON, most significant byte first. */
  lemma OperateBodyLayout(json: seq<byte>, data: seq<byte>)
    requires |json| < U32
    ensures var b, n := MarshalOperateBody(json, data), |json|;
            && |b| == 4 + |json| + |data| && b[4..] == json + data
            && b[0] == n / 0x100_0000 && b[1] == n / 0x1_0000 % 256 && b[2] == n / 256 % 256 && b[3] == n % 256
  {
    hide Put;
    var b, prefix := MarshalOperateBody(json, data), Put(|json|, 4);
    assert |json| % U32 == |json|;
    assert b[0..4] == prefix && b[4..] == json + data;
    FourBytes(b, 0, |json|);
  }

  /** And a body that splits is the body of its parts. */
  lemma SplitIsMarshal(body: seq<byte>)
    requires SplitOperateBody(body).Parts?
    ensures MarshalOperateBody(SplitOperateBody(body).json, SplitOperateBody(body).data) == body
  {
    Widths();
    PutGet(body[0..4]);
    var n := Get(body[0..4]);
    assert body == body[0..4] + body[4..4 + n] + body[4 + n..];
  }
}
