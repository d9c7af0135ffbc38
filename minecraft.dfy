/**
 * `MinecraftCheck`: a probe that speaks the Server List Ping exchange of
 * the Minecraft protocol. It sends a handshake packet and a status request,
 * reads one status-response packet, scans the JSON text in it for the
 * version name and the player counts, and turns the outcome into a Result.
 *
 * The socket is an oracle: `Connection` says whether connecting failed and,
 * if not, which bytes the server sent back. The bytes the probe writes are
 * what `Check` returns.
 */
module MinecraftCheck {
  import opened Lang
  import opened Strings
  import opened Decimal
  import opened Results
  import opened VarInt

  const DefaultPort: Int32 := 25565
  /** The protocol version the handshake announces (1.20.4). */
  const ProtocolVersion: Int32 := 765
  /** The handshake's next state: 1 asks for the status. */
  const StatusState: Int32 := 1
  /** The largest JSON length `readStatusResponse` accepts. */
  const MaxJsonLength: int := 32767

  /** The probe's configuration: the server's host name and port. */
  datatype Probe = Probe(host: string, port: Int32)

  /** `new MinecraftCheck(host)`: the default game port. */
  function NewProbe(host: string): (p: Probe)
    ensures p.host == host && p.port == 25565
  {
    Probe(host, DefaultPort)
  }

  /** `getDescription()`: "MC:" and the port in decimal, which reads back as the port. */
  function Description(p: Probe): (d: string)
    ensures |d| > 3 && d[..3] == "MC:" && ParseInt(d[3..]) == Some(p.port as int)
  {
    var d := "MC:" + IntToString(p.port);
    assert d[3..] == IntToString(p.port);
    IntToStringRoundTrip(p.port);
    d
  }

  /* ---------------------------------------------------------------------- */
  /* Framing                                                                */
  /* ---------------------------------------------------------------------- */

  /** The largest host name, in bytes, whose handshake body fits in a Java array. */
  const MaxHostBytes: int := 0x7FFF_FFF0

  /** `DataOutputStream.writeShort(port)`: the low 16 bits, high byte first. */
  function ShortBytes(port: Int32): (bs: seq<Byte>)
    ensures |bs| == 2 && (bs[0] as int) * 256 + bs[1] as int == port % 0x1_0000
  {
    var q := port / 0x1_0000;
    var low := port % 0x1_0000;
    assert port == q * 0x1_0000 + low;
    assert port / 256 == q * 256 + low / 256;
    assert (port / 256) % 256 == low / 256;
    assert port % 256 == low % 256;
    [(port / 256) % 256, port % 256]
  }

  /** `writeString`: the length of the bytes as a VarInt, then the bytes. */
  function StringBytes(text: seq<Byte>): seq<Byte>
    requires |text| <= MaxHostBytes
  {
    Encode(|text|) + text
  }

  /** The handshake packet: id 0, protocol version, host, port, next state. */
  function HandshakeBody(hostBytes: seq<Byte>, port: Int32): seq<Byte>
    requires |hostBytes| <= MaxHostBytes
  {
    Encode(0) + Encode(ProtocolVersion) + StringBytes(hostBytes) + ShortBytes(port) + Encode(StatusState)
  }

  /** A packet on the wire: its length as a VarInt, then the packet itself. */
  function Frame(body: seq<Byte>): seq<Byte>
    requires |body| < 0x8000_0000
  {
    Encode(|body|) + body
  }

  /** The handshake body is the host's bytes plus at most eleven bytes. */
  lemma HandshakeBodyLength(hostBytes: seq<Byte>, port: Int32)
    requires |hostBytes| <= MaxHostBytes
    ensures |HandshakeBody(hostBytes, port)| <= |hostBytes| + 11 < 0x8000_0000
  {
    EncodeLength(0);
    EncodeLength(ProtocolVersion);
    EncodeLength(|hostBytes|);
    EncodeLength(StatusState);
  }

  /** `sendHandshake`: builds the packet in a buffer, then writes it framed by its length. */
  method SendHandshake(hostBytes: seq<Byte>, port: Int32) returns (out: seq<Byte>)
    requires |hostBytes| <= MaxHostBytes
    ensures |HandshakeBody(hostBytes, port)| < 0x8000_0000
    ensures out == Frame(HandshakeBody(hostBytes, port))
  {
    HandshakeBodyLength(hostBytes, port);
    var packetId := WriteVarInt(0);
    var version := WriteVarInt(ProtocolVersion);
    var length := WriteVarInt(|hostBytes|);
    var state := WriteVarInt(StatusState);
    var buffer := packetId + version + (length + hostBytes) + ShortBytes(port) + state;
    var frameLength := WriteVarInt(|buffer|);
    out := frameLength + buffer;
  }

  /** `sendStatusRequest`: a one-byte packet holding packet id 0, framed by its length. */
  method SendStatusRequest() returns (out: seq<Byte>)
    ensures out == [0x01, 0x00]
    ensures out == Frame(Encode(0))
  {
    EncodeLength(0);
    EncodeLength(1);
    var length := WriteVarInt(1);
    var packetId := WriteVarInt(0);
    out := length + packetId;
  }

  /* ---------------------------------------------------------------------- */
  /* Reading frames back, as the server does                                */
  /* ---------------------------------------------------------------------- */

  /** The fault of reading past the end of a byte array. */
  const EndOfData := Fault(EndOfStream, None)

  /** Reading `v` at `|pre|` from bytes that hold `Encode(v)` there gives `v` and moves past it. */
  lemma DecodeAt(pre: seq<Byte>, v: Int32, post: seq<Byte>, end: Fault)
    ensures Decode(Incoming(pre + Encode(v) + post, end), |pre|) == Got(v, |pre| + |Encode(v)|)
  {
    var bytes := pre + Encode(v) + post;
    assert bytes[|pre|..|pre| + |Encode(v)|] == Encode(v);
    RoundTrip(v, Incoming(bytes, end), |pre|);
  }

  /** A VarInt at the front of `bytes`: its value and the bytes after it. */
  function ReadInt(bytes: seq<Byte>): (r: Option<(Int32, seq<Byte>)>)
    ensures r.Some? ==> |r.value.1| < |bytes| && r.value.1 == bytes[|bytes| - |r.value.1|..]
  {
    var input := Incoming(bytes, EndOfData);
    var d := Decode(input, 0);
    if d.Threw? then None
    else
      DecodeShape(input, 0);
      Some((d.value, bytes[d.next..]))
  }

  lemma ReadIntEncoded(v: Int32, post: seq<Byte>)
    ensures ReadInt(Encode(v) + post) == Some((v, post))
  {
    DecodeAt([], v, post, EndOfData);
    assert [] + Encode(v) + post == Encode(v) + post;
    assert (Encode(v) + post)[|Encode(v)|..] == post;
  }

  /** A length-framed packet at the front of `bytes`: the packet and the bytes after it. */
  function ParseFrame(bytes: seq<Byte>): Option<(seq<Byte>, seq<Byte>)>
  {
    var (length, rest) :- ReadInt(bytes);
    if 0 <= length <= |rest| then Some((rest[..length], rest[length..])) else None
  }

  /** The framing reads back: the packet, and nothing more, comes out. */
  lemma FrameRoundTrip(body: seq<Byte>, post: seq<Byte>)
    requires |body| < 0x8000_0000
    ensures ParseFrame(Frame(body) + post) == Some((body, post))
  {
    assert Frame(body) + post == Encode(|body|) + (body + post);
    ReadIntEncoded(|body|, body + post);
    assert (body + post)[..|body|] == body;
    assert (body + post)[|body|..] == post;
  }

  /** The fields of a handshake packet, as the server reads them. */
  datatype Handshake = Handshake(packetId: Int32, protocol: Int32, host: seq<Byte>, port: nat, nextState: Int32)

  /** Reads a whole handshake packet; `None` unless the fields use up the packet exactly. */
  function ParseHandshake(body: seq<Byte>): Option<Handshake>
  {
    var (packetId, b1) :- ReadInt(body);
    var (protocol, b2) :- ReadInt(b1);
    var (hostLength, b3) :- ReadInt(b2);
    ParseHandshakeTail(packetId, protocol, hostLength, b3)
  }

  /** The rest of a handshake packet after the host's length: host bytes, port, next state. */
  function ParseHandshakeTail(packetId: Int32, protocol: Int32, hostLength: Int32, b3: seq<Byte>): Option<Handshake>
  {
    if hostLength < 0 || |b3| < hostLength + 2 then None
    else
      var host := b3[..hostLength];
      var b4 := b3[hostLength..];
      var port := (b4[0] as int) * 256 + b4[1] as int;
      var (nextState, b5) :- ReadInt(b4[2..]);
      if b5 != [] then None
      else Some(Handshake(packetId, protocol, host, port, nextState))
  }

  lemma HandshakeTailRoundTrip(hostBytes: seq<Byte>, port: Int32)
    requires |hostBytes| <= MaxHostBytes
    ensures ParseHandshakeTail(0, ProtocolVersion, |hostBytes|, hostBytes + ShortBytes(port) + Encode(StatusState))
         == Some(Handshake(0, ProtocolVersion, hostBytes, port % 0x1_0000, StatusState))
  {
    var short := ShortBytes(port);
    var tail := hostBytes + short + Encode(StatusState);
    assert tail[..|hostBytes|] == hostBytes;
    var b4 := tail[|hostBytes|..];
    assert b4 == short + Encode(StatusState);
    assert b4[2..] == Encode(StatusState) + [];
    ReadIntEncoded(StatusState, []);
  }

  /**
   * The handshake reads back field by field: packet id 0, protocol 765, the
   * host's bytes, the port's low 16 bits and next state 1, with nothing left over.
   */
  lemma HandshakeRoundTrip(hostBytes: seq<Byte>, port: Int32)
    requires |hostBytes| <= MaxHostBytes
    ensures ParseHandshake(HandshakeBody(hostBytes, port))
         == Some(Handshake(0, ProtocolVersion, hostBytes, port % 0x1_0000, StatusState))
  {
    var tail := hostBytes + ShortBytes(port) + Encode(StatusState);
    var b2 := Encode(|hostBytes|) + tail;
    var b1 := Encode(ProtocolVersion) + b2;
    assert HandshakeBody(hostBytes, port) == Encode(0) + b1;
    ReadIntEncoded(0, b1);
    ReadIntEncoded(ProtocolVersion, b2);
    ReadIntEncoded(|hostBytes|, tail);
    HandshakeTailRoundTrip(hostBytes, port);
  }

  /** The whole handshake a probe writes reads back as one frame holding the packet above. */
  lemma SentHandshakeReadsBack(hostBytes: seq<Byte>, port: Int32, post: seq<Byte>)
    requires |hostBytes| <= MaxHostBytes
    ensures |HandshakeBody(hostBytes, port)| < 0x8000_0000
    ensures ParseFrame(Frame(HandshakeBody(hostBytes, port)) + post) == Some((HandshakeBody(hostBytes, port), post))
    ensures ParseHandshake(HandshakeBody(hostBytes, port))
         == Some(Handshake(0, ProtocolVersion, hostBytes, port % 0x1_0000, StatusState))
  {
    HandshakeBodyLength(hostBytes, port);
    FrameRoundTrip(HandshakeBody(hostBytes, port), post);
    HandshakeRoundTrip(hostBytes, port);
  }

  /* ---------------------------------------------------------------------- */
  /* The status response                                                    */
  /* ---------------------------------------------------------------------- */

  /** `new String(bytes, "UTF-8")` on ASCII bytes: one character per byte. */
  function Text(bytes: seq<Byte>): (s: string)
    ensures |s| == |bytes|
    ensures forall i :: 0 <= i < |bytes| ==> s[i] as int == bytes[i]
  {
    seq(|bytes|, i requires 0 <= i < |bytes| => bytes[i] as char)
  }

  /**
   * What `readStatusResponse` returns (`None` for `null`) or throws, reading
   * from `pos`: packet length, packet id and JSON length as VarInts, then
   * exactly that many bytes of JSON text.
   */
  function StatusResponse(input: Incoming, pos: nat): (r: Read<Option<string>>)
    ensures r.Got? && r.value.Some? ==> 0 < |r.value.value| <= MaxJsonLength && r.next <= |input.bytes|
  {
    match Decode(input, pos)
    case Threw(f) => Threw(f)
    case Got(packetLength, p1) =>
      if packetLength < 0 then Got(None, p1) else ResponseAfterLength(input, p1)
  }

  /** The rest of `readStatusResponse` once a non-negative packet length is read. */
  function ResponseAfterLength(input: Incoming, p1: nat): (r: Read<Option<string>>)
    ensures r.Got? && r.value.Some? ==> 0 < |r.value.value| <= MaxJsonLength && r.next <= |input.bytes|
  {
    match Decode(input, p1)
    case Threw(f) => Threw(f)
    case Got(packetId, p2) =>
      if packetId != 0 then Got(None, p2) else ResponseAfterId(input, p2)
  }

  /** The rest of `readStatusResponse` once packet id 0 is read: the JSON string. */
  function ResponseAfterId(input: Incoming, p2: nat): (r: Read<Option<string>>)
    ensures r.Got? && r.value.Some? ==> 0 < |r.value.value| <= MaxJsonLength && r.next <= |input.bytes|
  {
    match Decode(input, p2)
    case Threw(f) => Threw(f)
    case Got(jsonLength, p3) =>
      if jsonLength <= 0 || jsonLength > MaxJsonLength then Got(None, p3)
      else if p3 + jsonLength > |input.bytes| then Threw(input.end)
      else Got(Some(Text(input.bytes[p3..p3 + jsonLength])), p3 + jsonLength)
  }

  /** `readStatusResponse`, reading from `input` at `pos`. */
  method ReadStatusResponse(input: Incoming, pos: nat) returns (r: Read<Option<string>>)
    ensures r == StatusResponse(input, pos)
  {
    var packetLength := ReadVarInt(input, pos);
    if packetLength.Threw? {
      return Threw(packetLength.fault);
    }
    if packetLength.value < 0 {
      return Got(None, packetLength.next);
    }
    var packetId := ReadVarInt(input, packetLength.next);
    if packetId.Threw? {
      return Threw(packetId.fault);
    }
    if packetId.value != 0x00 {
      return Got(None, packetId.next);
    }
    var jsonLength := ReadVarInt(input, packetId.next);
    if jsonLength.Threw? {
      return Threw(jsonLength.fault);
    }
    if jsonLength.value <= 0 || jsonLength.value > MaxJsonLength {
      return Got(None, jsonLength.next);
    }
    var start := jsonLength.next;
    if start + jsonLength.value > |input.bytes| {
      return Threw(input.end);
    }
    var jsonBytes := input.bytes[start..start + jsonLength.value];
    r := Got(Some(Text(jsonBytes)), start + jsonLength.value);
  }

  /** The packet a server answers with: id 0 and the JSON text as a string. */
  function ResponseBody(json: seq<Byte>): (body: seq<Byte>)
    requires 0 < |json| <= MaxJsonLength
    ensures |json| < |body| <= |json| + 6
  {
    EncodeLength(0);
    EncodeLength(|json|);
    Encode(0) + StringBytes(json)
  }

  /** The response on the wire: the packet framed by its length. */
  function ResponseFrame(json: seq<Byte>): seq<Byte>
    requires 0 < |json| <= MaxJsonLength
  {
    Frame(ResponseBody(json))
  }

  /** A well-formed response at `pos` is read back as its JSON text, and no byte past it is read. */
  lemma ResponseRoundTrip(input: Incoming, pos: nat, json: seq<Byte>)
    requires 0 < |json| <= MaxJsonLength
    requires pos + |ResponseFrame(json)| <= |input.bytes|
    requires input.bytes[pos..pos + |ResponseFrame(json)|] == ResponseFrame(json)
    ensures StatusResponse(input, pos) == Got(Some(Text(json)), pos + |ResponseFrame(json)|)
  {
    var frame := ResponseFrame(json);
    var length := |ResponseBody(json)|;
    var n1 := |Encode(length)|;
    var n2 := n1 + |Encode(0)|;
    var n3 := n2 + |Encode(|json|)|;
    ResponseFrameFields(json, length, n1, n2, n3);
    ResponseInFrame(input, pos, frame, json, length, n1, n2, n3);
  }

  /**
   * A frame at `pos` holding a non-negative packet length, packet id 0, the
   * JSON length and the JSON text, each where it sits, reads back as that text.
   */
  lemma ResponseInFrame(input: Incoming, pos: nat, frame: seq<Byte>, json: seq<Byte>, length: Int32, n1: nat, n2: nat, n3: nat)
    requires 0 <= length && 0 < |json| <= MaxJsonLength
    requires pos + |frame| <= |input.bytes| && input.bytes[pos..pos + |frame|] == frame
    requires n1 <= n2 <= n3 && n3 + |json| == |frame|
    requires frame[0..n1] == Encode(length) && frame[n1..n2] == Encode(0) && frame[n2..n3] == Encode(|json|)
    requires frame[n3..n3 + |json|] == json
    ensures StatusResponse(input, pos) == Got(Some(Text(json)), pos + |frame|)
  {
    var read := Got(Some(Text(json)), pos + |frame|);
    AfterIdInFrame(input, pos, frame, json, n2, n3);
    AfterLengthInFrame(input, pos, frame, n1, n2, read);
    LengthInFrame(input, pos, frame, length, n1, read);
  }

  /** The non-negative packet length of a frame at `pos` hands on to the packet id. */
  lemma LengthInFrame(input: Incoming, pos: nat, frame: seq<Byte>, length: Int32, n1: nat, read: Read<Option<string>>)
    requires 0 <= length
    requires pos + |frame| <= |input.bytes| && input.bytes[pos..pos + |frame|] == frame
    requires n1 <= |frame| && frame[0..n1] == Encode(length)
    requires ResponseAfterLength(input, pos + n1) == read
    ensures StatusResponse(input, pos) == read
  {
    assert pos <= pos + n1 <= |input.bytes| && input.bytes[pos..pos + n1] == Encode(length) by {
      SubSlice(input.bytes, pos, frame, 0, n1, pos, pos + n1, Encode(length));
    }
    LengthReads(input, pos, pos + n1, length, read);
  }

  /** The JSON length and text of a frame at `pos`, read from where the packet id ends. */
  lemma AfterIdInFrame(input: Incoming, pos: nat, frame: seq<Byte>, json: seq<Byte>, n2: nat, n3: nat)
    requires 0 < |json| <= MaxJsonLength
    requires pos + |frame| <= |input.bytes| && input.bytes[pos..pos + |frame|] == frame
    requires n2 <= n3 && n3 + |json| == |frame|
    requires frame[n2..n3] == Encode(|json|) && frame[n3..n3 + |json|] == json
    ensures ResponseAfterId(input, pos + n2) == Got(Some(Text(json)), pos + |frame|)
  {
    var p2, p3, end := pos + n2, pos + n3, pos + |frame|;
    assert p2 <= p3 <= |input.bytes| && input.bytes[p2..p3] == Encode(|json|) by {
      SubSlice(input.bytes, pos, frame, n2, n3, p2, p3, Encode(|json|));
    }
    assert end == p3 + |json| <= |input.bytes| && input.bytes[p3..end] == json by {
      SubSlice(input.bytes, pos, frame, n3, |frame|, p3, end, json);
    }
    AfterIdReads(input, p2, p3, json, end);
  }

  /** The packet id 0 of a frame at `pos`, read from where the packet length ends. */
  lemma AfterLengthInFrame(input: Incoming, pos: nat, frame: seq<Byte>, n1: nat, n2: nat, read: Read<Option<string>>)
    requires pos + |frame| <= |input.bytes| && input.bytes[pos..pos + |frame|] == frame
    requires n1 <= n2 <= |frame| && frame[n1..n2] == Encode(0)
    requires ResponseAfterId(input, pos + n2) == read
    ensures ResponseAfterLength(input, pos + n1) == read
  {
    var p1, p2 := pos + n1, pos + n2;
    assert p1 <= p2 <= |input.bytes| && input.bytes[p1..p2] == Encode(0) by {
      SubSlice(input.bytes, pos, frame, n1, n2, p1, p2, Encode(0));
    }
    AfterLengthReads(input, p1, p2, read);
  }

  /** A non-negative packet length at `pos` hands on to the packet id. */
  lemma LengthReads(input: Incoming, pos: nat, p1: nat, length: Int32, read: Read<Option<string>>)
    requires 0 <= length && pos <= p1 <= |input.bytes| && input.bytes[pos..p1] == Encode(length)
    requires ResponseAfterLength(input, p1) == read
    ensures StatusResponse(input, pos) == read
  {
    RoundTrip(length, input, pos);
  }

  /** After a non-negative packet length, packet id 0 hands on to the JSON string. */
  lemma AfterLengthReads(input: Incoming, p1: nat, p2: nat, read: Read<Option<string>>)
    requires p1 <= p2 <= |input.bytes| && input.bytes[p1..p2] == Encode(0)
    requires ResponseAfterId(input, p2) == read
    ensures ResponseAfterLength(input, p1) == read
  {
    RoundTrip(0, input, p1);
  }

  /** After the packet id, a JSON length in range and that many bytes read back as the text. */
  lemma AfterIdReads(input: Incoming, p2: nat, p3: nat, json: seq<Byte>, end: nat)
    requires 0 < |json| <= MaxJsonLength
    requires p2 <= p3 <= |input.bytes| && input.bytes[p2..p3] == Encode(|json|)
    requires end == p3 + |json| <= |input.bytes| && input.bytes[p3..end] == json
    ensures ResponseAfterId(input, p2) == Got(Some(Text(json)), end)
  {
    RoundTrip(|json|, input, p2);
  }

  /** Where the fields of a response frame sit in it. */
  lemma ResponseFrameFields(json: seq<Byte>, length: nat, n1: nat, n2: nat, n3: nat)
    requires 0 < |json| <= MaxJsonLength
    requires length == |ResponseBody(json)| && n1 == |Encode(length)|
    requires n2 == n1 + |Encode(0)| && n3 == n2 + |Encode(|json|)|
    ensures n3 + |json| == |ResponseFrame(json)|
    ensures ResponseFrame(json)[0..n1] == Encode(length)
    ensures ResponseFrame(json)[n1..n2] == Encode(0)
    ensures ResponseFrame(json)[n2..n3] == Encode(|json|)
    ensures ResponseFrame(json)[n3..n3 + |json|] == json
  {
    EncodeLength(|json|);
    var e1 := Encode(length);
    var e2 := Encode(0);
    var e3 := Encode(|json|);
    var frame := ResponseFrame(json);
    assert frame == e1 + (e2 + (e3 + json));
    MiddleOf([], e1, e2 + (e3 + json));
    MiddleOf(e1, e2, e3 + json);
    assert frame == (e1 + e2) + (e3 + json);
    MiddleOf(e1 + e2, e3, json);
    assert frame == (e1 + e2 + e3) + (json + []);
    MiddleOf(e1 + e2 + e3, json, []);
  }

  /** The middle part of `a + (m + rest)`. */
  lemma MiddleOf(a: seq<Byte>, m: seq<Byte>, rest: seq<Byte>)
    ensures (a + (m + rest))[|a|..|a| + |m|] == m
  {
  }

  /** A slice of the bytes inside a slice equal to `frame` is the same slice of `frame`. */
  lemma SubSlice(bytes: seq<Byte>, pos: nat, frame: seq<Byte>, a: nat, b: nat, from: nat, to: nat, part: seq<Byte>)
    requires pos + |frame| <= |bytes| && bytes[pos..pos + |frame|] == frame && a <= b <= |frame|
    requires from == pos + a && to == pos + b && frame[a..b] == part
    ensures from <= to <= |bytes| && bytes[from..to] == part
  {
    forall i | from <= i < to
      ensures bytes[i] == frame[i - pos]
    {
      assert bytes[i] == bytes[pos..pos + |frame|][i - pos];
    }
  }

  /** A frame whose packet id is not 0 is answered with `null`, after reading just the id. */
  lemma WrongPacketId(pre: seq<Byte>, id: Int32, rest: seq<Byte>, end: Fault)
    requires id != 0 && |Encode(id) + rest| < 0x8000_0000
    ensures var p := |pre| + |Encode(|Encode(id) + rest|)|;
            StatusResponse(Incoming(pre + Frame(Encode(id) + rest), end), |pre|) == Got(None, p + |Encode(id)|)
  {
    EncodeLength(id);
    var body := Encode(id) + rest;
    var e1 := Encode(|body|);
    var bytes := pre + Frame(body);
    assert bytes == pre + e1 + (Encode(id) + rest);
    DecodeAt(pre, |body|, Encode(id) + rest, end);
    assert bytes == (pre + e1) + Encode(id) + rest;
    DecodeAt(pre + e1, id, rest, end);
  }

  /** A negative packet length is answered with `null`, after reading just the length. */
  lemma NegativeLength(pre: seq<Byte>, length: Int32, rest: seq<Byte>, end: Fault)
    requires length < 0
    ensures StatusResponse(Incoming(pre + Encode(length) + rest, end), |pre|) == Got(None, |pre| + 5)
  {
    EncodeLength(length);
    DecodeAt(pre, length, rest, end);
  }

  /**
   * A JSON length of 0 or less, or above 32767, after a non-negative packet
   * length and packet id 0, is answered with `null` once the length is read.
   */
  lemma BadJsonLength(input: Incoming, pos: nat, p1: nat, p2: nat, p3: nat, length: Int32, len: Int32)
    requires 0 <= length && pos <= p1 <= p2 <= p3 <= |input.bytes|
    requires input.bytes[pos..p1] == Encode(length) && input.bytes[p1..p2] == Encode(0)
    requires input.bytes[p2..p3] == Encode(len)
    requires len <= 0 || len > MaxJsonLength
    ensures StatusResponse(input, pos) == Got(None, p3)
  {
    RoundTrip(len, input, p2);
    AfterLengthReads(input, p1, p2, Got(None, p3));
    LengthReads(input, pos, p1, length, Got(None, p3));
  }

  /**
   * A JSON length in range with fewer bytes left than it announces: reading
   * the text runs into the end of the stream, which is thrown.
   */
  lemma TruncatedPayload(input: Incoming, pos: nat, p1: nat, p2: nat, p3: nat, length: Int32, len: Int32)
    requires 0 <= length && pos <= p1 <= p2 <= p3 <= |input.bytes|
    requires input.bytes[pos..p1] == Encode(length) && input.bytes[p1..p2] == Encode(0)
    requires input.bytes[p2..p3] == Encode(len)
    requires 0 < len <= MaxJsonLength && p3 + len > |input.bytes|
    ensures StatusResponse(input, pos) == Threw(input.end)
  {
    RoundTrip(len, input, p2);
    AfterLengthReads(input, p1, p2, Threw(input.end));
    LengthReads(input, pos, p1, length, Threw(input.end));
  }

  /* ---------------------------------------------------------------------- */
  /* Scanning the JSON text                                                 */
  /* ---------------------------------------------------------------------- */

  /** The characters a number value runs over: digits, '-' and '.'. */
  predicate IsNumberChar(c: char)
  {
    IsDigit(c) || c == '-' || c == '.'
  }

  /** The first index at or after `i` that does not hold whitespace. */
  function SkipWhitespace(json: string, i: nat): (j: nat)
    requires i <= |json|
    ensures i <= j <= |json|
    ensures forall k :: i <= k < j ==> IsJavaWhitespace(json[k])
    ensures j == |json| || !IsJavaWhitespace(json[j])
    decreases |json| - i
  {
    if i < |json| && IsJavaWhitespace(json[i]) then SkipWhitespace(json, i + 1) else i
  }

  /** The end of the run of number characters that starts at `i`. */
  function NumberEnd(json: string, i: nat): (j: nat)
    requires i <= |json|
    ensures i <= j <= |json|
    ensures forall k :: i <= k < j ==> IsNumberChar(json[k])
    ensures j == |json| || !IsNumberChar(json[j])
    decreases |json| - i
  {
    if i < |json| && IsNumberChar(json[i]) then NumberEnd(json, i + 1) else i
  }

  /**
   * What `extractJson(json, key)` finds: after the first `"key"` anywhere in
   * the text (at any nesting depth), the first ':' after it and any
   * whitespace, either the text up to the next '"' (escapes are not
   * recognised) or the run of digits, '-' and '.' that starts with a digit or
   * '-'. Nothing in every other case. A value found holds no '"', and there
   * is none when the quoted key does not occur.
   */
  function JsonValue(json: string, key: string): (r: Option<string>)
    ensures r.Some? ==> Unquoted(r.value) && Contains(json, Quoted(key))
  {
    var search := Quoted(key);
    var keyStart := IndexOf(json, search, 0);
    if keyStart < 0 then None else ValueAfterKey(json, keyStart + |search|)
  }

  /** The value after the first ':' at or after `from`. */
  function ValueAfterKey(json: string, from: nat): (r: Option<string>)
    ensures r.Some? ==> Unquoted(r.value)
  {
    var colonPos := IndexOf(json, ":", from);
    if colonPos < 0 then None else ValueAt(json, SkipWhitespace(json, colonPos + 1))
  }

  /** The string or number value that starts at `valueStart`. */
  function ValueAt(json: string, valueStart: nat): (r: Option<string>)
    requires valueStart <= |json|
    ensures r.Some? ==> Unquoted(r.value)
  {
    if valueStart >= |json| then None
    else if json[valueStart] == '"' then
      var valueEnd := IndexOf(json, "\"", valueStart + 1);
      if valueEnd < 0 then None
      else
        UnquotedBetween(json, valueStart + 1, valueEnd);
        Some(json[valueStart + 1..valueEnd])
    else if IsDigit(json[valueStart]) || json[valueStart] == '-' then
      Some(json[valueStart..NumberEnd(json, valueStart)])
    else None
  }

  /**
   * No value at `valueStart` exactly when the text ends there, when a '"'
   * there is never closed, or when the character there starts neither a
   * string nor a number.
   */
  lemma ValueAtNull(json: string, valueStart: nat)
    requires valueStart <= |json|
    ensures ValueAt(json, valueStart) == None <==>
      valueStart == |json|
      || (json[valueStart] == '"' && forall k :: valueStart < k < |json| ==> json[k] != '"')
      || (json[valueStart] != '"' && !IsDigit(json[valueStart]) && json[valueStart] != '-')
  {
    if valueStart < |json| && json[valueStart] == '"' {
      var valueEnd := IndexOf(json, "\"", valueStart + 1);
      if valueEnd >= 0 {
        OccursAtChar(json, '"', valueEnd);
      } else {
        forall k | valueStart < k < |json|
          ensures json[k] != '"'
        {
          OccursAtChar(json, '"', k);
        }
      }
    }
  }

  /** `extractJson(json, key)`, with its two scanning loops; a null text gives null. */
  method ExtractJson(json: Option<string>, key: string) returns (r: Option<string>)
    ensures json.None? ==> r.None?
    ensures json.Some? ==> r == JsonValue(json.value, key)
  {
    if json.None? {
      return None;
    }
    var text := json.value;
    var search := Quoted(key);
    var keyStart := IndexOf(text, search, 0);
    JsonValueAfterKey(text, key, keyStart);
    if keyStart < 0 {
      return None;
    }
    var colonPos := IndexOf(text, ":", keyStart + |search|);
    NoColon(text, keyStart + |search|, colonPos);
    if colonPos < 0 {
      return None;
    }
    var valueStart := colonPos + 1;
    while valueStart < |text| && IsJavaWhitespace(text[valueStart])
      invariant colonPos + 1 <= valueStart <= |text|
      invariant SkipWhitespace(text, valueStart) == SkipWhitespace(text, colonPos + 1)
      decreases |text| - valueStart
    {
      valueStart := valueStart + 1;
    }
    assert valueStart == SkipWhitespace(text, colonPos + 1);
    JsonValueAt(text, key, keyStart, colonPos, valueStart);
    r := ValueAtLoop(text, valueStart);
  }

  /** Once the quoted key is found at `keyStart`, the value is the one after it. */
  lemma JsonValueAfterKey(json: string, key: string, keyStart: int)
    requires keyStart == IndexOf(json, Quoted(key), 0)
    ensures keyStart < 0 ==> JsonValue(json, key) == None
    ensures keyStart >= 0 ==> JsonValue(json, key) == ValueAfterKey(json, keyStart + |Quoted(key)|)
  {
  }

  /** No ':' after the key: no value. */
  lemma NoColon(json: string, from: nat, colonPos: int)
    requires colonPos == IndexOf(json, ":", from)
    ensures colonPos < 0 ==> ValueAfterKey(json, from) == None
  {
  }

  /** Once the ':' is found and the whitespace after it skipped, the value is the one at `valueStart`. */
  lemma ValueAfterColon(json: string, from: nat, colonPos: int, valueStart: nat)
    requires colonPos >= 0 && colonPos == IndexOf(json, ":", from)
    requires colonPos + 1 <= |json| && valueStart == SkipWhitespace(json, colonPos + 1)
    ensures ValueAfterKey(json, from) == ValueAt(json, valueStart)
  {
  }

  /** Found key, found ':', skipped whitespace: the value is the one at `valueStart`. */
  lemma JsonValueAt(json: string, key: string, keyStart: int, colonPos: int, valueStart: nat)
    requires keyStart >= 0 && keyStart == IndexOf(json, Quoted(key), 0)
    requires colonPos >= 0 && colonPos == IndexOf(json, ":", keyStart + |Quoted(key)|)
    requires colonPos + 1 <= |json| && valueStart == SkipWhitespace(json, colonPos + 1)
    ensures JsonValue(json, key) == ValueAt(json, valueStart)
  {
    JsonValueAfterKey(json, key, keyStart);
    ValueAfterColon(json, keyStart + |Quoted(key)|, colonPos, valueStart);
  }

  /** The tail of `extractJson` from the first character of the value on, with the number loop. */
  method ValueAtLoop(text: string, valueStart: nat) returns (r: Option<string>)
    requires valueStart <= |text|
    ensures r == ValueAt(text, valueStart)
  {
    if valueStart >= |text| {
      return None;
    }
    var firstChar := text[valueStart];
    if firstChar == '"' {
      var valueEnd := IndexOf(text, "\"", valueStart + 1);
      if valueEnd < 0 {
        return None;
      }
      return Some(text[valueStart + 1..valueEnd]);
    } else if IsDigit(firstChar) || firstChar == '-' {
      var valueEnd := valueStart;
      while valueEnd < |text| && IsNumberChar(text[valueEnd])
        invariant valueStart <= valueEnd <= |text|
        invariant NumberEnd(text, valueEnd) == NumberEnd(text, valueStart)
        decreases |text| - valueEnd
      {
        valueEnd := valueEnd + 1;
      }
      return Some(text[valueStart..valueEnd]);
    }
    return None;
  }

  /** `json[from..to]` is whitespace. */
  predicate Blank(json: string, from: nat, to: nat)
    requires from <= to <= |json|
  {
    forall k :: from <= k < to ==> IsJavaWhitespace(json[k])
  }

  /**
   * The first `"key"` starts at `at` and is followed by ':', whitespace up to
   * `valueStart` and something that is not whitespace at `valueStart`.
   */
  predicate KeyThenValueAt(json: string, key: string, at: nat, valueStart: nat)
  {
    FirstAt(json, Quoted(key), at)
    && at + |Quoted(key)| < valueStart < |json|
    && json[at + |Quoted(key)|] == ':'
    && Blank(json, at + |Quoted(key)| + 1, valueStart)
    && !IsJavaWhitespace(json[valueStart])
  }

  /** After the key and its ':', the value is the one at `valueStart`. */
  lemma KeyThenValue(json: string, key: string, at: nat, valueStart: nat)
    requires KeyThenValueAt(json, key, at, valueStart)
    ensures JsonValue(json, key) == ValueAt(json, valueStart)
  {
    var q := Quoted(key);
    var colon := at + |q|;
    IndexOfFinds(json, q, 0, at);
    OccursAtChar(json, ':', colon);
    IndexOfFinds(json, ":", colon, colon);
    SkipWhitespaceOver(json, colon + 1, valueStart);
    assert SkipWhitespace(json, colon + 1) == valueStart;
    JsonValueAt(json, key, at, colon, valueStart);
  }

  /** A quoted value from `valueStart` to the '"' at `valueEnd`, with none in between, is read whole. */
  lemma QuotedValueAt(json: string, valueStart: nat, valueEnd: nat)
    requires valueStart < valueEnd < |json| && json[valueStart] == '"' && json[valueEnd] == '"'
    requires Unquoted(json[valueStart + 1..valueEnd])
    ensures ValueAt(json, valueStart) == Some(json[valueStart + 1..valueEnd])
  {
    forall i | valueStart + 1 <= i < valueEnd
      ensures !OccursAt(json, "\"", i)
    {
      OccursAtChar(json, '"', i);
      assert json[i] == json[valueStart + 1..valueEnd][i - valueStart - 1];
    }
    OccursAtChar(json, '"', valueEnd);
    IndexOfFinds(json, "\"", valueStart + 1, valueEnd);
  }

  /** A number value from `valueStart` up to a character that cannot continue it is read whole. */
  lemma NumberValueAt(json: string, valueStart: nat, valueEnd: nat)
    requires valueStart < valueEnd <= |json| && (IsDigit(json[valueStart]) || json[valueStart] == '-')
    requires forall k :: valueStart <= k < valueEnd ==> IsNumberChar(json[k])
    requires valueEnd == |json| || !IsNumberChar(json[valueEnd])
    ensures ValueAt(json, valueStart) == Some(json[valueStart..valueEnd])
  {
    NumberEndOver(json, valueStart, valueEnd);
  }

  /**
   * A string field reads back: when the first `"key"` in the text is followed
   * by ':', optional whitespace and a quoted value without '"', the value is
   * what `extractJson` returns.
   */
  lemma StringFieldReadsBack(pre: string, key: string, space: string, value: string, post: string)
    requires forall k :: 0 <= k < |space| ==> IsJavaWhitespace(space[k])
    requires Unquoted(value)
    requires FirstAt(pre + Quoted(key) + ":" + space + "\"" + value + "\"" + post, Quoted(key), |pre|)
    ensures JsonValue(pre + Quoted(key) + ":" + space + "\"" + value + "\"" + post, key) == Some(value)
  {
    var json := pre + Quoted(key) + ":" + space + "\"" + value + "\"" + post;
    var head := pre + Quoted(key) + ":" + space;
    var tail := "\"" + value + "\"" + post;
    var vs := |head|;
    var ve := vs + 1 + |value|;
    HeadLayout(pre, Quoted(key), space);
    assert json == head + tail;
    assert json[vs] == '"' && json[ve] == '"';
    assert json[vs + 1..ve] == value;
    KeyThenValue(json, key, |pre|, vs);
    QuotedValueAt(json, vs, ve);
  }

  /** In `pre + q + ":" + space`, the ':' sits right after `q` and the whitespace runs to the end. */
  lemma HeadLayout(pre: string, q: string, space: string)
    ensures (pre + q + ":" + space)[|pre| + |q|] == ':'
    ensures forall k :: |pre| + |q| + 1 <= k < |pre| + |q| + 1 + |space| ==> (pre + q + ":" + space)[k] == space[k - |pre| - |q| - 1]
  {
  }

  /**
   * A number field reads back: when the first `"key"` in the text is followed
   * by ':', optional whitespace and the decimal text of an integer that is not
   * followed by another digit, '-' or '.', that text is what `extractJson`
   * returns, and it reads back as the integer.
   */
  lemma NumberFieldReadsBack(pre: string, key: string, space: string, n: int, post: string)
    requires forall k :: 0 <= k < |space| ==> IsJavaWhitespace(space[k])
    requires post == [] || !IsNumberChar(post[0])
    requires FirstAt(pre + Quoted(key) + ":" + space + IntToString(n) + post, Quoted(key), |pre|)
    ensures JsonValue(pre + Quoted(key) + ":" + space + IntToString(n) + post, key) == Some(IntToString(n))
    ensures ParseInt(JsonValue(pre + Quoted(key) + ":" + space + IntToString(n) + post, key).value) == Some(n)
  {
    IntToStringShape(n);
    NumberTextReadsBack(pre, key, space, IntToString(n), post);
    IntToStringRoundTrip(n);
  }

  /**
   * A number field's text reads back: when the first `"key"` in the text is
   * followed by ':', optional whitespace and a run of number characters that
   * starts with a digit or '-' and is not followed by another, that run is
   * what `extractJson` returns.
   */
  lemma NumberTextReadsBack(pre: string, key: string, space: string, digits: string, post: string)
    requires forall k :: 0 <= k < |space| ==> IsJavaWhitespace(space[k])
    requires digits != [] && (IsDigit(digits[0]) || digits[0] == '-')
    requires forall k :: 0 <= k < |digits| ==> IsNumberChar(digits[k])
    requires post == [] || !IsNumberChar(post[0])
    requires FirstAt(pre + Quoted(key) + ":" + space + digits + post, Quoted(key), |pre|)
    ensures JsonValue(pre + Quoted(key) + ":" + space + digits + post, key) == Some(digits)
  {
    var json := pre + Quoted(key) + ":" + space + digits + post;
    var head := pre + Quoted(key) + ":" + space;
    var vs := |head|;
    var ve := vs + |digits|;
    HeadLayout(pre, Quoted(key), space);
    assert json == head + digits + post;
    assert forall k :: vs <= k < ve ==> json[k] == digits[k - vs];
    assert ve == |json| || json[ve] == post[0];
    KeyThenValue(json, key, |pre|, vs);
    NumberValueAt(json, vs, ve);
    assert json[vs..ve] == digits;
  }

  /** Whitespace from `i` up to a non-whitespace character at `j` is skipped to `j`. */
  lemma {:induction false} SkipWhitespaceOver(json: string, i: nat, j: nat)
    requires i <= j < |json| && !IsJavaWhitespace(json[j])
    requires forall k :: i <= k < j ==> IsJavaWhitespace(json[k])
    ensures SkipWhitespace(json, i) == j
    decreases j - i
  {
    if i < j {
      SkipWhitespaceOver(json, i + 1, j);
    }
  }

  /** A run of number characters from `i` that ends at `j` ends there. */
  lemma {:induction false} NumberEndOver(json: string, i: nat, j: nat)
    requires i <= j <= |json| && (j == |json| || !IsNumberChar(json[j]))
    requires forall k :: i <= k < j ==> IsNumberChar(json[k])
    ensures NumberEnd(json, i) == j
    decreases j - i
  {
    if i < j {
      NumberEndOver(json, i + 1, j);
    }
  }

  /** The decimal text of an integer is a non-empty run of number characters that starts with a digit or '-'. */
  lemma IntToStringShape(n: int)
    ensures IntToString(n) != []
    ensures IsDigit(IntToString(n)[0]) || IntToString(n)[0] == '-'
    ensures forall k :: 0 <= k < |IntToString(n)| ==> IsNumberChar(IntToString(n)[k])
  {
  }

  /* ---------------------------------------------------------------------- */
  /* The probe                                                              */
  /* ---------------------------------------------------------------------- */

  /**
   * The message `check` builds from the three fields: the version, then on a
   * line of its own "online/max players" when both counts were found;
   * "Online" when that leaves nothing.
   */
  function Message(version: Option<string>, online: Option<string>, max: Option<string>): (m: string)
    ensures m != []
    ensures version.Some? && version.value != [] ==>
      |version.value| <= |m| && m[..|version.value|] == version.value
    ensures online.Some? && max.Some? ==>
      var counts := online.value + "/" + max.value + " players";
      |counts| <= |m| && m[|m| - |counts|..] == counts
    ensures version.Some? && version.value != [] && online.Some? && max.Some? ==>
      m == version.value + "\n" + online.value + "/" + max.value + " players"
    ensures (version.None? || version.value == []) && online.Some? && max.Some? ==>
      m == online.value + "/" + max.value + " players"
    ensures version.Some? && version.value != [] && (online.None? || max.None?) ==> m == version.value
    ensures (version.None? || version.value == []) && (online.None? || max.None?) ==> m == "Online"
  {
    var withVersion := if version.Some? then version.value else "";
    var full :=
      if online.Some? && max.Some? then
        (if |withVersion| > 0 then withVersion + "\n" else withVersion) + online.value + "/" + max.value + " players"
      else withVersion;
    if |full| > 0 then full else "Online"
  }

  /** The catch clauses of `check`: the result each exception turns into. */
  function FaultResult(f: Fault): (r: Result)
    ensures r.uptime == None && r.message.Some?
    ensures r.status == NoConnection <==> f.kind == UnknownHost || f.kind == NoRouteToHost
    ensures r.status != Online
    ensures f.kind == UnknownHost ==> r == Result(NoConnection, Some("No DNS"), None)
    ensures f.kind == SocketTimeout ==> r == Result(Offline, Some("Timeout"), None)
    ensures f.kind == NoRouteToHost ==> r == Result(NoConnection, Some("No route"), None)
    ensures f.kind == ConnectRefused ==> r == Result(Offline, Some("Connection refused"), None)
    ensures f.kind !in {UnknownHost, SocketTimeout, NoRouteToHost, ConnectRefused} ==>
      r == Result(Offline, Some(SimpleName(f.kind)), None)
    ensures f.kind.Other? ==> r == MakeOffline(Some(f.kind.className))
  {
    match f.kind
    case UnknownHost => MakeNoConnection(Some("No DNS"))
    case SocketTimeout => MakeOffline(Some("Timeout"))
    case NoRouteToHost => MakeNoConnection(Some("No route"))
    case ConnectRefused => MakeOffline(Some("Connection refused"))
    case _ => MakeOffline(Some(SimpleName(f.kind)))
  }

  /**
   * What connecting the socket did: it failed with an exception, or it
   * succeeded and the server answered with `reply` (the bytes it sends, and
   * what reading past them throws: end of stream or a read timeout).
   */
  datatype Connection = Unreachable(fault: Fault) | Connected(reply: Incoming)

  /** `InetSocketAddress` refuses a port outside 0..65535 with an `IllegalArgumentException`. */
  predicate ValidPort(port: Int32)
  {
    0 <= port <= 0xFFFF
  }

  const BadPort := Fault(Other("IllegalArgumentException"), Some("port out of range"))

  /** The result of `check` once the status response has been read. */
  function ResponseResult(read: Read<Option<string>>): (r: Result)
    ensures r.status == Online <==> read.Got? && read.value.Some?
    ensures read.Threw? ==> r == FaultResult(read.fault)
    ensures read.Got? && read.value.None? ==> r == Result(Offline, Some("No response"), None)
    ensures read.Got? && read.value.Some? ==> r.uptime == None && r.message == Some(
      Message(JsonValue(read.value.value, "name"), JsonValue(read.value.value, "online"), JsonValue(read.value.value, "max")))
  {
    match read
    case Threw(f) => FaultResult(f)
    case Got(None, _) => MakeOffline(Some("No response"))
    case Got(Some(json), _) =>
      MakeOnline(Some(Message(JsonValue(json, "name"), JsonValue(json, "online"), JsonValue(json, "max"))))
  }

  /**
   * What `check` returns for `probe` when connecting goes as `conn` says.
   * The server's reply is read from its first byte.
   */
  function Outcome(probe: Probe, conn: Connection): (r: Result)
    ensures r.uptime == None
    ensures r.status == Online ==> ValidPort(probe.port) && conn.Connected?
    ensures !ValidPort(probe.port) ==> r == MakeOffline(Some("IllegalArgumentException"))
  {
    if !ValidPort(probe.port) then FaultResult(BadPort)
    else match conn
      case Unreachable(f) => FaultResult(f)
      case Connected(reply) => ResponseResult(StatusResponse(reply, 0))
  }

  /** The bytes `check` writes to a server it reached: the handshake, then the status request. */
  function Request(hostBytes: seq<Byte>, port: Int32): (out: seq<Byte>)
    requires |hostBytes| <= MaxHostBytes
    ensures |out| > 2 && out[|out| - 2..] == [0x01, 0x00]
  {
    HandshakeBodyLength(hostBytes, port);
    Frame(HandshakeBody(hostBytes, port)) + [0x01, 0x00]
  }

  /**
   * `check(entity)`: connects, sends the handshake and the status request,
   * reads the status response, and scans it for the version and the player
   * counts; every exception becomes a Result. `sent` is what went out on the
   * socket.
   */
  method Check(probe: Probe, hostBytes: seq<Byte>, conn: Connection) returns (sent: seq<Byte>, r: Result)
    requires |hostBytes| <= MaxHostBytes
    ensures r == Outcome(probe, conn)
    ensures sent == if ValidPort(probe.port) && conn.Connected? then Request(hostBytes, probe.port) else []
  {
    sent := [];
    if !ValidPort(probe.port) {
      return sent, FaultResult(BadPort);
    }
    if conn.Unreachable? {
      return sent, FaultResult(conn.fault);
    }
    var handshake := SendHandshake(hostBytes, probe.port);
    var request := SendStatusRequest();
    sent := handshake + request;
    var read := ReadStatusResponse(conn.reply, 0);
    if read.Threw? {
      return sent, FaultResult(read.fault);
    }
    if read.value.None? {
      return sent, MakeOffline(Some("No response"));
    }
    var json := read.value;
    var version := ExtractJson(json, "name");
    var onlinePlayers := ExtractJson(json, "online");
    var maxPlayers := ExtractJson(json, "max");
    r := MakeOnline(Some(Message(version, onlinePlayers, maxPlayers)));
  }

  /**
   * A server that answers with a well-formed status response makes the probe
   * report Online, with the message built from the fields of that JSON text.
   */
  lemma AnsweringServerIsOnline(probe: Probe, json: seq<Byte>, rest: seq<Byte>, end: Fault)
    requires ValidPort(probe.port)
    requires 0 < |json| <= MaxJsonLength
    ensures
      var text := Text(json);
      Outcome(probe, Connected(Incoming(ResponseFrame(json) + rest, end)))
      == MakeOnline(Some(Message(JsonValue(text, "name"), JsonValue(text, "online"), JsonValue(text, "max"))))
  {
    var input := Incoming(ResponseFrame(json) + rest, end);
    assert input.bytes[0..|ResponseFrame(json)|] == ResponseFrame(json);
    ResponseRoundTrip(input, 0, json);
  }

  /** Reading the status response throws only what reading past the reply throws, or "VarInt too big". */
  lemma ReadFaultKinds(input: Incoming, pos: nat)
    ensures StatusResponse(input, pos).Threw? ==> StatusResponse(input, pos).fault in {input.end, TooBig}
  {
    DecodeShape(input, pos);
    match Decode(input, pos)
    case Threw(_) =>
    case Got(_, p1) =>
      DecodeShape(input, p1);
      match Decode(input, p1)
      case Threw(_) =>
      case Got(_, p2) =>
        DecodeShape(input, p2);
  }

  /**
   * The probe reports NoConnection only when the host name does not resolve
   * or no route leads to it, which only connecting can throw.
   */
  lemma NoConnectionOnlyWhenUnreachable(probe: Probe, conn: Connection)
    requires conn.Connected? ==> conn.reply.end.kind != UnknownHost && conn.reply.end.kind != NoRouteToHost
    ensures Outcome(probe, conn).status == NoConnection <==>
      ValidPort(probe.port) && conn.Unreachable? && (conn.fault.kind == UnknownHost || conn.fault.kind == NoRouteToHost)
  {
    if ValidPort(probe.port) && conn.Connected? {
      var read := StatusResponse(conn.reply, 0);
      if read.Threw? {
        ReadFaultKinds(conn.reply, 0);
      }
    }
  }

  /** A release version number such as 1.20.4: digits and dots. */
  predicate ReleaseNumber(version: string)
  {
    version != [] && forall k :: 0 <= k < |version| ==> IsDigit(version[k]) || version[k] == '.'
  }

  /** A player count as the server writes it: decimal digits. */
  predicate Count(digits: string)
  {
    digits != [] && AllDigits(digits)
  }

  /**
   * A status response that holds the version's "name", then "max", then
   * "online", in that order, with `head`, `players` and `tail` around them.
   */
  function Layout(head: string, players: string, tail: string, version: string, max: string, online: string): string
  {
    head + Quoted("name") + ":" + "" + "\"" + version + "\""
    + (players + Quoted("max") + ":" + "" + max
       + ("," + Quoted("online") + ":" + "" + online + tail))
  }

  /**
   * A status response laid out as a vanilla server sends it: the version,
   * then the player counts (maximum first), then the description.
   */
  function VanillaStatus(version: string, max: string, online: string): string
  {
    Layout(VanillaHead, VanillaPlayers, VanillaDescription, version, max, online)
  }

  const VanillaHead := "{\"version\":{"
  const VanillaPlayers := ",\"protocol\":765},\"players\":{"
  const VanillaDescription := "},\"description\":{\"text\":\"A Server\"}}"

  lemma Regroup4(a: string, b: string, c: string, d: string, e: string, f: string)
    ensures a + b + c + d + e + f == a + b + (c + d + e + f)
  {
  }

  lemma Regroup6(a: string, b: string, c: string, d: string, e: string, f: string, g: string, h: string)
    ensures a + b + c + d + e + f + g + h == a + b + (c + d + e + f + g + h)
  {
  }

  lemma Flatten6(a: string, b: string, c: string, d: string, e: string, f: string, g: string)
    ensures a + (b + c + d + e + f + g) == a + b + c + d + e + f + g
  {
  }

  /** In that layout the version is the value of the first "name". */
  lemma LayoutName(head: string, players: string, tail: string, version: string, max: string, online: string)
    requires 'm' !in head && Unquoted(version)
    ensures JsonValue(Layout(head, players, tail, version, max, online), "name") == Some(version)
  {
    var post := players + Quoted("max") + ":" + "" + max
      + ("," + Quoted("online") + ":" + "" + online + tail);
    var rest := ":" + "" + "\"" + version + "\"" + post;
    Regroup6(head, Quoted("name"), ":", "", "\"", version, "\"", post);
    FirstOccurrenceAfter("", head, Quoted("name"), rest, 3, 3);
    assert "" + head == head;
    StringFieldReadsBack(head, "name", "", version, post);
  }

  /** In that layout the maximum is the value of the first "max". */
  lemma LayoutMax(head: string, players: string, tail: string, version: string, max: string, online: string)
    requires 'x' !in head && 'x' !in version && 'x' !in players && Count(max)
    ensures JsonValue(Layout(head, players, tail, version, max, online), "max") == Some(max)
  {
    var first := head + Quoted("name") + ":" + "" + "\"" + version + "\"";
    var pre := first + players;
    var post := "," + Quoted("online") + ":" + "" + online + tail;
    Flatten6(first, players, Quoted("max"), ":", "", max, post);
    Regroup4(pre, Quoted("max"), ":", "", max, post);
    FirstOccurrenceAfter("", pre, Quoted("max"), ":" + "" + max + post, 3, 3);
    assert "" + pre == pre;
    NumberTextReadsBack(pre, "max", "", max, post);
  }

  lemma Shift5(a: string, b: string, c: string, d: string, e: string, f: string,
                g: string, h: string, i: string, j: string, k: string, l: string)
    ensures a + (b + c + d + e + f + (g + h + i + j + k + l))
      == a + (b + c + d + e + f + g) + h + i + j + k + l
  {
  }

  /** In that layout the online count is the value of the first "online". */
  lemma LayoutOnline(head: string, players: string, tail: string, version: string, max: string, online: string)
    requires 'l' !in head && 'l' !in version && 'i' !in players && 'i' !in max && Count(online)
    requires tail == [] || !IsNumberChar(tail[0])
    ensures JsonValue(Layout(head, players, tail, version, max, online), "online") == Some(online)
  {
    var first := head + Quoted("name") + ":" + "" + "\"" + version + "\"";
    var middle := players + Quoted("max") + ":" + "" + max + ",";
    Shift5(first, players, Quoted("max"), ":", "", max, ",", Quoted("online"), ":", "", online, tail);
    Regroup4(first + middle, Quoted("online"), ":", "", online, tail);
    FirstOccurrenceAfter(first, middle, Quoted("online"), ":" + "" + online + tail, 3, 4);
    NumberTextReadsBack(first + middle, "online", "", online, tail);
  }

  /** The fixed parts of the vanilla layout hold none of the characters the keys are found by. */
  lemma VanillaPieces()
    ensures 'm' !in VanillaHead && 'x' !in VanillaHead && 'l' !in VanillaHead
    ensures 'x' !in VanillaPlayers && 'i' !in VanillaPlayers
    ensures VanillaDescription == [] || !IsNumberChar(VanillaDescription[0])
  {
  }

  /**
   * A server answering with such a response is Online, with the version and,
   * on the next line, "online/max players".
   */
  lemma VanillaMessage(version: string, max: string, online: string, next: nat)
    requires ReleaseNumber(version) && Count(max) && Count(online)
    ensures ResponseResult(Got(Some(VanillaStatus(version, max, online)), next))
      == Result(Online, Some(version + "\n" + online + "/" + max + " players"), None)
  {
    VanillaPieces();
    assert Unquoted(version) && 'x' !in version && 'l' !in version && 'i' !in max;
    LayoutName(VanillaHead, VanillaPlayers, VanillaDescription, version, max, online);
    LayoutMax(VanillaHead, VanillaPlayers, VanillaDescription, version, max, online);
    LayoutOnline(VanillaHead, VanillaPlayers, VanillaDescription, version, max, online);
  }

  /** Version 1.20.4 with 3 of 20 players online reads as "1.20.4", then "3/20 players". */
  lemma SampleMessage()
    ensures ResponseResult(Got(Some(VanillaStatus("1.20.4", "20", "3")), 0))
      == Result(Online, Some("1.20.4\n3/20 players"), None)
  {
    assert "1.20.4" + "\n" + "3" + "/" + "20" + " players" == "1.20.4\n3/20 players";
    VanillaMessage("1.20.4", "20", "3", 0);
  }
}
