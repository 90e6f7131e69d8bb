/** Datagrams of the relay negotiation: big-endian fields, XOR checksum, message header. */
module Packet {
  type Bytes = seq<bv8>

  const PKT_TYPE_HEARTBEAT: bv8 := 0xff
  const PKT_TYPE_REGISTER: bv8 := 0xfe
  const PKT_TYPE_CTRL: bv8 := 0xfc
  const PKT_TYPE_MSG: bv8 := 0xF7

  const MSG_TYPE_ICE_WRAP: bv8 := 0
  const MSG_TYPE_SELECT_RELAY: bv8 := 1
  const MSG_TYPE_SELECT_RELAY_ACK: bv8 := 2

  const HEADER_LENGTH: nat := 18

  // ------------------------------------------------------------------ big-endian fields

  /** `be_set_u32`. */
  function U32Bytes(x: bv32): (b: Bytes)
    ensures |b| == 4
  {
    [((x >> 24) & 0xFF) as bv8, ((x >> 16) & 0xFF) as bv8, ((x >> 8) & 0xFF) as bv8, (x & 0xFF) as bv8]
  }

  /** `be_get_u32`. */
  function GetU32(b: Bytes, i: nat): bv32
    requires i + 4 <= |b|
  {
    JoinBytes(b[i], b[i + 1], b[i + 2], b[i + 3])
  }

  function JoinBytes(b0: bv8, b1: bv8, b2: bv8, b3: bv8): bv32 {
    ((b0 as bv32) << 24) | ((b1 as bv32) << 16) | ((b2 as bv32) << 8) | (b3 as bv32)
  }

  lemma U32RoundTrip(x: bv32)
    ensures GetU32(U32Bytes(x), 0) == x
  {
  }

  /** The most significant byte comes first. */
  lemma BigEndian(b0: bv8, b1: bv8, b2: bv8, b3: bv8)
    ensures JoinBytes(b0, b1, b2, b3) ==
            (b0 as bv32) * 0x100_0000 + (b1 as bv32) * 0x1_0000 + (b2 as bv32) * 0x100 + (b3 as bv32)
  {
  }

  // ------------------------------------------------------------------ checksum

  function Checksum(data: Bytes): bv8 {
    if data == [] then 0 else Checksum(data[..|data| - 1]) ^ data[|data| - 1]
  }

  /** `_calc_checksum`. */
  method CalcChecksum(data: array<bv8>, datalen: nat) returns (chk: bv8)
    requires datalen <= data.Length
    ensures chk == Checksum(data[..datalen])
  {
    chk := 0;
    for i := 0 to datalen
      invariant chk == Checksum(data[..i])
    {
      assert data[..i + 1][..i] == data[..i];
      chk := chk ^ data[i];
    }
  }

  /** The verdict of `_verify_checksum`. */
  predicate Verifies(data: Bytes)
    requires data != []
  {
    Checksum(data[..|data| - 1]) == data[|data| - 1]
  }

  method VerifyChecksum(data: array<bv8>, datalen: nat) returns (ok: bool)
    requires 0 < datalen <= data.Length
    ensures ok == Verifies(data[..datalen])
  {
    var chk := CalcChecksum(data, datalen - 1);
    assert data[..datalen][..datalen - 1] == data[..datalen - 1];
    ok := chk == data[datalen - 1];
  }

  /** A packet verifies iff all its bytes, checksum included, cancel out. */
  lemma {:induction false} VerifiesMeansZero(data: Bytes)
    requires data != []
    ensures Verifies(data) <==> Checksum(data) == 0
  {
  }

  /** Replacing one byte changes the checksum by the difference of the two. */
  lemma {:induction false} ChecksumUpdate(data: Bytes, i: nat, b: bv8)
    requires i < |data|
    ensures Checksum(data[i := b]) == Checksum(data) ^ data[i] ^ b
  {
    var n := |data| - 1;
    if i == n {
      assert data[i := b][..n] == data[..n];
    } else {
      assert data[i := b][..n] == data[..n][i := b];
      ChecksumUpdate(data[..n], i, b);
    }
  }

  /** Any change of a single byte, the checksum byte included, is detected. */
  lemma SingleByteChangeDetected(data: Bytes, i: nat, b: bv8)
    requires i < |data| && Verifies(data) && b != data[i]
    ensures !Verifies(data[i := b])
  {
    VerifiesMeansZero(data);
    VerifiesMeansZero(data[i := b]);
    ChecksumUpdate(data, i, b);
  }

  function Sealed(data: Bytes): (p: Bytes)
    ensures |p| == |data| + 1 && p[..|data|] == data
  {
    data + [Checksum(data)]
  }

  lemma SealedVerifies(data: Bytes)
    ensures Verifies(Sealed(data))
  {
  }

  // ------------------------------------------------------------------ messages

  /** The 18 bytes in front of every message. */
  function Header(msgType: bv8, sessionId: bv32, compId: bv32, tsxId: bv32, dataLen: bv32): (h: Bytes)
    ensures |h| == HEADER_LENGTH
  {
    [PKT_TYPE_MSG, msgType] + U32Bytes(sessionId) + U32Bytes(compId) + U32Bytes(tsxId) + U32Bytes(dataLen)
  }

  /** The fields as `on_data_recvfrom` reads them. */
  function MsgType(p: Bytes): bv8
    requires |p| >= HEADER_LENGTH
  {
    p[1]
  }

  function SessionId(p: Bytes): bv32
    requires |p| >= HEADER_LENGTH
  {
    GetU32(p, 2)
  }

  function CompId(p: Bytes): bv32
    requires |p| >= HEADER_LENGTH
  {
    GetU32(p, 6)
  }

  function TsxId(p: Bytes): bv32
    requires |p| >= HEADER_LENGTH
  {
    GetU32(p, 10)
  }

  function DataLen(p: Bytes): bv32
    requires |p| >= HEADER_LENGTH
  {
    GetU32(p, 14)
  }

  /** A whole message: header, payload, checksum. */
  function Message(msgType: bv8, sessionId: bv32, compId: bv32, tsxId: bv32, payload: Bytes, dataLen: bv32): (p: Bytes)
    ensures |p| == HEADER_LENGTH + |payload| + 1
  {
    Sealed(Header(msgType, sessionId, compId, tsxId, dataLen) + payload)
  }

  /** The receiver reads back every field of every message, and its checksum verifies. */
  lemma MessageRoundTrip(msgType: bv8, sessionId: bv32, compId: bv32, tsxId: bv32, payload: Bytes, dataLen: bv32)
    ensures var p := Message(msgType, sessionId, compId, tsxId, payload, dataLen);
            p[0] == PKT_TYPE_MSG && MsgType(p) == msgType && SessionId(p) == sessionId && CompId(p) == compId &&
            TsxId(p) == tsxId && DataLen(p) == dataLen && p[HEADER_LENGTH..|p| - 1] == payload && Verifies(p)
  {
    hide U32Bytes, JoinBytes, Checksum;
    var p := Message(msgType, sessionId, compId, tsxId, payload, dataLen);
    var h := Header(msgType, sessionId, compId, tsxId, dataLen);
    assert p[..HEADER_LENGTH] == h;
    assert p[0] == h[0] && p[1] == h[1];
    assert p[2..6] == h[2..6] == U32Bytes(sessionId);
    assert p[6..10] == h[6..10] == U32Bytes(compId);
    assert p[10..14] == h[10..14] == U32Bytes(tsxId);
    assert p[14..18] == h[14..18] == U32Bytes(dataLen);
    FieldReads(p, 2, sessionId);
    FieldReads(p, 6, compId);
    FieldReads(p, 10, tsxId);
    FieldReads(p, 14, dataLen);
    SealedVerifies(h + payload);
  }

  /** Where the fields stand on the wire: kind, type, then session, component, transaction and length, four bytes each,
    * payload, checksum. */
  lemma MessageLayout(msgType: bv8, sessionId: bv32, compId: bv32, tsxId: bv32, payload: Bytes, dataLen: bv32)
    ensures var p := Message(msgType, sessionId, compId, tsxId, payload, dataLen);
            |p| == 19 + |payload| && p[0] == 0xF7 && p[1] == msgType && p[2..6] == U32Bytes(sessionId) &&
            p[6..10] == U32Bytes(compId) && p[10..14] == U32Bytes(tsxId) && p[14..18] == U32Bytes(dataLen) &&
            p[18..18 + |payload|] == payload && p[18 + |payload|] == Checksum(p[..18 + |payload|])
  {
    hide U32Bytes, Checksum;
    var p := Message(msgType, sessionId, compId, tsxId, payload, dataLen);
    var h := Header(msgType, sessionId, compId, tsxId, dataLen);
    assert p[..18] == h && p[..18 + |payload|] == h + payload;
    assert p[2..6] == h[2..6] && p[6..10] == h[6..10] && p[10..14] == h[10..14] && p[14..18] == h[14..18];
  }

  lemma FieldReads(p: Bytes, i: nat, x: bv32)
    requires i + 4 <= |p| && p[i..i + 4] == U32Bytes(x)
    ensures GetU32(p, i) == x
  {
  }

  method BeSetU32(x: bv32, buf: array<bv8>, at: nat)
    requires at + 4 <= buf.Length
    modifies buf
    ensures buf[..at + 4] == old(buf[..at]) + U32Bytes(x)
    ensures forall k :: at + 4 <= k < buf.Length ==> buf[k] == old(buf[k])
  {
    buf[at] := ((x >> 24) & 0xFF) as bv8;
    buf[at + 1] := ((x >> 16) & 0xFF) as bv8;
    buf[at + 2] := ((x >> 8) & 0xFF) as bv8;
    buf[at + 3] := (x & 0xFF) as bv8;
  }

  /** `_build_msg_header`: fills the buffer in place and returns the offset behind the header. */
  method BuildMsgHeader(sessionId: bv32, compId: bv32, msgType: bv8, tsxId: bv32, dataLen: bv32, buf: array<bv8>)
    returns (offset: nat)
    requires buf.Length >= HEADER_LENGTH
    modifies buf
    ensures offset == HEADER_LENGTH
    ensures buf[..offset] == Header(msgType, sessionId, compId, tsxId, dataLen)
    ensures buf[offset..] == old(buf[offset..])
  {
    hide U32Bytes;
    buf[0] := PKT_TYPE_MSG;
    buf[1] := msgType;
    assert buf[..2] == [PKT_TYPE_MSG, msgType];
    BeSetU32(sessionId, buf, 2);
    BeSetU32(compId, buf, 6);
    BeSetU32(tsxId, buf, 10);
    BeSetU32(dataLen, buf, 14);
    offset := 18;
  }

  /** A message built in a buffer: header, payload copy and checksum, as the senders do it. */
  method BuildMessage(sessionId: bv32, compId: bv32, msgType: bv8, tsxId: bv32, payload: Bytes, dataLen: bv32)
    returns (p: Bytes)
    ensures p == Message(msgType, sessionId, compId, tsxId, payload, dataLen)
  {
    var buf := new bv8[HEADER_LENGTH + |payload| + 1];
    var offset := BuildMsgHeader(sessionId, compId, msgType, tsxId, dataLen, buf);
    ghost var h := Header(msgType, sessionId, compId, tsxId, dataLen);
    for i := 0 to |payload|
      invariant buf[..offset] == h
      invariant buf[offset..offset + i] == payload[..i]
    {
      buf[offset + i] := payload[i];
      assert buf[offset..offset + i + 1] == buf[offset..offset + i] + [payload[i]];
    }
    offset := offset + |payload|;
    assert buf[..offset] == h + payload;
    var chk := CalcChecksum(buf, offset);
    buf[offset] := chk;
    p := buf[..offset + 1];
    assert p == h + payload + [chk];
  }

  /** The acknowledgement rebuilt from a received select-relay packet. */
  function Ack(p: Bytes): (ack: Bytes)
    requires |p| > HEADER_LENGTH
    ensures |ack| == |p|
  {
    Sealed(p[..|p| - 1][1 := MSG_TYPE_SELECT_RELAY_ACK])
  }

  /** It is an acknowledgement, keeps session, component, transaction and everything else behind its type, and verifies. */
  lemma AckEchoes(p: Bytes)
    requires |p| > HEADER_LENGTH
    ensures var ack := Ack(p);
            ack[0] == p[0] && MsgType(ack) == 2 && ack[2..|ack| - 1] == p[2..|p| - 1] && SessionId(ack) == SessionId(p) &&
            CompId(ack) == CompId(p) && TsxId(ack) == TsxId(p) && Verifies(ack)
  {
    hide Checksum, JoinBytes;
    var ack := Ack(p);
    var body := p[..|p| - 1][1 := MSG_TYPE_SELECT_RELAY_ACK];
    assert ack[..|p| - 1] == body;
    assert forall k :: 2 <= k < |p| - 1 ==> ack[k] == body[k] == p[k];
    SealedVerifies(body);
  }

  /** A length cut to eight bits. */
  function LowByte(n: nat): bv8 { (n % 256) as bv8 }

  /** The register request: sequence number, conference id, channel id and relay code, the two
    * strings cut to the eight bits of their length bytes. */
  function RegisterPacket(sessionId: bv32, confId: Bytes, channelId: bv32, rcode: Bytes): Bytes {
    var confIdLen, rcodeLen := |confId| % 256, |rcode| % 256;
    Sealed([PKT_TYPE_REGISTER] + U32Bytes(sessionId) + [LowByte(|confId|)] + confId[..confIdLen] +
           U32Bytes(channelId) + [LowByte(|rcode|)] + rcode[..rcodeLen])
  }

  /** Its fields as a relay server reads them. */
  lemma RegisterLayout(sessionId: bv32, confId: Bytes, channelId: bv32, rcode: Bytes)
    ensures var p, n, m := RegisterPacket(sessionId, confId, channelId, rcode), |confId| % 256, |rcode| % 256;
            |p| == 12 + n + m && p[0] == 0xFE && GetU32(p, 1) == sessionId && p[5] == LowByte(|confId|) && p[6..6 + n] == confId[..n] &&
            GetU32(p, 6 + n) == channelId && p[10 + n] == LowByte(|rcode|) && p[11 + n..11 + n + m] == rcode[..m] && Verifies(p)
  {
    hide *;
    var n, m := |confId| % 256, |rcode| % 256;
    var data := RegisterParts(sessionId, confId, channelId, rcode);
    Cut(data, 1, 5);
    Cut(data, 6, 6 + n);
    Cut(data, 6 + n, 10 + n);
    Cut(data, 11 + n, 11 + n + m);
    FieldReads(Sealed(data), 1, sessionId);
    FieldReads(Sealed(data), 6 + n, channelId);
    SealedVerifies(data);
  }

  lemma Cut(data: Bytes, i: nat, j: nat)
    requires i <= j <= |data|
    ensures |Sealed(data)| == |data| + 1 && Sealed(data)[i..j] == data[i..j] && forall k :: 0 <= k < |data| ==> Sealed(data)[k] == data[k]
  {
  }

  /** The fields of what is sealed. */
  lemma RegisterParts(sessionId: bv32, confId: Bytes, channelId: bv32, rcode: Bytes) returns (data: Bytes)
    ensures var n, m := |confId| % 256, |rcode| % 256;
            RegisterPacket(sessionId, confId, channelId, rcode) == Sealed(data) && |data| == 11 + n + m &&
            data[0] == 0xFE && data[1..5] == U32Bytes(sessionId) && data[5] == LowByte(|confId|) && data[6..6 + n] == confId[..n] &&
            data[6 + n..10 + n] == U32Bytes(channelId) && data[10 + n] == LowByte(|rcode|) && data[11 + n..11 + n + m] == rcode[..m]
  {
    hide U32Bytes, JoinBytes, Checksum, LowByte;
    data := [PKT_TYPE_REGISTER] + U32Bytes(sessionId) + [LowByte(|confId|)] + confId[..|confId| % 256] +
            (U32Bytes(channelId) + [LowByte(|rcode|)] + rcode[..|rcode| % 256]);
    Split([PKT_TYPE_REGISTER] + U32Bytes(sessionId) + [LowByte(|confId|)], confId[..|confId| % 256],
          U32Bytes(channelId), [LowByte(|rcode|)], rcode[..|rcode| % 256]);
    assert data == [PKT_TYPE_REGISTER] + U32Bytes(sessionId) + [LowByte(|confId|)] + confId[..|confId| % 256] +
                   U32Bytes(channelId) + [LowByte(|rcode|)] + rcode[..|rcode| % 256];
  }

  /** Where the parts of a row of five stand. */
  lemma Split(a: Bytes, b: Bytes, c: Bytes, d: Bytes, e: Bytes)
    ensures var s := a + b + (c + d + e);
            s == a + b + c + d + e && s[..|a|] == a && s[|a|..|a + b|] == b && s[|a + b|..|a + b + c|] == c &&
            s[|a + b + c|..|a + b + c + d|] == d && s[|a + b + c + d|..] == e
  {
  }
}
