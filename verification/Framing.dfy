/** Reassembly of length-prefixed commands from arbitrarily chunked TCP reads.
  *
  * Fields are read in host order, which is little-endian on the machines the server runs on.
  */
module Framing {
  newtype Byte = b: int | 0 <= b < 256

  type Bytes = seq<Byte>

  const ICE_COMMAND_HEADER_LEN: nat := 16
  const MAX_COMMAND_LEN: nat := 10 * 1024

  datatype IceCommand = IceCommand(op: nat, sessionId: nat, content: Bytes)

  /** The number bytes spell with the least significant one first. */
  function LittleEndian(b: Bytes): nat {
    if b == [] then 0 else b[0] as nat + 256 * LittleEndian(b[1..])
  }

  /** The 16-bit length the source reads at the start of the header's last four bytes. */
  function ContentLen(b: Bytes): nat
    requires |b| >= ICE_COMMAND_HEADER_LEN
  {
    b[ICE_COMMAND_HEADER_LEN - 4] as nat + 256 * (b[ICE_COMMAND_HEADER_LEN - 3] as nat)
  }

  function FrameLen(b: Bytes): nat
    requires |b| >= ICE_COMMAND_HEADER_LEN
  {
    ICE_COMMAND_HEADER_LEN + ContentLen(b)
  }

  /** The bytes start with a complete frame. */
  predicate Complete(b: Bytes) {
    |b| >= ICE_COMMAND_HEADER_LEN && FrameLen(b) <= |b|
  }

  function Command(frame: Bytes): IceCommand
    requires Complete(frame)
  {
    IceCommand(LittleEndian(frame[..4]), LittleEndian(frame[4..12]), frame[ICE_COMMAND_HEADER_LEN..FrameLen(frame)])
  }

  // ------------------------------------------------------------------ reference parse

  /** The complete frames of a byte stream, in order. */
  function Frames(b: Bytes): seq<Bytes> {
    if Complete(b) then [b[..FrameLen(b)]] + Frames(b[FrameLen(b)..]) else []
  }

  function Concat(fs: seq<Bytes>): Bytes {
    if fs == [] then [] else fs[0] + Concat(fs[1..])
  }

  /** A byte string that is one frame and nothing more. */
  predicate IsFrame(f: Bytes) { Complete(f) && |f| == FrameLen(f) }

  predicate AllFrames(fs: seq<Bytes>) { forall k :: 0 <= k < |fs| ==> IsFrame(fs[k]) }

  lemma {:induction false} FrameInFront(f: Bytes, rest: Bytes)
    requires IsFrame(f)
    ensures Complete(f + rest) && FrameLen(f + rest) == |f| && Frames(f + rest) == [f] + Frames(rest)
  {
    assert (f + rest)[..|f|] == f && (f + rest)[|f|..] == rest;
  }

  lemma {:induction false} FramesOfConcat(fs: seq<Bytes>, rest: Bytes)
    requires AllFrames(fs)
    ensures Frames(Concat(fs) + rest) == fs + Frames(rest)
  {
    if fs == [] {
      assert Concat(fs) + rest == rest && fs + Frames(rest) == Frames(rest);
    } else {
      assert Concat(fs) + rest == fs[0] + (Concat(fs[1..]) + rest);
      FrameInFront(fs[0], Concat(fs[1..]) + rest);
      FramesOfConcat(fs[1..], rest);
      assert [fs[0]] + (fs[1..] + Frames(rest)) == fs + Frames(rest);
    }
  }

  lemma {:induction false} ConcatAppend(fs: seq<Bytes>, gs: seq<Bytes>)
    ensures Concat(fs + gs) == Concat(fs) + Concat(gs)
  {
    if fs == [] {
      assert fs + gs == gs;
    } else {
      assert (fs + gs)[0] == fs[0] && (fs + gs)[1..] == fs[1..] + gs;
      ConcatAppend(fs[1..], gs);
    }
  }

  // ------------------------------------------------------------------ the sender

  function Pow256(k: nat): (p: nat)
    ensures p > 0
  {
    if k == 0 then 1 else 256 * Pow256(k - 1)
  }

  /** An unsigned field of `width` bytes in the order of the machine. */
  function Field(n: nat, width: nat): (b: Bytes)
    ensures |b| == width
  {
    if width == 0 then [] else [(n % 256) as Byte] + Field(n / 256, width - 1)
  }

  lemma {:induction false} FieldReads(n: nat, width: nat)
    requires n < Pow256(width)
    ensures LittleEndian(Field(n, width)) == n
  {
    if width > 0 {
      FieldReads(n / 256, width - 1);
      OneMore((n % 256) as Byte, n / 256, Field(n / 256, width - 1));
    }
  }

  /** Little-endian, as a reader of the bytes would have it. */
  lemma {:induction false} LeastSignificantFirst()
    ensures LittleEndian([0x78, 0x56, 0x34, 0x12]) == 0x12345678
  {
    var a, b, c, d: Byte := 0x78, 0x56, 0x34, 0x12;
    assert [a, b, c, d][1..] == [b, c, d] && [b, c, d][1..] == [c, d] && [c, d][1..] == [d] && [d][1..] == [];
    OneMore(0x12, 0, []);
    OneMore(0x34, 0x12, [d]);
    OneMore(0x56, 0x1234, [c, d]);
    OneMore(0x78, 0x123456, [b, c, d]);
    assert [a] + [b, c, d] == [a, b, c, d] && [b] + [c, d] == [b, c, d] && [c] + [d] == [c, d] && [d] + [] == [d];
  }

  lemma {:induction false} OneMore(b: Byte, n: nat, rest: Bytes)
    requires LittleEndian(rest) == n
    ensures LittleEndian([b] + rest) == b as nat + 256 * n
  {
    assert ([b] + rest)[1..] == rest;
  }

  /** What the server sends for a command: operation, session, length of the content, and the content. */
  function CommandBytes(c: IceCommand): (b: Bytes)
    ensures |b| == ICE_COMMAND_HEADER_LEN + |c.content|
  {
    Field(c.op, 4) + Field(c.sessionId, 8) + Field(|c.content|, 4) + c.content
  }

  /** The fields of a command fit the source's types. */
  predicate Representable(c: IceCommand) {
    c.op < 0x1_0000_0000 && c.sessionId < 0x1_0000_0000_0000_0000 && |c.content| < 0x1_0000_0000
  }

  lemma FieldsOf(c: IceCommand, f: Bytes)
    requires f == CommandBytes(c)
    ensures f[..4] == Field(c.op, 4) && f[4..12] == Field(c.sessionId, 8) && f[12..16] == Field(|c.content|, 4)
    ensures ContentLen(f) == |c.content| % 0x1_0000 && f[16..] == c.content
  {
    TwoBytes(|c.content|);
    hide Field;
    assert f[12] == f[12..16][0] && f[13] == f[12..16][1];
  }

  lemma {:induction false} TwoBytes(n: nat)
    ensures var f := Field(n, 4); f[0] as nat + 256 * (f[1] as nat) == n % 0x1_0000
  {
    TwoDigits(n);
    FieldStep(n, 4);
    FieldStep(n / 256, 3);
    hide Field;
  }

  lemma FieldStep(n: nat, width: nat)
    requires width > 0
    ensures Field(n, width) == [(n % 256) as Byte] + Field(n / 256, width - 1)
  {
  }

  lemma TwoDigits(n: nat)
    ensures n % 256 + 256 * (n / 256 % 256) == n % 0x1_0000
  {
    var q, r := n / 0x1_0000, n % 0x1_0000;
    assert n == 256 * (256 * q + r / 256) + r % 256;
    assert n / 256 == 256 * q + r / 256;
  }

  lemma Widths()
    ensures Pow256(4) == 0x1_0000_0000 && Pow256(8) == 0x1_0000_0000_0000_0000
  {
    assert Pow256(6) == 0x1_0000_0000_0000;
  }

  /** What is sent is one frame exactly when the content's length fits the 16 bits that are read of it, and then it is
    * read as the command that was sent. */
  lemma CommandIsFrame(c: IceCommand)
    requires Representable(c)
    ensures ContentLen(CommandBytes(c)) == |c.content| % 0x1_0000
    ensures IsFrame(CommandBytes(c)) <==> |c.content| < 0x1_0000
    ensures |c.content| < 0x1_0000 ==> Command(CommandBytes(c)) == c
  {
    hide Field, LittleEndian, CommandBytes, Pow256, ContentLen;
    var f := CommandBytes(c);
    FieldsOf(c, f);
    Widths();
    FieldReads(c.op, 4);
    FieldReads(c.sessionId, 8);
  }

  /** Writes bytes in place. */
  method Copy(buffer: array<Byte>, at: nat, b: Bytes)
    requires at + |b| <= buffer.Length
    modifies buffer
    ensures buffer[..at + |b|] == old(buffer[..at]) + b
    ensures forall k :: at + |b| <= k < buffer.Length ==> buffer[k] == old(buffer[k])
  {
    for i := 0 to |b|
      invariant buffer[..at + i] == old(buffer[..at]) + b[..i]
      invariant forall k :: at + i <= k < buffer.Length ==> buffer[k] == old(buffer[k])
    {
      buffer[at + i] := b[i];
      assert buffer[..at + i + 1] == buffer[..at + i] + [b[i]];
    }
  }

  /** `constructCommandBuffer`: what it accepts is one frame that says what was sent. */
  method ConstructCommandBuffer(buffer: array<Byte>, op: nat, id: nat, data: Bytes) returns (ok: bool)
    requires Representable(IceCommand(op, id, data)) && |data| + ICE_COMMAND_HEADER_LEN < 0x1_0000_0000
    requires buffer.Length >= MAX_COMMAND_LEN
    modifies buffer
    ensures ok <==> |data| + ICE_COMMAND_HEADER_LEN <= MAX_COMMAND_LEN
    ensures ok ==> var f := buffer[..ICE_COMMAND_HEADER_LEN + |data|]; IsFrame(f) && Command(f) == IceCommand(op, id, data)
    ensures ok ==> forall k :: ICE_COMMAND_HEADER_LEN + |data| <= k < buffer.Length ==> buffer[k] == old(buffer[k])
    ensures !ok ==> buffer[..] == old(buffer[..])
  {
    hide Field, IsFrame, Command;
    if |data| + ICE_COMMAND_HEADER_LEN > MAX_COMMAND_LEN { return false; }
    Copy(buffer, 0, Field(op, 4));
    assert buffer[..4] == Field(op, 4);
    Copy(buffer, 4, Field(id, 8));
    Copy(buffer, ICE_COMMAND_HEADER_LEN - 4, Field(|data|, 4));
    Copy(buffer, ICE_COMMAND_HEADER_LEN, data);
    CommandIsFrame(IceCommand(op, id, data));
    assert buffer[..ICE_COMMAND_HEADER_LEN + |data|] == CommandBytes(IceCommand(op, id, data));
    ok := true;
  }

  /** Commands sent one after the other. */
  function Row(cs: seq<IceCommand>): Bytes {
    if cs == [] then [] else CommandBytes(cs[0]) + Row(cs[1..])
  }

  /** What frames say. */
  function Commands(fs: seq<Bytes>): seq<IceCommand>
    requires AllFrames(fs)
  {
    if fs == [] then [] else [Command(fs[0])] + Commands(fs[1..])
  }

  lemma {:induction false} CommandsConcat(fs: seq<Bytes>, gs: seq<Bytes>)
    requires AllFrames(fs) && AllFrames(gs)
    ensures Commands(fs + gs) == Commands(fs) + Commands(gs)
  {
    hide Command, IsFrame;
    if fs == [] {
      assert fs + gs == gs;
    } else {
      assert (fs + gs)[0] == fs[0] && (fs + gs)[1..] == fs[1..] + gs;
      CommandsConcat(fs[1..], gs);
    }
  }

  lemma {:induction false} FramesAreFrames(b: Bytes)
    ensures AllFrames(Frames(b))
    decreases |b|
  {
    if Complete(b) {
      FramesAreFrames(b[FrameLen(b)..]);
      assert IsFrame(b[..FrameLen(b)]);
    }
  }

  /** The reference parse of what was sent gives back the commands, whatever follows. */
  lemma {:induction false} RowReads(cs: seq<IceCommand>, rest: Bytes)
    requires forall k :: 0 <= k < |cs| ==> Representable(cs[k]) && |cs[k].content| < 0x1_0000
    ensures AllFrames(Frames(Row(cs) + rest)) && AllFrames(Frames(rest))
    ensures Commands(Frames(Row(cs) + rest)) == cs + Commands(Frames(rest))
  {
    hide Frames, FrameLen, Command, CommandBytes, Complete;
    FramesAreFrames(Row(cs) + rest);
    FramesAreFrames(rest);
    if cs == [] {
      assert Row(cs) + rest == rest;
    } else {
      var f, more := CommandBytes(cs[0]), Row(cs[1..]) + rest;
      assert Row(cs) + rest == f + more;
      CommandIsFrame(cs[0]);
      FrameInFront(f, more);
      FramesAreFrames(more);
      RowReads(cs[1..], rest);
      assert ([f] + Frames(more))[1..] == Frames(more);
    }
  }

  // ------------------------------------------------------------------ one call

  /** The frames the loop of `handleCommand` takes from the bytes not used yet. `limit` is the
    * chunk's length minus the bytes used: the guard of the loop compares with the chunk, not
    * with the buffer. */
  function Taken(b: Bytes, limit: int): seq<Bytes>
    decreases |b|
  {
    if limit > 0 && Complete(b) then [b[..FrameLen(b)]] + Taken(b[FrameLen(b)..], limit - FrameLen(b)) else []
  }

  /** The bytes it leaves. */
  function Remaining(b: Bytes, limit: int): Bytes
    decreases |b|
  {
    if limit > 0 && Complete(b) then Remaining(b[FrameLen(b)..], limit - FrameLen(b)) else b
  }

  lemma Associative<T>(x: seq<T>, y: seq<T>, z: seq<T>)
    ensures x + y + z == x + (y + z)
  {
  }

  /** A call takes whole frames, and with what it leaves they are the bytes it had. */
  lemma {:induction false} TakenAndRemaining(b: Bytes, limit: int)
    ensures Concat(Taken(b, limit)) + Remaining(b, limit) == b
    decreases |b|
  {
    hide Taken, Remaining, FrameLen, Concat;
    if limit > 0 && Complete(b) {
      TakenStep(b, limit);
      var f, tail := b[..FrameLen(b)], b[FrameLen(b)..];
      TakenAndRemaining(tail, limit - |f|);
      InFront(f, Taken(tail, limit - |f|), Remaining(tail, limit - |f|), tail);
      assert f + tail == b;
    } else {
      NothingTaken(b, limit);
    }
  }

  lemma TakenStep(b: Bytes, limit: int)
    requires limit > 0 && Complete(b)
    ensures var n := FrameLen(b);
            0 < n <= |b| && IsFrame(b[..n]) && Taken(b, limit) == [b[..n]] + Taken(b[n..], limit - n) &&
            Remaining(b, limit) == Remaining(b[n..], limit - n)
  {
  }

  lemma {:induction false} NothingTaken(b: Bytes, limit: int)
    requires limit <= 0 || !Complete(b)
    ensures Taken(b, limit) == [] && Remaining(b, limit) == b && Concat([]) + b == b
  {
  }

  lemma {:induction false} InFront(f: Bytes, fs: seq<Bytes>, rest: Bytes, tail: Bytes)
    requires Concat(fs) + rest == tail
    ensures Concat([f] + fs) + rest == f + tail
  {
  }

  /** The frames taken are those the reference parse finds first. */
  lemma {:induction false} TakenComesFirst(b: Bytes, limit: int)
    ensures AllFrames(Taken(b, limit))
    ensures Frames(b) == Taken(b, limit) + Frames(Remaining(b, limit))
    decreases |b|
  {
    hide Taken, Remaining, FrameLen, IsFrame;
    if limit > 0 && Complete(b) {
      TakenStep(b, limit);
      var n := FrameLen(b);
      TakenComesFirst(b[n..], limit - n);
      Associative([b[..n]], Taken(b[n..], limit - n), Frames(Remaining(b, limit)));
    } else {
      NothingTaken(b, limit);
    }
  }

  /** Where the last complete frame starts; 0 when there is none. */
  function LastStart(b: Bytes): nat {
    if !Complete(b) || !Complete(b[FrameLen(b)..]) then 0 else FrameLen(b) + LastStart(b[FrameLen(b)..])
  }

  /** A call leaves no complete frame behind exactly when the last complete frame of the buffer
    * with the chunk appended starts before offset `dataLen`, or there is none. */
  lemma {:induction false} DrainedExactly(b: Bytes, dataLen: int)
    ensures Frames(Remaining(b, dataLen)) == [] <==> !Complete(b) || LastStart(b) < dataLen
    decreases |b|
  {
    if dataLen > 0 && Complete(b) { DrainedExactly(b[FrameLen(b)..], dataLen - FrameLen(b)); }
  }

  lemma {:induction false} LastStartInside(b: Bytes)
    ensures LastStart(b) <= |b| && (Complete(b) ==> LastStart(b) < |b|)
  {
    if Complete(b) { LastStartInside(b[FrameLen(b)..]); }
  }

  /** With an empty buffer at the call the whole buffer is the chunk, and it is drained. */
  lemma {:induction false} EmptyBufferDrains(data: Bytes)
    ensures Frames(Remaining(data, |data|)) == []
  {
    DrainedExactly(data, |data|);
    LastStartInside(data);
  }

  /** A complete frame left behind is delivered by the next call, whatever it brings. */
  lemma {:induction false} LeftBehindIsNext(b: Bytes, data: Bytes)
    requires Complete(b) && data != []
    ensures var fs := Taken(b + data, |data|); fs != [] && fs[0] == b[..FrameLen(b)]
  {
    assert (b + data)[..FrameLen(b)] == b[..FrameLen(b)];
  }

  /** A chunk that ends a buffered frame of 32 bytes and brings one of 16 leaves the second one
    * undelivered: 17 bytes came in, 32 were used. */
  lemma {:induction false} FrameLeftBehind(first: Bytes, second: Bytes)
    requires IsFrame(first) && |first| == 32 && IsFrame(second) && |second| == 16
    ensures var buffered, data := first[..31], first[31..] + second;
            Frames(buffered) == [] && Taken(buffered + data, |data|) == [first] &&
            Remaining(buffered + data, |data|) == second && Frames(second) == [second]
  {
    assert first[..31] + (first[31..] + second) == first + second;
    FrameInFront(first, second);
    assert (first + second)[..32] == first && (first + second)[32..] == second;
    assert second + [] == second;
    FrameInFront(second, []);
    assert ContentLen(first[..31]) == ContentLen(first);
  }

  // ------------------------------------------------------------------ the connection

  class IceConnection {
    var recvBuffer_: Bytes
    var commands: seq<IceCommand>     // handed to handleIceCommand, in order
    ghost var frames: seq<Bytes>      // the bytes they came from
    ghost var received: Bytes         // everything ever read from the socket

    /** Conservation, and with it: deliveries are a prefix of the parse of the whole stream. */
    ghost predicate Valid()
      reads this
    {
      Concat(frames) + recvBuffer_ == received && Frames(received) == frames + Frames(recvBuffer_) &&
      AllFrames(frames) && commands == Commands(frames)
    }

    constructor ()
      ensures Valid() && received == [] && frames == [] && commands == []
    {
      recvBuffer_, commands, frames, received := [], [], [], [];
    }

    method HandleIceCommand(command: IceCommand)
      modifies `commands
      ensures commands == old(commands) + [command]
    {
      commands := commands + [command];
    }

    /** `parseCommand` on the bytes not used yet; the source asserts that there are some. */
    method ParseCommand(p: Bytes) returns (ok: bool, command: IceCommand, usedLen: nat)
      requires p != []
      ensures ok <==> Complete(p)
      ensures ok ==> usedLen == FrameLen(p) && command == Command(p[..usedLen])
    {
      command, usedLen := IceCommand(0, 0, []), 0;
      var nLength := |p|;
      if nLength < ICE_COMMAND_HEADER_LEN { return false, command, usedLen; }
      var contentLen := p[ICE_COMMAND_HEADER_LEN - 4] as nat + 256 * (p[ICE_COMMAND_HEADER_LEN - 3] as nat);
      if contentLen > nLength - ICE_COMMAND_HEADER_LEN { return false, command, usedLen; }
      usedLen := ICE_COMMAND_HEADER_LEN + contentLen;
      command := IceCommand(LittleEndian(p[..4]), LittleEndian(p[4..12]), p[ICE_COMMAND_HEADER_LEN..usedLen]);
      SameFields(p);
      ok := true;
    }

    lemma SameFields(p: Bytes)
      requires Complete(p)
      ensures var frame := p[..FrameLen(p)];
              IsFrame(frame) &&
              Command(frame) == IceCommand(LittleEndian(p[..4]), LittleEndian(p[4..12]), p[ICE_COMMAND_HEADER_LEN..FrameLen(p)])
    {
      var frame := p[..FrameLen(p)];
      assert frame[..4] == p[..4];
      assert frame[4..12] == p[4..12];
      assert frame[ICE_COMMAND_HEADER_LEN..] == p[ICE_COMMAND_HEADER_LEN..FrameLen(p)];
    }

    /** `handleCommand`: nothing is lost, duplicated or reordered for any chunking; what is left
      * behind is settled by `DrainedExactly`. */
    method HandleCommand(data: Bytes)
      requires Valid() && data != []
      modifies this
      ensures Valid() && received == old(received) + data
      ensures frames == old(frames) + Taken(old(recvBuffer_) + data, |data|)
      ensures recvBuffer_ == Remaining(old(recvBuffer_) + data, |data|)
      ensures AllFrames(Taken(old(recvBuffer_) + data, |data|))
      ensures commands == old(commands) + Commands(Taken(old(recvBuffer_) + data, |data|))
      ensures old(recvBuffer_) == [] ==> Frames(recvBuffer_) == []
    {
      hide Frames, Concat, Command, ContentLen, LittleEndian, IsFrame, Commands;
      var totalUsedLen := 0;
      recvBuffer_ := recvBuffer_ + data;
      received := received + data;
      ghost var buffer := recvBuffer_;
      assert recvBuffer_[0..] == recvBuffer_;
      assert frames + Taken(buffer, |data|) == old(frames) + Taken(buffer, |data|);
      while |data| > totalUsedLen
        invariant totalUsedLen <= |buffer| && recvBuffer_ == buffer && received == old(received) + data
        invariant frames + Taken(buffer[totalUsedLen..], |data| - totalUsedLen) == old(frames) + Taken(buffer, |data|)
        invariant Remaining(buffer[totalUsedLen..], |data| - totalUsedLen) == Remaining(buffer, |data|)
        invariant AllFrames(frames) && commands == Commands(frames)
        decreases |buffer| - totalUsedLen
      {
        ghost var rest := buffer[totalUsedLen..];
        var ok, command, usedLen := ParseCommand(recvBuffer_[totalUsedLen..]);
        if !ok { break; }
        SameFields(rest);
        assert rest[usedLen..] == buffer[totalUsedLen + usedLen..];
        Associative(frames, [rest[..usedLen]], Taken(rest[usedLen..], |data| - totalUsedLen - usedLen));
        totalUsedLen := totalUsedLen + usedLen;
        HandleIceCommand(command);
        OneCommand(rest[..usedLen]);
        CommandsConcat(frames, [rest[..usedLen]]);
        frames := frames + [rest[..usedLen]];
      }
      assert totalUsedLen <= |recvBuffer_|;
      assert frames + [] == frames;
      Conserved(old(frames), old(recvBuffer_), data, old(received));
      TakenComesFirst(buffer, |data|);
      CommandsConcat(old(frames), Taken(buffer, |data|));
      if totalUsedLen == |recvBuffer_| {
        recvBuffer_ := [];
      } else {
        recvBuffer_ := recvBuffer_[totalUsedLen..];
      }
      if old(recvBuffer_) == [] {
        assert buffer == data;
        EmptyBufferDrains(data);
      }
    }

    lemma {:induction false} OneCommand(f: Bytes)
      requires IsFrame(f)
      ensures AllFrames([f]) && Commands([f]) == [Command(f)]
    {
    }

    lemma {:induction false} Conserved(before: seq<Bytes>, buffered: Bytes, data: Bytes, received: Bytes)
      requires Concat(before) + buffered == received && AllFrames(before)
      ensures var taken, rest := Taken(buffered + data, |data|), Remaining(buffered + data, |data|);
              Concat(before + taken) + rest == received + data &&
              Frames(received + data) == before + taken + Frames(rest)
    {
      hide Frames, Taken, Remaining, Concat, Complete;
      var taken, rest := Taken(buffered + data, |data|), Remaining(buffered + data, |data|);
      TakenAndRemaining(buffered + data, |data|);
      TakenComesFirst(buffered + data, |data|);
      ConcatAppend(before, taken);
      Associative(Concat(before), Concat(taken), rest);
      Associative(Concat(before), buffered, data);
      FramesOfConcat(before + taken, rest);
    }
  }
}
