/** The proc-connector frame decoder (`src/netlink_proc.rs`) and the listen frame. */
module Netlink {
  import opened Base

  type Bytes = seq<Byte>

  const CN_IDX_PROC: int := 1
  const CN_VAL_PROC: int := 1
  const PROC_EVENT_EXEC: int := 2
  const PROC_CN_MCAST_LISTEN: int := 1
  const NLMSG_DONE: int := 3
  const NLMSGHDR_LEN: nat := 16
  const CN_MSG_HEADER_LEN: nat := 20
  const PROC_EVENT_HEADER_LEN: nat := 16
  const PROC_EVENT_EXEC_PAYLOAD_LEN: nat := 8

  datatype ProcEvent = Exec(pid: int, tgid: int) | Other(what: int)

  datatype NetlinkError = Truncated(expected: nat, actual: nat) | InvalidId(idx: int, val: int)

  /** `u16::from_le_bytes` and `u32::from_le_bytes`. */
  function U16(b: Bytes): int
    requires |b| == 2
  {
    b[0] as int + 0x100 * b[1] as int
  }

  function U32(b: Bytes): int
    requires |b| == 4
  {
    b[0] as int + 0x100 * b[1] as int + 0x1_0000 * b[2] as int + 0x100_0000 * b[3] as int
  }

  /** `to_le_bytes`. */
  function Le16(x: int): (b: Bytes)
    requires 0 <= x < 0x1_0000
    ensures |b| == 2 && U16(b) == x
  {
    [(x % 0x100) as Byte, (x / 0x100) as Byte]
  }

  function Le32(x: int): (b: Bytes)
    requires 0 <= x < 0x1_0000_0000
    ensures |b| == 4 && U32(b) == x
  {
    var low, high := Le16(x % 0x1_0000), Le16(x / 0x1_0000);
    low + high
  }

  /** Little-endian bytes are determined by their value. */
  lemma Le16Inverse(b: Bytes)
    requires |b| == 2
    ensures 0 <= U16(b) < 0x1_0000 && Le16(U16(b)) == b
  {
    assert U16(b) % 0x100 == b[0] as int && U16(b) / 0x100 == b[1] as int;
  }

  lemma Le32Inverse(b: Bytes)
    requires |b| == 4
    ensures 0 <= U32(b) < 0x1_0000_0000 && Le32(U32(b)) == b
  {
    Le16Inverse(b[..2]);
    Le16Inverse(b[2..]);
    assert U32(b) % 0x1_0000 == U16(b[..2]) && U32(b) / 0x1_0000 == U16(b[2..]);
    assert b == b[..2] + b[2..];
  }

  function ParseCnMsg(bytes: Bytes): Result<Bytes, NetlinkError> {
    if |bytes| < CN_MSG_HEADER_LEN then Err(Truncated(CN_MSG_HEADER_LEN, |bytes|))
    else
      var idx, val := U32(bytes[0..4]), U32(bytes[4..8]);
      if idx != CN_IDX_PROC || val != CN_VAL_PROC then Err(InvalidId(idx, val))
      else
        var needed := CN_MSG_HEADER_LEN + U16(bytes[16..18]);
        if |bytes| < needed then Err(Truncated(needed, |bytes|))
        else Ok(bytes[CN_MSG_HEADER_LEN..needed])
  }

  function ParseProcEvent(bytes: Bytes): Result<ProcEvent, NetlinkError> {
    if |bytes| < PROC_EVENT_HEADER_LEN then Err(Truncated(PROC_EVENT_HEADER_LEN, |bytes|))
    else
      var what := U32(bytes[0..4]);
      if what != PROC_EVENT_EXEC then Ok(Other(what))
      else
        var execEnd := PROC_EVENT_HEADER_LEN + PROC_EVENT_EXEC_PAYLOAD_LEN;
        if |bytes| < execEnd then Err(Truncated(execEnd, |bytes|))
        else
          Ok(Exec(U32(bytes[PROC_EVENT_HEADER_LEN..PROC_EVENT_HEADER_LEN + 4]),
                  U32(bytes[PROC_EVENT_HEADER_LEN + 4..execEnd])))
  }

  /** `next_event` on one received datagram: skip the netlink header, parse, drop what fails. */
  function NextEvent(datagram: Bytes): Option<ProcEvent> {
    if |datagram| < NLMSGHDR_LEN then None
    else
      var payload := ParseCnMsg(datagram[NLMSGHDR_LEN..]);
      if payload.Err? then None
      else
        var event := ParseProcEvent(payload.value);
        if event.Err? then None else Some(event.value)
  }

  // ---------------------------------------------------------------------------------------
  // Encoding

  /** What surrounds the fields that are read. */
  datatype Ignored = Ignored(nlmsghdr: Bytes, seqAck: Bytes, flags: Bytes, cpuTimestamp: Bytes, extra: Bytes, trailing: Bytes)

  predicate Fits(g: Ignored) {
    |g.nlmsghdr| == 16 && |g.seqAck| == 8 && |g.flags| == 2 && |g.cpuTimestamp| == 12 && 24 + |g.extra| < 0x1_0000
  }

  predicate IsU32(x: int) { 0 <= x < 0x1_0000_0000 }

  /** A `cn_msg`: id, sequence numbers, payload length, flags, payload. */
  function EncodeCnMsg(seqAck: Bytes, flags: Bytes, payload: Bytes): Bytes
    requires |payload| < 0x1_0000
  {
    Le32(CN_IDX_PROC) + Le32(CN_VAL_PROC) + seqAck + Le16(|payload|) + flags + payload
  }

  function EncodeExec(cpuTimestamp: Bytes, pid: int, tgid: int): Bytes
    requires IsU32(pid) && IsU32(tgid)
  {
    Le32(PROC_EVENT_EXEC) + cpuTimestamp + Le32(pid) + Le32(tgid)
  }

  /** A whole datagram carrying an exec event. */
  function EncodeFrame(g: Ignored, pid: int, tgid: int): Bytes
    requires Fits(g) && IsU32(pid) && IsU32(tgid)
  {
    g.nlmsghdr + EncodeCnMsg(g.seqAck, g.flags, EncodeExec(g.cpuTimestamp, pid, tgid) + g.extra) + g.trailing
  }

  /** Whatever follows it, an encoded `cn_msg` parses to its payload. */
  lemma CnMsgRoundTrip(seqAck: Bytes, flags: Bytes, payload: Bytes, trailing: Bytes)
    requires |seqAck| == 8 && |flags| == 2 && |payload| < 0x1_0000
    ensures ParseCnMsg(EncodeCnMsg(seqAck, flags, payload) + trailing) == Ok(payload)
  {
    hide U16, U32, Le16, Le32;
    var bytes := EncodeCnMsg(seqAck, flags, payload) + trailing;
    assert bytes[0..4] == Le32(CN_IDX_PROC);
    assert bytes[4..8] == Le32(CN_VAL_PROC);
    assert bytes[16..18] == Le16(|payload|);
    assert bytes[20..20 + |payload|] == payload;
  }

  lemma ExecRoundTrip(cpuTimestamp: Bytes, pid: int, tgid: int, extra: Bytes)
    requires |cpuTimestamp| == 12 && IsU32(pid) && IsU32(tgid)
    ensures ParseProcEvent(EncodeExec(cpuTimestamp, pid, tgid) + extra) == Ok(Exec(pid, tgid))
  {
    hide U32, Le32;
    var bytes := EncodeExec(cpuTimestamp, pid, tgid) + extra;
    assert bytes[0..4] == Le32(PROC_EVENT_EXEC);
    assert bytes[16..20] == Le32(pid);
    assert bytes[20..24] == Le32(tgid);
  }

  /** Decoding an encoded exec datagram gives its pid and tgid, for all header fields, payload
      extensions and trailing bytes. */
  lemma FrameRoundTrip(g: Ignored, pid: int, tgid: int)
    requires Fits(g) && IsU32(pid) && IsU32(tgid)
    ensures NextEvent(EncodeFrame(g, pid, tgid)) == Some(Exec(pid, tgid))
  {
    hide ParseCnMsg, ParseProcEvent, EncodeCnMsg, Le32;
    var payload := EncodeExec(g.cpuTimestamp, pid, tgid) + g.extra;
    CnMsgRoundTrip(g.seqAck, g.flags, payload, g.trailing);
    ExecRoundTrip(g.cpuTimestamp, pid, tgid, g.extra);
    assert EncodeFrame(g, pid, tgid)[16..] == EncodeCnMsg(g.seqAck, g.flags, payload) + g.trailing;
  }

  /** A `cn_msg` that parses is the encoding of its payload and ignored fields. */
  lemma CnMsgDecodesOnlyEncodings(bytes: Bytes, payload: Bytes)
    requires ParseCnMsg(bytes) == Ok(payload)
    ensures |bytes| >= 20 + |payload| && |payload| < 0x1_0000
    ensures bytes == EncodeCnMsg(bytes[8..16], bytes[18..20], payload) + bytes[20 + |payload|..]
  {
    Le32Inverse(bytes[0..4]);
    Le32Inverse(bytes[4..8]);
    Le16Inverse(bytes[16..18]);
    hide U16, U32, Le16, Le32;
    var n := |payload|;
    assert bytes == bytes[0..4] + bytes[4..8] + bytes[8..16] + bytes[16..18] + bytes[18..20] + bytes[20..20 + n] + bytes[20 + n..];
  }

  lemma ExecDecodesOnlyEncodings(bytes: Bytes, pid: int, tgid: int)
    requires ParseProcEvent(bytes) == Ok(Exec(pid, tgid))
    ensures |bytes| >= 24 && IsU32(pid) && IsU32(tgid)
    ensures bytes == EncodeExec(bytes[4..16], pid, tgid) + bytes[24..]
  {
    Le32Inverse(bytes[0..4]);
    Le32Inverse(bytes[16..20]);
    Le32Inverse(bytes[20..24]);
    hide U32, Le32;
    assert bytes == bytes[0..4] + bytes[4..16] + bytes[16..20] + bytes[20..24] + bytes[24..];
  }

  /** A datagram decodes to an exec event exactly when it is the encoding of that pid and tgid with
      some ignored fields. */
  lemma FrameDecodesOnlyEncodings(datagram: Bytes, pid: int, tgid: int)
    ensures NextEvent(datagram) == Some(Exec(pid, tgid)) <==>
            exists g :: Fits(g) && IsU32(pid) && IsU32(tgid) && datagram == EncodeFrame(g, pid, tgid)
  {
    if NextEvent(datagram) == Some(Exec(pid, tgid)) {
      var g := IgnoredIn(datagram, pid, tgid);
    }
    forall g | Fits(g) && IsU32(pid) && IsU32(tgid) && datagram == EncodeFrame(g, pid, tgid)
      ensures NextEvent(datagram) == Some(Exec(pid, tgid))
    {
      FrameRoundTrip(g, pid, tgid);
    }
  }

  lemma IgnoredIn(datagram: Bytes, pid: int, tgid: int) returns (g: Ignored)
    requires NextEvent(datagram) == Some(Exec(pid, tgid))
    ensures Fits(g) && IsU32(pid) && IsU32(tgid) && datagram == EncodeFrame(g, pid, tgid)
  {
    hide ParseCnMsg, ParseProcEvent, EncodeCnMsg, Le32;
    var bytes := datagram[16..];
    var payload := ParseCnMsg(bytes).value;
    CnMsgDecodesOnlyEncodings(bytes, payload);
    ExecDecodesOnlyEncodings(payload, pid, tgid);
    g := Ignored(datagram[..16], bytes[8..16], bytes[18..20], payload[4..16], payload[24..], bytes[20 + |payload|..]);
    assert EncodeExec(g.cpuTimestamp, pid, tgid) + g.extra == payload;
    assert datagram == datagram[..16] + bytes;
    assert g.nlmsghdr + EncodeCnMsg(g.seqAck, g.flags, payload) + g.trailing ==
           g.nlmsghdr + (EncodeCnMsg(g.seqAck, g.flags, payload) + g.trailing);
  }

  lemma Slice(s: Bytes, a: nat, b: nat, i: nat, j: nat)
    requires a <= b <= |s| && i <= j <= b - a
    ensures s[a..b][i..j] == s[a + i..a + j]
  {
    forall k | 0 <= k < j - i ensures s[a..b][i..j][k] == s[a + i..a + j][k] {
      assert s[a..b][i + k] == s[a + i + k];
    }
  }

  /** An exec event byte by byte, in little-endian order: connector id 1/1, 24 bytes of payload, event 2,
      and the two ids behind the event header. */
  lemma ExecByBytes(d: Bytes)
    requires |d| >= 60
    requires d[16..20] == [1, 0, 0, 0] && d[20..24] == [1, 0, 0, 0]
    requires d[32..34] == [24, 0] && d[36..40] == [2, 0, 0, 0]
    ensures NextEvent(d) ==
            Some(Exec(d[52] as int + 256 * d[53] as int + 65_536 * d[54] as int + 16_777_216 * d[55] as int,
                      d[56] as int + 256 * d[57] as int + 65_536 * d[58] as int + 16_777_216 * d[59] as int))
  {
    assert d[16..] == d[16..|d|];
    Slice(d, 16, |d|, 0, 4);
    Slice(d, 16, |d|, 4, 8);
    Slice(d, 16, |d|, 16, 18);
    Slice(d, 16, |d|, 20, 44);
    Slice(d, 36, 60, 0, 4);
    Slice(d, 36, 60, 16, 20);
    Slice(d, 36, 60, 20, 24);
  }

  /** Which error a connector message or an event is refused with, and with which numbers. */
  lemma RefusedExactly(bytes: Bytes)
    ensures |bytes| < 20 ==> ParseCnMsg(bytes) == Err(Truncated(20, |bytes|))
    ensures |bytes| >= 20 ==>
              var (idx, val, len) := (U32(bytes[0..4]), U32(bytes[4..8]), U16(bytes[16..18]));
              && ((idx, val) != (1, 1) ==> ParseCnMsg(bytes) == Err(InvalidId(idx, val)))
              && ((idx, val) == (1, 1) && |bytes| < 20 + len ==> ParseCnMsg(bytes) == Err(Truncated(20 + len, |bytes|)))
    ensures |bytes| < 16 ==> ParseProcEvent(bytes) == Err(Truncated(16, |bytes|))
    ensures 16 <= |bytes| < 24 && U32(bytes[0..4]) == 2 ==> ParseProcEvent(bytes) == Err(Truncated(24, |bytes|))
  {
    hide U16, U32;
  }

  /** A datagram is dropped exactly when it is too short for its headers, its declared payload or its
      event, or carries another connector id; anything else is reported under its own discriminant. */
  lemma DroppedExactly(datagram: Bytes)
    ensures NextEvent(datagram).None? <==>
            || |datagram| < 36
            || U32(datagram[16..20]) != 1 || U32(datagram[20..24]) != 1
            || var len := U16(datagram[32..34]);
               || |datagram| < 36 + len || len < 16
               || (U32(datagram[36..40]) == 2 && len < 24)
    ensures NextEvent(datagram).Some? ==>
              |datagram| >= 52 &&
              (NextEvent(datagram).value.Exec? <==> U32(datagram[36..40]) == 2) &&
              (NextEvent(datagram).value.Other? ==> NextEvent(datagram).value.what == U32(datagram[36..40]))
  {
    if |datagram| >= 36 {
      var bytes := datagram[16..];
      assert bytes[0..4] == datagram[16..20] && bytes[4..8] == datagram[20..24] && bytes[16..18] == datagram[32..34];
      var len := U16(bytes[16..18]);
      if |datagram| >= 36 + len && len >= 16 {
        assert bytes[20..20 + len][0..4] == datagram[36..40];
      }
    }
  }

  // ---------------------------------------------------------------------------------------
  // The listen frame

  function Overwrite(s: Bytes, at: nat, bytes: Bytes): Bytes
    requires at + |bytes| <= |s|
  {
    s[..at] + bytes + s[at + |bytes|..]
  }

  /** `frame[at..at + n].copy_from_slice(bytes)`. */
  method CopyInto(frame: array<Byte>, at: nat, bytes: Bytes)
    requires at + |bytes| <= frame.Length
    modifies frame
    ensures frame[..] == Overwrite(old(frame[..]), at, bytes)
  {
    for i := 0 to |bytes|
      invariant frame[..at] == old(frame[..at])
      invariant frame[at..at + i] == bytes[..i]
      invariant frame[at + i..] == old(frame[at + i..])
    {
      frame[at + i] := bytes[i];
      assert frame[at..at + i + 1] == frame[at..at + i] + [bytes[i]];
      assert frame[at + i + 1..] == frame[at + i..][1..];
      assert old(frame[at + i..])[1..] == old(frame[at + i + 1..]);
    }
    assert frame[..] == frame[..at] + frame[at..at + |bytes|] + frame[at + |bytes|..];
  }

  function Zeros(n: nat): (s: Bytes)
    ensures |s| == n
  {
    seq(n, _ => 0)
  }

  /** Writing into the zeros behind a finished part. */
  lemma OverwriteZeros(done: Bytes, n: nat, gap: nat, bytes: Bytes)
    requires gap + |bytes| <= n
    ensures Overwrite(done + Zeros(n), |done| + gap, bytes) == done + Zeros(gap) + bytes + Zeros(n - gap - |bytes|)
  {
    assert (done + Zeros(n))[..|done| + gap] == done + Zeros(gap);
    assert (done + Zeros(n))[|done| + gap + |bytes|..] == Zeros(n - gap - |bytes|);
  }

  /** The six writes, in order, into a zeroed frame. */
  function ListenBytes(): (b: Bytes)
    ensures |b| == 40
  {
    hide Le16, Le32, Zeros;
    var b1 := Overwrite(Zeros(40), 0, Le32(40));
    var b2 := Overwrite(b1, 4, Le16(NLMSG_DONE));
    var b3 := Overwrite(b2, 16, Le32(CN_IDX_PROC));
    var b4 := Overwrite(b3, 20, Le32(CN_VAL_PROC));
    var b5 := Overwrite(b4, 32, Le16(4));
    Overwrite(b5, 36, Le32(PROC_CN_MCAST_LISTEN))
  }

  lemma ListenBytesInOrder()
    ensures ListenBytes() == Le32(40) + Le16(NLMSG_DONE) + Zeros(10) + Le32(CN_IDX_PROC) + Le32(CN_VAL_PROC)
                             + Zeros(8) + Le16(4) + Zeros(2) + Le32(PROC_CN_MCAST_LISTEN)
  {
    hide Le16, Le32, Overwrite, Zeros;
    assert Zeros(0) == [];
    assert [] + Zeros(40) == Zeros(40);
    OverwriteZeros([], 40, 0, Le32(40));
    var d1 := [] + Zeros(0) + Le32(40);
    OverwriteZeros(d1, 36, 0, Le16(NLMSG_DONE));
    var d2 := d1 + Zeros(0) + Le16(NLMSG_DONE);
    OverwriteZeros(d2, 34, 10, Le32(CN_IDX_PROC));
    var d3 := d2 + Zeros(10) + Le32(CN_IDX_PROC);
    OverwriteZeros(d3, 20, 0, Le32(CN_VAL_PROC));
    var d4 := d3 + Zeros(0) + Le32(CN_VAL_PROC);
    OverwriteZeros(d4, 16, 8, Le16(4));
    var d5 := d4 + Zeros(8) + Le16(4);
    OverwriteZeros(d5, 6, 2, Le32(PROC_CN_MCAST_LISTEN));
    assert ListenBytes() == d5 + Zeros(2) + Le32(PROC_CN_MCAST_LISTEN) + Zeros(0);
  }

  /** The control message `Subscriber::new` sends: it states its own length, and its `cn_msg` parses
      to the listen operation. */
  method ListenFrame() returns (frame: array<Byte>)
    ensures fresh(frame) && frame.Length == NLMSGHDR_LEN + 24
    ensures U32(frame[0..4]) == frame.Length && U16(frame[4..6]) == 3
    ensures frame[6..16] == Zeros(10)
    ensures ParseCnMsg(frame[16..]) == Ok([1, 0, 0, 0])
    ensures frame[16..] == EncodeCnMsg(Zeros(8), Zeros(2), Le32(PROC_CN_MCAST_LISTEN))
  {
    frame := new Byte[NLMSGHDR_LEN + 20 + 4](_ => 0);
    assert frame[..] == Zeros(40);
    hide U16, U32, Le16, Le32, ParseCnMsg, Overwrite, EncodeCnMsg, Zeros;
    CopyInto(frame, 0, Le32(40));
    CopyInto(frame, 4, Le16(NLMSG_DONE));
    CopyInto(frame, 16, Le32(CN_IDX_PROC));
    CopyInto(frame, 20, Le32(CN_VAL_PROC));
    CopyInto(frame, 32, Le16(4));
    CopyInto(frame, 36, Le32(PROC_CN_MCAST_LISTEN));
    assert frame[..] == ListenBytes();
    hide ListenBytes;
    ListenBytesInOrder();
    ListenFrameReads(ListenBytes());
    ListenOperation();
    assert frame[0..4] == frame[..][0..4] && frame[4..6] == frame[..][4..6];
    assert frame[6..16] == frame[..][6..16] && frame[16..] == frame[..][16..];
  }

  lemma ListenOperation()
    ensures Le32(PROC_CN_MCAST_LISTEN) == [1, 0, 0, 0]
  {
  }

  lemma ListenFrameReads(all: Bytes)
    requires all == Le32(40) + Le16(NLMSG_DONE) + Zeros(10) + Le32(CN_IDX_PROC) + Le32(CN_VAL_PROC)
                    + Zeros(8) + Le16(4) + Zeros(2) + Le32(PROC_CN_MCAST_LISTEN)
    ensures |all| == 40 && U32(all[0..4]) == 40 && U16(all[4..6]) == NLMSG_DONE && all[6..16] == Zeros(10)
    ensures all[16..] == EncodeCnMsg(Zeros(8), Zeros(2), Le32(PROC_CN_MCAST_LISTEN))
    ensures ParseCnMsg(all[16..]) == Ok(Le32(PROC_CN_MCAST_LISTEN))
  {
    hide U16, U32, Le16, Le32, ParseCnMsg;
    assert all[0..4] == Le32(40);
    assert all[4..6] == Le16(NLMSG_DONE);
    var msg := EncodeCnMsg(Zeros(8), Zeros(2), Le32(PROC_CN_MCAST_LISTEN));
    assert all[16..] == msg;
    CnMsgRoundTrip(Zeros(8), Zeros(2), Le32(PROC_CN_MCAST_LISTEN), []);
    assert msg + [] == msg;
  }
}
