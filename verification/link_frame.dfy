/**
 The frames of the serial link in listen_socket.cpp: a header of twelve bytes whose checksum covers
 everything after it, built for sending and examined on receipt.
 */
module LinkFrame {
  import Bits
  import opened Octets
  import opened Crc8

  type Byte = Bits.Byte

  const HEAD_LEN := 12
  const ONE_FRAME_MAX_LEN := 256
  const MSG_CMD := 13

  /** Where the fields start: data length, checksum, sender, serial number and type; the request number is zero. */
  const DATA_LEN_AT := 2
  const CRC_AT := 4
  const MCU_ID_AT := 5
  const SN_AT := 6
  const MSG_TYPE_AT := 10

  function Word(lo: Byte, hi: Byte): (n: nat)
    ensures n < 0x1_0000
  {
    256 * (hi as int) + lo as int
  }

  function LowByte(n: nat): Byte { n % 256 }
  function HighByte(n: nat): Byte { n / 256 % 256 }

  lemma {:induction false} WordOfBytes(n: nat)
    requires n < 0x1_0000
    ensures Word(LowByte(n), HighByte(n)) == n
  {
  }

  function OctetsOf(data: seq<Byte>): (o: seq<Octet>)
    ensures |o| == |data|
  {
    seq(|data|, i requires 0 <= i < |data| => FromNum(data[i]))
  }

  /** The checksum as a byte. */
  function CrcByteOf(data: seq<Byte>): Byte {
    Num(Crc(OctetsOf(data)))
  }

  /** The part of a frame that the checksum covers. */
  function Covered(mcu_id: Byte, sn: nat, msg_type: nat, payload: seq<Byte>): (c: seq<Byte>)
    ensures |c| == 7 + |payload|
  {
    [mcu_id, LowByte(sn), HighByte(sn), 0, 0, LowByte(msg_type), HighByte(msg_type)] + payload
  }

  /** A frame with the given covered part; it says how long the payload is. */
  function Frame(covered: seq<Byte>, crc: Byte): (f: seq<Byte>)
    requires |covered| >= 7
    ensures |f| == 5 + |covered|
  {
    [0xAA, 0x55, LowByte(|covered| - 7), HighByte(|covered| - 7), crc] + covered
  }

  class Link {
    var local_sn: nat
    const mcu_id: Byte

    constructor (mcu_id: Byte)
      ensures local_sn == 0 && this.mcu_id == mcu_id
    {
      this.mcu_id, local_sn := mcu_id, 0;
    }

    /** Builds a frame in the buffer; serial numbers have sixteen bits. */
    method PackageSend(buff: array<Byte>, msg_type: nat, send_buff: seq<Byte>) returns (send_len: nat)
      requires |send_buff| < 0x1_0000 - 7 && HEAD_LEN + |send_buff| <= buff.Length && msg_type < 0x1_0000
      requires local_sn < 0x1_0000
      modifies this`local_sn, buff
      ensures send_len == HEAD_LEN + |send_buff| && local_sn == (old(local_sn) + 1) % 0x1_0000
      ensures var covered := Covered(mcu_id, old(local_sn), msg_type, send_buff);
              buff[..send_len] == Frame(covered, CrcByteOf(covered))
    {
      ghost var covered := Covered(mcu_id, local_sn, msg_type, send_buff);
      send_len := HEAD_LEN + |send_buff|;
      Fill(buff, msg_type, send_buff);
      local_sn := (local_sn + 1) % 0x1_0000;
      Seal(buff, send_len, covered);
    }

    /** Everything but the checksum. */
    method Fill(buff: array<Byte>, msg_type: nat, send_buff: seq<Byte>)
      requires HEAD_LEN + |send_buff| <= buff.Length
      modifies buff
      ensures buff[..HEAD_LEN + |send_buff|] == Frame(Covered(mcu_id, local_sn, msg_type, send_buff), 0)
    {
      FillHead(buff, msg_type, |send_buff|);
      ghost var head := buff[..HEAD_LEN];
      forall i | 0 <= i < |send_buff| {
        buff[HEAD_LEN + i] := send_buff[i];
      }
      assert buff[..HEAD_LEN + |send_buff|] == head + send_buff;
      FrameParts(mcu_id, local_sn, msg_type, send_buff);
    }

    /** Writes the checksum. */
    method Seal(buff: array<Byte>, send_len: nat, ghost covered: seq<Byte>)
      requires 7 <= |covered| < 0x1_0000 && send_len == 5 + |covered| <= buff.Length && buff[..send_len] == Frame(covered, 0)
      modifies buff
      ensures buff[..send_len] == Frame(covered, CrcByteOf(covered))
    {
      FrameFields(buff[..], covered, 0);
      var crc := PackageCrc(buff[..]);
      buff[CRC_AT] := crc;
      assert buff[..send_len] == Frame(covered, 0)[CRC_AT := crc];
      FrameSealed(covered, crc);
    }

    /** The fields of the header, with no checksum yet. */
    method FillHead(buff: array<Byte>, msg_type: nat, size: nat)
      requires HEAD_LEN <= buff.Length
      modifies buff
      ensures buff[..HEAD_LEN] == [0xAA, 0x55, LowByte(size), HighByte(size), 0, mcu_id, LowByte(local_sn),
                                   HighByte(local_sn), 0, 0, LowByte(msg_type), HighByte(msg_type)]
    {
      forall i | 0 <= i < HEAD_LEN {
        buff[i] := 0;
      }
      buff[0], buff[1] := 0xAA, 0x55;
      buff[MSG_TYPE_AT], buff[MSG_TYPE_AT + 1] := LowByte(msg_type), HighByte(msg_type);
      buff[SN_AT], buff[SN_AT + 1] := LowByte(local_sn), HighByte(local_sn);
      buff[DATA_LEN_AT], buff[DATA_LEN_AT + 1] := LowByte(size), HighByte(size);
      buff[MCU_ID_AT] := mcu_id;
    }
  }

  lemma {:induction false} FrameParts(mcu_id: Byte, sn: nat, msg_type: nat, payload: seq<Byte>)
    ensures Frame(Covered(mcu_id, sn, msg_type, payload), 0)
         == [0xAA, 0x55, LowByte(|payload|), HighByte(|payload|), 0, mcu_id, LowByte(sn), HighByte(sn), 0, 0,
             LowByte(msg_type), HighByte(msg_type)] + payload
  {
  }

  /** Where the fields stand; numbers of two bytes have the low one first. */
  lemma {:induction false} FrameIs(mcu_id: Byte, sn: nat, msg_type: nat, payload: seq<Byte>, crc: Byte)
    requires sn < 0x1_0000 && msg_type < 0x1_0000 && |payload| < 0x1_0000
    ensures var f := Frame(Covered(mcu_id, sn, msg_type, payload), crc);
            && f[0] == 0xAA && f[1] == 0x55 && f[2] as int + 256 * f[3] as int == |payload| && f[4] == crc
            && f[5] == mcu_id && f[6] as int + 256 * f[7] as int == sn && f[8] == f[9] == 0
            && f[10] as int + 256 * f[11] as int == msg_type && f[12..] == payload
  {
    var f := Frame(Covered(mcu_id, sn, msg_type, payload), crc);
    BothBytes(sn);
    BothBytes(msg_type);
    BothBytes(|payload|);
    assert f == [0xAA, 0x55, LowByte(|payload|), HighByte(|payload|), crc, mcu_id, LowByte(sn), HighByte(sn), 0, 0,
                 LowByte(msg_type), HighByte(msg_type)] + payload;
  }

  lemma {:induction false} BothBytes(n: nat)
    requires n < 0x1_0000
    ensures LowByte(n) as int + 256 * HighByte(n) as int == n
  {
  }

  lemma {:induction false} FrameSealed(covered: seq<Byte>, crc: Byte)
    requires |covered| >= 7
    ensures Frame(covered, 0)[CRC_AT := crc] == Frame(covered, crc)
  {
  }

  /** Length, checksum and covered part can be found in a buffer that starts with a frame. */
  lemma {:induction false} FrameFields(data: seq<Byte>, covered: seq<Byte>, crc: Byte)
    requires 7 <= |covered| < 0x1_0000 && Frame(covered, crc) <= data
    ensures DataLen(data) == |covered| - 7 && data[CRC_AT] == crc
    ensures data[MCU_ID_AT..HEAD_LEN + DataLen(data)] == covered
  {
    WordOfBytes(|covered| - 7);
    var f := Frame(covered, crc);
    assert data[..|f|] == f;
    assert f[2] == LowByte(|covered| - 7) && f[3] == HighByte(|covered| - 7) && f[4] == crc;
    assert f[5..] == covered;
    assert data[5..|f|] == f[5..];
  }

  function DataLen(data: seq<Byte>): nat
    requires |data| >= HEAD_LEN
  {
    Word(data[DATA_LEN_AT], data[DATA_LEN_AT + 1])
  }

  /** The checksum of a package: from the sender's number to the end of its data. */
  method PackageCrc(data: seq<Byte>) returns (crc: Byte)
    requires |data| >= HEAD_LEN && HEAD_LEN + DataLen(data) <= |data| && DataLen(data) + 7 < 0x1_0000
    ensures crc == CrcByteOf(data[MCU_ID_AT..HEAD_LEN + DataLen(data)])
  {
    var len := DataLen(data) + 1 + 2 + 2 + 2;
    var c := HhdCrc8(OctetsOf(data[MCU_ID_AT..MCU_ID_AT + len]));
    crc := Num(c);
  }

  // ---------- receiving ----------

  /** How often the two flag bytes occur, the second at a place from 1 to n - 1. */
  function FlagCount(data: seq<Byte>, n: nat): nat
    requires n <= |data|
  {
    if n <= 1 then 0
    else FlagCount(data, n - 1) + (if data[n - 2] == 0xAA && data[n - 1] == 0x55 then 1 else 0)
  }

  method GetRemainFrames(data: seq<Byte>, nbytes: nat) returns (count: nat)
    requires nbytes <= |data|
    ensures count == FlagCount(data, nbytes)
  {
    count := 0;
    var i := 1;
    while i < nbytes
      invariant 1 <= i && (i <= nbytes || nbytes == 0) && count == FlagCount(data, if i <= nbytes then i else 0)
    {
      if data[i - 1] == 0xAA && data[i] == 0x55 {
        count := count + 1;
      }
      i := i + 1;
    }
  }

  datatype Verdict = Complete | Resync | Wait

  /** The length a command states about itself matches the length of the package. */
  ghost predicate CommandFits(data: seq<Byte>)
    requires |data| >= 16
  {
    Word(data[MSG_TYPE_AT], data[MSG_TYPE_AT + 1]) == MSG_CMD ==>
      (DataLen(data) + 252) % 256 == Word(data[HEAD_LEN + 2], data[HEAD_LEN + 3])
  }

  /** Examines the first nbytes of the buffer. */
  method ParseMsgHead(data: seq<Byte>, nbytes: nat) returns (r: Verdict)
    requires nbytes <= |data| && 16 <= |data|
    ensures r == Complete <==>
              && HEAD_LEN <= nbytes && DataLen(data) <= ONE_FRAME_MAX_LEN && HEAD_LEN + DataLen(data) <= nbytes
              && CommandFits(data) && CrcByteOf(data[MCU_ID_AT..HEAD_LEN + DataLen(data)]) == data[CRC_AT]
    ensures r == Wait <==>
              || nbytes < HEAD_LEN
              || (DataLen(data) <= ONE_FRAME_MAX_LEN && nbytes < HEAD_LEN + DataLen(data) && FlagCount(data, nbytes) <= 1)
  {
    if nbytes < HEAD_LEN {
      return Wait;
    }
    var data_len := DataLen(data);
    if data_len > ONE_FRAME_MAX_LEN {
      return Resync;
    }
    if nbytes - HEAD_LEN >= data_len {
      var check_cmd_len := (data_len + 252) % 256;
      if check_cmd_len != Word(data[HEAD_LEN + 2], data[HEAD_LEN + 3])
         && Word(data[MSG_TYPE_AT], data[MSG_TYPE_AT + 1]) == MSG_CMD {
        return Resync;
      }
      var crc := PackageCrc(data);
      if crc != data[CRC_AT] {
        return Resync;
      }
      r := Complete;
    } else {
      var count := GetRemainFrames(data, nbytes);
      r := if count > 1 then Resync else Wait;
    }
  }

  // ---------- what is sent is accepted, unless it is damaged ----------

  /** What a received buffer holds when a frame with this covered part arrived first. */
  ghost predicate Arrived(data: seq<Byte>, covered: seq<Byte>, crc: Byte) {
    7 <= |covered| <= 263 && 16 <= |data| && Frame(covered, crc) <= data
  }

  lemma {:induction false} ArrivedParts(data: seq<Byte>, covered: seq<Byte>, crc: Byte)
    requires Arrived(data, covered, crc)
    ensures DataLen(data) == |covered| - 7 && data[CRC_AT] == crc
    ensures data[MCU_ID_AT..HEAD_LEN + DataLen(data)] == covered
  {
    FrameFields(data, covered, crc);
  }

  /** A command's own length field, if the package is a command. */
  ghost predicate CommandLength(msg_type: nat, payload: seq<Byte>) {
    msg_type == MSG_CMD ==> |payload| >= 4 && Word(payload[2], payload[3]) == |payload| - 4
  }

  /**
   Every frame that is sent is accepted as soon as all of it has arrived, whatever follows it.  The receiver's
   buffer has at least sixteen bytes, of which nbytes have been received.
   */
  method AcceptSent(link: Link, buff: array<Byte>, msg_type: nat, send_buff: seq<Byte>, more: seq<Byte>, nbytes: nat)
      returns (r: Verdict)
    requires |send_buff| <= ONE_FRAME_MAX_LEN && HEAD_LEN + |send_buff| <= buff.Length && msg_type < 0x1_0000
    requires link.local_sn < 0x1_0000 && CommandLength(msg_type, send_buff) && |send_buff| + |more| >= 4
    requires HEAD_LEN + |send_buff| <= nbytes <= HEAD_LEN + |send_buff| + |more|
    modifies link`local_sn, buff
    ensures r == Complete
  {
    ghost var covered := Covered(link.mcu_id, link.local_sn, msg_type, send_buff);
    var n := link.PackageSend(buff, msg_type, send_buff);
    var data := buff[..n] + more;
    SentFits(data, link.mcu_id, old(link.local_sn), msg_type, send_buff, CrcByteOf(covered));
    ArrivedParts(data, covered, CrcByteOf(covered));
    r := ParseMsgHead(data, nbytes);
  }

  lemma {:induction false} SentFits(data: seq<Byte>, mcu_id: Byte, sn: nat, msg_type: nat, payload: seq<Byte>, crc: Byte)
    requires |payload| <= ONE_FRAME_MAX_LEN && CommandLength(msg_type, payload) && msg_type < 0x1_0000
    requires 16 <= |data| && Frame(Covered(mcu_id, sn, msg_type, payload), crc) <= data
    ensures Arrived(data, Covered(mcu_id, sn, msg_type, payload), crc) && CommandFits(data)
  {
    var covered := Covered(mcu_id, sn, msg_type, payload);
    ArrivedParts(data, covered, crc);
    CoveredParts(mcu_id, sn, msg_type, payload);
    TypeAndCommand(data, covered, msg_type, payload);
    WordOfBytes(msg_type);
    FieldsFit(data, msg_type, payload);
  }

  lemma {:induction false} FieldsFit(data: seq<Byte>, msg_type: nat, payload: seq<Byte>)
    requires 16 <= |data| && DataLen(data) == |payload| <= 256 && msg_type < 0x1_0000 && CommandLength(msg_type, payload)
    requires Word(data[MSG_TYPE_AT], data[MSG_TYPE_AT + 1]) == msg_type
    requires |payload| >= 4 ==> Word(data[HEAD_LEN + 2], data[HEAD_LEN + 3]) == Word(payload[2], payload[3])
    ensures CommandFits(data)
  {
    CheckLength(|payload|);
  }

  lemma {:induction false} CheckLength(n: nat)
    ensures 4 <= n <= 256 ==> (n + 252) % 256 == n - 4
  {
  }

  lemma {:induction false} CoveredParts(mcu_id: Byte, sn: nat, msg_type: nat, payload: seq<Byte>)
    ensures var c := Covered(mcu_id, sn, msg_type, payload);
            c[5] == LowByte(msg_type) && c[6] == HighByte(msg_type) && c[7..] == payload
  {
  }

  lemma {:induction false} TypeAndCommand(data: seq<Byte>, got: seq<Byte>, msg_type: nat, payload: seq<Byte>)
    requires 5 + |got| <= |data| && got == data[5..5 + |got|] && |got| == 7 + |payload|
    requires got[5] == LowByte(msg_type) && got[6] == HighByte(msg_type) && got[7..] == payload
    ensures data[MSG_TYPE_AT] == LowByte(msg_type) && data[MSG_TYPE_AT + 1] == HighByte(msg_type)
    ensures |payload| >= 4 ==> data[HEAD_LEN + 2] == payload[2] && data[HEAD_LEN + 3] == payload[3]
  {
    assert forall i :: 0 <= i < |got| ==> data[5 + i] == got[i];
    assert forall i :: 0 <= i < |payload| ==> got[7 + i] == got[7..][i];
  }

  /** Bytes that differ from the sent ones in the bits that e tells. */
  ghost predicate Damaged(sent: seq<Byte>, got: seq<Byte>, e: seq<Octet>) {
    |sent| == |got| == |e| && OctetsOf(got) == Xor(OctetsOf(sent), e)
  }

  /**
   Damage that the checksum notices is never accepted, and as soon as the whole frame is there it is skipped:
   bursts of up to eight bits and odd numbers of bits.
   */
  method RejectDamaged(sent: seq<Byte>, got: seq<Byte>, ghost e: seq<Octet>, more: seq<Byte>, nbytes: nat) returns (r: Verdict)
    requires 7 <= |sent| <= 263 && Damaged(sent, got, e) && (Burst(e) || Odd(BitsOf(e)))
    requires |got| + |more| >= 11 && nbytes <= 5 + |got| + |more|
    ensures r != Complete && (nbytes >= 5 + |got| ==> r == Resync)
  {
    var data := Frame(got, CrcByteOf(sent)) + more;
    ArrivedParts(data, got, CrcByteOf(sent));
    if Burst(e) {
      BurstDetected(OctetsOf(sent), e);
    } else {
      OddDetected(OctetsOf(sent), e);
    }
    DifferentBytes(Crc(OctetsOf(got)), Crc(OctetsOf(sent)));
    r := ParseMsgHead(data, nbytes);
  }

  lemma {:induction false} DifferentBytes(a: Octet, b: Octet)
    requires a != b
    ensures Num(a) != Num(b)
  {
    FromNumOfNum(a);
    FromNumOfNum(b);
  }
}
