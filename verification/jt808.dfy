/**
 The answer of a terminal to a query of its parameters (message 0x0313): packing in jt808.cpp, and reading
 of the serial number and of the parameters in jt808_Pack.cpp.
 */
module Jt808 {
  import Bits
  import opened Octets

  type Byte = Bits.Byte
  type Word = n: nat | n < 0x1_0000

  const FLAG: Byte := 0x7E
  const QUERY_RESP: Word := 0x0313

  /** The header with the flag before it. */
  const HEAD := 13

  // ---------- specification ----------

  function WordBytes(n: Word): seq<Byte> {
    [n / 256, n % 256]
  }

  predicate HexDigit(c: Byte) {
    0x30 <= c <= 0x39 || 0x61 <= c <= 0x66 || 0x41 <= c <= 0x46
  }

  function HexValue(c: Byte): (v: nat)
    requires HexDigit(c)
    ensures v < 16
  {
    if 0x30 <= c <= 0x39 then c - 0x30 else if 0x61 <= c <= 0x66 then c - 0x61 + 10 else c - 0x41 + 10
  }

  predicate AllHex(term: seq<Byte>) {
    forall i :: 0 <= i < |term| ==> HexDigit(term[i])
  }

  /** Half byte j of the twelve that hold the terminal number, aligned right, once i digits are in place. */
  ghost function Nibble(term: seq<Byte>, i: nat, j: nat): (v: nat)
    ensures v < 16
  {
    var k := j - (12 - |term|);
    if 0 <= k < i && k < |term| && HexDigit(term[k]) then HexValue(term[k]) else 0
  }

  ghost function BcdByte(term: seq<Byte>, i: nat, k: nat): Byte {
    16 * Nibble(term, i, 2 * k) + Nibble(term, i, 2 * k + 1)
  }

  function Zeros(n: nat): (z: seq<Byte>)
    ensures |z| == n
  {
    seq(n, _ => 0)
  }

  function HalfUp(n: nat): nat {
    n / 2 + n % 2
  }

  /** What the terminal number leaves in the header: six bytes only if it has at most twelve hexadecimal digits. */
  ghost function TermBytes(term: seq<Byte>): (b: seq<Byte>)
    ensures |b| <= 6
    ensures |b| == 6 <==> |term| <= 12 && AllHex(term)
  {
    if |term| > 12 then []
    else if AllHex(term) then seq(6, k requires 0 <= k < 6 => BcdByte(term, |term|, k))
    else
      assert term != [];
      Zeros(6 - HalfUp(|term|))
  }

  ghost function Header(id: Word, term: seq<Byte>, sn: Word): (h: seq<Byte>)
    ensures |h| == 7 + |TermBytes(term)| && h[3] == 0
  {
    [FLAG] + WordBytes(id) + [0, 0] + TermBytes(term) + WordBytes(sn)
  }

  datatype Value = Text(s: seq<Byte>) | Number(n: Word)

  datatype Param = Param(id: Byte, value: Value)

  /** Server address, state, port and file store. */
  predicate Defined(id: Byte) {
    1 <= id <= 4
  }

  /** The state is the only number. */
  const STATE: Byte := 2

  /** A number is given for the state. */
  predicate Typed(p: Param) {
    p.id == STATE ==> p.value.Number?
  }

  /** The bytes of a parameter. */
  function Data(p: Param): seq<Byte> {
    match p.value
    case Number(n) => if p.id == STATE then WordBytes(n) else []
    case Text(s) => s[..|s| % 0x1_0000]
  }

  /** What is to be sent of a parameter. */
  datatype Item = Item(key: Byte, content: seq<Byte>)

  function Items(ps: seq<Param>): (items: seq<Item>)
    ensures |items| == |ps|
  {
    if ps == [] then [] else [Item(ps[0].id, Data(ps[0]))] + Items(ps[1..])
  }

  /** Key, length and content; the length is cut to a byte. */
  function Tlv(t: Item): (b: seq<Byte>)
    ensures |b| == 2 + |t.content|
  {
    [t.key, |t.content| % 256] + t.content
  }

  function Tlvs(ts: seq<Item>): seq<Byte> {
    if ts == [] then [] else Tlv(ts[0]) + Tlvs(ts[1..])
  }

  /** No count is written where there are no parameters. */
  function Body(ts: seq<Item>): seq<Byte> {
    if ts == [] then [] else [|ts| % 256] + Tlvs(ts)
  }

  ghost function XorAll(b: seq<Byte>): Octet {
    if b == [] then ZERO else Add(XorAll(b[..|b| - 1]), FromNum(b[|b| - 1]))
  }

  /** The body's length is put into the attributes. */
  ghost function Measured(c: seq<Byte>): (m: seq<Byte>)
    requires |c| >= HEAD
    ensures |m| == |c|
  {
    c[3 := (|c| - HEAD) / 256 % 8][4 := (|c| - HEAD) % 256]
  }

  /** A check byte and the closing flag follow. */
  ghost function Sealed(c: seq<Byte>): seq<Byte>
    requires |c| >= HEAD
  {
    Measured(c) + [Num(XorAll(Measured(c)[1..])), FLAG]
  }

  ghost function Content(id: Word, term: seq<Byte>, sn: Word, ts: seq<Item>): seq<Byte> {
    Header(id, term, sn) + Body(ts)
  }

  ghost predicate AllDefined(ps: seq<Param>) {
    forall i :: 0 <= i < |ps| ==> Defined(ps[i].id)
  }

  /** A serial number of 0 asks for the next one, which is never 0. */
  function Serial(sn: Word, last: Word): (r: Word)
    ensures r != 0
  {
    if sn != 0 then sn else if last == 0xFFFF then 1 else last + 1
  }

  // ---------- packing ----------

  class Connection {
    const buffer: array<Byte>
    var length: nat
    var last_message_id: Word
    const term_no: seq<Byte>

    constructor (buffer: array<Byte>, term_no: seq<Byte>, last_message_id: Word)
      ensures this.buffer == buffer && this.term_no == term_no && this.last_message_id == last_message_id
      ensures length == 0
    {
      this.buffer := buffer;
      this.term_no := term_no;
      this.last_message_id := last_message_id;
      length := 0;
    }

    ghost predicate Valid()
      reads this
    {
      length <= buffer.Length
    }

    ghost function Contents(): (c: seq<Byte>)
      reads this, buffer
      requires Valid()
    {
      buffer[..length]
    }

    method AppendByte(v: Byte) returns (fits: bool)
      requires Valid()
      modifies this`length, buffer
      ensures Valid() && fits == (old(length) < buffer.Length)
      ensures Contents() == if fits then old(Contents()) + [v] else old(Contents())
    {
      fits := length < buffer.Length;
      if fits {
        buffer[length] := v;
        length := length + 1;
      }
    }

    method AppendWord(v: Word) returns (fits: bool)
      requires Valid()
      modifies this`length, buffer
      ensures Valid() && fits == (old(length) + 2 <= buffer.Length)
      ensures Contents() == if fits then old(Contents()) + WordBytes(v) else old(Contents())
    {
      fits := length + 2 <= buffer.Length;
      if fits {
        buffer[length], buffer[length + 1] := v / 256, v % 256;
        length := length + 2;
      }
    }

    method AppendBytes(v: seq<Byte>) returns (fits: bool)
      requires Valid()
      modifies this`length, buffer
      ensures Valid() && fits == (old(length) + |v| <= buffer.Length)
      ensures Contents() == if fits then old(Contents()) + v else old(Contents())
    {
      fits := length + |v| <= buffer.Length;
      if fits {
        ghost var before := Contents();
        var k := 0;
        while k < |v|
          invariant k <= |v| && length == old(length)
          invariant buffer[..length] == before
          invariant buffer[length..length + k] == v[..k]
        {
          buffer[length + k] := v[k];
          k := k + 1;
        }
        length := length + |v|;
        assert buffer[..length] == before + v[..k];
      }
    }

    /** The terminal number in packed decimal form, aligned right in six bytes. */
    method AppendBcd(str: seq<Byte>)
      requires Valid()
      modifies this`length, buffer
      ensures Valid()
      ensures Contents() == if old(length) + 6 <= buffer.Length then old(Contents()) + TermBytes(str) else old(Contents())
    {
      if buffer.Length < length + 6 || HalfUp(|str|) > 6 {
        return;
      }
      ghost var before, base := Contents(), length;
      ClearSix(str);
      length := length + 6 - HalfUp(|str|);
      var highBitFlag := |str| % 2 == 0;
      var dataIndex := length;
      var i := 0;
      while i < |str|
        invariant i <= |str| && length == base + 6 - HalfUp(|str|) <= dataIndex
        invariant buffer[..base] == before && Digits(str, base, i)
        invariant dataIndex == base + (12 - |str| + i) / 2 && highBitFlag == ((12 - |str| + i) % 2 == 0)
        invariant forall k :: 0 <= k < i ==> HexDigit(str[k])
      {
        if !HexDigit(str[i]) {
          NotDigits(str, base, i, before);
          return;
        }
        PlaceDigit(str, base, i, dataIndex, highBitFlag);
        if !highBitFlag {
          dataIndex := dataIndex + 1;
        }
        highBitFlag := !highBitFlag;
        i := i + 1;
      }
      length := dataIndex;
      WholeNumber(str, base, before);
    }

    /** Six bytes from base on hold the first i digits. */
    ghost predicate Digits(str: seq<Byte>, base: nat, i: nat)
      reads buffer
    {
      base + 6 <= buffer.Length && DigitsIn(buffer[base..base + 6], str, i)
    }

    method ClearSix(ghost str: seq<Byte>)
      requires Valid() && length + 6 <= buffer.Length
      modifies buffer
      ensures buffer[..length] == old(buffer[..length]) && Digits(str, length, 0)
    {
      var k := 0;
      while k < 6
        invariant k <= 6
        invariant buffer[..length] == old(buffer[..length])
        invariant buffer[length..length + k] == Zeros(k)
      {
        buffer[length + k] := 0;
        k := k + 1;
      }
    }

    method PlaceDigit(str: seq<Byte>, ghost base: nat, i: nat, dataIndex: nat, highBitFlag: bool)
      requires i < |str| <= 12 && HexDigit(str[i]) && Digits(str, base, i)
      requires dataIndex == base + (12 - |str| + i) / 2 && highBitFlag == ((12 - |str| + i) % 2 == 0)
      modifies buffer
      ensures buffer[..base] == old(buffer[..base]) && Digits(str, base, i + 1)
    {
      var val := HexValue(str[i]);
      if highBitFlag {
        PlaceByte(str, base, i, dataIndex, val * 16 % 256);
      } else {
        ghost var six := buffer[base..base + 6];
        NextDigit(six, str, i);
        assert buffer[dataIndex] == six[dataIndex - base];
        OrHalf(Nibble(str, i, 12 - |str| + i - 1), val);
        PlaceByte(str, base, i, dataIndex, Bits.BitOr(buffer[dataIndex], val));
      }
    }

    method PlaceByte(ghost str: seq<Byte>, ghost base: nat, ghost i: nat, dataIndex: nat, b: Byte)
      requires i < |str| <= 12 && HexDigit(str[i]) && Digits(str, base, i)
      requires dataIndex == base + (12 - |str| + i) / 2 && b == WithDigit(str, i)
      modifies buffer
      ensures buffer[..base] == old(buffer[..base]) && Digits(str, base, i + 1)
    {
      ghost var six := buffer[base..base + 6];
      NextDigit(six, str, i);
      buffer[dataIndex] := b;
      assert buffer[base..base + 6] == six[dataIndex - base := b];
    }

    lemma {:induction false} NotDigits(str: seq<Byte>, base: nat, i: nat, before: seq<Byte>)
      requires i < |str| <= 12 && !HexDigit(str[i]) && Digits(str, base, i)
      requires Valid() && length == base + 6 - HalfUp(|str|) && buffer[..base] == before
      ensures Contents() == before + TermBytes(str)
    {
      var six := buffer[base..base + 6];
      forall k | 0 <= k < 6 - HalfUp(|str|)
        ensures six[k] == 0
      {
        assert DigitsAt(six, str, i, k);
      }
      assert !AllHex(str);
      assert buffer[base..length] == six[..6 - HalfUp(|str|)];
      assert buffer[base..length] == TermBytes(str);
    }

    lemma {:induction false} WholeNumber(str: seq<Byte>, base: nat, before: seq<Byte>)
      requires |str| <= 12 && AllHex(str) && Digits(str, base, |str|)
      requires Valid() && length == base + 6 && buffer[..base] == before
      ensures Contents() == before + TermBytes(str)
    {
      var six := buffer[base..base + 6];
      forall k | 0 <= k < 6
        ensures six[k] == TermBytes(str)[k]
      {
        assert DigitsAt(six, str, |str|, k);
      }
      assert buffer[base..length] == TermBytes(str);
    }

    /** Flag, message number, attributes, terminal number and serial number. */
    method InitMessage(msg_id: Word, msg_sn: Word) returns (sn: Word)
      requires buffer.Length >= 1
      modifies this`length, this`last_message_id, buffer
      ensures Valid()
      ensures HEAD <= buffer.Length ==> sn == Serial(msg_sn, old(last_message_id))
      ensures HEAD <= buffer.Length ==> Contents() == Header(msg_id, term_no, sn)
    {
      length := 0;
      buffer[length] := FLAG;
      length := length + 1;
      var _ := AppendWord(msg_id);
      var _ := AppendByte(0);
      var _ := AppendByte(0);
      assert HEAD <= buffer.Length ==> Contents() == [FLAG] + WordBytes(msg_id) + [0, 0];
      AppendBcd(term_no);
      sn := AppendMsgid(msg_sn);
    }

    method AppendMsgid(message_id: Word) returns (sn: Word)
      requires Valid()
      modifies this`length, this`last_message_id, buffer
      ensures Valid() && sn == if old(length) + 2 <= buffer.Length then Serial(message_id, old(last_message_id)) else 0
      ensures Contents() == if sn != 0 then old(Contents()) + WordBytes(sn) else old(Contents())
    {
      if length + 2 > buffer.Length {
        return 0;
      }
      sn := message_id;
      while sn == 0
        invariant length == old(length) && Contents() == old(Contents())
        invariant sn == 0 ==> message_id == 0
        invariant sn == 0 ==> last_message_id == old(last_message_id) || (old(last_message_id) == 0xFFFF && last_message_id == 0)
        invariant sn != 0 ==> sn == Serial(message_id, old(last_message_id))
        decreases if sn != 0 then 0 else if last_message_id == 0xFFFF then 2 else 1
      {
        last_message_id := (last_message_id + 1) % 0x1_0000;
        sn := last_message_id;
      }
      var _ := AppendWord(sn);
    }

    // ---------- parameters ----------

    /** The first count bytes of the wanted ones are there, or the buffer is full. */
    ghost predicate HoldsOrFull(want: seq<Byte>)
      reads this, buffer
    {
      Valid() && if |want| <= buffer.Length then Contents() == want else length == buffer.Length
    }

    /** The bytes of a parameter. */
    method AppendData(p: Param) returns (data_len: int)
      requires Valid() && Typed(p)
      modifies this`length, buffer
      ensures Valid()
      ensures data_len == if old(length) + |Data(p)| <= buffer.Length then |Data(p)| else -1
      ensures Contents() == if data_len >= 0 then old(Contents()) + Data(p) else old(Contents())
    {
      if p.id == STATE {
        var fits := AppendWord(p.value.n);
        data_len := if fits then 2 else -1;
      } else {
        var bytes := Data(p);
        data_len := |bytes|;
        if |bytes| > 0 {
          var fits := AppendBytes(bytes);
          if !fits {
            data_len := -1;
          }
        }
      }
    }

    /** Number, length and bytes of a parameter; the length is filled in last. */
    method AppendExtraData(p: Param, ghost c: seq<Byte>) returns (ok: bool)
      requires HoldsOrFull(c) && Typed(p)
      modifies this`length, buffer
      ensures HoldsOrFull(c + Tlv(Item(p.id, Data(p)))) || (!ok && |c| + 2 + |Data(p)| > buffer.Length)
      ensures |c| + 2 + |Data(p)| <= buffer.Length ==> ok
    {
      var _ := AppendByte(p.id);
      var len_pos := length;
      var _ := AppendByte(0);
      var data_len := AppendData(p);
      ok := data_len >= 0;
      if data_len > 0 {
        SetLength(len_pos, data_len % 256);
      }
      LengthSet(c, Item(p.id, Data(p)));
    }

    method SetLength(len_pos: nat, v: Byte)
      requires Valid() && len_pos < length
      modifies buffer
      ensures Contents() == old(Contents())[len_pos := v]
    {
      buffer[len_pos] := v;
    }

    method PackExtFields(values: seq<Param>, ghost c: seq<Byte>) returns (ok: bool)
      requires HoldsOrFull(c) && forall i :: 0 <= i < |values| ==> Typed(values[i])
      modifies this`length, buffer
      ensures ok ==> AllDefined(values) && HoldsOrFull(c + Tlvs(Items(values)))
      ensures |c + Tlvs(Items(values))| <= buffer.Length && AllDefined(values) ==> ok
    {
      var i := 0;
      assert c + Tlvs([]) == c;
      while i < |values|
        invariant i <= |values|
        invariant AllDefined(values[..i])
        invariant HoldsOrFull(c + Tlvs(Items(values[..i])))
      {
        NextTlv(values, i, c);
        if !Defined(values[i].id) {
          return false;
        }
        ok := AppendExtraData(values[i], c + Tlvs(Items(values[..i])));
        if !ok {
          return false;
        }
        i := i + 1;
      }
      assert values[..i] == values;
      ok := true;
    }

    // ---------- length, check and flag ----------

    method AppendCheckcode() returns (ok: bool)
      requires Valid()
      modifies this`length, buffer
      ensures Valid() && ok == (HEAD <= old(length) < buffer.Length)
      ensures Contents() == if ok then old(Contents()) + [Num(XorAll(old(Contents())[1..]))] else old(Contents())
    {
      ok := HEAD <= length < buffer.Length;
      if !ok {
        return;
      }
      var crc := ZERO;
      var i := 1;
      assert Contents()[1..1] == [];
      while i < length
        invariant 1 <= i <= length
        invariant crc == XorAll(Contents()[1..i])
      {
        assert Contents()[1..i + 1][..i - 1] == Contents()[1..i];
        crc := Add(crc, FromNum(buffer[i]));
        i := i + 1;
      }
      assert Contents()[1..i] == Contents()[1..];
      var _ := AppendByte(Num(crc));
    }

    /** The attribute bytes are within the buffer whether or not they have been written. */
    method MsgFinal() returns (ok: bool)
      requires Valid() && buffer.Length >= 5
      modifies this`length, buffer
      ensures Valid() && ok == (HEAD <= old(length) && old(length) + 2 <= buffer.Length)
      ensures ok && old(buffer[3]) == 0 ==> Contents() == Sealed(old(Contents()))
    {
      var body_len := length - HEAD;
      ghost var c := Contents();
      SetAttributes(body_len);
      assert length >= HEAD && old(buffer[3]) == 0 ==> Contents() == Measured(c);
      ok := AppendCheckcode();
      if ok {
        ok := AppendByte(FLAG);
      }
    }

    method SetAttributes(body_len: int)
      requires Valid() && buffer.Length >= 5
      modifies buffer
      ensures old(buffer[3]) == 0 ==> buffer[3] == body_len / 256 % 8
      ensures buffer[4] == body_len % 256
      ensures forall i :: 0 <= i < buffer.Length && i != 3 && i != 4 ==> buffer[i] == old(buffer[i])
    {
      OrZero(body_len / 256 % 8);
      OrByte(buffer[3], body_len / 256 % 8);
      buffer[3] := Bits.BitOr(buffer[3], body_len / 256 % 8);
      buffer[4] := body_len % 256;
    }

    /** The count of parameters, then the parameters; nothing if there are none. */
    method PackBody(values: seq<Param>, ghost c: seq<Byte>) returns (ok: bool)
      requires HoldsOrFull(c) && forall i :: 0 <= i < |values| ==> Typed(values[i])
      modifies this`length, buffer
      ensures ok ==> AllDefined(values) && HoldsOrFull(c + Body(Items(values)))
      ensures |c + Body(Items(values))| <= buffer.Length && AllDefined(values) ==> ok
    {
      if |values| == 0 {
        assert c + [] == c;
        return true;
      }
      var _ := AppendByte(|values| % 256);
      assert c + Body(Items(values)) == c + [|values| % 256] + Tlvs(Items(values));
      ok := PackExtFields(values, c + [|values| % 256]);
    }

    /**
     Packs an answer. It succeeds exactly when every parameter is defined and everything fits, although most
     steps go on in silence when there is no room.
     */
    method PackMessage(values: seq<Param>, msg_sn: Word) returns (ok: bool, sn: Word)
      requires buffer.Length >= 5
      requires forall i :: 0 <= i < |values| ==> Typed(values[i])
      modifies this`length, this`last_message_id, buffer
      ensures ok <==> AllDefined(values) && Fits(Answer(values, msg_sn, old(last_message_id)), buffer.Length)
      ensures ok ==> Valid() && sn == Serial(msg_sn, old(last_message_id))
      ensures ok ==> Contents() == Sealed(Answer(values, msg_sn, old(last_message_id)))
    {
      ghost var want := Answer(values, msg_sn, last_message_id);
      sn := InitMessage(QUERY_RESP, msg_sn);
      ghost var c := Contents();
      ok := PackBody(values, c);
      if ok {
        ghost var whole := Contents();
        assert buffer.Length >= HEAD && |want| <= buffer.Length ==> whole == want && whole[3] == 0;
        assert whole != [] && |whole| > 3 ==> buffer[3] == whole[3];
        ok := MsgFinal();
      }
    }

    /** The message before it is closed. */
    ghost function Answer(values: seq<Param>, msg_sn: Word, last: Word): seq<Byte> {
      Content(QUERY_RESP, term_no, Serial(msg_sn, last), Items(values))
    }
  }

  /** The message is long enough to be checked, and check byte and flag have room. */
  ghost predicate Fits(c: seq<Byte>, room: nat) {
    HEAD <= |c| && |c| + 2 <= room
  }

  lemma {:induction false} OrZero(v: nat)
    ensures Bits.BitOr(0, v) == v
  {
    if v > 0 {
      OrZero(v / 2);
    }
  }

  lemma {:induction false} OrByte(a: Byte, b: Byte)
    ensures Bits.BitOr(a, b) < 256
  {
    OrBelow(a, b, 8);
    Bits.Pow2Values();
  }

  lemma {:induction false} OrBelow(a: nat, b: nat, n: nat)
    requires a < Bits.Pow2(n) && b < Bits.Pow2(n)
    ensures Bits.BitOr(a, b) < Bits.Pow2(n)
  {
    if n > 0 {
      OrBelow(a / 2, b / 2, n - 1);
    }
  }

  /** The length byte is filled in where 0 was put. */
  lemma {:induction false} LengthSet(c: seq<Byte>, t: Item)
    ensures var d := c + [t.key] + [0] + t.content;
            && (t.content == [] ==> d == c + Tlv(t))
            && d[|c| + 1 := |t.content| % 256] == c + Tlv(t)
  {
  }

  lemma {:induction false} NextTlv(ps: seq<Param>, i: nat, c: seq<Byte>)
    requires i < |ps|
    ensures var t := Item(ps[i].id, Data(ps[i]));
            && c + Tlvs(Items(ps[..i + 1])) == c + Tlvs(Items(ps[..i])) + Tlv(t)
            && |c + Tlvs(Items(ps[..i]))| + |Tlv(t)| <= |c + Tlvs(Items(ps))|
    ensures AllDefined(ps[..i]) && Defined(ps[i].id) ==> AllDefined(ps[..i + 1])
  {
    var t := Item(ps[i].id, Data(ps[i]));
    ItemsConcat(ps[..i], [ps[i]]);
    OneTlv(Items(ps[..i]), t);
    OneItem(ps[i]);
    assert ps[..i + 1] == ps[..i] + [ps[i]];
    ItemsConcat(ps[..i + 1], ps[i + 1..]);
    TlvsConcat(Items(ps[..i + 1]), Items(ps[i + 1..]));
    assert ps == ps[..i + 1] + ps[i + 1..];
  }

  lemma {:induction false} OneItem(p: Param)
    ensures Items([p]) == [Item(p.id, Data(p))]
  {
    assert [p][1..] == [];
  }

  lemma {:induction false} ItemsConcat(ps: seq<Param>, qs: seq<Param>)
    ensures Items(ps + qs) == Items(ps) + Items(qs)
    decreases |ps|
  {
    if ps == [] {
      assert ps + qs == qs;
    } else {
      assert (ps + qs)[1..] == ps[1..] + qs;
      ItemsConcat(ps[1..], qs);
    }
  }

  lemma {:induction false} OneTlv(ts: seq<Item>, t: Item)
    ensures Tlvs(ts + [t]) == Tlvs(ts) + Tlv(t)
  {
    TlvsConcat(ts, [t]);
    assert [t][1..] == [];
    assert Tlvs([t]) == Tlv(t) + Tlvs([]);
  }

  lemma {:induction false} TlvsConcat(ts: seq<Item>, us: seq<Item>)
    ensures Tlvs(ts + us) == Tlvs(ts) + Tlvs(us)
    decreases |ts|
  {
    if ts == [] {
      assert ts + us == us;
    } else {
      assert (ts + us)[1..] == ts[1..] + us;
      TlvsConcat(ts[1..], us);
    }
  }

  lemma {:induction false} OrHalf(h: nat, l: nat)
    requires l < 16
    ensures Bits.BitOr(16 * h, l) == 16 * h + l
  {
    Bits.Pow2Values();
    Bits.OrDisjoint(16 * h, l, 4);
  }

  ghost predicate DigitsIn(six: seq<Byte>, str: seq<Byte>, i: nat) {
    |six| == 6 && forall k :: 0 <= k < 6 ==> DigitsAt(six, str, i, k)
  }

  ghost predicate DigitsAt(six: seq<Byte>, str: seq<Byte>, i: nat, k: nat)
    requires k < |six|
  {
    six[k] == BcdByte(str, i, k)
  }

  /** The byte that digit i of the number goes to, with the digits up to it. */
  ghost function WithDigit(str: seq<Byte>, i: nat): nat
    requires i < |str| <= 12 && HexDigit(str[i])
  {
    var j := 12 - |str| + i;
    if j % 2 == 0 then 16 * HexValue(str[i]) else 16 * Nibble(str, i, j - 1) + HexValue(str[i])
  }

  /** Digit i of the number changes one half byte. */
  lemma {:induction false} NextDigit(six: seq<Byte>, str: seq<Byte>, i: nat)
    requires i < |str| <= 12 && HexDigit(str[i]) && DigitsIn(six, str, i)
    ensures var j := 12 - |str| + i;
            && (j % 2 == 1 ==> six[j / 2] == 16 * Nibble(str, i, j - 1))
            && WithDigit(str, i) < 256 && DigitsIn(six[j / 2 := WithDigit(str, i)], str, i + 1)
  {
    var j := 12 - |str| + i;
    var next := six[j / 2 := WithDigit(str, i)];
    var i' := i + 1;
    assert DigitsAt(six, str, i, j / 2);
    forall k | 0 <= k < 6
      ensures DigitsAt(next, str, i', k)
    {
      assert DigitsAt(six, str, i, k);
    }
  }

  // ---------- reading ----------

  /** count parameters stand from sub on within the message. */
  ghost predicate Walkable(m: seq<Byte>, sub: nat, count: nat)
    decreases count
  {
    count == 0 || (sub + 2 <= |m| && sub + 2 + m[sub + 1] <= |m| && Walkable(m, sub + 2 + m[sub + 1], count - 1))
  }

  ghost function Walk(m: seq<Byte>, sub: nat, count: nat): seq<Item>
    requires Walkable(m, sub, count)
    decreases count
  {
    if count == 0 then []
    else
      var next := sub + 2 + m[sub + 1];
      [Item(m[sub], m[sub + 2..next])] + Walk(m, next, count - 1)
  }

  /** The serial number of a message. */
  method GetFlowId(msgBody: seq<Byte>) returns (flowId: Word)
    requires HEAD <= |msgBody|
    ensures WordBytes(flowId) == msgBody[11..HEAD]
  {
    flowId := msgBody[11] as int * 0x100 + msgBody[12] as int;
  }

  /** The parameters of a message, whose count follows the header. */
  method ReadParameters(msgBody: seq<Byte>) returns (items: seq<Item>)
    requires HEAD < |msgBody| && Walkable(msgBody, HEAD + 1, msgBody[HEAD])
    ensures items == Walk(msgBody, HEAD + 1, msgBody[HEAD])
  {
    items := [];
    var sub: nat := HEAD;
    var paraCount := msgBody[sub];
    sub := sub + 1;
    var i: nat := 0;
    ghost var all := Walk(msgBody, sub, paraCount);
    WalkStart(items, all);
    while i < paraCount
      invariant i <= paraCount && Reading(msgBody, sub, paraCount - i, items, all)
    {
      WalkNext(msgBody, sub, paraCount - i, items, all);
      var item;
      item, sub := ReadItem(msgBody, sub);
      items := items + [item];
      i := i + 1;
    }
    WalkEnd(msgBody, sub, items, all);
  }

  lemma {:induction false} WalkStart(items: seq<Item>, all: seq<Item>)
    requires items == []
    ensures items + all == all
  {
  }

  lemma {:induction false} WalkEnd(m: seq<Byte>, sub: nat, items: seq<Item>, all: seq<Item>)
    ensures Reading(m, sub, 0, items, all) ==> items == all
    ensures Walkable(m, sub, 0)
  {
  }

  /** The items read and those to come are all there are. */
  ghost predicate Reading(m: seq<Byte>, sub: nat, count: nat, items: seq<Item>, all: seq<Item>) {
    Walkable(m, sub, count) && items + Walk(m, sub, count) == all
  }

  lemma {:induction false} WalkNext(m: seq<Byte>, sub: nat, count: nat, items: seq<Item>, all: seq<Item>)
    requires count > 0 && Reading(m, sub, count, items, all)
    ensures sub + 2 <= |m| && sub + 2 + m[sub + 1] <= |m|
    ensures var next := sub + 2 + m[sub + 1];
            Reading(m, next, count - 1, items + [Item(m[sub], m[sub + 2..next])], all)
  {
  }

  /** One parameter, and where the next one starts. */
  method ReadItem(msgBody: seq<Byte>, sub: nat) returns (item: Item, next: nat)
    requires sub + 2 <= |msgBody| && sub + 2 + msgBody[sub + 1] <= |msgBody|
    ensures next == sub + 2 + msgBody[sub + 1] && item == Item(msgBody[sub], msgBody[sub + 2..next])
  {
    var tslKey, paraLength := msgBody[sub], msgBody[sub + 1];
    next := sub + 2;
    var cmdContent := [];
    var j: nat := 0;
    while j < paraLength
      invariant j <= paraLength && cmdContent == msgBody[next..next + j]
    {
      cmdContent := cmdContent + [msgBody[next + j]];
      j := j + 1;
    }
    next := next + paraLength;
    item := Item(tslKey, cmdContent);
  }

  // ---------- what is read back ----------

  /** Every length fits its byte. */
  ghost predicate Short(ts: seq<Item>) {
    forall i :: 0 <= i < |ts| ==> |ts[i].content| <= 255
  }

  /** The packed items stand in m from sub on. */
  ghost predicate Stand(m: seq<Byte>, sub: nat, ts: seq<Item>)
    decreases |ts|
  {
    ts == [] || (OneStands(m, sub, ts[0]) && Stand(m, sub + 2 + |ts[0].content|, ts[1..]))
  }

  lemma {:induction false} TlvsStand(m: seq<Byte>, ts: seq<Item>, head: seq<Byte>, rest: seq<Byte>)
    requires m == head + Tlvs(ts) + rest
    ensures Stand(m, |head|, ts)
    decreases |ts|
  {
    if ts != [] {
      Regroup(head, Tlv(ts[0]), Tlvs(ts[1..]), rest);
      TlvsStand(m, ts[1..], head + Tlv(ts[0]), rest);
      FirstStands(m, head, ts[0], Tlvs(ts[1..]) + rest);
      StandMore(m, |head|, ts, |head + Tlv(ts[0])|);
    }
  }

  /** One packed item stands in m at sub. */
  ghost predicate OneStands(m: seq<Byte>, sub: nat, t: Item) {
    && sub + 2 + |t.content| <= |m| && m[sub] == t.key && m[sub + 1] == |t.content| % 256
    && m[sub + 2..sub + 2 + |t.content|] == t.content
  }

  lemma {:induction false} StandMore(m: seq<Byte>, sub: nat, ts: seq<Item>, next: nat)
    requires ts != [] && OneStands(m, sub, ts[0]) && next == sub + |Tlv(ts[0])| && Stand(m, next, ts[1..])
    ensures Stand(m, sub, ts)
  {
  }

  lemma {:induction false} Regroup(a: seq<Byte>, b: seq<Byte>, c: seq<Byte>, d: seq<Byte>)
    ensures a + (b + c) + d == a + b + c + d == a + b + (c + d)
  {
  }

  lemma {:induction false} FirstStands(m: seq<Byte>, head: seq<Byte>, t: Item, tail: seq<Byte>)
    requires m == head + Tlv(t) + tail
    ensures OneStands(m, |head|, t)
  {
    TlvStands(head, Tlv(t), tail);
  }

  lemma {:induction false} TlvStands(head: seq<Byte>, tlv: seq<Byte>, tail: seq<Byte>)
    requires |tlv| >= 2
    ensures var m, h := head + tlv + tail, |head|;
            m[h] == tlv[0] && m[h + 1] == tlv[1] && m[h + 2..h + |tlv|] == tlv[2..]
  {
  }

  /** The walk over packed items gives them back exactly if their lengths fit their bytes. */
  lemma {:induction false} WalkOfTlvs(m: seq<Byte>, sub: nat, ts: seq<Item>)
    requires Stand(m, sub, ts)
    ensures Walkable(m, sub, |ts|) && Walk(m, sub, |ts|) == ts <==> Short(ts)
    decreases |ts|
  {
    if ts != [] {
      var t := ts[0];
      if |t.content| <= 255 {
        var next := sub + 2 + |t.content|;
        WalkOfTlvs(m, next, ts[1..]);
        ShortSplit(ts);
        if Walkable(m, sub, |ts|) {
          assert Walk(m, sub, |ts|)[1..] == Walk(m, next, |ts| - 1);
          assert ts == [t] + ts[1..];
        }
      } else if Walkable(m, sub, |ts|) {
        assert |Walk(m, sub, |ts|)[0].content| < 256;
      }
    }
  }

  lemma {:induction false} ShortSplit(ts: seq<Item>)
    requires ts != [] && |ts[0].content| <= 255
    ensures Short(ts) <==> Short(ts[1..])
  {
    if Short(ts[1..]) {
      forall i | 0 <= i < |ts|
        ensures |ts[i].content| <= 255
      {
        if i > 0 {
          assert ts[i] == ts[1..][i - 1];
        }
      }
    }
  }

  /** What a receiver reads between the flags has exclusive or 0. */
  lemma {:induction false} SealedXor(c: seq<Byte>)
    requires |c| >= HEAD
    ensures var s := Sealed(c); s[0] == c[0] && s[|s| - 1] == FLAG && XorAll(s[1..|s| - 1]) == ZERO
  {
    var s := Sealed(c);
    var x := XorAll(Measured(c)[1..]);
    assert s[1..|s| - 1] == Measured(c)[1..] + [Num(x)];
    assert s[1..|s| - 1][..|s| - 3] == Measured(c)[1..];
    FromNumOfNum(x);
    AddZero(x);
  }

  /** The length of the body that the attributes state. */
  function StatedLength(m: seq<Byte>): nat
    requires |m| >= 5
  {
    m[3] as nat % 8 * 0x100 + m[4] as nat
  }

  /** The attributes state the length of the body exactly if it has less than twelve bits. */
  lemma {:induction false} SealedLength(c: seq<Byte>)
    requires |c| >= HEAD
    ensures StatedLength(Sealed(c)) == |c| - HEAD <==> |c| - HEAD < 0x800
    ensures |Sealed(c)| == |c| + 2
  {
    LengthBits(|c| - HEAD);
    assert Sealed(c)[3] == (|c| - HEAD) / 256 % 8 && Sealed(c)[4] == (|c| - HEAD) % 256;
  }

  lemma {:induction false} LengthBits(n: nat)
    ensures n / 256 % 8 % 8 * 0x100 + n % 256 == n <==> n < 0x800
  {
  }

  // ---------- the header of an answer ----------

  const DIGITS := "0123456789abcdef"

  /** Half a byte as a character. */
  function HexChar(b: Byte, low: bool): char {
    DIGITS[if low then b % 16 else b / 16]
  }

  function LowerCase(c: Byte): Byte {
    if 0x41 <= c <= 0x5A then c + 32 else c
  }

  /** Written out in hexadecimal, the six bytes are the terminal number in lower case after zeros. */
  lemma {:induction false} TermPrinted(term: seq<Byte>, k: nat, low: bool)
    requires GoodNumber(term) && k < 6
    ensures |TermBytes(term)| == 6
    ensures var i := 2 * k + (if low then 1 else 0) - (12 - |term|);
            HexChar(TermBytes(term)[k], low) as int == if i < 0 then '0' as int else LowerCase(term[i]) as int
  {
    NibblesAre(term, k);
    NibbleChar(term, 2 * k + (if low then 1 else 0));
  }

  lemma {:induction false} NibblesAre(term: seq<Byte>, k: nat)
    requires GoodNumber(term) && k < 6
    ensures var b := TermBytes(term);
            |b| == 6 && b[k] / 16 == Nibble(term, |term|, 2 * k) && b[k] % 16 == Nibble(term, |term|, 2 * k + 1)
  {
    HalvesOf(Nibble(term, |term|, 2 * k), Nibble(term, |term|, 2 * k + 1));
  }

  lemma {:induction false} NibbleChar(term: seq<Byte>, j: nat)
    requires GoodNumber(term) && j < 12
    ensures var i := j - (12 - |term|);
            DIGITS[Nibble(term, |term|, j)] as int == if i < 0 then '0' as int else LowerCase(term[i]) as int
  {
    if j >= 12 - |term| {
      DigitChar(term[j - (12 - |term|)]);
    }
  }

  lemma {:induction false} HalvesOf(h: nat, l: nat)
    requires h < 16 && l < 16
    ensures (16 * h + l) / 16 == h && (16 * h + l) % 16 == l
  {
  }

  lemma {:induction false} DigitChar(c: Byte)
    requires HexDigit(c)
    ensures DIGITS[HexValue(c)] as int == LowerCase(c) as int
  {
  }

  /** Message, length, terminal number and serial number of a closed answer; numbers have the high byte first. */
  lemma {:induction false} AnswerIs(id: Word, term: seq<Byte>, sn: Word, ts: seq<Item>)
    requires GoodNumber(term)
    ensures var c := Content(id, term, sn, ts);
            && |c| == 13 + |Body(ts)|
            && var m := Sealed(c);
            && |m| == |c| + 2 && m[0] == 0x7E && 256 * m[1] as int + m[2] as int == id
            && 256 * m[3] as int + m[4] as int == |Body(ts)| % 2048
            && m[5..11] == TermBytes(term) && 256 * m[11] as int + m[12] as int == sn
            && m[13..|c|] == Body(ts) && m[|m| - 1] == 0x7E
  {
    var c := Content(id, term, sn, ts);
    HeaderIs(id, term, sn, Header(id, term, sn));
    assert c[13..] == Body(ts);
    MeasuredIs(c, Measured(c), Sealed(c));
    LengthBytes(|Body(ts)|);
  }

  lemma {:induction false} HeaderIs(id: Word, term: seq<Byte>, sn: Word, h: seq<Byte>)
    requires GoodNumber(term) && h == Header(id, term, sn)
    ensures |h| == 13 && h[0] == 0x7E && 256 * h[1] as int + h[2] as int == id
    ensures h[5..11] == TermBytes(term) && 256 * h[11] as int + h[12] as int == sn
  {
    WordBack(id);
    WordBack(sn);
  }

  lemma {:induction false} WordBack(n: Word)
    ensures 256 * (n / 256) + n % 256 == n
  {
  }

  lemma {:induction false} LengthBytes(n: nat)
    ensures 256 * (n / 256 % 8) + n % 256 == n % 2048
  {
  }

  lemma {:induction false} MeasuredIs(c: seq<Byte>, m: seq<Byte>, s: seq<Byte>)
    requires |c| >= HEAD && m == Measured(c) && s == Sealed(c)
    ensures |s| == |c| + 2 && s[..|c|] == m && s[|c| + 1] == FLAG
    ensures s[0] == c[0] && s[1] == c[1] && s[2] == c[2] && s[5..11] == c[5..11] && s[11] == c[11] && s[12] == c[12]
    ensures s[3] == (|c| - HEAD) / 256 % 8 && s[4] == (|c| - HEAD) % 256 && s[13..|c|] == c[13..]
  {
    assert s[13..|c|] == m[13..];
  }

  /** The terminal number has at most twelve digits, all hexadecimal. */
  predicate GoodNumber(term: seq<Byte>) {
    |term| <= 12 && AllHex(term)
  }

  /**
   A closed answer that was built for a good terminal number: serial number and parameters are read back,
   the latter exactly if the count and every length fit their bytes.
   */
  lemma {:induction false} AnswerRead(id: Word, term: seq<Byte>, sn: Word, ts: seq<Item>)
    requires ts != []
    ensures GoodNumber(term) ==>
              && |Content(id, term, sn, ts)| > HEAD
              && var m := Sealed(Content(id, term, sn, ts));
              && |m| > HEAD && m[11..HEAD] == WordBytes(sn)
              && (m[HEAD] == |ts| && Walkable(m, HEAD + 1, m[HEAD]) && Walk(m, HEAD + 1, m[HEAD]) == ts
                  <==> |ts| <= 255 && Short(ts))
  {
    if GoodNumber(term) {
      var c := Content(id, term, sn, ts);
      ContentParts(id, term, sn, ts);
      SealedStand(c, ts);
      ReadBack(Sealed(c), ts);
    }
  }

  lemma {:induction false} ReadBack(m: seq<Byte>, ts: seq<Item>)
    requires |m| > HEAD && m[HEAD] == |ts| % 256 && Stand(m, HEAD + 1, ts)
    ensures m[HEAD] == |ts| && Walkable(m, HEAD + 1, m[HEAD]) && Walk(m, HEAD + 1, m[HEAD]) == ts
            <==> |ts| <= 255 && Short(ts)
  {
    WalkOfTlvs(m, HEAD + 1, ts);
  }

  lemma {:induction false} ContentParts(id: Word, term: seq<Byte>, sn: Word, ts: seq<Item>)
    requires GoodNumber(term) && ts != []
    ensures var c := Content(id, term, sn, ts);
            |c| > HEAD && c[11..HEAD] == WordBytes(sn) && c[HEAD] == |ts| % 256 && c[HEAD + 1..] == Tlvs(ts)
  {
  }

  /** Closing a message leaves all but its attributes. */
  lemma {:induction false} SealedStand(c: seq<Byte>, ts: seq<Item>)
    requires |c| > HEAD && c[HEAD + 1..] == Tlvs(ts)
    ensures var m := Sealed(c);
            |m| > HEAD && m[11..HEAD] == c[11..HEAD] && m[HEAD] == c[HEAD] && Stand(m, HEAD + 1, ts)
  {
    var rest := [Num(XorAll(Measured(c)[1..])), FLAG];
    MeasuredParts(Measured(c), c, rest);
    TlvsStand(Sealed(c), ts, Measured(c)[..HEAD + 1], rest);
  }

  lemma {:induction false} MeasuredParts(m: seq<Byte>, c: seq<Byte>, rest: seq<Byte>)
    requires |m| == |c| > HEAD && forall i :: 0 <= i < |c| && i != 3 && i != 4 ==> m[i] == c[i]
    ensures m + rest == m[..HEAD + 1] + c[HEAD + 1..] + rest
    ensures (m + rest)[11..HEAD] == c[11..HEAD] && (m + rest)[HEAD] == c[HEAD]
  {
    assert m[HEAD + 1..] == c[HEAD + 1..];
    assert m == m[..HEAD + 1] + m[HEAD + 1..];
  }

  // ---------- numbers of terminals ----------

  /** A receiver finds serial number and parameters of the closed answer in their places. */
  ghost predicate ReadsBack(id: Word, term: seq<Byte>, sn: Word, ts: seq<Item>) {
    var c := Content(id, term, sn, ts);
    HEAD < |c| && FoundIn(Sealed(c), sn, ts)
  }

  ghost predicate FoundIn(m: seq<Byte>, sn: Word, ts: seq<Item>) {
    && |m| > HEAD && m[11..HEAD] == WordBytes(sn)
    && m[HEAD] == |ts| && Walkable(m, HEAD + 1, m[HEAD]) && Walk(m, HEAD + 1, m[HEAD]) == ts
  }

  /** Every answer whose count and lengths fit their bytes is read back. */
  ghost predicate AllReadBack(term: seq<Byte>) {
    forall id: Word, sn: Word, ts: seq<Item> ::
      ts != [] && |ts| <= 255 && Short(ts) ==> ReadsBack(id, term, sn, ts)
  }

  const ONES: Item := Item(1, [1, 1, 1, 1, 1, 1])

  lemma {:induction false} OnesBody()
    ensures Body([ONES]) == [1, 1, 6, 1, 1, 1, 1, 1, 1]
  {
    OneTlv([], ONES);
    assert [] + [ONES] == [ONES] && Tlvs([]) + Tlv(ONES) == [1, 6, 1, 1, 1, 1, 1, 1];
  }

  /** Where the number leaves fewer than six bytes, all later fields are shifted: here into the serial number. */
  lemma {:induction false} OnesShift(id: Word, term: seq<Byte>)
    ensures var c := Content(id, term, 1, [ONES]);
            |c| == 16 + |TermBytes(term)| && (Sealed(c)[11..HEAD] == WordBytes(1) <==> GoodNumber(term))
  {
    var c, t := Content(id, term, 1, [ONES]), TermBytes(term);
    OnesBody();
    Shifted(c, [FLAG] + WordBytes(id) + [0, 0], t);
    MeasuredParts(Measured(c), c, [Num(XorAll(Measured(c)[1..])), FLAG]);
    assert c[11..HEAD][0] == c[11] && c[11..HEAD][1] == c[12] && WordBytes(1) == [0, 1];
  }

  /** What comes at byte 11, by the length of what the number leaves. */
  lemma {:induction false} Shifted(c: seq<Byte>, head: seq<Byte>, t: seq<Byte>)
    requires |head| == 5 && |t| <= 6 && c == head + t + [0, 1] + [1, 1, 6, 1, 1, 1, 1, 1, 1]
    ensures |c| == 16 + |t|
    ensures |t| == 6 ==> c[11] == 0 && c[12] == 1
    ensures |t| < 6 ==> c[11] != 0
  {
  }

  /** Answers are read back exactly if the number of the terminal has at most twelve digits, all hexadecimal. */
  lemma {:induction false} NumberIff(term: seq<Byte>)
    ensures AllReadBack(term) <==> GoodNumber(term)
  {
    if GoodNumber(term) {
      forall id: Word, sn: Word, ts: seq<Item> | ts != [] && |ts| <= 255 && Short(ts)
        ensures ReadsBack(id, term, sn, ts)
      {
        AnswerRead(id, term, sn, ts);
      }
    } else {
      var ts := [ONES];
      OnesShift(QUERY_RESP, term);
      assert Short(ts) && !ReadsBack(QUERY_RESP, term, 1, ts);
    }
  }

  const ONES_PARAM: Param := Param(1, Text(ONES.content))

  lemma {:induction false} OnesItems()
    ensures Items([ONES_PARAM]) == [ONES] && Typed(ONES_PARAM) && AllDefined([ONES_PARAM])
  {
    OneItem(ONES_PARAM);
    assert ONES.content[..6 % 0x1_0000] == ONES.content;
  }

  /** The answer that shows it. */
  method PackOnes(connection: Connection) returns (ok: bool)
    requires connection.buffer.Length >= 24
    modifies connection, connection.buffer
    ensures ok && connection.Valid()
    ensures connection.Contents() == Sealed(Content(QUERY_RESP, connection.term_no, 1, [ONES]))
  {
    var sn;
    OnesItems();
    OnesShift(QUERY_RESP, connection.term_no);
    ghost var last := connection.last_message_id;
    assert connection.Answer([ONES_PARAM], 1, last) == Content(QUERY_RESP, connection.term_no, 1, [ONES]);
    ok, sn := connection.PackMessage([ONES_PARAM], 1);
  }

  /** Packed for any number, its serial number is read back exactly from a good one. */
  method ReadSerial(connection: Connection) returns (ok: bool, flowId: Word)
    requires connection.buffer.Length >= 24
    modifies connection, connection.buffer
    ensures ok && (flowId == 1 <==> GoodNumber(connection.term_no))
  {
    ok := PackOnes(connection);
    OnesShift(QUERY_RESP, connection.term_no);
    flowId := GetFlowId(connection.buffer[..connection.length]);
    if WordBytes(flowId) == WordBytes(1) {
      SameWord(flowId, 1);
    }
  }

  /**
   Answers that fit the buffer are read back if the number of the terminal is good; with other numbers the
   parameters do not stand where they are looked for.
   */
  method PackThenRead(connection: Connection, values: seq<Param>, msg_sn: Word)
      returns (ok: bool, sn: Word, flowId: Word, items: seq<Item>)
    requires connection.buffer.Length >= 5
    requires values != [] && |values| <= 255 && Short(Items(values))
    requires forall i :: 0 <= i < |values| ==> Typed(values[i])
    modifies connection, connection.buffer
    ensures var n := 7 + |TermBytes(connection.term_no)| + 1 + |Tlvs(Items(values))|;
            ok <==> AllDefined(values) && HEAD <= n && n + 2 <= connection.buffer.Length
    ensures ok ==> sn != 0 && (msg_sn != 0 ==> sn == msg_sn)
    ensures ok && GoodNumber(connection.term_no) ==> flowId == sn && items == Items(values)
  {
    ok, sn := connection.PackMessage(values, msg_sn);
    flowId, items := 0, [];
    if ok {
      var m := connection.buffer[..connection.length];
      flowId := GetFlowId(m);
      if GoodNumber(connection.term_no) {
        AnswerRead(QUERY_RESP, connection.term_no, sn, Items(values));
        SameWord(flowId, sn);
        items := ReadParameters(m);
      }
    }
  }

  lemma {:induction false} SameWord(a: Word, b: Word)
    requires WordBytes(a) == WordBytes(b)
    ensures a == b
  {
    assert a / 256 == WordBytes(a)[0] && a % 256 == WordBytes(a)[1];
    assert b / 256 == WordBytes(b)[0] && b % 256 == WordBytes(b)[1];
  }
}
