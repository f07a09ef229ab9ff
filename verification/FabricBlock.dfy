/** The hand-written reader and writer of the Protocol Buffers wire format ("Base 128
    Varints" and "Length-Delimited Records" of the encoding specification), with JavaScript's
    32-bit shifts; and on it the reading of a serialised Fabric block and of the transaction id
    of an envelope. Hex strings of the program stand here for the bytes they denote. */
module FabricBlock {
  import opened Bits
  import opened Wrappers

  // ================================================================ the wire format

  const WORD := 0x1_0000_0000

  datatype Value = Num(n: nat) | Bytes(b: seq<byte>)
  datatype Field = Field(fieldNumber: nat, wireType: nat, value: Value, newOffset: nat)
  datatype WireError = VarintTooLong | UnsupportedWireType(wireType: nat, offset: nat)

  // ---------------------------------------------------------------- varints

  /** `x << s` as an unsigned 32-bit word: the shift distance counts modulo 32. */
  function ShiftLeft(x: nat, s: nat): nat {
    (x * Pow2(s % 32)) % WORD
  }

  /** The reader's loop from a given state: value and end offset. */
  function VarintFrom(buf: seq<byte>, pos: nat, shift: nat, result: nat): (r: Result<(nat, nat), WireError>)
    ensures r.Success? ==> r.value.1 >= pos && (pos < |buf| ==> r.value.1 > pos)
    ensures r.Success? && pos <= |buf| ==> r.value.1 <= |buf|
    decreases |buf| - pos
  {
    if pos >= |buf| then Success((result, pos))
    else
      var next := Or(result, ShiftLeft(buf[pos] % 128, shift));
      if buf[pos] < 128 then Success((next, pos + 1))
      else if shift + 7 > 63 then Failure(VarintTooLong)
      else VarintFrom(buf, pos + 1, shift + 7, next)
  }

  method ReadVarint(buf: seq<byte>, offset: nat) returns (r: Result<(nat, nat), WireError>)
    ensures r == VarintFrom(buf, offset, 0, 0)
  {
    var result, shift, pos := 0, 0, offset;
    while pos < |buf|
      invariant VarintFrom(buf, pos, shift, result) == VarintFrom(buf, offset, 0, 0)
    {
      var b := buf[pos];
      result := Or(result, ShiftLeft(b % 128, shift));
      pos := pos + 1;
      if b < 128 {
        return Success((result, pos));
      }
      shift := shift + 7;
      if shift > 63 {
        return Failure(VarintTooLong);
      }
    }
    r := Success((result, pos));
  }

  /** Seven bits a byte, lowest group first, continuation bit on all but the last. */
  function Varint(v: nat): (s: seq<byte>)
    ensures s != []
  {
    if v > 127 then [v % 128 + 128] + Varint(v / 128) else [v]
  }

  method EncodeVarint(value: nat) returns (bytes: seq<byte>)
    ensures bytes == Varint(value % WORD)
  {
    hide Varint;
    bytes := [];
    var v: nat := value % WORD;
    while v > 127
      invariant bytes + Varint(v) == Varint(value % WORD)
    {
      VarintStep(v, bytes);
      bytes := bytes + [v % 128 + 128];
      v := v / 128;
    }
    VarintStep(v, bytes);
    bytes := bytes + [v];
  }

  lemma VarintStep(v: nat, before: seq<byte>)
    ensures v > 127 ==> before + Varint(v) == before + [v % 128 + 128] + Varint(v / 128)
    ensures v <= 127 ==> Varint(v) == [v]
  {}

  /** `part` stands in `buf` at `pos`. */
  predicate At(buf: seq<byte>, pos: nat, part: seq<byte>) {
    pos + |part| <= |buf| && buf[pos..pos + |part|] == part
  }

  lemma WrittenByte(buf: seq<byte>, pos: nat, v: nat)
    requires At(buf, pos, Varint(v))
    ensures pos < |buf| && buf[pos] % 128 == v % 128 && (buf[pos] < 128 <==> v <= 127)
    ensures v > 127 ==> At(buf, pos + 1, Varint(v / 128)) && |Varint(v)| == 1 + |Varint(v / 128)|
    ensures v <= 127 ==> |Varint(v)| == 1
  {
    var whole := buf[pos..pos + |Varint(v)|];
    assert buf[pos] == whole[0];
    if v > 127 {
      assert buf[pos + 1..pos + 1 + |Varint(v / 128)|] == whole[1..];
    }
  }

  lemma ReadStep(buf: seq<byte>, pos: nat, shift: nat, result: nat)
    requires pos < |buf| && shift < 32 && result < Pow2(shift) && (buf[pos] % 128) * Pow2(shift) < WORD
    ensures buf[pos] < 128 ==>
      VarintFrom(buf, pos, shift, result) == Success((result + (buf[pos] % 128) * Pow2(shift), pos + 1))
    ensures buf[pos] >= 128 ==>
      VarintFrom(buf, pos, shift, result) ==
        VarintFrom(buf, pos + 1, shift + 7, result + (buf[pos] % 128) * Pow2(shift))
  {
    hide Pow2, Or;
    var low := buf[pos] % 128;
    SmallShift(low, shift);
    OrDisjoint(result, low, shift);
  }

  lemma SmallShift(x: nat, s: nat)
    requires s < 32 && x * Pow2(s) < WORD
    ensures ShiftLeft(x, s) == x * Pow2(s)
  {
    hide Pow2;
    var shifted := x * Pow2(s);
    assert s % 32 == s && shifted % WORD == shifted;
  }

  lemma GroupsOf(low: nat, high: nat, w: nat)
    requires low < 128 && w > 0
    ensures (128 * high + low) * w == high * (128 * w) + low * w
    ensures low * w + w <= 128 * w
    ensures high >= 1 ==> (128 * high + low) * w >= 128 * w
  {
    assert (low + 1) * w <= 128 * w;
    if high >= 1 {
      assert high * (128 * w) >= 128 * w;
    }
  }

  /** Splitting off the low group. */
  lemma Groups(v: nat, shift: nat)
    requires shift < 32 && v * Pow2(shift) < WORD
    ensures (v % 128) * Pow2(shift) < WORD
    ensures (v % 128) * Pow2(shift) + (v / 128) * Pow2(shift + 7) == v * Pow2(shift)
    ensures (v % 128) * Pow2(shift) + Pow2(shift) <= Pow2(shift + 7)
    ensures v > 127 ==> shift + 7 < 32
  {
    hide Pow2;
    Pow2Add(7, shift);
    Pow2At32();
    GroupsOf(v % 128, v / 128, Pow2(shift));
    assert v == 128 * (v / 128) + v % 128;
    if shift + 7 >= 32 {
      Pow2Monotone(32, shift + 7);
    }
  }

  lemma {:induction false} ReadsBack(buf: seq<byte>, pos: nat, v: nat, shift: nat, result: nat)
    requires At(buf, pos, Varint(v)) && shift < 32 && result < Pow2(shift) && v * Pow2(shift) < WORD
    ensures VarintFrom(buf, pos, shift, result) == Success((result + v * Pow2(shift), pos + |Varint(v)|))
    decreases v
  {
    hide Pow2, VarintFrom, Varint, At;
    WrittenByte(buf, pos, v);
    Groups(v, shift);
    ReadStep(buf, pos, shift, result);
    if v > 127 {
      ReadsBack(buf, pos + 1, v / 128, shift + 7, result + (v % 128) * Pow2(shift));
    }
  }

  /** Reading a written varint gives the number back and stops right after it. */
  lemma VarintRoundTrip(buf: seq<byte>, pos: nat, v: nat)
    requires v < WORD && At(buf, pos, Varint(v))
    ensures VarintFrom(buf, pos, 0, 0) == Success((v, pos + |Varint(v)|))
  {
    assert Pow2(0) == 1;
    ReadsBack(buf, pos, v, 0, 0);
  }

  // ---------------------------------------------------------------- longer varints

  /** One byte read from any state, its group shifted to a place above the digits of `a`. */
  lemma ReadAny(buf: seq<byte>, pos: nat, shift: nat, r0: nat, a: nat, c: nat, s: nat)
    requires pos < |buf| && ShiftLeft(buf[pos] % 128, shift) == c * Pow2(s) && a < Pow2(s)
    ensures var next := Or(r0, a + c * Pow2(s));
            VarintFrom(buf, pos, shift, Or(r0, a)) ==
            if buf[pos] < 128 then Success((next, pos + 1))
            else if shift + 7 > 63 then Failure(VarintTooLong)
            else VarintFrom(buf, pos + 1, shift + 7, next)
  {
    hide Pow2, Or, ShiftLeft;
    OrAssoc(r0, a, c * Pow2(s));
    OrDisjoint(a, c, s);
  }

  /** The groups six to ten wrap around to the places from 3 on. */
  lemma ShiftHigh(low: nat, k: nat)
    requires low < 128 && k <= 4
    ensures ShiftLeft(low, 35 + 7 * k) == (if k == 4 then low % 2 else low) * Pow2(3 + 7 * k)
  {
    hide Pow2;
    PowersOfSeven();
    assert (35 + 7 * k) % 32 == 3 + 7 * k;
    if k == 4 {
      assert low == 2 * (low / 2) + low % 2;
    }
  }

  lemma PowersOfSeven()
    ensures Pow2(3) == 8 && Pow2(10) == 0x400 && Pow2(17) == 0x2_0000 && Pow2(24) == 0x100_0000
      && Pow2(31) == 0x8000_0000
    ensures Pow2(7) == 128 && Pow2(14) == 0x4000 && Pow2(21) == 0x20_0000 && Pow2(28) == 0x1000_0000
      && Pow2(35) == 0x8_0000_0000
  {
    assert Pow2(3) == 8 && Pow2(7) == 128;
    Pow2Add(7, 3); Pow2Add(7, 10); Pow2Add(7, 17); Pow2Add(7, 24);
    Pow2Add(7, 7); Pow2Add(7, 14); Pow2Add(7, 21); Pow2Add(7, 28);
  }

  /** A number at the place of group six, seven and so on after wrapping around. */
  function Shifted(x: nat, k: nat): nat {
    x * Pow2(3 + 7 * k)
  }

  /** The group read at shift 35 + 7 k, of which the last keeps one digit. */
  function HighGroup(w: nat, k: nat): nat {
    if k == 4 then w % 128 % 2 else w % 128
  }

  lemma ReadHigh(buf: seq<byte>, pos: nat, w: nat, k: nat, r0: nat, a: nat)
    requires pos < |buf| && buf[pos] % 128 == w % 128 && k <= 4 && a < Shifted(1, k)
    ensures var next := Or(r0, a + Shifted(HighGroup(w, k), k));
            VarintFrom(buf, pos, 35 + 7 * k, Or(r0, a)) ==
            if buf[pos] < 128 then Success((next, pos + 1))
            else if k == 4 then Failure(VarintTooLong)
            else VarintFrom(buf, pos + 1, 35 + 7 * (k + 1), next)
  {
    hide Pow2, Or, VarintFrom, ShiftLeft;
    ShiftHigh(w % 128, k);
    ReadAny(buf, pos, 35 + 7 * k, r0, a, HighGroup(w, k), 3 + 7 * k);
  }

  lemma HighArithmetic(w: nat, k: nat, a: nat)
    requires k <= 4 && a < Shifted(1, k)
    ensures w <= 127 ==> w < Pow2(35 - 7 * k) && a + Shifted(HighGroup(w, k), k) == (a + Shifted(w, k)) % WORD
    ensures w > 127 && k == 4 ==> w >= Pow2(35 - 7 * k)
    ensures w > 127 && k < 4 ==>
      && a + Shifted(HighGroup(w, k), k) < Shifted(1, k + 1) && (w < Pow2(35 - 7 * k) <==>
        w / 128 < Pow2(35 - 7 * (k + 1)))
      && a + Shifted(HighGroup(w, k), k) + Shifted(w / 128, k + 1) == a + Shifted(w, k)
  {
    hide Pow2;
    PowersOfSeven();
    if k == 4 {
      LastGroup(w, a);
    } else {
      Pow2Add(7, 3 + 7 * k);
      Pow2Add(7, 35 - 7 * (k + 1));
      Pow2Monotone(3 + 7 * (k + 1), 31);
      Pow2Monotone(7, 35 - 7 * k);
      MiddleGroup(w, Pow2(3 + 7 * k), Pow2(35 - 7 * (k + 1)), a);
    }
  }

  lemma MiddleGroup(w: nat, p: nat, q: nat, a: nat)
    requires a < p && 128 * p <= 0x8000_0000
    ensures w <= 127 ==> a + (w % 128) * p == (a + w * p) % WORD
    ensures a + (w % 128) * p < 128 * p
    ensures a + (w % 128) * p + (w / 128) * (128 * p) == a + w * p
    ensures w < 128 * q <==> w / 128 < q
  {
    GroupsOf(w % 128, w / 128, p);
    assert w == 128 * (w / 128) + w % 128;
  }

  lemma LastGroup(w: nat, a: nat)
    requires a < 0x8000_0000
    ensures w <= 127 ==> a + (w % 128 % 2) * 0x8000_0000 == (a + w * 0x8000_0000) % WORD
  {
    if w <= 127 {
      Remainder(a + w * 0x8000_0000, WORD, w / 2, a + (w % 2) * 0x8000_0000);
    }
  }

  /** The reader behind the fifth byte. */
  lemma {:induction false} HighGroups(buf: seq<byte>, pos: nat, w: nat, k: nat, r0: nat, a: nat)
    requires k <= 4 && At(buf, pos, Varint(w)) && a < Shifted(1, k)
    ensures VarintFrom(buf, pos, 35 + 7 * k, Or(r0, a)) ==
      if w < Pow2(35 - 7 * k) then Success((Or(r0, (a + Shifted(w, k)) % WORD), pos + |Varint(w)|))
        else Failure(VarintTooLong)
    decreases 4 - k
  {
    hide Pow2, Or, VarintFrom, Varint, At, ShiftLeft, Shifted, HighGroup;
    WrittenByte(buf, pos, w);
    ReadHigh(buf, pos, w, k, r0, a);
    HighArithmetic(w, k, a);
    if w > 127 && k < 4 {
      HighGroups(buf, pos + 1, w / 128, k + 1, r0, a + Shifted(HighGroup(w, k), k));
    }
  }

  /** The first five bytes of a long varint. */
  lemma LowGroups(buf: seq<byte>, pos: nat, v: nat)
    requires At(buf, pos, Varint(v)) && v >= WORD
    ensures VarintFrom(buf, pos, 0, 0) ==
      if v < 0x8_0000_0000 then Success((v % WORD, pos + |Varint(v)|)) else VarintFrom(buf, pos + 5, 35, v % WORD)
    ensures v >= 0x8_0000_0000 ==>
      At(buf, pos + 5, Varint(v / 0x8_0000_0000)) && |Varint(v)| == 5 + |Varint(v / 0x8_0000_0000)|
  {
    hide Pow2, Or, VarintFrom, Varint, At, ShiftLeft;
    PowersOfSeven();
    var v1 := v / 128;
    var v2 := v1 / 128;
    var v3 := v2 / 128;
    var v4 := v3 / 128;
    var a2 := v % 128 + (v1 % 128) * 128;
    var a3 := a2 + (v2 % 128) * 0x4000;
    var a4 := a3 + (v3 % 128) * 0x20_0000;
    LowArithmetic(v, v1, v2, v3, v4, a4);
    WrittenByte(buf, pos, v);
    WrittenByte(buf, pos + 1, v1);
    WrittenByte(buf, pos + 2, v2);
    WrittenByte(buf, pos + 3, v3);
    WrittenByte(buf, pos + 4, v4);
    FirstPower();
    ReadStep(buf, pos, 0, 0);
    ReadStep(buf, pos + 1, 7, v % 128);
    ReadStep(buf, pos + 2, 14, a2);
    ReadStep(buf, pos + 3, 21, a3);
    FifthGroup(v4 % 128);
    OrZero(a4);
    OrZero(v % WORD);
    ReadAny(buf, pos + 4, 28, 0, a4, (v4 % 128) % 16, 28);
  }

  lemma LowArithmetic(v: nat, v1: nat, v2: nat, v3: nat, v4: nat, a4: nat)
    requires v >= WORD && v1 == v / 128 && v2 == v1 / 128 && v3 == v2 / 128 && v4 == v3 / 128
    requires a4 == v % 128 + (v1 % 128) * 128 + (v2 % 128) * 0x4000 + (v3 % 128) * 0x20_0000
    ensures v1 > 127 && v2 > 127 && v3 > 127 && a4 < 0x1000_0000
    ensures v % WORD == a4 + ((v4 % 128) % 16) * 0x1000_0000
    ensures (v < 0x8_0000_0000 <==> v4 <= 127) && v4 / 128 == v / 0x8_0000_0000
  {
    assert v == a4 + v4 * 0x1000_0000;
    var v5, l := v4 / 128, v4 % 128;
    Remainder(v, WORD, 8 * v5 + l / 16, a4 + (l % 16) * 0x1000_0000);
    Remainder(v, 0x8_0000_0000, v5, a4 + l * 0x1000_0000);
  }

  lemma Remainder(x: nat, m: nat, q: nat, r: nat)
    requires r < m && x == q * m + r
    ensures x / m == q && x % m == r
  {
    var d := q - x / m;
    assert x == (x / m) * m + x % m;
    assert d * m == x % m - r;
    AwayFromZero(d, m);
  }

  lemma AwayFromZero(d: int, m: nat)
    ensures d >= 1 ==> d * m >= m
    ensures d <= -1 ==> d * m <= 0 - m
  {}

  lemma FirstPower()
    ensures Pow2(0) == 1
  {}

  lemma FifthGroup(low: nat)
    requires low < 128
    ensures ShiftLeft(low, 28) == (low % 16) * Pow2(28)
  {
    hide Pow2;
    PowersOfSeven();
    assert low == 16 * (low / 16) + low % 16;
  }

  /** What the reader makes of any written number: below 2^70, its part below 2^32 overlaid with
      its digits from 2^35 on, shifted to start at the third place; from there on, an error. */
  lemma VarintReadsAs(buf: seq<byte>, pos: nat, v: nat)
    requires At(buf, pos, Varint(v))
    ensures VarintFrom(buf, pos, 0, 0) ==
      if v < Pow2(70) then Success((Or(v % WORD, (8 * (v / Pow2(35))) % WORD), pos + |Varint(v)|))
        else Failure(VarintTooLong)
  {
    hide Pow2, Or, VarintFrom, Varint, At;
    PowersOfSeven();
    Pow2Add(35, 35);
    OrNothing(v % WORD);
    if v < WORD {
      VarintRoundTrip(buf, pos, v);
    } else {
      LowGroups(buf, pos, v);
      if v >= 0x8_0000_0000 {
        HighGroups(buf, pos + 5, v / 0x8_0000_0000, 0, v % WORD, 0);
      }
    }
  }

  lemma {:induction false} OrNothing(a: nat)
    ensures Or(a, 0) == a
  {
    if a != 0 { OrNothing(a / 2); }
  }

  /** A number comes back as itself exactly when it is below 2^32. */
  lemma ComesBackExactly(buf: seq<byte>, pos: nat, v: nat)
    requires At(buf, pos, Varint(v))
    ensures VarintFrom(buf, pos, 0, 0) == Success((v, pos + |Varint(v)|)) <==> v < WORD
  {
    hide Pow2, Or, VarintFrom, Varint, At;
    VarintReadsAs(buf, pos, v);
    if v < WORD {
      VarintRoundTrip(buf, pos, v);
    } else {
      OrBelowWord(v % WORD, (8 * (v / Pow2(35))) % WORD);
    }
  }

  lemma OrBelowWord(a: nat, b: nat)
    requires a < WORD && b < WORD
    ensures Or(a, b) < WORD
  {
    Pow2At32();
    OrBelow(a, b, 32);
  }

  lemma {:induction false} OrBelow(a: nat, b: nat, k: nat)
    requires a < Pow2(k) && b < Pow2(k)
    ensures Or(a, b) < Pow2(k)
  {
    if k > 0 {
      OrDigits(a, b);
      OrBelow(a / 2, b / 2, k - 1);
    }
  }

  // ---------------------------------------------------------------- fields

  function Min(a: nat, b: nat): nat { if a < b then a else b }

  /** `buf.subarray(from, to)`: clamped to the buffer. */
  function Subarray(buf: seq<byte>, from: nat, to: nat): seq<byte>
    requires from <= to
  {
    buf[Min(from, |buf|)..Min(to, |buf|)]
  }

  /** `readProtobufField` */
  function ReadField(buf: seq<byte>, offset: nat): (r: Result<Field, WireError>)
    ensures r.Success? && offset < |buf| ==> r.value.newOffset > offset
    ensures offset >= |buf| ==> r == Success(Field(0, 0, Num(0), |buf|))
    ensures r.Success? ==> (r.value.value.Bytes? <==> r.value.wireType != 0)
  {
    if offset >= |buf| then Success(Field(0, 0, Num(0), |buf|))
    else
      var (tag, tagEnd) :- VarintFrom(buf, offset, 0, 0);
      var f, w := tag / 8, tag % 8;
      match w
      case 0 =>
        var (value, end) :- VarintFrom(buf, tagEnd, 0, 0);
        Success(Field(f, w, Num(value), end))
      case 1 => Success(Field(f, w, Bytes(Subarray(buf, tagEnd, tagEnd + 8)), tagEnd + 8))
      case 2 =>
        var (length, lengthEnd) :- VarintFrom(buf, tagEnd, 0, 0);
        Success(Field(f, w, Bytes(Subarray(buf, lengthEnd, lengthEnd + length)), lengthEnd + length))
      case 5 => Success(Field(f, w, Bytes(Subarray(buf, tagEnd, tagEnd + 4)), tagEnd + 4))
      case _ => Failure(UnsupportedWireType(w, offset))
  }

  method ReadProtobufField(buf: seq<byte>, offset: nat) returns (r: Result<Field, WireError>)
    ensures r == ReadField(buf, offset)
  {
    if offset >= |buf| {
      return Success(Field(0, 0, Num(0), |buf|));
    }
    var tag :- ReadVarint(buf, offset);
    var fieldNumber, wireType, tagEnd := tag.0 / 8, tag.0 % 8, tag.1;
    match wireType {
      case 0 =>
        var value :- ReadVarint(buf, tagEnd);
        r := Success(Field(fieldNumber, wireType, Num(value.0), value.1));
      case 1 =>
        r := Success(Field(fieldNumber, wireType, Bytes(Subarray(buf, tagEnd, tagEnd + 8)), tagEnd + 8));
      case 2 =>
        var length :- ReadVarint(buf, tagEnd);
        r := Success(Field(fieldNumber, wireType, Bytes(Subarray(buf, length.1, length.1 + length.0)),
          length.1 + length.0));
      case 5 =>
        r := Success(Field(fieldNumber, wireType, Bytes(Subarray(buf, tagEnd, tagEnd + 4)), tagEnd + 4));
      case _ =>
        r := Failure(UnsupportedWireType(wireType, offset));
    }
  }

  /** A varint field; numbers are truncated to 32 bits. */
  function VarintField(fieldNumber: nat, value: nat): seq<byte> {
    Varint((fieldNumber * 8) % WORD) + Varint(value % WORD)
  }

  function BytesField(fieldNumber: nat, data: seq<byte>): seq<byte> {
    Varint((fieldNumber * 8 + 2) % WORD) + Varint(|data| % WORD) + data
  }

  method EncodeVarintField(fieldNumber: nat, value: nat) returns (bytes: seq<byte>)
    ensures bytes == VarintField(fieldNumber, value)
  {
    var tag := EncodeVarint(fieldNumber * 8);
    var body := EncodeVarint(value);
    bytes := tag + body;
  }

  method EncodeBytesField(fieldNumber: nat, data: seq<byte>) returns (bytes: seq<byte>)
    ensures bytes == BytesField(fieldNumber, data)
  {
    var tag := EncodeVarint(fieldNumber * 8 + 2);
    var length := EncodeVarint(|data|);
    bytes := tag + length + data;
  }

  lemma AtSplit(buf: seq<byte>, pos: nat, a: seq<byte>, b: seq<byte>)
    requires At(buf, pos, a + b)
    ensures At(buf, pos, a) && At(buf, pos + |a|, b)
  {
    var whole := buf[pos..pos + |a| + |b|];
    assert buf[pos..pos + |a|] == whole[..|a|];
    assert buf[pos + |a|..pos + |a| + |b|] == whole[|a|..];
  }

  lemma VarintFieldRoundTrip(buf: seq<byte>, pos: nat, f: nat, v: nat)
    requires f * 8 < WORD && At(buf, pos, VarintField(f, v))
    ensures ReadField(buf, pos) == Success(Field(f, 0, Num(v % WORD), pos + |VarintField(f, v)|))
  {
    hide Varint, VarintFrom;
    AtSplit(buf, pos, Varint(f * 8), Varint(v % WORD));
    VarintRoundTrip(buf, pos, f * 8);
    VarintRoundTrip(buf, pos + |Varint(f * 8)|, v % WORD);
  }

  lemma BytesFieldRoundTrip(buf: seq<byte>, pos: nat, f: nat, data: seq<byte>)
    requires f * 8 + 2 < WORD && |data| < WORD && At(buf, pos, BytesField(f, data))
    ensures ReadField(buf, pos) == Success(Field(f, 2, Bytes(data), pos + |BytesField(f, data)|))
  {
    hide Varint, VarintFrom;
    var tag, length := Varint(f * 8 + 2), Varint(|data|);
    AtSplit(buf, pos, tag + length, data);
    AtSplit(buf, pos, tag, length);
    VarintRoundTrip(buf, pos, f * 8 + 2);
    VarintRoundTrip(buf, pos + |tag|, |data|);
  }

  // ================================================================ blocks and envelopes

  /** The parser stores whatever value a field 1 of the header carries. */
  datatype Header = Header(number: Value, previousHash: seq<byte>, dataHash: seq<byte>)
  datatype Block = Block(header: Header, transactions: seq<seq<byte>>, metadataRaw: seq<byte>)

  const NO_HEADER := Header(Num(0), [], [])
  const NO_BLOCK := Block(NO_HEADER, [], [])

  // ---------------------------------------------------------------- parsing

  function HeaderField(h: Header, f: Field): Header
    requires f.value.Bytes? <==> f.wireType != 0
  {
    if f.fieldNumber == 1 then h.(number := f.value)
    else if f.fieldNumber == 2 && f.wireType == 2 then h.(previousHash := f.value.b)
    else if f.fieldNumber == 3 && f.wireType == 2 then h.(dataHash := f.value.b)
    else h
  }

  function ParseHeader(buf: seq<byte>, offset: nat, h: Header): Result<Header, WireError>
    decreases |buf| - offset
  {
    if offset >= |buf| then Success(h)
    else
      var f :- ReadField(buf, offset);
      ParseHeader(buf, f.newOffset, HeaderField(h, f))
  }

  function ParseData(buf: seq<byte>, offset: nat, transactions: seq<seq<byte>>): Result<seq<seq<byte>>, WireError>
    decreases |buf| - offset
  {
    if offset >= |buf| then Success(transactions)
    else
      var f :- ReadField(buf, offset);
      ParseData(buf, f.newOffset,
                if f.fieldNumber == 1 && f.wireType == 2 then transactions + [f.value.b] else transactions)
  }

  function ParseTop(buf: seq<byte>, offset: nat, b: Block): Result<Block, WireError>
    decreases |buf| - offset
  {
    if offset >= |buf| then Success(b)
    else
      var f :- ReadField(buf, offset);
      if f.wireType == 2 && f.fieldNumber == 1 then
        var h :- ParseHeader(f.value.b, 0, b.header);
        ParseTop(buf, f.newOffset, b.(header := h))
      else if f.wireType == 2 && f.fieldNumber == 2 then
        var t :- ParseData(f.value.b, 0, b.transactions);
        ParseTop(buf, f.newOffset, b.(transactions := t))
      else if f.wireType == 2 && f.fieldNumber == 3 then
        ParseTop(buf, f.newOffset, b.(metadataRaw := f.value.b))
      else ParseTop(buf, f.newOffset, b)
  }

  /** `parseBlock`: on any bytes each loop advances, so it returns or fails. */
  method ParseBlock(blockBytes: seq<byte>) returns (r: Result<Block, WireError>)
    ensures r == ParseTop(blockBytes, 0, NO_BLOCK)
  {
    hide ReadField;
    var offset: nat, header, transactions, metadataRaw := 0, NO_HEADER, [], [];
    while offset < |blockBytes|
      invariant ParseTop(blockBytes, offset, Block(header, transactions, metadataRaw)) ==
        ParseTop(blockBytes, 0, NO_BLOCK)
      decreases |blockBytes| - offset
    {
      var field :- ReadProtobufField(blockBytes, offset);
      offset := field.newOffset;
      if field.fieldNumber == 1 && field.wireType == 2 {
        var headerBuf, hOffset: nat := field.value.b, 0;
        ghost var start := header;
        while hOffset < |headerBuf|
          invariant ParseHeader(headerBuf, hOffset, header) == ParseHeader(headerBuf, 0, start)
          decreases |headerBuf| - hOffset
        {
          var hField :- ReadProtobufField(headerBuf, hOffset);
          hOffset := hField.newOffset;
          if hField.fieldNumber == 1 {
            header := header.(number := hField.value);
          } else if hField.fieldNumber == 2 && hField.wireType == 2 {
            header := header.(previousHash := hField.value.b);
          } else if hField.fieldNumber == 3 && hField.wireType == 2 {
            header := header.(dataHash := hField.value.b);
          }
        }
      } else if field.fieldNumber == 2 && field.wireType == 2 {
        var dataBuf, dOffset: nat := field.value.b, 0;
        ghost var start := transactions;
        while dOffset < |dataBuf|
          invariant ParseData(dataBuf, dOffset, transactions) == ParseData(dataBuf, 0, start)
          decreases |dataBuf| - dOffset
        {
          var dField :- ReadProtobufField(dataBuf, dOffset);
          dOffset := dField.newOffset;
          if dField.fieldNumber == 1 && dField.wireType == 2 {
            transactions := transactions + [dField.value.b];
          }
        }
      } else if field.fieldNumber == 3 && field.wireType == 2 {
        metadataRaw := field.value.b;
      }
    }
    r := Success(Block(header, transactions, metadataRaw));
  }

  // ---------------------------------------------------------------- writing

  /** A bytes field, left out when empty. */
  function OptionalField(fieldNumber: nat, data: seq<byte>): seq<byte> {
    if data == [] then [] else BytesField(fieldNumber, data)
  }

  function HeaderBytes(number: nat, previousHash: seq<byte>, dataHash: seq<byte>): seq<byte> {
    VarintField(1, number) + OptionalField(2, previousHash) + OptionalField(3, dataHash)
  }

  method SerializeBlockHeader(number: nat, previousHash: seq<byte>, dataHash: seq<byte>) returns (bytes: seq<byte>)
    ensures bytes == HeaderBytes(number, previousHash, dataHash)
  {
    bytes := EncodeVarintField(1, number);
    if previousHash != [] {
      var part := EncodeBytesField(2, previousHash);
      bytes := bytes + part;
    }
    if dataHash != [] {
      var part := EncodeBytesField(3, dataHash);
      bytes := bytes + part;
    }
  }

  function DataBytes(transactions: seq<seq<byte>>): seq<byte> {
    if transactions == [] then [] else BytesField(1, transactions[0]) + DataBytes(transactions[1..])
  }

  // ---------------------------------------------------------------- round trips

  /** `buf` from `pos` on is `part`, up to its end. */
  predicate EndsWith(buf: seq<byte>, pos: nat, part: seq<byte>) {
    pos <= |buf| && buf[pos..] == part
  }

  lemma EndSplit(buf: seq<byte>, pos: nat, a: seq<byte>, b: seq<byte>)
    requires EndsWith(buf, pos, a + b)
    ensures At(buf, pos, a) && EndsWith(buf, pos + |a|, b)
  {
    assert buf[pos..pos + |a|] == buf[pos..][..|a|];
    assert buf[pos + |a|..] == buf[pos..][|a|..];
  }

  lemma FieldNotEmpty(f: nat, v: nat, data: seq<byte>)
    ensures |VarintField(f, v)| > 0 && |BytesField(f, data)| > 0
  {
    hide Varint;
  }

  /** One optional bytes field of the header. */
  lemma OptionalStep(buf: seq<byte>, pos: nat, f: nat, data: seq<byte>, rest: seq<byte>, h: Header)
    requires EndsWith(buf, pos, OptionalField(f, data) + rest) && |data| < WORD && 2 <= f <= 3
    requires data == [] ==> (if f == 2 then h.previousHash else h.dataHash) == []
    ensures var pos' := pos + |OptionalField(f, data)|;
      && EndsWith(buf, pos', rest)
      && ParseHeader(buf, pos, h) ==
        ParseHeader(buf, pos', if f == 2 then h.(previousHash := data) else h.(dataHash := data))
  {
    hide BytesField, ReadField;
    EndSplit(buf, pos, OptionalField(f, data), rest);
    if data != [] {
      FieldNotEmpty(f, 0, data);
      BytesFieldRoundTrip(buf, pos, f, data);
    }
  }

  /** A written header reads back, its number modulo 2^32. */
  lemma HeaderRoundTrip(number: nat, previousHash: seq<byte>, dataHash: seq<byte>)
    requires |previousHash| < WORD && |dataHash| < WORD
    ensures ParseHeader(HeaderBytes(number, previousHash, dataHash), 0, NO_HEADER)
         == Success(Header(Num(number % WORD), previousHash, dataHash))
  {
    hide BytesField, VarintField, ReadField, OptionalField;
    var buf := HeaderBytes(number, previousHash, dataHash);
    var first, prev, data := VarintField(1, number), OptionalField(2, previousHash), OptionalField(3, dataHash);
    assert buf[0..] == first + (prev + (data + []));
    EndSplit(buf, 0, first, prev + (data + []));
    FieldNotEmpty(1, number, []);
    VarintFieldRoundTrip(buf, 0, 1, number);
    var h1 := NO_HEADER.(number := Num(number % WORD));
    OptionalStep(buf, |first|, 2, previousHash, data + [], h1);
    OptionalStep(buf, |first| + |prev|, 3, dataHash, [], h1.(previousHash := previousHash));
  }

  lemma {:induction false} DataRoundTrip(buf: seq<byte>, pos: nat, transactions: seq<seq<byte>>, before: seq<seq<byte>>)
    requires EndsWith(buf, pos, DataBytes(transactions))
    requires forall i :: 0 <= i < |transactions| ==> |transactions[i]| < WORD
    ensures ParseData(buf, pos, before) == Success(before + transactions)
    decreases |transactions|
  {
    hide BytesField, ReadField;
    if transactions == [] {
      assert before + transactions == before;
    } else {
      var t, rest := transactions[0], transactions[1..];
      EndSplit(buf, pos, BytesField(1, t), DataBytes(rest));
      FieldNotEmpty(1, 0, t);
      BytesFieldRoundTrip(buf, pos, 1, t);
      DataRoundTrip(buf, pos + |BytesField(1, t)|, rest, before + [t]);
      assert before + [t] + rest == before + transactions;
    }
  }

  function BlockBytes(number: nat, previousHash: seq<byte>, dataHash: seq<byte>, transactions: seq<seq<byte>>,
    metadata: seq<byte>): seq<byte> {
    BytesField(1, HeaderBytes(number, previousHash, dataHash))
      + (BytesField(2, DataBytes(transactions)) + BytesField(3, metadata))
  }

  /** A written block reads back with its header, its transactions in order and its metadata;
      the number survives exactly when it is below 2^32. */
  lemma BlockRoundTrip(number: nat, previousHash: seq<byte>, dataHash: seq<byte>, transactions: seq<seq<byte>>,
    metadata: seq<byte>)
    requires |HeaderBytes(number, previousHash, dataHash)| < WORD && |DataBytes(transactions)| < WORD
      && |metadata| < WORD
    ensures ParseTop(BlockBytes(number, previousHash, dataHash, transactions, metadata), 0, NO_BLOCK)
         == Success(Block(Header(Num(number % WORD), previousHash, dataHash), transactions, metadata))
    ensures number % WORD == number <==> number < WORD
  {
    hide BytesField, ReadField, ParseHeader, ParseData, HeaderBytes, DataBytes;
    var buf := BlockBytes(number, previousHash, dataHash, transactions, metadata);
    var head, body := HeaderBytes(number, previousHash, dataHash), DataBytes(transactions);
    var f1, f2, f3 := BytesField(1, head), BytesField(2, body), BytesField(3, metadata);
    assert buf[0..] == buf;
    PartsFit(number, previousHash, dataHash);
    TransactionsFit(transactions);
    EndSplit(buf, 0, f1, f2 + f3);
    assert f3 + [] == f3;
    EndSplit(buf, |f1|, f2, f3);
    EndSplit(buf, |f1| + |f2|, f3, []);
    FieldNotEmpty(1, 0, head); FieldNotEmpty(2, 0, body); FieldNotEmpty(3, 0, metadata);
    BytesFieldRoundTrip(buf, 0, 1, head);
    BytesFieldRoundTrip(buf, |f1|, 2, body);
    BytesFieldRoundTrip(buf, |f1| + |f2|, 3, metadata);
    HeaderRoundTrip(number, previousHash, dataHash);
    assert body[0..] == body;
    DataRoundTrip(body, 0, transactions, []);
    assert [] + transactions == transactions;
    TopSteps(buf, |f1|, |f1| + |f2|, |buf|, head, body, metadata, Header(Num(number % WORD), previousHash, dataHash),
      transactions);
  }

  lemma TopSteps(buf: seq<byte>, p1: nat, p2: nat, p3: nat, head: seq<byte>, body: seq<byte>, metadata: seq<byte>,
    h: Header, t: seq<seq<byte>>)
    requires 0 < p1 < p2 < p3 == |buf|
    requires ReadsBytes(buf, 0, 1, head, p1) && ReadsBytes(buf, p1, 2, body, p2) && ReadsBytes(buf, p2, 3, metadata, p3)
    requires ParseHeader(head, 0, NO_HEADER) == Success(h) && ParseData(body, 0, []) == Success(t)
    ensures ParseTop(buf, 0, NO_BLOCK) == Success(Block(h, t, metadata))
  {
    hide ReadField, ParseHeader, ParseData;
    assert ParseTop(buf, p3, Block(h, t, metadata)) == Success(Block(h, t, metadata));
    assert ParseTop(buf, p2, Block(h, t, [])) == ParseTop(buf, p3, Block(h, t, metadata));
    assert ParseTop(buf, p1, Block(h, [], [])) == ParseTop(buf, p2, Block(h, t, []));
  }

  predicate ReadsBytes(buf: seq<byte>, pos: nat, fieldNumber: nat, data: seq<byte>, end: nat) {
    ReadField(buf, pos) == Success(Field(fieldNumber, 2, Bytes(data), end))
  }

  lemma PartsFit(number: nat, previousHash: seq<byte>, dataHash: seq<byte>)
    ensures |previousHash| <= |HeaderBytes(number, previousHash, dataHash)|
    ensures |dataHash| <= |HeaderBytes(number, previousHash, dataHash)|
  {
    hide Varint;
  }

  lemma {:induction false} TransactionsFit(transactions: seq<seq<byte>>)
    ensures forall i :: 0 <= i < |transactions| ==> |transactions[i]| <= |DataBytes(transactions)|
  {
    hide Varint;
    if transactions != [] {
      TransactionsFit(transactions[1..]);
    }
  }

  // ---------------------------------------------------------------- transaction ids

  /** Depth-first search for the first length-delimited field at the end of a path of field
      numbers, from an offset on. */
  function Find(buf: seq<byte>, offset: nat, path: seq<nat>): Result<Option<seq<byte>>, WireError>
    requires path != []
    decreases |path|, |buf| - offset
  {
    if offset >= |buf| then Success(None)
    else
      var f :- ReadField(buf, offset);
      if f.fieldNumber == path[0] && f.wireType == 2 then
        if |path| == 1 then Success(Some(f.value.b))
        else
          var inner :- Find(f.value.b, 0, path[1..]);
          if inner.Some? then Success(inner) else Find(buf, f.newOffset, path)
      else Find(buf, f.newOffset, path)
  }

  const PATH: seq<nat> := [1, 1, 1, 5]

  /** `extractTxIdFromEnvelope`: payload, header, channel header, tx_id; empty if absent. */
  method ExtractTxIdFromEnvelope(envelopeBytes: seq<byte>) returns (r: Result<seq<byte>, WireError>)
    ensures match Find(envelopeBytes, 0, PATH)
            case Failure(e) => r == Failure(e)
            case Success(None) => r == Success([])
            case Success(Some(txId)) => r == Success(txId)
  {
    hide ReadField;
    assert PATH[1..] == [1, 1, 5] && PATH[1..][1..] == [1, 5] && PATH[1..][1..][1..] == [5];
    var offset: nat := 0;
    while offset < |envelopeBytes|
      invariant Find(envelopeBytes, offset, PATH) == Find(envelopeBytes, 0, PATH)
      decreases |envelopeBytes| - offset
    {
      var field :- ReadProtobufField(envelopeBytes, offset);
      if field.fieldNumber == 1 && field.wireType == 2 {
        var found :- SearchPayload(field.value.b);
        if found.Some? {
          return Success(found.value);
        }
      }
      offset := field.newOffset;
    }
    r := Success([]);
  }

  method SearchPayload(payloadBuf: seq<byte>) returns (r: Result<Option<seq<byte>>, WireError>)
    ensures r == Find(payloadBuf, 0, [1, 1, 5])
  {
    hide ReadField;
    var path: seq<nat> := [1, 1, 5];
    assert path[1..] == [1, 5];
    var pOffset: nat := 0;
    while pOffset < |payloadBuf|
      invariant Find(payloadBuf, pOffset, path) == Find(payloadBuf, 0, path)
      decreases |payloadBuf| - pOffset
    {
      var pField :- ReadProtobufField(payloadBuf, pOffset);
      if pField.fieldNumber == 1 && pField.wireType == 2 {
        var found :- SearchHeader(pField.value.b);
        if found.Some? {
          return Success(found);
        }
      }
      pOffset := pField.newOffset;
    }
    r := Success(None);
  }

  method SearchHeader(headerBuf: seq<byte>) returns (r: Result<Option<seq<byte>>, WireError>)
    ensures r == Find(headerBuf, 0, [1, 5])
  {
    hide ReadField;
    var path: seq<nat> := [1, 5];
    assert path[1..] == [5];
    var hOffset: nat := 0;
    while hOffset < |headerBuf|
      invariant Find(headerBuf, hOffset, path) == Find(headerBuf, 0, path)
      decreases |headerBuf| - hOffset
    {
      var hField :- ReadProtobufField(headerBuf, hOffset);
      if hField.fieldNumber == 1 && hField.wireType == 2 {
        var chBuf, chOffset: nat := hField.value.b, 0;
        while chOffset < |chBuf|
          invariant Find(chBuf, chOffset, [5]) == Find(chBuf, 0, [5])
          decreases |chBuf| - chOffset
        {
          var chField :- ReadProtobufField(chBuf, chOffset);
          if chField.fieldNumber == 5 && chField.wireType == 2 {
            return Success(Some(chField.value.b));
          }
          chOffset := chField.newOffset;
        }
      }
      hOffset := hField.newOffset;
    }
    r := Success(None);
  }

  /** A field on the way: any number but the one looked for, or a varint. */
  datatype Other = Other(fieldNumber: nat, value: Value)

  predicate Passed(o: Other, fieldNumber: nat) {
    && o.fieldNumber * 8 + 2 < WORD && (o.value.Num? || o.fieldNumber != fieldNumber)
    && (o.value.Bytes? ==> |o.value.b| < WORD)
  }

  function OtherBytes(o: Other): seq<byte> {
    match o.value
    case Num(n) => VarintField(o.fieldNumber, n)
    case Bytes(b) => BytesField(o.fieldNumber, b)
  }

  function OthersBytes(others: seq<Other>): seq<byte> {
    if others == [] then [] else OtherBytes(others[0]) + OthersBytes(others[1..])
  }

  /** One level of a message: other fields, the one on the path, and anything behind it. */
  datatype Level = Level(before: seq<Other>, rest: seq<byte>)

  function Wrap(l: Level, fieldNumber: nat, inner: seq<byte>): seq<byte> {
    OthersBytes(l.before) + (BytesField(fieldNumber, inner) + l.rest)
  }

  predicate Passable(l: Level, fieldNumber: nat) {
    forall i :: 0 <= i < |l.before| ==> Passed(l.before[i], fieldNumber)
  }

  lemma SkipOther(buf: seq<byte>, pos: nat, o: Other, tail: seq<byte>, path: seq<nat>)
    requires path != [] && Passed(o, path[0]) && EndsWith(buf, pos, OtherBytes(o) + tail)
    ensures Find(buf, pos, path) == Find(buf, pos + |OtherBytes(o)|, path) && EndsWith(buf, pos + |OtherBytes(o)|, tail)
  {
    hide ReadField, BytesField, VarintField;
    EndSplit(buf, pos, OtherBytes(o), tail);
    if o.value.Num? {
      FieldNotEmpty(o.fieldNumber, o.value.n, []);
      VarintFieldRoundTrip(buf, pos, o.fieldNumber, o.value.n);
    } else {
      FieldNotEmpty(o.fieldNumber, 0, o.value.b);
      BytesFieldRoundTrip(buf, pos, o.fieldNumber, o.value.b);
    }
  }

  lemma {:induction false} SkipOthers(buf: seq<byte>, pos: nat, others: seq<Other>, tail: seq<byte>, path: seq<nat>)
    requires path != [] && (forall i :: 0 <= i < |others| ==> Passed(others[i], path[0]))
    requires EndsWith(buf, pos, OthersBytes(others) + tail)
    ensures Find(buf, pos, path) == Find(buf, pos + |OthersBytes(others)|, path)
    ensures EndsWith(buf, pos + |OthersBytes(others)|, tail)
    decreases |others|
  {
    hide Find, OtherBytes, Passed;
    if others == [] {
      assert [] + tail == tail;
    } else {
      var rest := OthersBytes(others[1..]) + tail;
      assert OthersBytes(others) + tail == OtherBytes(others[0]) + rest;
      SkipOther(buf, pos, others[0], rest, path);
      SkipOthers(buf, pos + |OtherBytes(others[0])|, others[1..], tail, path);
    }
  }

  /** The field on the path is reached; it ends the search, or what is found in it does. */
  lemma FindThrough(l: Level, inner: seq<byte>, path: seq<nat>)
    requires path != [] && Passable(l, path[0]) && path[0] * 8 + 2 < WORD && |inner| < WORD
    ensures |path| == 1 ==> Find(Wrap(l, path[0], inner), 0, path) == Success(Some(inner))
    ensures |path| > 1 && Find(inner, 0, path[1..]).Success? && Find(inner, 0, path[1..]).value.Some? ==>
      Find(Wrap(l, path[0], inner), 0, path) == Find(inner, 0, path[1..])
  {
    hide ReadField, BytesField, OthersBytes, Passed;
    var buf, pos := Wrap(l, path[0], inner), |OthersBytes(l.before)|;
    assert buf[0..] == buf;
    SkipOthers(buf, 0, l.before, BytesField(path[0], inner) + l.rest, path);
    EndSplit(buf, pos, BytesField(path[0], inner), l.rest);
    FieldNotEmpty(path[0], 0, inner);
    BytesFieldRoundTrip(buf, pos, path[0], inner);
  }

  /** An envelope with a transaction id, whatever stands around the fields on the path. */
  function Envelope(txId: seq<byte>, channel: Level, header: Level, payload: Level, envelope: Level): seq<byte> {
    Wrap(envelope, 1, Wrap(payload, 1, Wrap(header, 1, Wrap(channel, 5, txId))))
  }

  /** Whatever fields stand before it and whatever bytes follow at each level, the transaction
      id of a written envelope is found. */
  lemma TxIdRoundTrip(txId: seq<byte>, channel: Level, header: Level, payload: Level, envelope: Level)
    requires Passable(channel, 5) && Passable(header, 1) && Passable(payload, 1) && Passable(envelope, 1)
    requires |Envelope(txId, channel, header, payload, envelope)| < WORD
    ensures Find(Envelope(txId, channel, header, payload, envelope), 0, PATH) == Success(Some(txId))
  {
    hide Find, Wrap, Passable;
    assert PATH[1..] == [1, 1, 5] && PATH[1..][1..] == [1, 5] && PATH[1..][1..][1..] == [5];
    var a := Wrap(channel, 5, txId);
    var b := Wrap(header, 1, a);
    var c := Wrap(payload, 1, b);
    WrapLonger(channel, 5, txId);
    WrapLonger(header, 1, a);
    WrapLonger(payload, 1, b);
    WrapLonger(envelope, 1, c);
    FindThrough(channel, txId, PATH[1..][1..][1..]);
    FindThrough(header, a, PATH[1..][1..]);
    FindThrough(payload, b, PATH[1..]);
    FindThrough(envelope, c, PATH);
  }

  lemma WrapLonger(l: Level, fieldNumber: nat, inner: seq<byte>)
    ensures |inner| <= |Wrap(l, fieldNumber, inner)|
  {
    hide Varint, OthersBytes;
  }

  /** The fields of a channel header in front of its transaction id can all be passed. */
  lemma ChannelHeaderHasTxId(kind: nat, version: nat, channelId: seq<byte>, txId: seq<byte>, rest: seq<byte>)
    requires |channelId| < WORD && |txId| < WORD
    ensures var before := [Other(1, Num(kind)), Other(2, Num(version)), Other(4, Bytes(channelId))];
            Find(Wrap(Level(before, rest), 5, txId), 0, [5]) == Success(Some(txId))
  {
    hide Find, Wrap;
    FindThrough(Level([Other(1, Num(kind)), Other(2, Num(version)), Other(4, Bytes(channelId))], rest), txId, [5]);
  }
}
