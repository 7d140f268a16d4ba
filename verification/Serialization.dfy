/** The binary serializer and deserializer (source/runtime/inc/Serialization.hpp). */
module Serialization {
  import opened Common

  type Byte = x: nat | x < 256

  datatype ByteOrder = BigEndian | LittleEndian

  /** A number of `size` bytes is a signed or unsigned integer; floats and doubles are their
      bit patterns, strings and blocks their bytes. */
  datatype AnyValue =
    | Boolean(b: bool)
    | Signed(size: nat, i: int)
    | Unsigned(size: nat, n: nat)
    | Float(bits: nat)
    | Double(bits: nat)
    | Text(chars: seq<Byte>)
    | Bytes(data: seq<Byte>)

  type Value = v: AnyValue | Representable(v) witness Boolean(false)

  /** What the caller asks for. A block is read into a span of `capacity` bytes. */
  datatype Type =
    | TBoolean
    | TSigned(size: nat)
    | TUnsigned(size: nat)
    | TFloat
    | TDouble
    | TText
    | TBytes(length: nat, capacity: nat)
  {
    predicate Valid() {
      (TSigned? || TUnsigned? ==> size in {1, 2, 4, 8}) && (TBytes? ==> length < TWO_TO_32)
    }
  }

  predicate InSignedRange(i: int, size: nat) { 0 <= 2 * i + Weight(size) < 2 * Weight(size) }

  predicate Representable(v: AnyValue) {
    match v
    case Signed(size, i) => size in {1, 2, 4, 8} && InSignedRange(i, size)
    case Unsigned(size, n) => size in {1, 2, 4, 8} && n < Weight(size)
    case Float(bits) => bits < Weight(4)
    case Double(bits) => bits < Weight(8)
    case Bytes(data) => |data| < TWO_TO_32
    case _ => true
  }

  // ---- Digits to the base 256 -----------------------------------------------------------

  function Weight(k: nat): (w: nat)
    ensures w > 0
  {
    if k == 0 then 1 else 256 * Weight(k - 1)
  }

  /** `(v >> (8 * k)) & 0xFF` */
  function Digit(v: nat, k: nat): Byte { v / Weight(k) % 256 }

  lemma MultipleIsFar(m: int, d: int)
    requires m > 0
    ensures d >= 1 ==> m * d >= m
    ensures d <= -1 ==> m * d <= -m
  {
  }

  lemma DivIs(v: nat, m: nat, q: nat, r: nat)
    requires v == m * q + r && r < m
    ensures v / m == q && v % m == r
  {
    var d := v / m - q;
    assert v == m * (v / m) + v % m;
    assert m * d == r - v % m;
    MultipleIsFar(m, d);
  }

  lemma PeelDigit(v: nat, k: nat)
    ensures v % Weight(k + 1) == v % Weight(k) + Digit(v, k) * Weight(k)
  {
    var w := Weight(k);
    var q, r := v / w, v % w;
    var d := q % 256;
    assert v == w * q + r && q == 256 * (q / 256) + d;
    calc {
      v;
      w * (256 * (q / 256) + d) + r;
      (256 * w) * (q / 256) + (d * w + r);
    }
    Scaled(d, w);
    DivIs(v, 256 * w, q / 256, d * w + r);
  }

  /** `value | (byte << (8 * k))`: as the bits it sets are all clear, the or is a sum. */
  function OrByte(value: nat, byte: Byte, k: nat): nat
    requires Digit(value, k) == 0
  {
    value + byte * Weight(k)
  }

  // ---- Integers in either byte order -------------------------------------------------------

  /** The digit that stands at index i of an integer of n bytes. */
  function Place(bo: ByteOrder, n: nat, i: nat): nat
    requires i < n
  {
    if bo.BigEndian? then n - 1 - i else i
  }

  function IntBytes(bo: ByteOrder, v: nat, n: nat): (r: seq<Byte>)
    ensures |r| == n
  {
    seq(n, i requires 0 <= i < n => Digit(v, Place(bo, n, i)))
  }

  /** The sum of the first i bytes, each at its place. */
  function Sum(bo: ByteOrder, bytes: seq<Byte>, i: nat): nat
    requires i <= |bytes|
  {
    if i == 0 then 0
    else Sum(bo, bytes, i - 1) + bytes[i - 1] * Weight(Place(bo, |bytes|, i - 1))
  }

  function IntValue(bo: ByteOrder, bytes: seq<Byte>): nat { Sum(bo, bytes, |bytes|) }

  lemma Scaled(b: Byte, w: nat)
    ensures b * w <= 255 * w
  {
  }

  lemma {:induction false} LittleSumIsSmall(bytes: seq<Byte>, i: nat)
    requires i <= |bytes|
    ensures Sum(LittleEndian, bytes, i) < Weight(i)
  {
    if i > 0 {
      LittleSumIsSmall(bytes, i - 1);
      Scaled(bytes[i - 1], Weight(i - 1));
    }
  }

  lemma MultipleOfMultiple(w: nat, q: nat, b: nat)
    ensures w * (256 * q + b) == (256 * w) * q + b * w
  {
  }

  lemma {:induction false} BigSumIsMultiple(bytes: seq<Byte>, i: nat) returns (q: nat)
    requires i <= |bytes|
    ensures Sum(BigEndian, bytes, i) == Weight(|bytes| - i) * q && q < Weight(i)
  {
    q := 0;
    if i > 0 {
      var q0 := BigSumIsMultiple(bytes, i - 1);
      q := 256 * q0 + bytes[i - 1];
      MultipleOfMultiple(Weight(|bytes| - i), q0, bytes[i - 1]);
    }
  }

  lemma SmallHasNoDigit(v: nat, k: nat)
    requires v < Weight(k)
    ensures Digit(v, k) == 0
  {
    DivIs(v, Weight(k), 0, v);
  }

  lemma MultipleHasNoDigit(v: nat, k: nat, q: nat)
    requires v == Weight(k + 1) * q
    ensures Digit(v, k) == 0
  {
    MultipleOfMultiple(Weight(k), q, 0);
    DivIs(v, Weight(k), 256 * q, 0);
  }

  /** The bits that the i-th byte is or-ed into are clear, whatever the earlier bytes were. */
  lemma NextPlaceIsClear(bo: ByteOrder, bytes: seq<Byte>, i: nat)
    requires i < |bytes|
    ensures Digit(Sum(bo, bytes, i), Place(bo, |bytes|, i)) == 0
  {
    if bo.LittleEndian? {
      LittleSumIsSmall(bytes, i);
      SmallHasNoDigit(Sum(bo, bytes, i), i);
    } else {
      var q := BigSumIsMultiple(bytes, i);
      MultipleHasNoDigit(Sum(bo, bytes, i), |bytes| - 1 - i, q);
    }
  }

  lemma OneByte(bo: ByteOrder, bytes: seq<Byte>)
    requires |bytes| == 1
    ensures IntValue(bo, bytes) == bytes[0]
  {
    assert Sum(bo, bytes, 0) == 0;
  }

  lemma SumIsSmall(bo: ByteOrder, bytes: seq<Byte>, n: nat)
    requires |bytes| == n
    ensures IntValue(bo, bytes) < Weight(n)
  {
    if bo.LittleEndian? {
      LittleSumIsSmall(bytes, |bytes|);
    } else {
      var q := BigSumIsMultiple(bytes, |bytes|);
    }
  }

  lemma {:induction false} LittleSum(v: nat, n: nat, i: nat)
    requires i <= n
    ensures Sum(LittleEndian, IntBytes(LittleEndian, v, n), i) == v % Weight(i)
  {
    if i > 0 {
      LittleSum(v, n, i - 1);
      PeelDigit(v, i - 1);
    }
  }

  lemma {:induction false} BigSum(v: nat, n: nat, i: nat)
    requires i <= n && v < Weight(n)
    ensures Sum(BigEndian, IntBytes(BigEndian, v, n), i) == v - v % Weight(n - i)
  {
    if i == 0 {
      DivIs(v, Weight(n), 0, v);
    } else {
      BigSum(v, n, i - 1);
      PeelDigit(v, n - i);
    }
  }

  /** Reading back an integer gives the integer, in either byte order. */
  lemma IntRoundTrip(bo: ByteOrder, v: nat, n: nat)
    requires v < Weight(n)
    ensures IntValue(bo, IntBytes(bo, v, n)) == v
  {
    if bo.LittleEndian? {
      LittleSum(v, n, n);
      DivIs(v, Weight(n), 0, v);
    } else {
      BigSum(v, n, n);
    }
  }

  /** The cast from a signed type to the unsigned type of the same size, and back. */
  function ToUnsigned(i: int, size: nat): (r: nat)
    requires InSignedRange(i, size)
    ensures r < Weight(size) && FromUnsigned(r, size) == i
  {
    if i < 0 then i + Weight(size) else i
  }

  function FromUnsigned(n: nat, size: nat): int {
    if 2 * n < Weight(size) then n else n - Weight(size)
  }

  // ---- One value ------------------------------------------------------------------------------

  function Encode(bo: ByteOrder, v: Value): seq<Byte>
  {
    match v
    case Boolean(b) => [if b then 1 else 0]
    case Signed(size, i) => IntBytes(bo, ToUnsigned(i, size), size)
    case Unsigned(size, n) => IntBytes(bo, n, size)
    case Float(bits) => IntBytes(bo, bits, 4)
    case Double(bits) => IntBytes(bo, bits, 8)
    case Text(chars) => IntBytes(bo, |chars| % TWO_TO_32, 4) + chars
    case Bytes(data) => data
  }

  /** `next` is the cursor afterwards. */
  datatype Outcome = Read(value: AnyValue, next: nat) | Failed(next: nat)

  function ReadInt(bo: ByteOrder, size: nat, data: seq<Byte>, pos: nat): (r: Outcome)
    requires pos <= |data|
    ensures pos <= r.next <= |data|
    ensures r.Read? ==> r.value.Unsigned?
  {
    if pos + size > |data| then Failed(pos)
    else Read(Unsigned(size, IntValue(bo, data[pos..pos + size])), pos + size)
  }

  function ReadText(bo: ByteOrder, data: seq<Byte>, pos: nat): (r: Outcome)
    requires pos <= |data|
    ensures pos <= r.next <= |data|
  {
    var length := ReadInt(bo, 4, data, pos);
    if length.Failed? then length
    else if length.next + length.value.n > |data| then Failed(length.next)
    else Read(Text(data[length.next..length.next + length.value.n]), length.next + length.value.n)
  }

  function Retyped(o: Outcome, t: Type): (r: Outcome)
    requires o.Read? ==> o.value.Unsigned?
    ensures r.next == o.next
  {
    if o.Failed? then o
    else
      match t
      case TSigned(size) => Read(Signed(size, FromUnsigned(o.value.n, size)), o.next)
      case TFloat => Read(Float(o.value.n), o.next)
      case TDouble => Read(Double(o.value.n), o.next)
      case _ => o
  }

  function Decode(bo: ByteOrder, t: Type, data: seq<Byte>, pos: nat): (r: Outcome)
    requires t.Valid() && pos <= |data|
    ensures pos <= r.next <= |data|
    ensures r.Failed? && !t.TText? ==> r.next == pos
  {
    match t
    case TBoolean => if pos >= |data| then Failed(pos) else Read(Boolean(data[pos] != 0), pos + 1)
    case TSigned(size) => Retyped(ReadInt(bo, size, data, pos), t)
    case TUnsigned(size) => ReadInt(bo, size, data, pos)
    case TFloat => Retyped(ReadInt(bo, 4, data, pos), t)
    case TDouble => Retyped(ReadInt(bo, 8, data, pos), t)
    case TText => ReadText(bo, data, pos)
    case TBytes(length, capacity) =>
      if pos + length > |data| || length > capacity then Failed(pos)
      else Read(Bytes(data[pos..pos + length]), pos + length)
  }

  // ---- The serializer -------------------------------------------------------------------------

  class BinarySerializer {
    const byteOrder: ByteOrder
    var buffer: seq<Byte>

    constructor (byteOrder: ByteOrder)
      ensures this.byteOrder == byteOrder && buffer == []
    {
      this.byteOrder, buffer := byteOrder, [];
    }

    method PushBack(byte: Byte)
      modifies this
      ensures buffer == old(buffer) + [byte]
    {
      buffer := buffer + [byte];
    }

    method SerializeInteger(value: nat, size: nat)
      modifies this
      ensures buffer == old(buffer) + IntBytes(byteOrder, value, size)
    {
      ghost var bytes := IntBytes(byteOrder, value, size);
      if byteOrder.BigEndian? {
        for i := 0 to size
          invariant buffer == old(buffer) + bytes[..i]
        {
          PushBack(value / Weight(size - 1 - i) % 256);
        }
      } else {
        for i := 0 to size
          invariant buffer == old(buffer) + bytes[..i]
        {
          PushBack(value / Weight(i) % 256);
        }
      }
    }

    method SerializeBytes(data: seq<Byte>)
      modifies this
      ensures buffer == old(buffer) + data
    {
      for i := 0 to |data|
        invariant buffer == old(buffer) + data[..i]
      {
        PushBack(data[i]);
      }
    }

    method SerializeText(chars: seq<Byte>)
      modifies this
      ensures buffer == old(buffer) + Encode(byteOrder, Text(chars))
    {
      SerializeInteger(|chars| % TWO_TO_32, 4);
      ghost var before := buffer;
      for i := 0 to |chars|
        invariant buffer == before + chars[..i]
      {
        PushBack(chars[i]);
      }
    }

    /** The overloads of Serialize, and SerializeBytes. */
    method Serialize(v: Value)
      modifies this
      ensures buffer == old(buffer) + Encode(byteOrder, v)
    {
      match v
      case Boolean(b) => PushBack(if b then 1 else 0);
      case Signed(size, i) => SerializeNumber(ToUnsigned(i, size), size);
      case Unsigned(size, n) => SerializeNumber(n, size);
      case Float(bits) => SerializeInteger(bits, 4);
      case Double(bits) => SerializeInteger(bits, 8);
      case Text(chars) => SerializeText(chars);
      case Bytes(data) => SerializeBytes(data);
    }

    /** One byte is pushed as it is; wider integers go through SerializeInteger. */
    method SerializeNumber(n: nat, size: nat)
      requires n < Weight(size) && size in {1, 2, 4, 8}
      modifies this
      ensures buffer == old(buffer) + IntBytes(byteOrder, n, size)
    {
      if size == 1 {
        PushBack(n);
        assert IntBytes(byteOrder, n, 1) == [n];
      } else {
        SerializeInteger(n, size);
      }
    }

    method SerializeList(vs: seq<Value>)
      modifies this
      ensures buffer == old(buffer) + EncodeAll(byteOrder, vs)
    {
      for i := 0 to |vs|
        invariant buffer == old(buffer) + EncodeAll(byteOrder, vs[..i])
      {
        Serialize(vs[i]);
        EncodeOneMore(byteOrder, vs, i);
      }
      assert vs[..|vs|] == vs;
    }

    method Reset()
      modifies this
      ensures buffer == []
    {
      buffer := [];
    }
  }

  // ---- The deserializer -----------------------------------------------------------------------

  class BinaryDeserializer {
    const data: seq<Byte>
    const byteOrder: ByteOrder
    var position: nat

    ghost predicate Valid()
      reads this
    {
      position <= |data|
    }

    constructor (data: seq<Byte>, byteOrder: ByteOrder)
      ensures this.data == data && this.byteOrder == byteOrder
      ensures Valid() && position == 0
    {
      this.data, this.byteOrder, position := data, byteOrder, 0;
    }

    predicate HasMoreData()
      reads this
    {
      position < |data|
    }

    method DeserializeInteger(size: nat) returns (value: nat, ok: bool)
      requires Valid()
      modifies this
      ensures Valid()
      ensures var r := ReadInt(byteOrder, size, data, old(position));
              ok == r.Read? && position == r.next && (ok ==> value == r.value.n)
    {
      value := 0;
      if position + size > |data| {
        return 0, false;
      }
      ghost var bytes := data[position..position + size];
      if byteOrder.BigEndian? {
        for i := 0 to size
          invariant position == old(position) + i && value == Sum(BigEndian, bytes, i)
        {
          NextPlaceIsClear(BigEndian, bytes, i);
          value := OrByte(value, data[position], size - 1 - i);
          position := position + 1;
        }
      } else {
        for i := 0 to size
          invariant position == old(position) + i && value == Sum(LittleEndian, bytes, i)
        {
          NextPlaceIsClear(LittleEndian, bytes, i);
          value := OrByte(value, data[position], i);
          position := position + 1;
        }
      }
      ok := true;
    }

    method DeserializeText() returns (r: Outcome)
      requires Valid()
      modifies this
      ensures Valid() && r == ReadText(byteOrder, data, old(position)) && position == r.next
    {
      var length, ok := DeserializeInteger(4);
      if !ok || position + length > |data| {
        return Failed(position);
      }
      var chars := [];
      ghost var start := position;
      for i := 0 to length
        invariant position == start + i && chars == data[start..start + i]
      {
        chars := chars + [data[position]];
        position := position + 1;
      }
      r := Read(Text(chars), position);
    }

    /** Fills the first `length` elements of the caller's span and leaves the others alone. */
    method DeserializeBytes(span: array<Byte>, length: nat) returns (ok: bool)
      requires Valid() && length < TWO_TO_32
      modifies this, span
      ensures Valid()
      ensures var r := Decode(byteOrder, TBytes(length, span.Length), data, old(position));
              && ok == r.Read? && position == r.next
              && span[..] == if ok then r.value.data + old(span[..])[length..] else old(span[..])
    {
      if position + length > |data| || length > span.Length {
        return false;
      }
      ghost var start := position;
      for i := 0 to length
        invariant position == start + i
        invariant span[..i] == data[start..start + i] && span[i..] == old(span[..])[i..]
      {
        span[i] := data[position];
        position := position + 1;
      }
      ok := true;
    }

    /** The overloads of Deserialize, and DeserializeBytes. */
    method Deserialize(t: Type) returns (r: Outcome)
      requires Valid() && t.Valid()
      modifies this
      ensures Valid() && r == Decode(byteOrder, t, data, old(position)) && position == r.next
    {
      match t
      case TBoolean =>
        if position >= |data| {
          return Failed(position);
        }
        r := Read(Boolean(data[position] != 0), position + 1);
        position := position + 1;
      case TText =>
        r := DeserializeText();
      case TBytes(length, capacity) =>
        var span := new Byte[capacity];
        var ok := DeserializeBytes(span, length);
        r := if ok then Read(Bytes(span[..length]), position) else Failed(position);
      case TSigned(size) =>
        r := DeserializeNumber(size);
        r := Retyped(r, t);
      case TUnsigned(size) =>
        r := DeserializeNumber(size);
      case TFloat =>
        r := DeserializeNumber(4);
        r := Retyped(r, t);
      case TDouble =>
        r := DeserializeNumber(8);
        r := Retyped(r, t);
    }

    /** One byte is taken as it is; wider integers go through DeserializeInteger. */
    method DeserializeNumber(size: nat) returns (r: Outcome)
      requires Valid() && size in {1, 2, 4, 8}
      modifies this
      ensures Valid() && r == ReadInt(byteOrder, size, data, old(position)) && position == r.next
    {
      if size != 1 {
        var n, ok := DeserializeInteger(size);
        return if ok then Read(Unsigned(size, n), position) else Failed(position);
      }
      if position >= |data| {
        return Failed(position);
      }
      OneByte(byteOrder, data[position..position + 1]);
      r := Read(Unsigned(1, data[position]), position + 1);
      position := position + 1;
    }

    method DeserializeList(ts: seq<Type>) returns (vs: seq<AnyValue>)
      requires Valid() && forall t | t in ts :: t.Valid()
      modifies this
      ensures Valid()
      ensures vs == DecodeAll(byteOrder, ts, data, old(position)).0
      ensures position == DecodeAll(byteOrder, ts, data, old(position)).1
    {
      vs := [];
      assert ts[0..] == ts;
      ghost var all := DecodeAll(byteOrder, ts, data, position);
      for i := 0 to |ts|
        invariant Valid()
        invariant all.0 == vs + DecodeAll(byteOrder, ts[i..], data, position).0
        invariant all.1 == DecodeAll(byteOrder, ts[i..], data, position).1
      {
        assert ts[i..][0] == ts[i];
        var r := Deserialize(ts[i]);
        if r.Failed? {
          return;
        }
        vs := vs + [r.value];
        assert ts[i..][1..] == ts[i + 1..];
      }
    }

    method Reset()
      modifies this
      ensures Valid() && position == 0
    {
      position := 0;
    }
  }

  // ---- Lists of values ------------------------------------------------------------------------

  function EncodeAll(bo: ByteOrder, vs: seq<Value>): seq<Byte>
  {
    if vs == [] then []
    else
      var last := |vs| - 1;
      EncodeAll(bo, vs[..last]) + Encode(bo, vs[last])
  }

  /** The values read before the first failure, and the cursor where reading stopped. */
  function DecodeAll(bo: ByteOrder, ts: seq<Type>, data: seq<Byte>, pos: nat): (r: (seq<AnyValue>, nat))
    requires pos <= |data| && forall t | t in ts :: t.Valid()
    ensures pos <= r.1 <= |data| && |r.0| <= |ts|
  {
    if ts == [] then ([], pos)
    else
      var o := Decode(bo, ts[0], data, pos);
      if o.Failed? then ([], o.next)
      else
        var rest := DecodeAll(bo, ts[1..], data, o.next);
        ([o.value] + rest.0, rest.1)
  }

  lemma EncodeOneMore(bo: ByteOrder, vs: seq<Value>, i: nat)
    requires i < |vs|
    ensures EncodeAll(bo, vs[..i + 1]) == EncodeAll(bo, vs[..i]) + Encode(bo, vs[i])
  {
    assert vs[..i + 1][..i] == vs[..i];
  }

  function TypeOf(v: Value): (t: Type)
    ensures t.Valid()
  {
    match v
    case Boolean(_) => TBoolean
    case Signed(size, _) => TSigned(size)
    case Unsigned(size, _) => TUnsigned(size)
    case Float(_) => TFloat
    case Double(_) => TDouble
    case Text(_) => TText
    case Bytes(data) => TBytes(|data|, |data|)
  }

  function TypesOf(vs: seq<Value>): (r: seq<Type>)
    ensures |r| == |vs| && forall t | t in r :: t.Valid()
  {
    seq(|vs|, i requires 0 <= i < |vs| => TypeOf(vs[i]))
  }

  /** Everything but a string of 2^32 characters or more. */
  predicate Sendable(v: Value) { v.Text? ==> |v.chars| < TWO_TO_32 }

  /** The data holds `e` at the cursor. */
  predicate Holds(data: seq<Byte>, pos: nat, e: seq<Byte>) {
    pos + |e| <= |data| && data[pos..pos + |e|] == e
  }

  lemma HoldsParts(data: seq<Byte>, pos: nat, a: seq<Byte>, b: seq<Byte>)
    requires Holds(data, pos, a + b)
    ensures Holds(data, pos, a) && Holds(data, pos + |a|, b)
  {
    assert (a + b)[..|a|] == a && (a + b)[|a|..] == b;
  }

  lemma ReadIntOf(bo: ByteOrder, n: nat, size: nat, data: seq<Byte>, pos: nat)
    requires n < Weight(size) && Holds(data, pos, IntBytes(bo, n, size))
    ensures ReadInt(bo, size, data, pos) == Read(Unsigned(size, n), pos + size)
  {
    IntRoundTrip(bo, n, size);
  }

  /** The length in front of a string is its length modulo 2^32. */
  lemma LengthOf(bo: ByteOrder, chars: seq<Byte>, data: seq<Byte>, pos: nat)
    requires Holds(data, pos, IntBytes(bo, |chars| % TWO_TO_32, 4))
    ensures ReadInt(bo, 4, data, pos) == Read(Unsigned(4, |chars| % TWO_TO_32), pos + 4)
  {
    assert Weight(4) == TWO_TO_32;
    ReadIntOf(bo, |chars| % TWO_TO_32, 4, data, pos);
  }

  lemma TextIsRead(bo: ByteOrder, chars: seq<Byte>, data: seq<Byte>, pos: nat, n: nat)
    requires n == |chars| % TWO_TO_32
    requires Holds(data, pos, IntBytes(bo, n, 4)) && Holds(data, pos + 4, chars)
    ensures ReadText(bo, data, pos) == Read(Text(chars[..n]), pos + 4 + n)
  {
    LengthOf(bo, chars, data, pos);
    assert data[pos + 4..pos + 4 + n] == data[pos + 4..pos + 4 + |chars|][..n];
  }

  /** A string comes back whole exactly if its length fits in 32 bits. */
  lemma TextRoundTrip(bo: ByteOrder, chars: seq<Byte>, data: seq<Byte>, pos: nat)
    requires Holds(data, pos, Encode(bo, Text(chars)))
    ensures Decode(bo, TText, data, pos) == Read(Text(chars[..|chars| % TWO_TO_32]), pos + 4 + |chars| % TWO_TO_32)
    ensures |chars| < TWO_TO_32 <==> Decode(bo, TText, data, pos) == Read(Text(chars), pos + 4 + |chars|)
  {
    var n := |chars| % TWO_TO_32;
    HoldsParts(data, pos, IntBytes(bo, n, 4), chars);
    TextIsRead(bo, chars, data, pos, n);
    assert |chars| < TWO_TO_32 ==> chars[..n] == chars;
  }

  lemma NumberRoundTrip(bo: ByteOrder, v: Value, data: seq<Byte>, pos: nat)
    requires v.Signed? || v.Unsigned? || v.Float? || v.Double?
    requires Holds(data, pos, Encode(bo, v))
    ensures Decode(bo, TypeOf(v), data, pos) == Read(v, pos + |Encode(bo, v)|)
  {
    match v
    case Signed(size, i) => ReadIntOf(bo, ToUnsigned(i, size), size, data, pos);
    case Unsigned(size, n) => ReadIntOf(bo, n, size, data, pos);
    case Float(bits) => ReadIntOf(bo, bits, 4, data, pos);
    case Double(bits) => ReadIntOf(bo, bits, 8, data, pos);
  }

  /** One value, anywhere in the data. */
  lemma ValueRoundTrip(bo: ByteOrder, v: Value, data: seq<Byte>, pos: nat)
    requires Sendable(v) && Holds(data, pos, Encode(bo, v))
    ensures Decode(bo, TypeOf(v), data, pos) == Read(v, pos + |Encode(bo, v)|)
  {
    match v
    case Boolean(b) => assert data[pos] == data[pos..pos + 1][0];
    case Text(chars) => TextRoundTrip(bo, chars, data, pos);
    case Bytes(_) =>
    case _ => NumberRoundTrip(bo, v, data, pos);
  }

  /** The data ends inside what is left to read, or right after it. */
  predicate EndsWithin(data: seq<Byte>, pos: nat, e: seq<Byte>) {
    pos <= |data| <= pos + |e| && data[pos..] == e[..|data| - pos]
  }

  lemma EndsWithinParts(data: seq<Byte>, pos: nat, a: seq<Byte>, b: seq<Byte>)
    requires EndsWithin(data, pos, a + b)
    ensures if pos + |a| <= |data| then Holds(data, pos, a) && EndsWithin(data, pos + |a|, b)
            else EndsWithin(data, pos, a)
  {
    var d := data[pos..];
    if pos + |a| <= |data| {
      assert data[pos..pos + |a|] == d[..|a|] == (a + b)[..|a|] == a;
      assert data[pos + |a|..] == d[|a|..] == (a + b)[..|d|][|a|..] == b[..|d| - |a|];
    } else {
      assert (a + b)[..|d|] == a[..|d|];
    }
  }

  /** The length is there and promises more than is left. */
  lemma ShortTextFails(bo: ByteOrder, n: nat, data: seq<Byte>, pos: nat)
    requires pos + 4 <= |data| < pos + 4 + n && ReadInt(bo, 4, data, pos) == Read(Unsigned(4, n), pos + 4)
    ensures ReadText(bo, data, pos).Failed?
  {
  }

  lemma TruncatedTextFails(bo: ByteOrder, chars: seq<Byte>, data: seq<Byte>, pos: nat)
    requires |chars| < TWO_TO_32 && EndsWithin(data, pos, IntBytes(bo, |chars|, 4) + chars)
    requires |data| < pos + 4 + |chars|
    ensures ReadText(bo, data, pos).Failed?
  {
    if pos + 4 <= |data| {
      EndsWithinParts(data, pos, IntBytes(bo, |chars|, 4), chars);
      assert ReadInt(bo, 4, data, pos) == Read(Unsigned(4, |chars|), pos + 4) by {
        assert |chars| % TWO_TO_32 == |chars|;
        LengthOf(bo, chars, data, pos);
      }
      ShortTextFails(bo, |chars|, data, pos);
    }
  }

  /** Anything but a string fails on its length alone. */
  lemma ShortValueFails(bo: ByteOrder, v: Value, data: seq<Byte>, pos: nat)
    requires !v.Text? && pos <= |data| < pos + |Encode(bo, v)|
    ensures Decode(bo, TypeOf(v), data, pos).Failed?
  {
  }

  /** One value of which only a part is left. */
  lemma TruncatedValueFails(bo: ByteOrder, v: Value, data: seq<Byte>, pos: nat)
    requires Sendable(v) && EndsWithin(data, pos, Encode(bo, v)) && |data| < pos + |Encode(bo, v)|
    ensures Decode(bo, TypeOf(v), data, pos).Failed?
  {
    if v.Text? {
      assert |v.chars| % TWO_TO_32 == |v.chars|;
      assert Encode(bo, v) == IntBytes(bo, |v.chars|, 4) + v.chars;
      TruncatedTextFails(bo, v.chars, data, pos);
    } else {
      ShortValueFails(bo, v, data, pos);
    }
  }

  lemma {:induction false} EncodeAllFrom(bo: ByteOrder, vs: seq<Value>)
    requires |vs| > 0
    ensures EncodeAll(bo, vs) == Encode(bo, vs[0]) + EncodeAll(bo, vs[1..])
  {
    var last := |vs| - 1;
    if last > 0 {
      EncodeAllFrom(bo, vs[..last]);
      assert vs[..last][1..] == vs[1..][..last - 1];
      assert vs[1..][last - 1] == vs[last];
    }
  }

  lemma DecodeAllFrom(bo: ByteOrder, vs: seq<Value>, data: seq<Byte>, pos: nat, next: nat)
    requires vs != [] && pos <= |data|
    requires Decode(bo, TypeOf(vs[0]), data, pos) == Read(vs[0], next)
    ensures var rest := DecodeAll(bo, TypesOf(vs[1..]), data, next);
            DecodeAll(bo, TypesOf(vs), data, pos) == ([vs[0]] + rest.0, rest.1)
  {
    assert TypesOf(vs)[0] == TypeOf(vs[0]) && TypesOf(vs)[1..] == TypesOf(vs[1..]);
  }

  lemma DecodeAllStops(bo: ByteOrder, vs: seq<Value>, data: seq<Byte>, pos: nat)
    requires vs != [] && pos <= |data|
    requires Decode(bo, TypeOf(vs[0]), data, pos).Failed?
    ensures DecodeAll(bo, TypesOf(vs), data, pos).0 == []
  {
    assert TypesOf(vs)[0] == TypeOf(vs[0]);
  }

  /** What was read is a prefix of what was sent: all of it, up to the end of the data, if the
      data is complete, and less than that if it is not. */
  predicate Faithful(vs: seq<Value>, r: (seq<AnyValue>, nat), complete: bool, end: nat) {
    && |r.0| <= |vs| && r.0 == vs[..|r.0|]
    && (if complete then r == (vs, end) else |r.0| < |vs|)
  }

  lemma FaithfulFrom(vs: seq<Value>, r: (seq<AnyValue>, nat), complete: bool, end: nat)
    requires vs != [] && Faithful(vs[1..], r, complete, end)
    ensures Faithful(vs, ([vs[0]] + r.0, r.1), complete, end)
  {
    assert vs == [vs[0]] + vs[1..];
    assert [vs[0]] + r.0 == vs[..|r.0| + 1];
  }

  lemma DecodeRest(bo: ByteOrder, vs: seq<Value>, data: seq<Byte>, pos: nat, next: nat, complete: bool)
    requires vs != [] && pos <= |data|
    requires Decode(bo, TypeOf(vs[0]), data, pos) == Read(vs[0], next)
    requires Faithful(vs[1..], DecodeAll(bo, TypesOf(vs[1..]), data, next), complete, |data|)
    ensures Faithful(vs, DecodeAll(bo, TypesOf(vs), data, pos), complete, |data|)
  {
    DecodeAllFrom(bo, vs, data, pos, next);
    FaithfulFrom(vs, DecodeAll(bo, TypesOf(vs[1..]), data, next), complete, |data|);
  }

  lemma FirstFits(bo: ByteOrder, v: Value, rest: seq<Byte>, data: seq<Byte>, pos: nat)
    requires Sendable(v) && EndsWithin(data, pos, Encode(bo, v) + rest)
    ensures var next := pos + |Encode(bo, v)|;
            if next <= |data| then Decode(bo, TypeOf(v), data, pos) == Read(v, next) && EndsWithin(data, next, rest)
            else Decode(bo, TypeOf(v), data, pos).Failed?
  {
    EndsWithinParts(data, pos, Encode(bo, v), rest);
    if pos + |Encode(bo, v)| <= |data| {
      ValueRoundTrip(bo, v, data, pos);
    } else {
      TruncatedValueFails(bo, v, data, pos);
    }
  }

  /** The first value of the list, whole or cut off. */
  lemma DecodeFirst(bo: ByteOrder, vs: seq<Value>, data: seq<Byte>, pos: nat)
    requires vs != [] && Sendable(vs[0]) && EndsWithin(data, pos, EncodeAll(bo, vs))
    ensures var next := pos + |Encode(bo, vs[0])|;
            if next <= |data| then
              && Decode(bo, TypeOf(vs[0]), data, pos) == Read(vs[0], next)
              && EndsWithin(data, next, EncodeAll(bo, vs[1..]))
            else Decode(bo, TypeOf(vs[0]), data, pos).Failed?
    ensures |EncodeAll(bo, vs)| == |Encode(bo, vs[0])| + |EncodeAll(bo, vs[1..])|
  {
    EncodeAllFrom(bo, vs);
    FirstFits(bo, vs[0], EncodeAll(bo, vs[1..]), data, pos);
  }

  /** The induction step: from the cursor behind the first value, if that is there. */
  lemma DecodeFirstThenRest(bo: ByteOrder, vs: seq<Value>, data: seq<Byte>, pos: nat, end: nat)
    returns (fits: bool, next: nat)
    requires vs != [] && Sendable(vs[0]) && EndsWithin(data, pos, EncodeAll(bo, vs))
    requires end == pos + |EncodeAll(bo, vs)|
    ensures fits ==> EndsWithin(data, next, EncodeAll(bo, vs[1..])) && end == next + |EncodeAll(bo, vs[1..])|
    ensures fits && Faithful(vs[1..], DecodeAll(bo, TypesOf(vs[1..]), data, next), |data| == end, |data|) ==>
              Faithful(vs, DecodeAll(bo, TypesOf(vs), data, pos), |data| == end, |data|)
    ensures !fits ==> Faithful(vs, DecodeAll(bo, TypesOf(vs), data, pos), |data| == end, |data|)
  {
    next := pos + |Encode(bo, vs[0])|;
    fits := next <= |data|;
    DecodeFirst(bo, vs, data, pos);
    if !fits {
      DecodeAllStops(bo, vs, data, pos);
    } else if Faithful(vs[1..], DecodeAll(bo, TypesOf(vs[1..]), data, next), |data| == end, |data|) {
      DecodeRest(bo, vs, data, pos, next, |data| == end);
    }
  }

  /** From any cursor: what is left of the data is an encoding, or a strict prefix of one. */
  lemma {:induction false} DecodeAllOf(bo: ByteOrder, vs: seq<Value>, data: seq<Byte>, pos: nat)
    requires forall v | v in vs :: Sendable(v)
    requires EndsWithin(data, pos, EncodeAll(bo, vs))
    ensures Faithful(vs, DecodeAll(bo, TypesOf(vs), data, pos), |data| == pos + |EncodeAll(bo, vs)|, |data|)
    decreases |vs|
  {
    if vs != [] {
      var fits, next := DecodeFirstThenRest(bo, vs, data, pos, pos + |EncodeAll(bo, vs)|);
      if fits {
        DecodeAllOf(bo, vs[1..], data, next);
      }
    }
  }

  /** Every list, in either byte order: reading back with the list's own types gives the list
      and leaves no more data. */
  lemma RoundTrip(bo: ByteOrder, vs: seq<Value>)
    requires forall v | v in vs :: Sendable(v)
    ensures DecodeAll(bo, TypesOf(vs), EncodeAll(bo, vs), 0) == (vs, |EncodeAll(bo, vs)|)
  {
    var data := EncodeAll(bo, vs);
    assert data[0..] == data == data[..|data| - 0];
    DecodeAllOf(bo, vs, data, 0);
  }

  /** Decoding a strict prefix of an encoding gives original values only, in order, and then
      fails. */
  lemma TruncatedListFails(bo: ByteOrder, vs: seq<Value>, cut: nat)
    requires forall v | v in vs :: Sendable(v)
    requires cut < |EncodeAll(bo, vs)|
    ensures var ws := DecodeAll(bo, TypesOf(vs), EncodeAll(bo, vs)[..cut], 0).0;
            |ws| < |vs| && ws == vs[..|ws|]
  {
    var data := EncodeAll(bo, vs)[..cut];
    assert data[0..] == data;
    DecodeAllOf(bo, vs, data, 0);
  }

  /** The program that serializes a list and reads it back. */
  method SendAndReceive(bo: ByteOrder, vs: seq<Value>) returns (ws: seq<AnyValue>, more: bool)
    requires forall v | v in vs :: Sendable(v)
    ensures ws == vs && !more
  {
    var s := new BinarySerializer(bo);
    s.SerializeList(vs);
    RoundTrip(bo, vs);
    assert s.buffer == EncodeAll(bo, vs);
    var d := new BinaryDeserializer(s.buffer, bo);
    ws := d.DeserializeList(TypesOf(vs));
    more := d.HasMoreData();
  }

  // ---- Arbitrary data ---------------------------------------------------------------------------

  /** The cursor after any reads, failed ones included. */
  function CursorAfter(bo: ByteOrder, ts: seq<Type>, data: seq<Byte>, pos: nat): nat
    requires pos <= |data| && forall t | t in ts :: t.Valid()
  {
    if ts == [] then pos
    else CursorAfter(bo, ts[1..], data, Decode(bo, ts[0], data, pos).next)
  }

  /** Whatever the bytes and the reads, the cursor only moves forward, never passes the end,
      and what a successful read returns is representable in the type asked for. */
  lemma {:induction false} CursorStaysInside(bo: ByteOrder, ts: seq<Type>, data: seq<Byte>, pos: nat)
    requires pos <= |data| && forall t | t in ts :: t.Valid()
    ensures pos <= CursorAfter(bo, ts, data, pos) <= |data|
  {
    if ts != [] {
      CursorStaysInside(bo, ts[1..], data, Decode(bo, ts[0], data, pos).next);
    }
  }

  lemma ReadIntInRange(bo: ByteOrder, size: nat, data: seq<Byte>, pos: nat)
    requires pos <= |data|
    ensures match ReadInt(bo, size, data, pos)
            case Read(v, _) => v.Unsigned? && v.size == size && v.n < Weight(size)
            case Failed(_) => true
  {
    if pos + size <= |data| {
      var bytes := data[pos..pos + size];
      var n := IntValue(bo, bytes);
      assert ReadInt(bo, size, data, pos) == Read(Unsigned(size, n), pos + size);
      assert n < Weight(size) by {
        SumIsSmall(bo, bytes, size);
      }
    }
  }

  lemma DecodedNumberIsRepresentable(bo: ByteOrder, t: Type, data: seq<Byte>, pos: nat)
    requires t.TSigned? || t.TUnsigned? || t.TFloat? || t.TDouble?
    requires t.Valid() && pos <= |data| && Decode(bo, t, data, pos).Read?
    ensures Representable(Decode(bo, t, data, pos).value)
  {
    ReadIntInRange(bo, match t case TSigned(n) => n case TUnsigned(n) => n case TDouble => 8 case _ => 4, data, pos);
  }

  lemma DecodedIsRepresentable(bo: ByteOrder, t: Type, data: seq<Byte>, pos: nat)
    requires t.Valid() && pos <= |data| && Decode(bo, t, data, pos).Read?
    ensures Representable(Decode(bo, t, data, pos).value) && Sendable(Decode(bo, t, data, pos).value)
  {
    match t
    case TText =>
      ReadIntInRange(bo, 4, data, pos);
      assert Weight(4) == TWO_TO_32;
    case TBoolean =>
    case TBytes(_, _) =>
    case _ => DecodedNumberIsRepresentable(bo, t, data, pos);
  }

  /** A read succeeds exactly if enough bytes are left, and for a block if the span is large
      enough. A failed read stays where it is, but for a string whose length was read. */
  lemma ReadSucceedsExactlyIf(bo: ByteOrder, t: Type, data: seq<Byte>, pos: nat)
    requires t.Valid() && pos <= |data|
    ensures var left, r := |data| - pos, Decode(bo, t, data, pos);
            match t
            case TBoolean => r.Read? <==> left >= 1
            case TSigned(size) => r.Read? <==> left >= size
            case TUnsigned(size) => r.Read? <==> left >= size
            case TFloat => r.Read? <==> left >= 4
            case TDouble => r.Read? <==> left >= 8
            case TText => r.Read? <==> left >= 4 && left - 4 >= IntValue(bo, data[pos..pos + 4])
            case TBytes(length, capacity) => r.Read? <==> left >= length && capacity >= length
    ensures Decode(bo, t, data, pos).Failed? ==>
              Decode(bo, t, data, pos).next == if t.TText? && |data| - pos >= 4 then pos + 4 else pos
  {
  }

  // ---- The wire form ------------------------------------------------------------------------------

  /** 2^(8 * size) */
  function Modulus(size: nat): nat
    requires size in {1, 2, 4, 8}
  {
    if size == 1 then 0x100
    else if size == 2 then 0x1_0000
    else if size == 4 then 0x1_0000_0000
    else 0x1_0000_0000_0000_0000
  }

  lemma WeightIsModulus(size: nat)
    requires size in {1, 2, 4, 8}
    ensures Weight(size) == Modulus(size)
  {
    assert Weight(1) == 0x100 && Weight(2) == 0x1_0000 && Weight(4) == 0x1_0000_0000;
    assert Weight(5) == 0x100_0000_0000 && Weight(6) == 0x1_0000_0000_0000;
    assert Weight(7) == 0x100_0000_0000_0000;
  }

  /** A negative integer is sent in two's complement, any other as it is. */
  lemma SignedWireForm(bo: ByteOrder, size: nat, i: int)
    requires size in {1, 2, 4, 8} && 0 <= 2 * i + Modulus(size) < 2 * Modulus(size)
    ensures Representable(Signed(size, i))
    ensures Encode(bo, Signed(size, i)) == IntBytes(bo, if i < 0 then Modulus(size) + i else i, size)
  {
    WeightIsModulus(size);
  }

  /** True is the byte 1 and false the byte 0; every byte but 0 is read as true. */
  lemma BooleanWireForm(bo: ByteOrder, data: seq<Byte>, pos: nat)
    requires pos < |data|
    ensures Encode(bo, Boolean(true)) == [1] && Encode(bo, Boolean(false)) == [0]
    ensures Decode(bo, TBoolean, data, pos) == Read(Boolean(data[pos] != 0), pos + 1)
  {
  }

  /** Floats take four bytes and doubles eight; a string is its length in four bytes and then its
      characters; a block is sent without a length. */
  lemma WireSizes(bo: ByteOrder, v: Value)
    ensures match v
            case Boolean(_) => |Encode(bo, v)| == 1
            case Signed(size, _) => |Encode(bo, v)| == size
            case Unsigned(size, n) => Encode(bo, v) == IntBytes(bo, n, size)
            case Float(bits) => Encode(bo, v) == IntBytes(bo, bits, 4)
            case Double(bits) => Encode(bo, v) == IntBytes(bo, bits, 8)
            case Text(chars) => Encode(bo, v) == IntBytes(bo, |chars| % 0x1_0000_0000, 4) + chars
            case Bytes(data) => Encode(bo, v) == data
  {
  }

  /** Big-endian puts the most significant byte first, little-endian the least significant one,
      and each is the other backwards. */
  lemma ByteOrderOnTheWire(v: nat, n: nat)
    requires n > 0 && v < Weight(n)
    ensures IntBytes(BigEndian, v, n)[0] == v / Weight(n - 1) && IntBytes(LittleEndian, v, n)[0] == v % 256
    ensures forall i | 0 <= i < n :: IntBytes(LittleEndian, v, n)[i] == IntBytes(BigEndian, v, n)[n - 1 - i]
  {
    var w := Weight(n - 1);
    QuotientIsByte(v, w);
    assert Weight(0) == 1 && Digit(v, 0) == v % 256;
  }

  lemma QuotientIsByte(v: nat, w: nat)
    requires w > 0 && v < 256 * w
    ensures v / w < 256
  {
    MultipleIsFar(w, v / w - 256 + 1);
    assert v == w * (v / w) + v % w;
  }
}
