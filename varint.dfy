/**
 * The variable-length integer of the game-server status protocol
 * (`MinecraftCheck.writeVarInt` / `readVarInt`): 7 payload bits per byte,
 * low group first, bit 0x80 set on every byte but the last. The byte layout
 * is that of unsigned LEB128 (DWARF version 5, section 7.6) applied to the 32
 * bits of a Java `int`, so a negative value always takes five bytes.
 *
 * The source works with `&`, `|`, `<<` and `>>>` on an `int`; the model works
 * on the unsigned value u of those 32 bits, where `(value & ~0x7F) != 0` is
 * u >= 128, `(value & 0x7F) | 0x80` is u % 128 + 128 and `value >>>= 7` is
 * u := u / 128.
 */
module VarInt {
  import opened Lang

  const TwoTo32: nat := 0x1_0000_0000

  function Pow2(e: nat): (p: nat)
    ensures p >= 1
  {
    if e == 0 then 1 else 2 * Pow2(e - 1)
  }

  lemma {:induction false} Pow2Add(a: nat, b: nat)
    ensures Pow2(a + b) == Pow2(a) * Pow2(b)
  {
    if a > 0 {
      Pow2Add(a - 1, b);
      assert Pow2(a + b) == 2 * Pow2(a - 1 + b);
    }
  }

  lemma {:induction false} Pow2Monotone(a: nat, b: nat)
    requires a <= b
    ensures Pow2(a) <= Pow2(b)
  {
    if a < b {
      Pow2Monotone(a, b - 1);
    }
  }

  lemma Pow2Seven()
    ensures Pow2(7) == 128
  {
  }

  lemma Pow2Sixteen()
    ensures Pow2(16) == 0x1_0000
  {
    assert Pow2(8) == 256;
    Pow2Add(8, 8);
  }

  lemma Pow2ThirtyTwo()
    ensures Pow2(32) == TwoTo32
  {
    Pow2Sixteen();
    Pow2Add(16, 16);
  }

  lemma Pow2TwentyEightAndThirtyFive()
    ensures Pow2(28) == 0x1000_0000 && Pow2(35) == 0x8_0000_0000
  {
    Pow2Seven();
    Pow2Add(7, 7);
    Pow2Add(14, 14);
    Pow2Add(28, 7);
  }

  /** The 32 bits of a Java `int`, read as an unsigned number (what `>>>` shifts). */
  function Unsigned(v: Int32): (u: nat)
    ensures u < TwoTo32
    ensures v >= 0 ==> u == v
    ensures v < 0 ==> u >= 0x8000_0000
  {
    if v < 0 then v + TwoTo32 else v
  }

  /** The Java `int` whose 32 bits are `u`. */
  function Signed(u: nat): (v: Int32)
    requires u < TwoTo32
    ensures Unsigned(v) == u
  {
    if u >= 0x8000_0000 then u - TwoTo32 else u
  }

  /** The bytes `writeVarInt` emits for the unsigned value `u`, low group first. */
  function Groups(u: nat): (bs: seq<Byte>)
    ensures |bs| >= 1
  {
    if u < 128 then [u] else [u % 128 + 128] + Groups(u / 128)
  }

  /** Every byte but the last has the continuation bit 0x80 set; the last has it clear. */
  lemma {:induction false} GroupsShape(u: nat)
    ensures Groups(u)[|Groups(u)| - 1] < 128
    ensures forall i :: 0 <= i < |Groups(u)| - 1 ==> Groups(u)[i] >= 128
  {
    if u >= 128 {
      GroupsShape(u / 128);
      var rest := Groups(u / 128);
      assert Groups(u) == [u % 128 + 128] + rest;
      forall i | 0 <= i < |Groups(u)| - 1 ensures Groups(u)[i] >= 128 {
        if i > 0 {
          assert Groups(u)[i] == rest[i - 1];
        }
      }
    }
  }

  /** The bytes `writeVarInt(out, v)` writes. */
  function Encode(v: Int32): seq<Byte>
  {
    Groups(Unsigned(v))
  }

  /** `writeVarInt`, with the bytes it writes to the stream as its result. */
  method WriteVarInt(value: Int32) returns (out: seq<Byte>)
    ensures out == Encode(value)
  {
    var u := Unsigned(value);
    out := [];
    while u >= 128
      invariant out + Groups(u) == Encode(value)
    {
      assert Groups(u) == [u % 128 + 128] + Groups(u / 128);
      out := out + [u % 128 + 128];
      u := u / 128;
    }
    out := out + [u];
  }

  /** `k` groups of 7 bits hold every value below 2^(7k); a value of 2^(7(k-1)) or more needs `k`. */
  lemma {:induction false} GroupsLength(u: nat, k: nat)
    requires k >= 1
    ensures u < Pow2(7 * k) ==> |Groups(u)| <= k
    ensures u >= Pow2(7 * (k - 1)) ==> |Groups(u)| >= k
  {
    Pow2Add(7, 7 * (k - 1));
    Pow2Seven();
    if u >= 128 {
      if k > 1 {
        GroupsLength(u / 128, k - 1);
        Pow2Add(7, 7 * (k - 2));
      } else {
        Pow2Monotone(0, 7 * (k - 1));
      }
    } else if k > 1 {
      Pow2Monotone(7, 7 * (k - 1));
    }
  }

  /** One to five bytes; exactly five for a negative value, one below 128. */
  lemma EncodeLength(v: Int32)
    ensures 1 <= |Encode(v)| <= 5
    ensures v < 0 ==> |Encode(v)| == 5
    ensures 0 <= v < 128 ==> Encode(v) == [v]
  {
    Pow2TwentyEightAndThirtyFive();
    GroupsLength(Unsigned(v), 5);
  }

  /** An input stream: the bytes the peer sent, and the fault reading past them raises. */
  datatype Incoming = Incoming(bytes: seq<Byte>, end: Fault)

  /** A value read from a stream together with the position after it, or the fault raised. */
  datatype Read<T> = Got(value: T, next: nat) | Threw(fault: Fault)

  /** `new IOException("VarInt too big")` */
  const TooBig := Fault(Other("IOException"), Some("VarInt too big"))

  /**
   * `value |= (b & 0x7F) << position` on the 32 bits of `value`: the group is
   * added, because its bits are clear in `value`, and the sum is truncated to
   * 32 bits as the `int` shift truncates it.
   */
  function AddGroup(value: nat, b: Byte, position: nat): (r: nat)
    ensures r < TwoTo32
  {
    (value + ShiftLeft(b % 128, position)) % TwoTo32
  }

  /** `x << n` on unbounded integers: `n` doublings. */
  function ShiftLeft(x: nat, n: nat): nat
  {
    if n == 0 then x else 2 * ShiftLeft(x, n - 1)
  }

  lemma {:induction false} ShiftLeftIsProduct(x: nat, n: nat)
    ensures ShiftLeft(x, n) == x * Pow2(n)
  {
    if n > 0 {
      ShiftLeftIsProduct(x, n - 1);
    }
  }

  /**
   * `readVarInt`'s loop from the byte at `pos`, with the shift `position`
   * and the bits `value` accumulated so far.
   */
  function DecodeFrom(input: Incoming, pos: nat, position: nat, value: nat): Read<Int32>
    requires position < 32 && value < TwoTo32
    decreases 32 - position
  {
    if pos >= |input.bytes| then Threw(input.end)
    else
      var b := input.bytes[pos];
      var value' := AddGroup(value, b, position);
      if b < 128 then Got(Signed(value'), pos + 1)
      else if position + 7 >= 32 then Threw(TooBig)
      else DecodeFrom(input, pos + 1, position + 7, value')
  }

  /** What `readVarInt` returns or throws when the stream is at `pos`. */
  function Decode(input: Incoming, pos: nat): Read<Int32>
  {
    DecodeFrom(input, pos, 0, 0)
  }

  /** `readVarInt`, reading from `input` at `pos`. */
  method ReadVarInt(input: Incoming, pos: nat) returns (r: Read<Int32>)
    ensures r == Decode(input, pos)
  {
    var value: nat := 0;
    var position: nat := 0;
    var at: nat := pos;
    while true
      invariant position < 32 && value < TwoTo32
      invariant DecodeFrom(input, at, position, value) == Decode(input, pos)
      decreases 32 - position
    {
      if at >= |input.bytes| {
        return Threw(input.end);
      }
      var currentByte := input.bytes[at];
      at := at + 1;
      value := AddGroup(value, currentByte, position);
      if currentByte < 128 {
        return Got(Signed(value), at);
      }
      position := position + 7;
      if position >= 32 {
        return Threw(TooBig);
      }
    }
  }

  lemma ModSmall(x: nat, m: nat)
    requires x < m
    ensures x % m == x
  {
  }

  lemma SliceTail(bytes: seq<Byte>, pos: nat, b: Byte, rest: seq<Byte>)
    requires pos + 1 + |rest| <= |bytes| && bytes[pos..pos + 1 + |rest|] == [b] + rest
    ensures bytes[pos + 1..pos + 1 + |rest|] == rest
  {
    assert bytes[pos + 1..pos + 1 + |rest|] == bytes[pos..pos + 1 + |rest|][1..];
  }

  /** Bits below `p` plus a multiple of `p` below `p * q` stay below `p * q`. */
  lemma SumBelow(value: nat, u: nat, p: nat, q: nat)
    requires value < p && u < q
    ensures value + u * p < p * q
  {
    assert (u + 1) * p <= q * p by {
      assert u + 1 <= q;
    }
  }

  /** Splitting `u` into its low group and the rest. */
  lemma SplitGroup(value: nat, u: nat, p: nat)
    requires value < p
    ensures value + (u % 128) * p < p * 128
    ensures value + (u % 128) * p + (u / 128) * (p * 128) == value + u * p
  {
    SumBelow(value, u % 128, p, 128);
    calc {
      value + (u % 128) * p + (u / 128) * (p * 128);
      value + ((u % 128) + 128 * (u / 128)) * p;
      { assert (u % 128) + 128 * (u / 128) == u; }
      value + u * p;
    }
  }

  /** Adding a group below the bits already read is exact: nothing is truncated. */
  lemma AddGroupExact(value: nat, b: Byte, position: nat, u: nat)
    requires position + 7 <= 32 && value < Pow2(position) && b % 128 == u % 128
    ensures AddGroup(value, b, position) == value + (u % 128) * Pow2(position)
    ensures AddGroup(value, b, position) < Pow2(position + 7)
  {
    var p := Pow2(position);
    var x := value + (u % 128) * p;
    assert x < Pow2(position + 7) by {
      SumBelow(value, u % 128, p, 128);
      Pow2Add(position, 7);
      Pow2Seven();
    }
    assert x < TwoTo32 by {
      Pow2Monotone(position + 7, 32);
      Pow2ThirtyTwo();
    }
    ModSmall(x, TwoTo32);
    ShiftLeftIsProduct(b % 128, position);
  }

  /** Arithmetic of one continuation group: where the shift goes and what the rest must add. */
  lemma GroupArith(value: nat, u: nat, position: nat)
    requires position < 32 && value < Pow2(position) && 128 <= u < Pow2(32 - position)
    ensures position + 7 < 32
    ensures value + (u % 128) * Pow2(position) < Pow2(position + 7)
    ensures u / 128 < Pow2(32 - (position + 7))
    ensures value + (u % 128) * Pow2(position) + (u / 128) * Pow2(position + 7) == value + u * Pow2(position)
  {
    Pow2Seven();
    if 32 - position <= 7 {
      Pow2Monotone(32 - position, 7);
    }
    Pow2Add(position, 7);
    SplitGroup(value, u, Pow2(position));
    Pow2Add(7, 32 - (position + 7));
  }

  /** `value + u * 2^position` fits in 32 bits. */
  lemma TotalBelow(value: nat, u: nat, position: nat)
    requires position < 32 && value < Pow2(position) && u < Pow2(32 - position)
    ensures value + u * Pow2(position) < TwoTo32
  {
    Pow2ThirtyTwo();
    Pow2Add(position, 32 - position);
    SumBelow(value, u, Pow2(position), Pow2(32 - position));
  }

  /** A byte with bit 0x80 set, read before the fifth: `readVarInt` goes on with the next shift. */
  lemma DecodeStep(input: Incoming, pos: nat, position: nat, value: nat)
    requires position + 7 < 32 && value < TwoTo32
    requires pos < |input.bytes| && input.bytes[pos] >= 128
    ensures DecodeFrom(input, pos, position, value)
         == DecodeFrom(input, pos + 1, position + 7, AddGroup(value, input.bytes[pos], position))
  {
  }

  /** A byte with bit 0x80 clear ends `readVarInt`. */
  lemma DecodeLast(input: Incoming, pos: nat, position: nat, value: nat)
    requires position < 32 && value < TwoTo32
    requires pos < |input.bytes| && input.bytes[pos] < 128
    ensures DecodeFrom(input, pos, position, value)
         == Got(Signed(AddGroup(value, input.bytes[pos], position)), pos + 1)
  {
  }

  /** Decoding the groups of `u` from shift `position` on adds `u`'s bits to `value` and consumes exactly them. */
  lemma {:induction false} GroupsDecode(input: Incoming, pos: nat, position: nat, value: nat, u: nat)
    requires position < 32 && value < Pow2(position) && u < Pow2(32 - position)
    requires pos + |Groups(u)| <= |input.bytes| && input.bytes[pos..pos + |Groups(u)|] == Groups(u)
    ensures value + u * Pow2(position) < TwoTo32
    ensures DecodeFrom(input, pos, position, value)
         == Got(Signed(value + u * Pow2(position)), pos + |Groups(u)|)
    decreases u
  {
    TotalBelow(value, u, position);
    if u < 128 {
      assert input.bytes[pos] == Groups(u)[0];
      GroupsDecodeLast(input, pos, position, value, u);
    } else {
      var value' := AddGroup(value, input.bytes[pos], position);
      GroupsDecodeStep(input, pos, position, value, u);
      DecodeStep(input, pos, position, value);
      GroupsDecode(input, pos + 1, position + 7, value', u / 128);
    }
  }

  /** What one continuation group leaves for the rest of the groups to decode. */
  lemma GroupsDecodeStep(input: Incoming, pos: nat, position: nat, value: nat, u: nat)
    requires position < 32 && value < Pow2(position) && 128 <= u < Pow2(32 - position)
    requires pos + |Groups(u)| <= |input.bytes| && input.bytes[pos..pos + |Groups(u)|] == Groups(u)
    ensures pos < |input.bytes| && input.bytes[pos] >= 128
    ensures |Groups(u)| == 1 + |Groups(u / 128)|
    ensures var rest := Groups(u / 128);
            pos + 1 + |rest| <= |input.bytes| && input.bytes[pos + 1..pos + 1 + |rest|] == rest
    ensures var value' := AddGroup(value, input.bytes[pos], position);
            position + 7 < 32 && value' < Pow2(position + 7) && u / 128 < Pow2(32 - (position + 7))
            && value' + (u / 128) * Pow2(position + 7) == value + u * Pow2(position)
  {
    var b := input.bytes[pos];
    var rest := Groups(u / 128);
    assert Groups(u) == [b] + rest && b % 128 == u % 128 by {
      assert Groups(u) == [u % 128 + 128] + rest;
      assert b == u % 128 + 128;
    }
    assert input.bytes[pos + 1..pos + 1 + |rest|] == rest by {
      SliceTail(input.bytes, pos, b, rest);
    }
    var value' := AddGroup(value, b, position);
    assert position + 7 < 32 && value' < Pow2(position + 7) && u / 128 < Pow2(32 - (position + 7))
        && value' + (u / 128) * Pow2(position + 7) == value + u * Pow2(position) by {
      GroupArith(value, u, position);
      AddGroupExact(value, b, position, u);
    }
  }

  /** The last group: one byte below 128 completes the value. */
  lemma GroupsDecodeLast(input: Incoming, pos: nat, position: nat, value: nat, u: nat)
    requires position < 32 && u < 128 && value + u * Pow2(position) < TwoTo32
    requires pos < |input.bytes| && input.bytes[pos] == u
    ensures DecodeFrom(input, pos, position, value) == Got(Signed(value + u * Pow2(position)), pos + 1)
  {
    DecodeLast(input, pos, position, value);
    ShiftLeftIsProduct(u, position);
    ModSmall(value + u * Pow2(position), TwoTo32);
  }

  /** Reading back what `writeVarInt(v)` wrote gives `v` and consumes exactly those bytes. */
  lemma RoundTrip(v: Int32, input: Incoming, pos: nat)
    requires pos + |Encode(v)| <= |input.bytes| && input.bytes[pos..pos + |Encode(v)|] == Encode(v)
    ensures Decode(input, pos) == Got(v, pos + |Encode(v)|)
  {
    var u := Unsigned(v);
    assert 0 < Pow2(0) && u < Pow2(32 - 0) by {
      Pow2ThirtyTwo();
    }
    GroupsDecode(input, pos, 0, 0, u);
    assert 0 + u * Pow2(0) == u;
    assert Signed(u) == v;
  }

  /** The bytes in `from..to` all have the continuation bit set. */
  predicate Continued(bytes: seq<Byte>, from: nat, to: nat)
  {
    to <= |bytes| && forall i :: from <= i < to ==> bytes[i] >= 128
  }

  /**
   * The shape of what `readVarInt` did from `pos` with room for `room` more
   * bytes: a value ends at the first byte with bit 0x80 clear, within the
   * room; the end of the stream is hit only after continuation bytes; and
   * "VarInt too big" comes only after the room is filled with them.
   */
  predicate ReadShape(input: Incoming, pos: nat, room: nat, r: Read<Int32>)
  {
    match r
    case Got(_, next) =>
      pos < next <= pos + room && next <= |input.bytes|
      && Continued(input.bytes, pos, next - 1) && input.bytes[next - 1] < 128
    case Threw(fault) =>
      (fault == input.end && Continued(input.bytes, pos, |input.bytes|) && |input.bytes| < pos + room)
      || (fault == TooBig && Continued(input.bytes, pos, pos + room))
  }

  /** A continuation byte in front of a read of the right shape gives a read of the right shape. */
  lemma ReadShapeCons(input: Incoming, pos: nat, room: nat, r: Read<Int32>)
    requires pos < |input.bytes| && input.bytes[pos] >= 128 && room >= 1
    requires ReadShape(input, pos + 1, room - 1, r)
    ensures ReadShape(input, pos, room, r)
  {
    match r
    case Got(_, next) =>
      ContinuedCons(input.bytes, pos, next - 1);
    case Threw(fault) =>
      if fault == input.end && Continued(input.bytes, pos + 1, |input.bytes|) {
        ContinuedCons(input.bytes, pos, |input.bytes|);
      } else {
        ContinuedCons(input.bytes, pos, pos + room);
      }
  }

  lemma ContinuedCons(bytes: seq<Byte>, from: nat, to: nat)
    requires from < |bytes| && bytes[from] >= 128 && Continued(bytes, from + 1, to)
    ensures Continued(bytes, from, to)
  {
  }

  /** After `k` groups, `readVarInt` reads in the shape above with room for `5 - k` bytes. */
  lemma {:induction false} DecodeFromShape(input: Incoming, pos: nat, k: nat, value: nat)
    requires k < 5 && value < TwoTo32
    ensures ReadShape(input, pos, 5 - k, DecodeFrom(input, pos, 7 * k, value))
    decreases 5 - k
  {
    if pos >= |input.bytes| || input.bytes[pos] < 128 || k == 4 {
      DecodeFromShapeStop(input, pos, k, value);
    } else {
      var value' := AddGroup(value, input.bytes[pos], 7 * k);
      DecodeStep(input, pos, 7 * k, value);
      DecodeFromShape(input, pos + 1, k + 1, value');
      ReadShapeCons(input, pos, 5 - k, DecodeFrom(input, pos + 1, 7 * (k + 1), value'));
    }
  }

  /** The three ways `readVarInt` stops at the byte at `pos`. */
  lemma DecodeFromShapeStop(input: Incoming, pos: nat, k: nat, value: nat)
    requires k < 5 && value < TwoTo32
    requires pos >= |input.bytes| || input.bytes[pos] < 128 || k == 4
    ensures ReadShape(input, pos, 5 - k, DecodeFrom(input, pos, 7 * k, value))
  {
    if pos >= |input.bytes| {
      assert DecodeFrom(input, pos, 7 * k, value) == Threw(input.end);
    } else if input.bytes[pos] < 128 {
      DecodeLast(input, pos, 7 * k, value);
    } else {
      assert DecodeFrom(input, pos, 28, value) == Threw(TooBig);
    }
  }

  /**
   * `readVarInt` consumes one to five bytes: all but the last with bit 0x80
   * set. Five bytes in a row with the bit set raise "VarInt too big", so a
   * sixth byte is never read.
   */
  lemma DecodeShape(input: Incoming, pos: nat)
    ensures Decode(input, pos).Got? ==>
              var next := Decode(input, pos).next;
              pos < next <= pos + 5 && Continued(input.bytes, pos, next - 1) && input.bytes[next - 1] < 128
    ensures Continued(input.bytes, pos, pos + 5) ==> Decode(input, pos) == Threw(TooBig)
    ensures Decode(input, pos).Threw? ==> Decode(input, pos).fault in {input.end, TooBig}
  {
    DecodeFromShape(input, pos, 0, 0);
    assert Decode(input, pos) == DecodeFrom(input, pos, 7 * 0, 0);
  }

  /**
   * Decoding is not injective, so encoding a decoded value need not give the
   * bytes back: a zero padded with a continuation byte reads as 0, which is
   * written as a single byte.
   */
  lemma PaddedZero(end: Fault)
    ensures Decode(Incoming([0x80, 0x00], end), 0) == Got(0, 2)
    ensures Encode(0) == [0x00]
  {
  }
}
