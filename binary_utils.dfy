/** The primitive byte codec: little-endian 16/32/64-bit integers, a bool
    byte and NUL-terminated byte strings, read from a cursor over a byte
    buffer and appended to a growing output buffer. */
module BinaryUtils {
  import opened Wrappers

  type byte = b: int | 0 <= b < 0x100
  type u16 = n: int | 0 <= n < 0x1_0000
  type u32 = n: int | 0 <= n < 0x1_0000_0000
  type u64 = n: int | 0 <= n < 0x1_0000_0000_0000_0000
  type i16 = n: int | -0x8000 <= n < 0x8000
  type i32 = n: int | -0x8000_0000 <= n < 0x8000_0000
  type i64 = n: int | -0x8000_0000_0000_0000 <= n < 0x8000_0000_0000_0000

  function Pow256(n: nat): (r: nat)
    ensures r >= 1
  {
    if n == 0 then 1 else 256 * Pow256(n - 1)
  }

  lemma Pow256Widths()
    ensures Pow256(1) == 0x100 && Pow256(2) == 0x1_0000
    ensures Pow256(4) == 0x1_0000_0000
    ensures Pow256(8) == 0x1_0000_0000_0000_0000
  {
  }

  // ---------------------------------------------------------------------
  // Little-endian words

  /** The n low bytes of v, least significant first; higher bits are dropped,
      as the truncating casts of the writers drop them. */
  function ToLittleEndian(v: nat, n: nat): (r: seq<byte>)
    ensures |r| == n
  {
    if n == 0 then [] else [v % 256] + ToLittleEndian(v / 256, n - 1)
  }

  /** The value of a little-endian byte string: byte i has weight 256^i. */
  function FromLittleEndian(s: seq<byte>): (r: nat)
    ensures r < Pow256(|s|)
  {
    if s == [] then 0 else s[0] + 256 * FromLittleEndian(s[1..])
  }

  lemma {:induction false} LittleEndianRoundTrip(v: nat, n: nat)
    requires v < Pow256(n)
    ensures FromLittleEndian(ToLittleEndian(v, n)) == v
  {
    if n > 0 {
      var s := ToLittleEndian(v, n);
      assert s[1..] == ToLittleEndian(v / 256, n - 1);
      LittleEndianRoundTrip(v / 256, n - 1);
    }
  }

  lemma {:induction false} LittleEndianInverse(s: seq<byte>)
    ensures ToLittleEndian(FromLittleEndian(s), |s|) == s
  {
    if s != [] {
      var v := FromLittleEndian(s);
      assert v % 256 == s[0] && v / 256 == FromLittleEndian(s[1..]);
      LittleEndianInverse(s[1..]);
    }
  }

  lemma DivDiv256(v: nat, p: nat)
    requires p > 0
    ensures v / 256 / p == v / (256 * p)
  {
    var q, r := v / 256, v % 256;
    var q2, r2 := q / p, q % p;
    assert v == 256 * q + r;
    assert q == p * q2 + r2;
    assert v == (256 * p) * q2 + (256 * r2 + r);
    assert 256 * r2 <= 256 * (p - 1);
    DivUnique(v, 256 * p, q2, 256 * r2 + r);
  }

  lemma DivUnique(a: int, d: int, q: int, r: int)
    requires d > 0 && 0 <= r < d && a == d * q + r
    ensures a / d == q
  {
    var q', r' := a / d, a % d;
    assert d * (q' - q) == r - r';
    MulBound(d, q' - q);
  }

  lemma MulBound(d: int, k: int)
    requires d > 0
    ensures k >= 1 ==> d * k >= d
    ensures k <= -1 ==> d * k <= -d
  {
  }

  /** Byte i of the encoding is (v >> 8i) & 0xFF, the byte each writer
      emits at position i. */
  lemma {:induction false} LittleEndianByteAt(v: nat, n: nat, i: nat)
    requires i < n
    ensures ToLittleEndian(v, n)[i] == (v / Pow256(i)) % 256
  {
    if i > 0 {
      LittleEndianByteAt(v / 256, n - 1, i - 1);
      DivDiv256(v, Pow256(i - 1));
    }
  }

  /** FromLittleEndian read one byte further: the new byte has weight 256^|s|. */
  lemma {:induction false} FromLittleEndianSnoc(s: seq<byte>, b: byte)
    ensures FromLittleEndian(s + [b]) == FromLittleEndian(s) + b * Pow256(|s|)
  {
    if s != [] {
      var t := s[1..];
      assert (s + [b])[0] == s[0] && (s + [b])[1..] == t + [b];
      FromLittleEndianSnoc(t, b);
      ShiftByte(FromLittleEndian(t), b, Pow256(|t|));
    }
  }

  lemma ShiftByte(x: int, b: int, p: int)
    ensures 256 * (x + b * p) == 256 * x + b * (256 * p)
  {
  }

  // ---------------------------------------------------------------------
  // Two's complement reinterpretation (the signed wrappers' casts)

  function UShortOfShort(v: i16): u16 { if v >= 0 then v else v + 0x1_0000 }
  function ShortOfUShort(u: u16): i16 { if u < 0x8000 then u else u - 0x1_0000 }
  function UIntOfInt(v: i32): u32 { if v >= 0 then v else v + 0x1_0000_0000 }
  function IntOfUInt(u: u32): i32 { if u < 0x8000_0000 then u else u - 0x1_0000_0000 }
  function ULongOfLong(v: i64): u64 { if v >= 0 then v else v + 0x1_0000_0000_0000_0000 }
  function LongOfULong(u: u64): i64 {
    if u < 0x8000_0000_0000_0000 then u else u - 0x1_0000_0000_0000_0000
  }

  // ---------------------------------------------------------------------
  // What the writers emit

  function EncodeBool(b: bool): seq<byte> { [if b then 1 else 0] }
  function EncodeUShort(v: u16): seq<byte> { ToLittleEndian(v, 2) }
  function EncodeShort(v: i16): seq<byte> { EncodeUShort(UShortOfShort(v)) }
  function EncodeUInt(v: u32): seq<byte> { ToLittleEndian(v, 4) }
  function EncodeInt(v: i32): seq<byte> { EncodeUInt(UIntOfInt(v)) }
  function EncodeULong(v: u64): seq<byte> { ToLittleEndian(v, 8) }
  function EncodeLong(v: i64): seq<byte> { EncodeULong(ULongOfLong(v)) }

  /** A string is its content bytes followed by one 0 byte. */
  function EncodeString(s: seq<byte>): seq<byte> { s + [0] }

  // ---------------------------------------------------------------------
  // What the readers consume: each parser takes the buffer and a position
  // and yields the value read and the position after it.

  function ParseByte(data: seq<byte>, pos: nat): Result<(byte, nat)> {
    if pos < |data| then Ok((data[pos], pos + 1)) else Err(EndOfStream)
  }

  function ParseBool(data: seq<byte>, pos: nat): Result<(bool, nat)> {
    if pos < |data| then Ok((data[pos] != 0, pos + 1)) else Err(EndOfStream)
  }

  /** n bytes read as one little-endian unsigned word. */
  function ParseUnsigned(data: seq<byte>, pos: nat, n: nat): (r: Result<(nat, nat)>)
    ensures r.Ok? ==> r.value.0 < Pow256(n)
  {
    if pos + n <= |data| then Ok((FromLittleEndian(data[pos..pos + n]), pos + n))
    else Err(EndOfStream)
  }

  function ParseUShort(data: seq<byte>, pos: nat): Result<(u16, nat)> {
    Pow256Widths();
    match ParseUnsigned(data, pos, 2)
    case Ok((v, p)) => Ok((v, p))
    case Err(e) => Err(e)
  }

  function ParseShort(data: seq<byte>, pos: nat): Result<(i16, nat)> {
    match ParseUShort(data, pos)
    case Ok((v, p)) => Ok((ShortOfUShort(v), p))
    case Err(e) => Err(e)
  }

  function ParseUInt(data: seq<byte>, pos: nat): (r: Result<(u32, nat)>)
    ensures r.Ok? <==> pos + 4 <= |data|
    ensures r.Ok? ==> r.value.1 == pos + 4
    ensures r.Err? ==> r.error == EndOfStream
  {
    Pow256Widths();
    match ParseUnsigned(data, pos, 4)
    case Ok((v, p)) => Ok((v, p))
    case Err(e) => Err(e)
  }

  function ParseInt(data: seq<byte>, pos: nat): (r: Result<(i32, nat)>)
    ensures r.Ok? <==> pos + 4 <= |data|
    ensures r.Ok? ==> r.value.1 == pos + 4
  {
    match ParseUInt(data, pos)
    case Ok((v, p)) => Ok((IntOfUInt(v), p))
    case Err(e) => Err(e)
  }

  function ParseULong(data: seq<byte>, pos: nat): (r: Result<(u64, nat)>)
    ensures r.Ok? <==> pos + 8 <= |data|
    ensures r.Ok? ==> r.value.1 == pos + 8
  {
    Pow256Widths();
    match ParseUnsigned(data, pos, 8)
    case Ok((v, p)) => Ok((v, p))
    case Err(e) => Err(e)
  }

  function ParseLong(data: seq<byte>, pos: nat): Result<(i64, nat)> {
    match ParseULong(data, pos)
    case Ok((v, p)) => Ok((LongOfULong(v), p))
    case Err(e) => Err(e)
  }

  /** Reads up to and including the first 0 byte at or after pos and
      returns the bytes before it; fails when no 0 byte is left. */
  function ParseString(data: seq<byte>, pos: nat): (r: Result<(seq<byte>, nat)>)
    ensures r.Err? ==> r.error == EndOfStream
    ensures r.Ok? ==> r.value.1 == pos + |r.value.0| + 1 <= |data| && 0 !in r.value.0
    decreases |data| - pos
  {
    if pos >= |data| then Err(EndOfStream)
    else if data[pos] == 0 then Ok(([], pos + 1))
    else match ParseString(data, pos + 1)
      case Ok((s, p)) => Ok(([data[pos]] + s, p))
      case Err(e) => Err(e)
  }

  /** A string is read exactly when a 0 byte is left at or after pos; what
      comes back is the bytes from pos up to that 0. */
  lemma {:induction false} ParseStringSpec(data: seq<byte>, pos: nat)
    ensures ParseString(data, pos).Ok? <==> exists k :: pos <= k < |data| && data[k] == 0
    ensures ParseString(data, pos).Ok? ==> var (s, p) := ParseString(data, pos).value;
      && data[pos..pos + |s|] == s
      && data[pos + |s|] == 0
    decreases |data| - pos
  {
    if pos < |data| && data[pos] != 0 {
      ParseStringSpec(data, pos + 1);
      if ParseString(data, pos + 1).Ok? {
        var s := ParseString(data, pos + 1).value.0;
        assert data[pos..pos + 1 + |s|] == [data[pos]] + data[pos + 1..pos + 1 + |s|];
      } else {
        forall k | pos <= k < |data| ensures data[k] != 0 {
          if k > pos {
            assert !(pos + 1 <= k < |data| && data[k] == 0);
          }
        }
      }
    }
  }

  // ---------------------------------------------------------------------
  // Round trips

  lemma UnsignedAt(data: seq<byte>, pos: nat, n: nat, v: nat)
    requires v < Pow256(n) && pos + n <= |data|
    requires data[pos..pos + n] == ToLittleEndian(v, n)
    ensures ParseUnsigned(data, pos, n) == Ok((v, pos + n))
  {
    LittleEndianRoundTrip(v, n);
  }

  lemma ShortRoundTrip(v: i16, prefix: seq<byte>, rest: seq<byte>)
    ensures |EncodeShort(v)| == 2
    ensures ParseShort(prefix + EncodeShort(v) + rest, |prefix|) == Ok((v, |prefix| + 2))
  {
    var data := prefix + EncodeShort(v) + rest;
    assert data[|prefix|..|prefix| + 2] == EncodeShort(v);
    Pow256Widths();
    UnsignedAt(data, |prefix|, 2, UShortOfShort(v));
  }

  lemma IntRoundTrip(v: i32, prefix: seq<byte>, rest: seq<byte>)
    ensures |EncodeInt(v)| == 4
    ensures ParseInt(prefix + EncodeInt(v) + rest, |prefix|) == Ok((v, |prefix| + 4))
  {
    var data := prefix + EncodeInt(v) + rest;
    assert data[|prefix|..|prefix| + 4] == EncodeInt(v);
    Pow256Widths();
    UnsignedAt(data, |prefix|, 4, UIntOfInt(v));
  }

  lemma LongRoundTrip(v: i64, prefix: seq<byte>, rest: seq<byte>)
    ensures |EncodeLong(v)| == 8
    ensures ParseLong(prefix + EncodeLong(v) + rest, |prefix|) == Ok((v, |prefix| + 8))
  {
    var data := prefix + EncodeLong(v) + rest;
    assert data[|prefix|..|prefix| + 8] == EncodeLong(v);
    Pow256Widths();
    UnsignedAt(data, |prefix|, 8, ULongOfLong(v));
  }

  lemma UShortRoundTrip(v: u16, prefix: seq<byte>, rest: seq<byte>)
    ensures EncodeUShort(v) == [v % 0x100, v / 0x100]
    ensures ParseUShort(prefix + EncodeUShort(v) + rest, |prefix|) == Ok((v, |prefix| + 2))
  {
    var data := prefix + EncodeUShort(v) + rest;
    assert data[|prefix|..|prefix| + 2] == EncodeUShort(v);
    Pow256Widths();
    UnsignedAt(data, |prefix|, 2, v);
  }

  lemma UIntRoundTrip(v: u32, prefix: seq<byte>, rest: seq<byte>)
    ensures |EncodeUInt(v)| == 4
    ensures forall i :: 0 <= i < 4 ==> EncodeUInt(v)[i] == (v / Pow256(i)) % 0x100
    ensures ParseUInt(prefix + EncodeUInt(v) + rest, |prefix|) == Ok((v, |prefix| + 4))
  {
    forall i | 0 <= i < 4 ensures EncodeUInt(v)[i] == (v / Pow256(i)) % 0x100 {
      LittleEndianByteAt(v, 4, i);
    }
    var data := prefix + EncodeUInt(v) + rest;
    assert data[|prefix|..|prefix| + 4] == EncodeUInt(v);
    Pow256Widths();
    UnsignedAt(data, |prefix|, 4, v);
  }

  lemma ULongRoundTrip(v: u64, prefix: seq<byte>, rest: seq<byte>)
    ensures |EncodeULong(v)| == 8
    ensures forall i :: 0 <= i < 8 ==> EncodeULong(v)[i] == (v / Pow256(i)) % 0x100
    ensures ParseULong(prefix + EncodeULong(v) + rest, |prefix|) == Ok((v, |prefix| + 8))
  {
    forall i | 0 <= i < 8 ensures EncodeULong(v)[i] == (v / Pow256(i)) % 0x100 {
      LittleEndianByteAt(v, 8, i);
    }
    var data := prefix + EncodeULong(v) + rest;
    assert data[|prefix|..|prefix| + 8] == EncodeULong(v);
    Pow256Widths();
    UnsignedAt(data, |prefix|, 8, v);
  }

  /** The unsigned reader recovers every byte string it is given: reading n
      bytes and writing the word back yields the same n bytes. */
  lemma UnsignedBytesRoundTrip(data: seq<byte>, pos: nat, n: nat)
    requires pos + n <= |data|
    ensures ParseUnsigned(data, pos, n).Ok?
    ensures ToLittleEndian(ParseUnsigned(data, pos, n).value.0, n) == data[pos..pos + n]
  {
    LittleEndianInverse(data[pos..pos + n]);
  }

  lemma BoolRoundTrip(b: bool, prefix: seq<byte>, rest: seq<byte>)
    ensures ParseBool(prefix + EncodeBool(b) + rest, |prefix|) == Ok((b, |prefix| + 1))
  {
    assert (prefix + EncodeBool(b) + rest)[|prefix|] == if b then 1 else 0;
  }

  /** Reading a string stops at the first 0 byte: the bytes before it come
      back and the cursor lands just past it. */
  lemma {:induction false} StringUpToFirstZero(data: seq<byte>, pos: nat, k: nat)
    requires pos <= k < |data| && data[k] == 0
    requires forall j :: pos <= j < k ==> data[j] != 0
    ensures ParseString(data, pos) == Ok((data[pos..k], k + 1))
    decreases k - pos
  {
    if pos < k {
      StringUpToFirstZero(data, pos + 1, k);
      assert [data[pos]] + data[pos + 1..k] == data[pos..k];
    } else {
      assert data[pos..k] == [];
    }
  }

  /** The string round trip holds exactly when the content holds no 0 byte;
      otherwise the reader returns the content up to its first 0. */
  lemma StringRoundTrip(s: seq<byte>, prefix: seq<byte>, rest: seq<byte>)
    ensures ParseString(prefix + EncodeString(s) + rest, |prefix|).Ok?
    ensures (ParseString(prefix + EncodeString(s) + rest, |prefix|)
             == Ok((s, |prefix| + |s| + 1))) <==> 0 !in s
  {
    var data := prefix + EncodeString(s) + rest;
    assert data[|prefix| + |s|] == 0;
    ParseStringSpec(data, |prefix|);
    if 0 !in s {
      forall j | |prefix| <= j < |prefix| + |s| ensures data[j] != 0 {
        assert data[j] == s[j - |prefix|];
      }
      StringUpToFirstZero(data, |prefix|, |prefix| + |s|);
      assert data[|prefix|..|prefix| + |s|] == s;
    }
  }

  /** A buffer that begins with 0 reads as the empty string, consuming one byte. */
  lemma EmptyString(data: seq<byte>, pos: nat)
    requires pos < |data| && data[pos] == 0
    ensures ParseString(data, pos) == Ok(([], pos + 1))
  {
  }

  // ---------------------------------------------------------------------
  // The cursor over an input buffer and the growing output buffer

  /** A cursor operation agrees with its specification: on success it returns
      the specified value and leaves the cursor where the specification says,
      and it fails with the specified error otherwise. */
  predicate Follows<T(==)>(r: Result<T>, pos: nat, spec: Result<(T, nat)>) {
    match spec
    case Ok(vp) => r == Ok(vp.0) && pos == vp.1
    case Err(e) => r == Err(e)
  }

  /** A successful parse of a sequence with the given items put in front. */
  function PrependTo<T>(list: seq<T>, r: Result<(seq<T>, nat)>): Result<(seq<T>, nat)> {
    match r
    case Ok((s, p)) => Ok((list + s, p))
    case Err(e) => Err(e)
  }

  /** Concatenation regrouped, for proofs that would otherwise leave the
      solver to find the grouping in a large context. */
  lemma Regroup<T>(a: seq<T>, b: seq<T>, c: seq<T>)
    ensures (a + b) + c == a + (b + c)
  {
  }

  lemma PrependEmpty<T>(r: Result<(seq<T>, nat)>)
    ensures PrependTo([], r) == r
  {
    match r
    case Ok((s, q)) => assert [] + s == s;
    case Err(e) =>
  }

  lemma PrependTwice<T>(a: seq<T>, b: seq<T>, r: Result<(seq<T>, nat)>)
    ensures PrependTo(a, PrependTo(b, r)) == PrependTo(a + b, r)
  {
    match r
    case Ok((s, q)) => assert a + (b + s) == (a + b) + s;
    case Err(e) =>
  }

  lemma PrependStep(data: seq<byte>, p: nat, list: seq<byte>)
    requires p < |data| && data[p] != 0
    ensures PrependTo(list, ParseString(data, p))
         == PrependTo(list + [data[p]], ParseString(data, p + 1))
  {
    match ParseString(data, p + 1)
    case Ok((s, q)) =>
      assert list + ([data[p]] + s) == (list + [data[p]]) + s;
    case Err(e) =>
  }

  class Reader {
    const data: seq<byte>
    var pos: nat

    ghost predicate Valid()
      reads this
    {
      pos <= |data|
    }

    constructor (data: seq<byte>)
      ensures Valid() && this.data == data && pos == 0
    {
      this.data := data;
      pos := 0;
    }

    method ReadByte() returns (r: Result<byte>)
      requires Valid()
      modifies this
      ensures Valid() && Follows(r, pos, ParseByte(data, old(pos)))
    {
      if pos < |data| {
        r := Ok(data[pos]);
        pos := pos + 1;
      } else {
        r := Err(EndOfStream);
      }
    }

    method ReadBool() returns (r: Result<bool>)
      requires Valid()
      modifies this
      ensures Valid() && Follows(r, pos, ParseBool(data, old(pos)))
    {
      var b := ReadByte();
      if b.Err? {
        return Err(b.error);
      }
      r := Ok(b.value != 0);
    }

    /** n bytes, least significant first, accumulated one byte at a time. */
    method ReadUnsigned(n: nat) returns (r: Result<nat>)
      requires Valid()
      modifies this
      ensures Valid() && Follows(r, pos, ParseUnsigned(data, old(pos), n))
    {
      var acc := 0;
      var i := 0;
      while i < n
        invariant Valid() && 0 <= i <= n
        invariant pos == old(pos) + i
        invariant acc == FromLittleEndian(data[old(pos)..pos])
      {
        var b := ReadByte();
        if b.Err? {
          return Err(b.error);
        }
        FromLittleEndianSnoc(data[old(pos)..pos - 1], b.value);
        assert data[old(pos)..pos] == data[old(pos)..pos - 1] + [b.value];
        acc := acc + b.value * Pow256(i);
        i := i + 1;
      }
      r := Ok(acc);
    }

    method ReadUShort() returns (r: Result<u16>)
      requires Valid()
      modifies this
      ensures Valid() && Follows(r, pos, ParseUShort(data, old(pos)))
    {
      var w := ReadUnsigned(2);
      if w.Err? {
        return Err(w.error);
      }
      Pow256Widths();
      r := Ok(w.value);
    }

    method ReadShort() returns (r: Result<i16>)
      requires Valid()
      modifies this
      ensures Valid() && Follows(r, pos, ParseShort(data, old(pos)))
    {
      var w := ReadUShort();
      if w.Err? {
        return Err(w.error);
      }
      r := Ok(ShortOfUShort(w.value));
    }

    method ReadUInt() returns (r: Result<u32>)
      requires Valid()
      modifies this
      ensures Valid() && Follows(r, pos, ParseUInt(data, old(pos)))
    {
      var w := ReadUnsigned(4);
      if w.Err? {
        return Err(w.error);
      }
      Pow256Widths();
      r := Ok(w.value);
    }

    method ReadInt() returns (r: Result<i32>)
      requires Valid()
      modifies this
      ensures Valid() && Follows(r, pos, ParseInt(data, old(pos)))
    {
      var w := ReadUInt();
      if w.Err? {
        return Err(w.error);
      }
      r := Ok(IntOfUInt(w.value));
    }

    method ReadULong() returns (r: Result<u64>)
      requires Valid()
      modifies this
      ensures Valid() && Follows(r, pos, ParseULong(data, old(pos)))
    {
      var w := ReadUnsigned(8);
      if w.Err? {
        return Err(w.error);
      }
      Pow256Widths();
      r := Ok(w.value);
    }

    method ReadLong() returns (r: Result<i64>)
      requires Valid()
      modifies this
      ensures Valid() && Follows(r, pos, ParseLong(data, old(pos)))
    {
      var w := ReadULong();
      if w.Err? {
        return Err(w.error);
      }
      r := Ok(LongOfULong(w.value));
    }

    /** Collects bytes until a 0 byte, which is consumed and not kept. */
    method ReadString() returns (r: Result<seq<byte>>)
      requires Valid()
      modifies this
      ensures Valid() && Follows(r, pos, ParseString(data, old(pos)))
    {
      var list: seq<byte> := [];
      PrependEmpty(ParseString(data, pos));
      while true
        invariant Valid() && old(pos) <= pos
        invariant ParseString(data, old(pos)) == PrependTo(list, ParseString(data, pos))
        decreases |data| - pos
      {
        var c := ReadByte();
        if c.Err? {
          return Err(c.error);
        }
        if c.value == 0 {
          assert list + [] == list;
          return Ok(list);
        }
        PrependStep(data, pos - 1, list);
        list := list + [c.value];
      }
    }
  }

  class Writer {
    var bytes: seq<byte>

    constructor ()
      ensures bytes == []
    {
      bytes := [];
    }

    method WriteByte(b: byte)
      modifies this
      ensures bytes == old(bytes) + [b]
    {
      bytes := bytes + [b];
    }

    /** Appends a whole buffer as it is. */
    method WriteBytes(s: seq<byte>)
      modifies this
      ensures bytes == old(bytes) + s
    {
      bytes := bytes + s;
    }

    method WriteBool(v: bool)
      modifies this
      ensures bytes == old(bytes) + EncodeBool(v)
    {
      WriteByte(if v then 1 else 0);
    }

    /** n bytes of v, each one the low byte of what is left after the
        bytes already written have been shifted out. */
    method WriteUnsigned(v: nat, n: nat)
      modifies this
      ensures bytes == old(bytes) + ToLittleEndian(v, n)
    {
      var rest := v;
      var i := 0;
      while i < n
        invariant 0 <= i <= n
        invariant bytes + ToLittleEndian(rest, n - i) == old(bytes) + ToLittleEndian(v, n)
      {
        WriteByte(rest % 256);
        rest := rest / 256;
        i := i + 1;
      }
    }

    method WriteUShort(v: u16)
      modifies this
      ensures bytes == old(bytes) + EncodeUShort(v)
    {
      WriteUnsigned(v, 2);
    }

    method WriteShort(v: i16)
      modifies this
      ensures bytes == old(bytes) + EncodeShort(v)
    {
      WriteUShort(UShortOfShort(v));
    }

    method WriteUInt(v: u32)
      modifies this
      ensures bytes == old(bytes) + EncodeUInt(v)
    {
      WriteUnsigned(v, 4);
    }

    method WriteInt(v: i32)
      modifies this
      ensures bytes == old(bytes) + EncodeInt(v)
    {
      WriteUInt(UIntOfInt(v));
    }

    method WriteULong(v: u64)
      modifies this
      ensures bytes == old(bytes) + EncodeULong(v)
    {
      WriteUnsigned(v, 8);
    }

    method WriteLong(v: i64)
      modifies this
      ensures bytes == old(bytes) + EncodeLong(v)
    {
      WriteULong(ULongOfLong(v));
    }

    method WriteString(s: seq<byte>)
      modifies this
      ensures bytes == old(bytes) + EncodeString(s)
    {
      WriteBytes(s);
      WriteByte(0);
    }
  }
}
