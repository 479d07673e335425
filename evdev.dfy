/**
 * The Linux evdev `struct input_event` as it is laid out on a 64-bit target
 * (24 bytes, little-endian, no padding), and the decoder `read_input_event`
 * applies to one record of it.
 */
module Evdev {
  import opened Wrappers

  type byte = x: int | 0 <= x < 0x100
  type u8 = x: int | 0 <= x < 0x100
  type u16 = x: int | 0 <= x < 0x1_0000
  type i32 = x: int | -0x8000_0000 <= x < 0x8000_0000
  type i64 = x: int | -0x8000_0000_0000_0000 <= x < 0x8000_0000_0000_0000

  /** Size in bytes of one `input_event` record. */
  const RecordSize: nat := 24

  /** One decoded record: `tv_sec`, `tv_usec` (isize on a 64-bit target), `type_`, `code`, `value`. */
  datatype InputEvent = InputEvent(tvSec: i64, tvUsec: i64, kind: u16, code: u16, value: i32)

  /** The only way `read_input_event` fails: `read_exact` hits the end of the stream. */
  datatype DecodeError = UnexpectedEof

  function Pow256(n: nat): (p: nat)
    ensures p > 0
  {
    if n == 0 then 1 else 0x100 * Pow256(n - 1)
  }

  lemma Pow256Widths()
    ensures Pow256(2) == 0x1_0000
    ensures Pow256(4) == 0x1_0000_0000
    ensures Pow256(8) == 0x1_0000_0000_0000_0000
  {
  }

  /** The value of a little-endian unsigned integer (`uN::from_le_bytes`). */
  function LeUnsigned(bs: seq<byte>): (u: nat)
    ensures u < Pow256(|bs|)
  {
    if bs == [] then 0
    else
      var rest := LeUnsigned(bs[1..]);
      assert rest <= Pow256(|bs| - 1) - 1;
      bs[0] + 0x100 * rest
  }

  /** The `n` little-endian bytes of `u` (`uN::to_le_bytes`). */
  function LeBytes(u: nat, n: nat): (bs: seq<byte>)
    ensures |bs| == n
  {
    if n == 0 then [] else [u % 0x100] + LeBytes(u / 0x100, n - 1)
  }

  /** `u16::from_le_bytes` on the two bytes at `i`. */
  function U16At(bs: seq<byte>, i: nat): (u: nat)
    requires i + 2 <= |bs|
    ensures u < 0x1_0000
  {
    (bs[i] as int) + 0x100 * (bs[i + 1] as int)
  }

  /** `u32::from_le_bytes` on the four bytes at `i`. */
  function U32At(bs: seq<byte>, i: nat): (u: nat)
    requires i + 4 <= |bs|
    ensures u < 0x1_0000_0000
  {
    U16At(bs, i) + 0x1_0000 * U16At(bs, i + 2)
  }

  /** `u64::from_le_bytes` on the eight bytes at `i`. */
  function U64At(bs: seq<byte>, i: nat): (u: nat)
    requires i + 8 <= |bs|
    ensures u < 0x1_0000_0000_0000_0000
  {
    U32At(bs, i) + 0x1_0000_0000 * U32At(bs, i + 4)
  }

  /** Two's complement reading of a 32-bit pattern (`i32::from_le_bytes`). */
  function I32Of(u: nat): i32
    requires u < 0x1_0000_0000
  {
    if u >= 0x8000_0000 then u - 0x1_0000_0000 else u
  }

  /** Two's complement reading of a 64-bit pattern (`isize::from_le_bytes` on a 64-bit target). */
  function I64Of(u: nat): i64
    requires u < 0x1_0000_0000_0000_0000
  {
    if u >= 0x8000_0000_0000_0000 then u - 0x1_0000_0000_0000_0000 else u
  }

  /** The bit pattern of a 32-bit signed value. */
  function BitsOf32(v: i32): (u: nat)
    ensures u < 0x1_0000_0000 && I32Of(u) == v
  {
    if v < 0 then v + 0x1_0000_0000 else v
  }

  /** The bit pattern of a 64-bit signed value. */
  function BitsOf64(v: i64): (u: nat)
    ensures u < 0x1_0000_0000_0000_0000 && I64Of(u) == v
  {
    if v < 0 then v + 0x1_0000_0000_0000_0000 else v
  }

  /**
   * `read_input_event` on the bytes still available in the stream
   * (src/main.rs:39-54): `read_exact` fails unless a whole record is there;
   * the fields are read at their fixed offsets.
   */
  function Decode(bs: seq<byte>): (r: Result<InputEvent, DecodeError>)
    ensures r.Err? <==> |bs| < RecordSize
  {
    if |bs| < RecordSize then Err(UnexpectedEof)
    else Ok(InputEvent(I64Of(U64At(bs, 0)), I64Of(U64At(bs, 8)), U16At(bs, 16), U16At(bs, 18), I32Of(U32At(bs, 20))))
  }

  /** The 24 bytes the kernel writes for `e`: the inverse of `Decode`. */
  function Encode(e: InputEvent): (bs: seq<byte>)
    ensures |bs| == RecordSize
  {
    LeBytes(BitsOf64(e.tvSec), 8) + LeBytes(BitsOf64(e.tvUsec), 8)
      + LeBytes(e.kind, 2) + LeBytes(e.code, 2) + LeBytes(BitsOf32(e.value), 4)
  }

  lemma Distribute(x: int, p: int, y: int)
    ensures 0x100 * (x + p * y) == 0x100 * x + (0x100 * p) * y
  {
  }

  lemma {:induction false} LeUnsignedAppend(a: seq<byte>, b: seq<byte>)
    ensures LeUnsigned(a + b) == LeUnsigned(a) + Pow256(|a|) * LeUnsigned(b)
  {
    if a != [] {
      assert (a + b)[0] == a[0] && (a + b)[1..] == a[1..] + b;
      LeUnsignedAppend(a[1..], b);
      var x, y, p := LeUnsigned(a[1..]), LeUnsigned(b), Pow256(|a| - 1);
      calc {
        LeUnsigned(a + b);
        a[0] + 0x100 * LeUnsigned(a[1..] + b);
        a[0] + 0x100 * (x + p * y);
        { Distribute(x, p, y); }
        a[0] + 0x100 * x + (0x100 * p) * y;
        LeUnsigned(a) + Pow256(|a|) * y;
      }
    } else {
      assert a + b == b;
    }
  }

  lemma Le16(bs: seq<byte>, i: nat)
    requires i + 2 <= |bs|
    ensures U16At(bs, i) == LeUnsigned(bs[i..i + 2])
  {
    var a := bs[i..i + 2];
    assert a[1..][1..] == [];
  }

  /** The fixed-width readers are `LeUnsigned` on the slice they read. */
  lemma FixedWidth(bs: seq<byte>, i: nat)
    requires i + 2 <= |bs|
    ensures U16At(bs, i) == LeUnsigned(bs[i..i + 2])
    ensures i + 4 <= |bs| ==> U32At(bs, i) == LeUnsigned(bs[i..i + 4])
    ensures i + 8 <= |bs| ==> U64At(bs, i) == LeUnsigned(bs[i..i + 8])
  {
    Pow256Widths();
    Le16(bs, i);
    if i + 4 <= |bs| {
      Le16(bs, i + 2);
      assert bs[i..i + 4] == bs[i..i + 2] + bs[i + 2..i + 4];
      LeUnsignedAppend(bs[i..i + 2], bs[i + 2..i + 4]);
    }
    if i + 8 <= |bs| {
      Le16(bs, i + 4);
      Le16(bs, i + 6);
      assert bs[i + 4..i + 8] == bs[i + 4..i + 6] + bs[i + 6..i + 8];
      LeUnsignedAppend(bs[i + 4..i + 6], bs[i + 6..i + 8]);
      assert bs[i..i + 8] == bs[i..i + 4] + bs[i + 4..i + 8];
      LeUnsignedAppend(bs[i..i + 4], bs[i + 4..i + 8]);
    }
  }

  lemma {:induction false} LeUnsignedOfLeBytes(u: nat, n: nat)
    requires u < Pow256(n)
    ensures LeUnsigned(LeBytes(u, n)) == u
  {
    if n > 0 {
      LeUnsignedOfLeBytes(u / 0x100, n - 1);
      assert LeBytes(u, n)[1..] == LeBytes(u / 0x100, n - 1);
    }
  }

  lemma {:induction false} LeBytesOfLeUnsigned(bs: seq<byte>)
    ensures LeBytes(LeUnsigned(bs), |bs|) == bs
  {
    if bs != [] {
      LeBytesOfLeUnsigned(bs[1..]);
      var u := LeUnsigned(bs);
      assert u % 0x100 == bs[0] && u / 0x100 == LeUnsigned(bs[1..]);
    }
  }

  lemma FieldsOfConcat(a: seq<byte>, b: seq<byte>, c: seq<byte>, d: seq<byte>, e: seq<byte>)
    requires |a| == 8 && |b| == 8 && |c| == 2 && |d| == 2 && |e| == 4
    ensures var bs := a + b + c + d + e;
      bs[0..8] == a && bs[8..16] == b && bs[16..18] == c && bs[18..20] == d && bs[20..24] == e
  {
    var bs := a + b + c + d + e;
    assert bs[0..8] == a;
    assert bs[8..16] == b;
    assert bs[16..18] == c;
    assert bs[18..20] == d;
    assert bs[20..24] == e;
  }

  /** Decoding the encoding of any event gives the event back. */
  lemma DecodeEncode(e: InputEvent)
    ensures Decode(Encode(e)) == Ok(e)
  {
    Pow256Widths();
    var bs := Encode(e);
    var sec, usec, val := BitsOf64(e.tvSec), BitsOf64(e.tvUsec), BitsOf32(e.value);
    FieldsOfConcat(LeBytes(sec, 8), LeBytes(usec, 8), LeBytes(e.kind, 2), LeBytes(e.code, 2), LeBytes(val, 4));
    LeUnsignedOfLeBytes(sec, 8);
    LeUnsignedOfLeBytes(usec, 8);
    LeUnsignedOfLeBytes(e.kind, 2);
    LeUnsignedOfLeBytes(e.code, 2);
    LeUnsignedOfLeBytes(val, 4);
    FixedWidth(bs, 0);
    FixedWidth(bs, 8);
    FixedWidth(bs, 16);
    FixedWidth(bs, 18);
    FixedWidth(bs, 20);
  }

  /**
   * Any stream with a full record decodes, the decoder looks at exactly the
   * first 24 bytes, and re-encoding the event reproduces them.
   */
  lemma EncodeDecode(bs: seq<byte>)
    requires |bs| >= RecordSize
    ensures Decode(bs).Ok? && Encode(Decode(bs).value) == bs[..RecordSize]
  {
    var e := Decode(bs).value;
    var f0 := Field(bs, 0, 8);
    var f1 := Field(bs, 8, 8);
    var f2 := Field(bs, 16, 2);
    var f3 := Field(bs, 18, 2);
    var f4 := Field(bs, 20, 4);
    assert bs[..RecordSize] == f0 + f1 + f2 + f3 + f4;
  }

  /** The bytes at `i` are what `Encode` writes back for the field decoded there. */
  lemma Field(bs: seq<byte>, i: nat, n: nat) returns (f: seq<byte>)
    requires n == 2 || n == 4 || n == 8
    requires i + n <= |bs|
    ensures f == bs[i..i + n]
    ensures n == 2 ==> LeBytes(U16At(bs, i), 2) == f
    ensures n == 4 ==> LeBytes(BitsOf32(I32Of(U32At(bs, i))), 4) == f
    ensures n == 8 ==> LeBytes(BitsOf64(I64Of(U64At(bs, i))), 8) == f
  {
    f := bs[i..i + n];
    Pow256Widths();
    FixedWidth(bs, i);
    LeBytesOfLeUnsigned(f);
    if n == 4 {
      SignRoundTrip(0, LeUnsigned(f));
    } else if n == 8 {
      SignRoundTrip(LeUnsigned(f), 0);
    }
  }

  lemma SignRoundTrip(a: nat, c: nat)
    requires a < 0x1_0000_0000_0000_0000 && c < 0x1_0000_0000
    ensures BitsOf64(I64Of(a)) == a && BitsOf32(I32Of(c)) == c
  {
  }
}
