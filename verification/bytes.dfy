/** Byte-level vocabulary shared by the whole model: bytes, 32-bit unsigned
    words, the big-endian 32-bit wire encoding, an Option type, and the
    flattening of a sequence of byte buffers (Rust's `concat`). */
module Bytes {

  type byte = b: int | 0 <= b < 256

  const U32Modulus: nat := 0x1_0000_0000

  type u32 = v: int | 0 <= v < U32Modulus

  datatype Option<+T> = None | Some(value: T)

  /** `wrapping_add(1)` on a `u32`. */
  function WrappingInc(v: u32): (r: u32)
    ensures v < U32Modulus - 1 ==> r == v + 1
    ensures v == U32Modulus - 1 ==> r == 0
  {
    (v + 1) % U32Modulus
  }

  /** `n` successive `wrapping_add(1)`s. */
  function WrappingIncs(v: u32, n: nat): u32
    decreases n
  {
    if n == 0 then v else WrappingIncs(WrappingInc(v), n - 1)
  }

  /** `n` wrapping increments add `n` modulo 2^32. */
  lemma {:induction false} WrappingIncsIsMod(v: u32, n: nat)
    ensures WrappingIncs(v, n) == (v + n) % U32Modulus
    decreases n
  {
    if n > 0 {
      WrappingIncsIsMod(WrappingInc(v), n - 1);
      assert WrappingInc(v) + (n - 1) == v + n || WrappingInc(v) + (n - 1) == v + n - U32Modulus;
    }
  }

  /** Truncating cast `n as u32` of a non-negative machine integer. */
  function AsU32(n: nat): (r: u32)
    ensures n < U32Modulus ==> r == n
  {
    n % U32Modulus
  }

  /** `u32::to_be_bytes`: most significant byte first, each byte the
      quotient of what the more significant bytes leave over. */
  function BE32(v: u32): (r: seq<byte>)
    ensures |r| == 4
  {
    var r0 := v % 0x100_0000;
    var r1 := r0 % 0x1_0000;
    [v / 0x100_0000, r0 / 0x1_0000, r1 / 0x100, r1 % 0x100]
  }

  /** `u32::from_be_bytes` on the first four bytes of `b`. */
  function FromBE32(b: seq<byte>): (r: u32)
    requires |b| >= 4
  {
    (b[0] as int) * 0x100_0000 + (b[1] as int) * 0x1_0000 + (b[2] as int) * 0x100 + b[3]
  }

  /** Quotient and remainder by a byte-position weight are determined by the
      division identity. */
  lemma DivModUnique(x: int, d: int, q: int, r: int)
    requires d == 0x100 || d == 0x1_0000 || d == 0x100_0000
    requires x == q * d + r && 0 <= r < d
    ensures x / d == q && x % d == r
  {
    if d == 0x100 {
      assert x == q * 0x100 + r;
    } else if d == 0x1_0000 {
      assert x == q * 0x1_0000 + r;
    } else {
      assert x == q * 0x100_0000 + r;
    }
  }

  lemma DecodeEncodeBE32(v: u32)
    ensures FromBE32(BE32(v)) == v
  {
    var r0 := v % 0x100_0000;
    var r1 := r0 % 0x1_0000;
    assert r1 == (r1 / 0x100) * 0x100 + r1 % 0x100;
    assert r0 == (r0 / 0x1_0000) * 0x1_0000 + r1;
    assert v == (v / 0x100_0000) * 0x100_0000 + r0;
  }

  lemma EncodeDecodeBE32(b: seq<byte>)
    requires |b| == 4
    ensures BE32(FromBE32(b)) == b
  {
    var v := FromBE32(b);
    var r1 := (b[2] as int) * 0x100 + b[3];
    var r0 := (b[1] as int) * 0x1_0000 + r1;
    DivModUnique(v, 0x100_0000, b[0], r0);
    DivModUnique(r0, 0x1_0000, b[1], r1);
    DivModUnique(r1, 0x100, b[2], b[3]);
    assert BE32(v) == [b[0], b[1], b[2], b[3]];
  }

  /** Concatenation of the buffers in index order (Rust's `Vec::concat`). */
  function Flatten<T>(parts: seq<seq<T>>): seq<T>
  {
    if |parts| == 0 then [] else parts[0] + Flatten(parts[1..])
  }

  function SumLengths<T>(parts: seq<seq<T>>): nat
  {
    if |parts| == 0 then 0 else |parts[0]| + SumLengths(parts[1..])
  }

  lemma {:induction false} FlattenLength<T>(parts: seq<seq<T>>)
    ensures |Flatten(parts)| == SumLengths(parts)
  {
    if |parts| > 0 {
      FlattenLength(parts[1..]);
    }
  }

  lemma {:induction false} FlattenAppend<T>(parts: seq<seq<T>>, last: seq<T>)
    ensures Flatten(parts + [last]) == Flatten(parts) + last
  {
    if |parts| == 0 {
      assert parts + [last] == [last];
    } else {
      assert (parts + [last])[1..] == parts[1..] + [last];
      FlattenAppend(parts[1..], last);
    }
  }

  /** Concatenating `n` buffers of at most `size` bytes gives at most
      `size * n` bytes, exactly that many when every buffer is full. */
  lemma {:induction false} FlattenUniformLength<T>(parts: seq<seq<T>>, size: nat)
    requires forall i :: 0 <= i < |parts| ==> |parts[i]| <= size
    ensures |Flatten(parts)| <= size * |parts|
    ensures (forall i :: 0 <= i < |parts| ==> |parts[i]| == size) ==> |Flatten(parts)| == size * |parts|
    decreases |parts|
  {
    if |parts| > 0 {
      FlattenUniformLength(parts[1..], size);
      assert size * (|parts| - 1) + size == size * |parts|;
    }
  }

  /** In a concatenation of buffers of `size` bytes each, byte `k` of buffer
      `y` is at `size * y + k`. */
  lemma {:induction false} FlattenUniformIndex<T>(parts: seq<seq<T>>, size: nat, y: nat, k: nat)
    requires forall i :: 0 <= i < |parts| ==> |parts[i]| == size
    requires y < |parts| && k < size
    ensures size * y + k < |Flatten(parts)|
    ensures Flatten(parts)[size * y + k] == parts[y][k]
    decreases y
  {
    FlattenUniformLength(parts, size);
    assert size * y + k < size * |parts| by {
      assert size * y + size <= size * |parts| by {
        assert size * (y + 1) <= size * |parts|;
      }
    }
    if y > 0 {
      var rest := parts[1..];
      FlattenUniformIndex(rest, size, y - 1, k);
      assert size * (y - 1) + k + size == size * y + k;
      assert Flatten(parts) == parts[0] + Flatten(rest);
    }
  }

  lemma MulMono(a: nat, b: nat, c: nat, d: nat)
    requires a <= c && b <= d
    ensures a * b <= c * d
  {
    assert a * b <= c * b;
    assert c * b <= c * d;
  }
}
