/**
  Byte strings and the 32-bit big-endian integer layout that `struct.unpack('>i', ...)`
  reads. Python 2 `str` values read from a socket are modelled as `seq<byte>`.
 */
module Bytes {

  newtype byte = x: int | 0 <= x < 0x100

  const Two32: int := 0x1_0000_0000
  const Two31: int := 0x8000_0000

  /** `''.join(pieces)`: the concatenation of a list of byte strings, in order. */
  function Flatten<T>(pieces: seq<seq<T>>): seq<T>
    decreases |pieces|
  {
    if pieces == [] then [] else pieces[0] + Flatten(pieces[1..])
  }

  lemma {:induction false} FlattenAppend<T>(a: seq<seq<T>>, b: seq<seq<T>>)
    ensures Flatten(a + b) == Flatten(a) + Flatten(b)
    decreases |a|
  {
    if a == [] {
      assert a + b == b;
    } else {
      assert (a + b)[1..] == a[1..] + b;
      FlattenAppend(a[1..], b);
    }
  }

  /** Every piece is no longer than the whole concatenation. */
  lemma {:induction false} PieceWithinFlatten<T>(pieces: seq<seq<T>>, i: int)
    requires 0 <= i < |pieces|
    ensures |pieces[i]| <= |Flatten(pieces)|
    decreases |pieces|
  {
    if i > 0 {
      PieceWithinFlatten(pieces[1..], i - 1);
    }
  }

  /** A prefix of the pieces concatenates to a prefix of the whole. */
  lemma FlattenPrefix<T>(pieces: seq<seq<T>>, i: int)
    requires 0 <= i <= |pieces|
    ensures |Flatten(pieces[..i])| <= |Flatten(pieces)|
    ensures Flatten(pieces[..i]) == Flatten(pieces)[..|Flatten(pieces[..i])|]
  {
    assert pieces == pieces[..i] + pieces[i..];
    FlattenAppend(pieces[..i], pieces[i..]);
  }

  /** The four bytes read as an unsigned big-endian number. */
  function DecodeUint32(b: seq<byte>): (n: int)
    requires |b| == 4
    ensures 0 <= n < Two32
  {
    (b[0] as int) * 0x100_0000 + (b[1] as int) * 0x1_0000 + (b[2] as int) * 0x100 + (b[3] as int)
  }

  /** `struct.unpack('>i', b)[0]`: the four bytes read as a signed (two's complement) big-endian number. */
  function DecodeInt32(b: seq<byte>): (n: int)
    requires |b| == 4
    ensures -Two31 <= n < Two31
    ensures n == DecodeUint32(b) || n == DecodeUint32(b) - Two32
    ensures n < 0 <==> b[0] >= 0x80
  {
    var u := DecodeUint32(b);
    if u >= Two31 then u - Two32 else u
  }

  /** `struct.pack('>i', n)`: the four-byte two's complement big-endian layout of `n`. */
  function EncodeInt32(n: int): (b: seq<byte>)
    requires -Two31 <= n < Two31
    ensures |b| == 4
  {
    var u := if n < 0 then n + Two32 else n;
    var u1 := u / 0x100;
    var u2 := u1 / 0x100;
    DivBound(u, 0x100_0000);
    DivBound(u1, 0x1_0000);
    [(u2 / 0x100) as byte, (u2 % 0x100) as byte, (u1 % 0x100) as byte, (u % 0x100) as byte]
  }

  lemma DivBound(u: int, k: int)
    requires k > 0 && 0 <= u < k * 0x100
    ensures 0 <= u / 0x100 < k
  {
  }

  /** Dividing `q * 256 + r` by 256 gives back `q` and `r`. */
  lemma DivModByte(q: int, r: int)
    requires 0 <= r < 0x100
    ensures (q * 0x100 + r) / 0x100 == q
    ensures (q * 0x100 + r) % 0x100 == r
  {
  }

  lemma DecodeEncodeInt32(n: int)
    requires -Two31 <= n < Two31
    ensures DecodeInt32(EncodeInt32(n)) == n
  {
    var u := if n < 0 then n + Two32 else n;
    var u1 := u / 0x100;
    var u2 := u1 / 0x100;
    var b := EncodeInt32(n);
    assert u == u1 * 0x100 + u % 0x100;
    assert u1 == u2 * 0x100 + u1 % 0x100;
    assert u2 == (u2 / 0x100) * 0x100 + u2 % 0x100;
    assert DecodeUint32(b) == ((b[0] as int * 0x100 + b[1] as int) * 0x100 + b[2] as int) * 0x100 + b[3] as int;
    assert DecodeUint32(b) == u;
  }

  lemma EncodeDecodeInt32(b: seq<byte>)
    requires |b| == 4
    ensures EncodeInt32(DecodeInt32(b)) == b
  {
    var x0, x1, x2, x3 := b[0] as int, b[1] as int, b[2] as int, b[3] as int;
    var u2 := x0 * 0x100 + x1;
    var u1 := u2 * 0x100 + x2;
    var u := u1 * 0x100 + x3;
    assert DecodeUint32(b) == u;
    DivModByte(u1, x3);
    DivModByte(u2, x2);
    DivModByte(x0, x1);
    assert x0 * 0x100 / 0x100 == x0 by { DivModByte(x0, 0); }
    var e := EncodeInt32(DecodeInt32(b));
    assert e[0] == b[0] && e[1] == b[1] && e[2] == b[2] && e[3] == b[3];
  }
}
