/** Optional and failing results, as the program's exceptions are modelled. */
module Results {
  datatype Option<+T> = None | Some(value: T)

  /** The exception classes the modelled code throws. */
  datatype Error = InvalidArgument | OverflowError | RuntimeError | OutOfRange | BadWeakPtr

  datatype Result<+T> = Success(value: T) | Failure(error: Error)
}

/** Facts about concatenation, kept apart from the proofs that use them. */
module Sequences {
  lemma Associative<T>(a: seq<T>, b: seq<T>, c: seq<T>)
    ensures (a + b) + c == a + (b + c)
  {
  }

  lemma TailOfConcat<T>(a: seq<T>, b: seq<T>)
    requires a != []
    ensures (a + b)[0] == a[0] && (a + b)[1..] == a[1..] + b
  {
  }

  lemma SplitOfConcat<T>(a: seq<T>, b: seq<T>, n: nat)
    requires n <= |a|
    ensures (a + b)[..n] == a[..n] && (a + b)[n..] == a[n..] + b
  {
  }

  /** The first n elements, or all if there are fewer. */
  function UpTo<T>(s: seq<T>, n: nat): seq<T> {
    if n <= |s| then s[..n] else s
  }

  /** A list without its first element, or an empty one, cut by one less. */
  lemma UpToOfConcat<T>(a: seq<T>, b: seq<T>, n: nat)
    requires n > 0 && (|a| == 1 || a + b == [])
    ensures UpTo(a + b, n) == a + UpTo(b, n - 1)
  {
  }

  lemma EmptyNeutral<T>(a: seq<T>)
    ensures a + [] == a && [] + a == a
  {
  }
}

/** Fixed-width integers and their little-endian byte strings. */
module Bytes {
  type byte = n: int | 0 <= n < 256
  type uint16 = n: int | 0 <= n < 0x1_0000
  type int64 = n: int | -0x8000_0000_0000_0000 <= n < 0x8000_0000_0000_0000

  /** The cast to a 16-bit unsigned integer. */
  function Uint16(n: int): uint16 {
    n % 0x1_0000
  }

  function Pow256(width: nat): (p: nat)
    ensures p > 0
  {
    if width == 0 then 1 else 256 * Pow256(width - 1)
  }

  function ToLittleEndian(n: nat, width: nat): (s: seq<byte>)
    ensures |s| == width
  {
    if width == 0 then [] else [n % 256] + ToLittleEndian(n / 256, width - 1)
  }

  function FromLittleEndian(s: seq<byte>): nat {
    if s == [] then 0 else s[0] + 256 * FromLittleEndian(s[1..])
  }

  lemma {:induction false} NatRoundTrip(n: nat, width: nat)
    requires n < Pow256(width)
    ensures FromLittleEndian(ToLittleEndian(n, width)) == n
  {
    if width > 0 {
      NatRoundTrip(n / 256, width - 1);
      assert ToLittleEndian(n, width)[1..] == ToLittleEndian(n / 256, width - 1);
    }
  }

  lemma {:induction false} BytesRoundTrip(s: seq<byte>)
    ensures FromLittleEndian(s) < Pow256(|s|)
    ensures ToLittleEndian(FromLittleEndian(s), |s|) == s
  {
    if s != [] {
      BytesRoundTrip(s[1..]);
      var m := FromLittleEndian(s[1..]);
      var n := s[0] + 256 * m;
      assert n == FromLittleEndian(s) && Pow256(|s|) == 256 * Pow256(|s| - 1);
      assert n % 256 == s[0] && n / 256 == m;
      assert ToLittleEndian(n, |s|) == [s[0]] + ToLittleEndian(m, |s| - 1);
      assert s == [s[0]] + s[1..];
    }
  }

  /** The eight bytes of a two's complement 64-bit integer in memory. */
  function Int64ToBytes(x: int64): (s: seq<byte>)
    ensures |s| == 8
  {
    ToLittleEndian(if x < 0 then x + 0x1_0000_0000_0000_0000 else x, 8)
  }

  function BytesToInt64(s: seq<byte>): int64
    requires |s| == 8
  {
    BytesRoundTrip(s);
    Pow256Eight();
    var n := FromLittleEndian(s);
    if n >= 0x8000_0000_0000_0000 then n - 0x1_0000_0000_0000_0000 else n
  }

  lemma Pow256Eight()
    ensures Pow256(8) == 0x1_0000_0000_0000_0000
  {
    assert Pow256(4) == 0x1_0000_0000 by {
      assert Pow256(2) == 0x1_0000;
    }
    assert Pow256(6) == 0x1_0000_0000_0000;
  }

  /** The byte at the lowest address is the least significant one; a negative number is its two's complement. */
  lemma Int64Layout(x: int64)
    ensures var s := Int64ToBytes(x);
            s[0] as int + s[1] as int * 0x100 + s[2] as int * 0x1_0000 + s[3] as int * 0x100_0000
            + s[4] as int * 0x1_0000_0000 + s[5] as int * 0x100_0000_0000
            + s[6] as int * 0x1_0000_0000_0000 + s[7] as int * 0x100_0000_0000_0000
            == if x < 0 then x + 0x1_0000_0000_0000_0000 else x
  {
    var s := Int64ToBytes(x);
    Pow256Eight();
    NatRoundTrip(if x < 0 then x + 0x1_0000_0000_0000_0000 else x, 8);
    FourBytes(s);
    FourBytes(s[4..]);
  }

  lemma FourBytes(s: seq<byte>)
    requires |s| >= 4
    ensures FromLittleEndian(s)
            == s[0] as int + s[1] as int * 0x100 + s[2] as int * 0x1_0000 + s[3] as int * 0x100_0000
               + FromLittleEndian(s[4..]) * 0x1_0000_0000
  {
    assert s[1..][1..] == s[2..] && s[2..][1..] == s[3..] && s[3..][1..] == s[4..];
  }

  /** memcpy into and out of a 64-bit field are inverse, in both directions. */
  lemma Int64RoundTrip(x: int64)
    ensures BytesToInt64(Int64ToBytes(x)) == x
  {
    Pow256Eight();
    NatRoundTrip(if x < 0 then x + 0x1_0000_0000_0000_0000 else x, 8);
  }

  lemma Int64BytesRoundTrip(s: seq<byte>)
    requires |s| == 8
    ensures Int64ToBytes(BytesToInt64(s)) == s
  {
    Pow256Eight();
    BytesRoundTrip(s);
  }
}
