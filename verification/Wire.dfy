/** Byte strings, little-endian integers and the option and result types shared by all modules. */
module Wire {
  type byte = x: int | 0 <= x < 256
  type Bytes = seq<byte>

  const U64_LIMIT := 0x1_0000_0000_0000_0000
  type u64 = x: int | 0 <= x < U64_LIMIT
  type u16 = x: int | 0 <= x < 0x1_0000

  /** What 64-bit addition and multiplication leave of a result. */
  function Wrap(n: nat): (r: nat)
    ensures r < U64_LIMIT
  {
    n % U64_LIMIT
  }

  lemma WrapIs(n: nat)
    ensures Wrap(n) <= n
    ensures n < U64_LIMIT ==> Wrap(n) == n
    ensures U64_LIMIT <= n < 2 * U64_LIMIT ==> Wrap(n) == n - U64_LIMIT
  {
  }

  datatype Option<+T> = None | Some(value: T)

  datatype Result<+T, +E> = Ok(value: T) | Err(error: E)
  {
    predicate IsFailure() { Err? }

    function PropagateFailure<U>(): Result<U, E>
      requires Err?
    {
      Err(error)
    }

    function Extract(): T
      requires Ok?
    {
      value
    }
  }

  function Zeros(n: nat): (r: Bytes)
    ensures |r| == n
  {
    seq(n, i => 0)
  }

  function Pow2(n: nat): (r: nat)
    ensures r >= 1
  {
    if n == 0 then 1 else 2 * Pow2(n - 1)
  }

  /** Value of a little-endian byte string. */
  function FromLe(b: Bytes): nat {
    if b == [] then 0 else b[0] + 256 * FromLe(b[1..])
  }

  /** The `width` low bytes of `n`, little-endian. */
  function ToLe(n: nat, width: nat): (r: Bytes)
    ensures |r| == width
  {
    if width == 0 then [] else [n % 256] + ToLe(n / 256, width - 1)
  }

  function Pow256(n: nat): nat {
    if n == 0 then 1 else 256 * Pow256(n - 1)
  }

  lemma {:induction false} LeBound(b: Bytes)
    ensures FromLe(b) < Pow256(|b|)
  {
    if b != [] {
      LeBound(b[1..]);
    }
  }

  lemma EightBytes()
    ensures Pow256(8) == U64_LIMIT
  {
    assert Pow256(4) == 0x1_0000_0000;
  }

  lemma {:induction false} LeRoundTrip(n: nat, width: nat)
    requires n < Pow256(width)
    ensures FromLe(ToLe(n, width)) == n
  {
    if width > 0 {
      LeRoundTrip(n / 256, width - 1);
      assert ToLe(n, width)[1..] == ToLe(n / 256, width - 1);
    }
  }

  lemma LowValue(x: byte, n: nat)
    ensures FromLe([x] + Zeros(n)) == x
  {
    var b := [x] + Zeros(n);
    assert b[1..] == Zeros(n);
    ZerosValue(n);
  }

  lemma {:induction false} ZerosValue(n: nat)
    ensures FromLe(Zeros(n)) == 0
  {
    if n > 0 {
      assert Zeros(n)[1..] == Zeros(n - 1);
      ZerosValue(n - 1);
    }
  }

  function Concat(parts: seq<Bytes>): Bytes {
    if parts == [] then [] else parts[0] + Concat(parts[1..])
  }

  predicate Sized(parts: seq<Bytes>, width: nat) {
    forall i :: 0 <= i < |parts| ==> |parts[i]| == width
  }

  lemma {:induction false} ConcatSize(parts: seq<Bytes>, width: nat)
    requires Sized(parts, width)
    ensures |Concat(parts)| == |parts| * width
  {
    if parts != [] {
      ConcatSize(parts[1..], width);
      assert |parts| * width == width + (|parts| - 1) * width;
    }
  }

  /** The integers from `lo` up to but excluding `hi`. */
  function Range(lo: nat, hi: nat): (r: set<nat>)
    requires lo <= hi
    ensures forall i :: i in r <==> lo <= i < hi
    ensures |r| == hi - lo
    decreases hi
  {
    if lo == hi then {} else Range(lo, hi - 1) + {hi - 1}
  }

  lemma {:induction false} SubsetSize<T>(a: set<T>, b: set<T>)
    requires a <= b
    ensures |a| <= |b|
    ensures |a| == |b| ==> a == b
  {
    assert b == a + (b - a);
    assert |b| == |a| + |b - a|;
  }

  lemma PrefixSlice(f: Bytes, b: Bytes, i: nat, j: nat)
    requires f <= b && i <= j <= |f|
    ensures b[i..j] == f[i..j]
  {
  }
}
