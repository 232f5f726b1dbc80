/** Bytes, results and flat views of chunked data, shared by every other module. */
module Bytes {

  newtype byte = x: int | 0 <= x < 256

  /** `std::numeric_limits<int>::max()`, for the 32-bit `int` of the supported platforms. */
  const INT_MAX: int := 0x7fff_ffff

  /** A C++ call either returns a value or throws. */
  datatype Result<+R, +E> = Ok(value: R) | Err(error: E)

  datatype Option<+T> = None | Some(value: T)

  /** What was done before, in front of what comes after, unless that throws. */
  function Prepend<T, E>(done: seq<T>, r: Result<seq<T>, E>): Result<seq<T>, E> {
    match r case Err(e) => Err(e) case Ok(rest) => Ok(done + rest)
  }

  lemma PrependTwice<T, E>(a: seq<T>, b: seq<T>, r: Result<seq<T>, E>)
    ensures Prepend(a, Prepend(b, r)) == Prepend(a + b, r) && Prepend([], r) == r
    ensures Prepend(a, Result<seq<T>, E>.Ok([])) == Ok(a)
  {
    assert r.Ok? ==> a + (b + r.value) == (a + b) + r.value && [] + r.value == r.value;
    assert a + [] == a;
  }

  /** All chunks, one after the other. */
  function Concat<T>(chunks: seq<seq<T>>): seq<T> {
    if chunks == [] then [] else chunks[0] + Concat(chunks[1..])
  }

  lemma Associative<T>(a: seq<T>, b: seq<T>, c: seq<T>)
    ensures a + (b + c) == (a + b) + c
  {
  }

  lemma ConcatOne<T>(c: seq<T>, rest: seq<seq<T>>)
    ensures Concat([c] + rest) == c + Concat(rest)
  {
    assert ([c] + rest)[0] == c && ([c] + rest)[1..] == rest;
  }

  lemma {:induction false} ConcatAppend<T>(a: seq<seq<T>>, b: seq<seq<T>>)
    ensures Concat(a + b) == Concat(a) + Concat(b)
  {
    if a == [] {
      assert a + b == b;
    } else {
      var first, rest := a[0], a[1..];
      ConcatAppend(rest, b);
      Associative([first], rest, b);
      assert a == [first] + rest;
      ConcatOne(first, rest);
      ConcatOne(first, rest + b);
      Associative(first, Concat(rest), Concat(b));
    }
  }

  lemma ConcatSnoc<T>(a: seq<seq<T>>, c: seq<T>)
    ensures Concat(a + [c]) == Concat(a) + c
  {
    ConcatAppend(a, [c]);
    assert Concat([c]) == c;
  }

  /** Taking the first chunk to the left of the rest. */
  lemma ConcatFirst<T>(done: seq<T>, chunks: seq<seq<T>>)
    requires chunks != []
    ensures done + Concat(chunks) == (done + chunks[0]) + Concat(chunks[1..])
  {
  }

  lemma ConcatNone<T>(done: seq<T>)
    ensures done + Concat([]) == done && Concat([]) + done == done
  {
  }

  // ---- exclusive or, bit by bit ----

  function Pow2(n: nat): nat {
    if n == 0 then 1 else 2 * Pow2(n - 1)
  }

  function XorBits(width: nat, a: nat, b: nat): (r: nat)
    requires a < Pow2(width) && b < Pow2(width)
    ensures r < Pow2(width)
  {
    if width == 0 then 0 else (if a % 2 == b % 2 then 0 else 1) + 2 * XorBits(width - 1, a / 2, b / 2)
  }

  lemma {:induction false} XorBitsCancels(width: nat, a: nat, b: nat)
    requires a < Pow2(width) && b < Pow2(width)
    ensures XorBits(width, XorBits(width, a, b), b) == a
  {
    if width > 0 {
      var high := XorBits(width - 1, a / 2, b / 2);
      assert XorBits(width, a, b) / 2 == high;
      assert XorBits(width, a, b) % 2 == if a % 2 == b % 2 then 0 else 1;
      XorBitsCancels(width - 1, a / 2, b / 2);
    }
  }

  /** The bit of weight 2^k. */
  function Bit(n: nat, k: nat): bool {
    if k == 0 then n % 2 == 1 else Bit(n / 2, k - 1)
  }

  lemma {:induction false} XorBitsAt(width: nat, a: nat, b: nat, k: nat)
    requires a < Pow2(width) && b < Pow2(width) && k < width
    ensures Bit(XorBits(width, a, b), k) <==> Bit(a, k) != Bit(b, k)
  {
    var high := XorBits(width - 1, a / 2, b / 2);
    assert XorBits(width, a, b) / 2 == high;
    assert XorBits(width, a, b) % 2 == if a % 2 == b % 2 then 0 else 1;
    if k > 0 {
      XorBitsAt(width - 1, a / 2, b / 2, k - 1);
    }
  }

  /** A bit of the result is set exactly where the bits of the operands differ. */
  lemma XorAt(a: byte, b: byte, k: nat)
    requires k < 8
    ensures Bit(Xor(a, b) as nat, k) <==> Bit(a as nat, k) != Bit(b as nat, k)
  {
    assert Pow2(8) == 256;
    XorBitsAt(8, a as nat, b as nat, k);
  }

  function Xor(a: byte, b: byte): byte {
    assert Pow2(8) == 256;
    XorBits(8, a as nat, b as nat) as byte
  }

  lemma XorCancels(a: byte, b: byte)
    ensures Xor(Xor(a, b), b) == a
  {
    assert Pow2(8) == 256;
    XorBitsCancels(8, a as nat, b as nat);
  }
}
