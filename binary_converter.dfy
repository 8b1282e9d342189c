/**
 * BinaryConverter.foo: recursion on x / 2 that prints x % 2 after the
 * recursive call. The printed digits are the returned sequence. Java's `/`
 * truncates toward zero and `%` takes the sign of the dividend, so for a
 * negative x the digits are 0 or -1.
 */
module BinaryConverter {

  /** Java `x / 2` (truncating toward zero). */
  function JavaHalf(x: int): (q: int)
    ensures x >= 0 ==> 2 * q <= x < 2 * q + 2
    ensures x < 0 ==> 2 * q - 2 < x <= 2 * q
  {
    if x >= 0 then x / 2 else -((-x) / 2)
  }

  /** Java `x % 2` (sign of the dividend). */
  function JavaParity(x: int): (d: int)
    ensures x == 2 * JavaHalf(x) + d
    ensures x >= 0 ==> d == 0 || d == 1
    ensures x < 0 ==> d == 0 || d == -1
  {
    x - 2 * JavaHalf(x)
  }

  /** The digits foo(x) prints, most significant first. */
  function Foo(x: int): (digits: seq<int>)
    decreases if x >= 0 then x else -x
  {
    if x == 0 then [] else Foo(JavaHalf(x)) + [JavaParity(x)]
  }

  /** The digits read in base 2, most significant first. */
  function Value(digits: seq<int>): int
  {
    if digits == [] then 0 else 2 * Value(digits[..|digits| - 1]) + digits[|digits| - 1]
  }

  function Pow2(n: nat): nat
  {
    if n == 0 then 1 else 2 * Pow2(n - 1)
  }

  /** Reading the printed digits back in base 2 gives x, for every x (negatives included). */
  lemma {:induction false} FooRoundTrip(x: int)
    ensures Value(Foo(x)) == x
    decreases if x >= 0 then x else -x
  {
    if x != 0 {
      FooRoundTrip(JavaHalf(x));
      var ds := Foo(x);
      assert ds[..|ds| - 1] == Foo(JavaHalf(x));
    }
  }

  /** For x > 0 every digit is 0 or 1 and the first is 1. */
  lemma {:induction false} FooBinaryDigits(x: int)
    requires x > 0
    ensures |Foo(x)| > 0 && Foo(x)[0] == 1
    ensures forall i :: 0 <= i < |Foo(x)| ==> Foo(x)[i] == 0 || Foo(x)[i] == 1
    decreases x
  {
    if JavaHalf(x) > 0 {
      FooBinaryDigits(JavaHalf(x));
    }
  }

  /** For x > 0 there are exactly as many digits as halvings needed to reach 0: 2^(len-1) <= x < 2^len. */
  lemma {:induction false} FooLength(x: int)
    requires x > 0
    ensures Pow2(|Foo(x)| - 1) <= x < Pow2(|Foo(x)|)
    decreases x
  {
    if JavaHalf(x) > 0 {
      FooLength(JavaHalf(x));
    }
  }

  /** For x < 0 the digits are 0 or -1 and the first is -1. */
  lemma {:induction false} FooNegativeDigits(x: int)
    requires x < 0
    ensures |Foo(x)| > 0 && Foo(x)[0] == -1
    ensures forall i :: 0 <= i < |Foo(x)| ==> Foo(x)[i] == 0 || Foo(x)[i] == -1
    decreases -x
  {
    if JavaHalf(x) < 0 {
      FooNegativeDigits(JavaHalf(x));
    }
  }
}
