/**
  Mixed-radix numerals. An identifier has one digit per element; the digit of
  element `i` lies in `[0, |elements[i]|)` and the LAST element is the least
  significant place. `encode` splits an index into such digits by repeated
  `%` and `//`; `decode` rebuilds the index with Horner's rule.
 */
module Radix {
  import opened Arith

  /** Every base is positive: no element has an empty word list. */
  predicate AllPositive(bases: seq<nat>) {
    forall i :: 0 <= i < |bases| ==> bases[i] > 0
  }

  /** `ds` has one digit per base and each digit is below its base. */
  predicate IsNumeral(ds: seq<nat>, bases: seq<nat>) {
    |ds| == |bases| && forall i :: 0 <= i < |ds| ==> ds[i] < bases[i]
  }

  /**
    The number of distinct numerals over `bases` (`math.prod` of the word-list
    lengths); it is non-zero exactly when no base is zero.
   */
  function Product(bases: seq<nat>): (p: nat)
    ensures p > 0 <==> AllPositive(bases)
  {
    if bases == [] then 1
    else
      var init, b := bases[..|bases| - 1], bases[|bases| - 1];
      assert forall i :: 0 <= i < |init| ==> init[i] == bases[i];
      Product(init) * b
  }

  /**
    The digits of `n`, most significant first: the last digit is `n % b` for
    the last base `b`, and the rest are the digits of `n / b`.
   */
  function Digits(n: nat, bases: seq<nat>): (ds: seq<nat>)
    requires AllPositive(bases)
    ensures IsNumeral(ds, bases)
    decreases |bases|
  {
    if bases == [] then []
    else
      var init, b := bases[..|bases| - 1], bases[|bases| - 1];
      var high := Digits(n / b, init);
      assert forall i :: 0 <= i < |init| ==> (high + [n % b])[i] == high[i] && init[i] == bases[i];
      high + [n % b]
  }

  /** Horner's rule: the value of the numeral `ds`, read most significant first. */
  function Compose(ds: seq<nat>, bases: seq<nat>): (n: nat)
    requires |ds| == |bases|
    ensures IsNumeral(ds, bases) ==> n < Product(bases)
  {
    if bases == [] then 0
    else
      var k := |bases| - 1;
      var c := Compose(ds[..k], bases[..k]);
      HornerPlaceBound(ds, bases, c);
      c * bases[k] + ds[k]
  }

  /**
    One Horner step keeps a numeral below the product of its bases, given
    that the value `c` of its leading digits is below theirs.
   */
  lemma HornerPlaceBound(ds: seq<nat>, bases: seq<nat>, c: nat)
    requires |ds| == |bases| > 0
    requires IsNumeral(ds[..|bases| - 1], bases[..|bases| - 1]) ==> c < Product(bases[..|bases| - 1])
    ensures IsNumeral(ds, bases) ==> c * bases[|bases| - 1] + ds[|bases| - 1] < Product(bases)
  {
    var k := |bases| - 1;
    if IsNumeral(ds, bases) {
      assert IsNumeral(ds[..k], bases[..k]);
      HornerStepBound(c, Product(bases[..k]), ds[k], bases[k]);
    }
  }

  /** Horner's step over the first `|ds| + 1` bases. */
  lemma ComposePrefixStep(ds: seq<nat>, bases: seq<nat>, d: nat)
    requires |ds| < |bases|
    ensures Compose(ds + [d], bases[..|ds| + 1]) == Compose(ds, bases[..|ds|]) * bases[|ds|] + d
  {
    var i := |ds|;
    var prefix, digits := bases[..i + 1], ds + [d];
    assert digits[..i] == ds && prefix[..i] == bases[..i] && prefix[i] == bases[i];
  }

  /**
    What is left of `n` once the places `i ..` have been split off: `n`
    divided successively by the bases from the last down to base `i`.
   */
  function Quotient(n: nat, bases: seq<nat>, i: nat): nat
    requires AllPositive(bases) && i <= |bases|
    decreases |bases| - i
  {
    if i == |bases| then n else Quotient(n, bases, i + 1) / bases[i]
  }

  /** Splitting off the last place first gives the same quotients over the remaining bases. */
  lemma {:induction false} QuotientInit(n: nat, bases: seq<nat>, i: nat)
    requires AllPositive(bases) && i < |bases|
    ensures Quotient(n, bases, i) == Quotient(n / bases[|bases| - 1], bases[..|bases| - 1], i)
    decreases |bases| - i
  {
    if i < |bases| - 1 {
      QuotientInit(n, bases, i + 1);
    }
  }

  /** Digit `i - 1` of `n` is the quotient left at place `i`, modulo base `i - 1`. */
  lemma {:induction false} DigitAt(n: nat, bases: seq<nat>, i: nat)
    requires AllPositive(bases) && 0 < i <= |bases|
    ensures Digits(n, bases)[i - 1] == Quotient(n, bases, i) % bases[i - 1]
    decreases |bases|
  {
    var k := |bases| - 1;
    if i <= k {
      var init := bases[..k];
      DigitAt(n / bases[k], init, i);
      QuotientInit(n, bases, i);
    }
  }

  /** Composing the digits of an index below the product gives the index back. */
  lemma {:induction false} ComposeDigits(n: nat, bases: seq<nat>)
    requires AllPositive(bases) && n < Product(bases)
    ensures Compose(Digits(n, bases), bases) == n
    decreases |bases|
  {
    if bases != [] {
      var k := |bases| - 1;
      var init, b := bases[..k], bases[k];
      var ds := Digits(n, bases);
      assert ds[..k] == Digits(n / b, init);
      QuotientBound(n, Product(init), b);
      ComposeDigits(n / b, init);
      DivModSplit(n, b);
      assert Compose(ds, bases) == Compose(ds[..k], init) * b + ds[k];
    }
  }

  /** Splitting the value of a numeral into digits gives the numeral back. */
  lemma {:induction false} DigitsCompose(ds: seq<nat>, bases: seq<nat>)
    requires AllPositive(bases) && IsNumeral(ds, bases)
    ensures Digits(Compose(ds, bases), bases) == ds
    decreases |bases|
  {
    if bases != [] {
      var k := |bases| - 1;
      var init, b := bases[..k], bases[k];
      var c := Compose(ds[..k], init);
      assert IsNumeral(ds[..k], init);
      DivModUnique(c * b + ds[k], b, c, ds[k]);
      DigitsCompose(ds[..k], init);
      assert ds == ds[..k] + [ds[k]];
    }
  }

  /** Distinct indices below the product have distinct digits. */
  lemma DigitsInjective(n1: nat, n2: nat, bases: seq<nat>)
    requires AllPositive(bases) && n1 < Product(bases) && n2 < Product(bases)
    requires Digits(n1, bases) == Digits(n2, bases)
    ensures n1 == n2
  {
    ComposeDigits(n1, bases);
    ComposeDigits(n2, bases);
  }
}
