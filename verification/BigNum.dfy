/** The consistency macros and the word predicates of openssl/bn.h.

    A bignum is a little-endian array of 64-bit words, of which the first `top` are in use. The
    normal form has no leading zero word; some predicates are right only there.
 */
module BigNum {

  const BASE: nat := 0x1_0000_0000_0000_0000
  const WORD_BITS: nat := 64

  type Word = n: nat | n < 0x1_0000_0000_0000_0000

  // ---------------------------------------------------------------- value

  /** The number that words denote, the least significant first. */
  function Value(d: seq<Word>): nat {
    if d == [] then 0 else d[0] + BASE * Value(d[1..])
  }

  /** `bn_check_top`: no leading zero word. */
  predicate Normal(d: seq<Word>) {
    d == [] || d[|d| - 1] != 0
  }

  predicate AllZero(d: seq<Word>) {
    forall i :: 0 <= i < |d| ==> d[i] == 0
  }

  /** A word more counts that many times 2 to the power 64. */
  lemma {:induction false} ValueOfMore(d: seq<Word>, w: Word)
    ensures Value([]) == 0
    ensures Value(d + [w]) == Value(d) + w * Pow(0x1_0000_0000_0000_0000, |d|)
  {
    if d == [] {
      assert [w][1..] == [];
    } else {
      ValueOfMore(d[1..], w);
      assert (d + [w])[1..] == d[1..] + [w];
      Distribute(Value(d[1..]), w, Pow(BASE, |d| - 1));
    }
  }

  lemma Distribute(v: nat, w: nat, p: nat)
    ensures BASE * (v + w * p) == BASE * v + w * (BASE * p)
  {
  }

  lemma {:induction false} ZeroValue(d: seq<Word>)
    ensures Value(d) == 0 <==> AllZero(d)
  {
    if d != [] {
      ZeroValue(d[1..]);
      assert AllZero(d) <==> d[0] == 0 && AllZero(d[1..]) by {
        assert forall i :: 0 < i < |d| ==> d[i] == d[1..][i - 1];
      }
    }
  }

  /** Leading zero words do not count. */
  lemma {:induction false} LeadingZeros(d: seq<Word>, top: nat)
    requires top <= |d| && AllZero(d[top..])
    ensures Value(d[..top]) == Value(d)
  {
    if top == 0 {
      ZeroValue(d);
    } else {
      assert d[1..][..top - 1] == d[..top][1..];
      assert d[1..][top - 1..] == d[top..];
      LeadingZeros(d[1..], top - 1);
    }
  }

  /** A number has one normal form. */
  lemma {:induction false} NormalFormIsUnique(a: seq<Word>, b: seq<Word>)
    requires Normal(a) && Normal(b)
    ensures Value(a) == Value(b) <==> a == b
  {
    if Value(a) == Value(b) {
      if a == [] || b == [] {
        ZeroValue(a);
        ZeroValue(b);
      } else {
        Digit(a[0], Value(a[1..]));
        Digit(b[0], Value(b[1..]));
        NormalTail(a);
        NormalTail(b);
        NormalFormIsUnique(a[1..], b[1..]);
        assert a == [a[0]] + a[1..] && b == [b[0]] + b[1..];
      }
    }
  }

  lemma NormalTail(d: seq<Word>)
    requires Normal(d) && d != []
    ensures Normal(d[1..])
  {
  }

  lemma Digit(w: Word, v: nat)
    ensures (w + BASE * v) % BASE == w && (w + BASE * v) / BASE == v
  {
  }

  // ---------------------------------------------------------------- the structure

  /** `bignum_st`. `neg` stands for a nonzero `neg`. */
  class BIGNUM {
    const d: array<Word>
    var top: nat
    var neg: bool

    constructor (words: array<Word>, top: nat, neg: bool)
      requires top <= words.Length
      ensures d == words && this.top == top && this.neg == neg && Valid()
    {
      this.d, this.top, this.neg := words, top, neg;
    }

    predicate Valid()
      reads this
    {
      top <= d.Length
    }

    function Words(): seq<Word>
      requires Valid()
      reads this, d
    {
      d[..top]
    }

    /** The integer it denotes; a negative zero is zero. */
    function Number(): int
      requires Valid()
      reads this, d
    {
      if neg then 0 - Value(Words()) as int else Value(Words()) as int
    }

    /** `bn_correct_top`: strips leading zero words. The words themselves are not touched, and the
        result is the one `top` that is in normal form and denotes the same number. */
    method CorrectTop()
      requires Valid()
      modifies this`top
      ensures Valid() && top <= old(top)
      ensures Value(Words()) == Value(old(Words())) && Number() == old(Number())
      ensures Normal(Words())
      ensures forall t :: 0 <= t <= old(top) && Normal(d[..t]) && Value(d[..t]) == Value(old(Words())) ==> t == top
    {
      ghost var words := Words();
      if top > 0 {
        var ftl := top - 1;
        while top > 0
          invariant ftl == top - 1 && top <= old(top)
          invariant words == d[..old(top)] && AllZero(words[top..])
        {
          ftl := ftl - 1;
          if d[ftl + 1] != 0 {
            break;
          }
          assert words[top - 1..] == [d[top - 1]] + words[top..];
          top := top - 1;
        }
      }
      assert words[..top] == d[..top];
      LeadingZeros(words, top);
      forall t | 0 <= t <= old(top) && Normal(d[..t]) && Value(d[..t]) == Value(words)
        ensures t == top
      {
        NormalFormIsUnique(d[..t], d[..top]);
      }
    }

    /** `BN_zero_ex` */
    method ZeroEx()
      requires Valid()
      modifies this`top, this`neg
      ensures Valid() && Normal(Words()) && Number() == 0 && !neg
    {
      top := 0;
      neg := false;
    }

    predicate IsZero()
      reads this
    {
      top == 0
    }

    predicate IsOdd()
      requires Valid()
      reads this, d
    {
      top > 0 && d[0] % 2 == 1
    }

    predicate AbsIsWord(w: Word)
      requires Valid()
      reads this, d
    {
      (top == 1 && d[0] == w) || (w == 0 && top == 0)
    }

    predicate IsOne()
      requires Valid()
      reads this, d
    {
      AbsIsWord(1) && !neg
    }

    predicate IsWord(w: Word)
      requires Valid()
      reads this, d
    {
      AbsIsWord(w) && (w == 0 || !neg)
    }
  }

  // ---------------------------------------------------------------- what the predicates decide

  lemma WordValue(d: seq<Word>)
    ensures |d| == 1 ==> Value(d) == d[0]
    ensures |d| > 1 ==> (Value(d) < BASE <==> AllZero(d[1..]))
  {
    if |d| > 0 {
      assert |d| == 1 ==> d[1..] == [];
      ZeroValue(d[1..]);
    }
  }

  /** `BN_is_zero` decides whether the number is zero exactly when some word in use is not zero or
      none is in use; every normal form is such. */
  lemma IsZeroRightIff(a: BIGNUM)
    requires a.Valid()
    ensures (a.IsZero() <==> a.Number() == 0) <==> (a.top == 0 || !AllZero(a.Words()))
    ensures Normal(a.Words()) ==> (a.IsZero() <==> a.Number() == 0)
  {
    ZeroValue(a.Words());
  }

  lemma Parity(w: int, h: int)
    ensures (w + 2 * h) % 2 == w % 2 == (0 - (w + 2 * h)) % 2
  {
  }

  /** `BN_is_odd` decides whether the number is odd, in normal form or not. */
  lemma IsOddRight(a: BIGNUM)
    requires a.Valid()
    ensures a.IsOdd() <==> a.Number() % 2 == 1
  {
    if a.top > 0 {
      var v := Value(a.Words()[1..]);
      var half: nat := 0x8000_0000_0000_0000 * v;
      assert Value(a.Words()) == a.d[0] + 2 * half;
      Parity(a.d[0], half);
    }
  }

  /** `BN_abs_is_word` decides |number| == w for every word w but one: when leading zero words are in
      use, it denies the word that the number is. */
  lemma AbsIsWordRightIff(a: BIGNUM, w: Word)
    requires a.Valid()
    ensures (a.AbsIsWord(w) <==> Value(a.Words()) == w)
       <==> a.top <= 1 || !AllZero(a.Words()[1..]) || a.d[0] != w
  {
    WordValue(a.Words());
    ZeroValue(a.Words()[if a.top > 0 then 1 else 0..]);
  }

  /** `BN_is_word` and `BN_is_one` likewise, the sign taken into account. */
  lemma IsWordRightIff(a: BIGNUM, w: Word)
    requires a.Valid()
    ensures (a.IsWord(w) <==> a.Number() == w)
       <==> a.top <= 1 || !AllZero(a.Words()[1..]) || a.d[0] != w || (a.neg && w != 0)
    ensures a.IsOne() <==> a.IsWord(1)
  {
    AbsIsWordRightIff(a, w);
    WordValue(a.Words());
    ZeroValue(a.Words()[if a.top > 0 then 1 else 0..]);
  }

  /** In normal form the predicates decide the number. */
  lemma NormalFormDecides(a: BIGNUM, w: Word)
    requires a.Valid() && Normal(a.Words())
    ensures a.AbsIsWord(w) <==> Value(a.Words()) == w
    ensures a.IsWord(w) <==> a.Number() == w
    ensures a.IsOne() <==> a.Number() == 1
  {
    var d := a.Words();
    if a.top > 1 {
      assert d[1..][a.top - 2] != 0;
    }
    AbsIsWordRightIff(a, w);
    IsWordRightIff(a, w);
    IsWordRightIff(a, 1);
  }

  /** Two nonnegative numbers in normal form are equal exactly when `top` and the words are. */
  lemma NormalFormsCompare(a: BIGNUM, b: BIGNUM)
    requires a.Valid() && b.Valid() && Normal(a.Words()) && Normal(b.Words()) && !a.neg && !b.neg
    ensures a.Number() == b.Number() <==> a.top == b.top && forall i :: 0 <= i < a.top ==> a.d[i] == b.d[i]
  {
    NormalFormIsUnique(a.Words(), b.Words());
    if a.top == b.top && forall i :: 0 <= i < a.top ==> a.d[i] == b.d[i] {
      assert a.Words() == b.Words();
    }
  }

  // ---------------------------------------------------------------- sizes

  function Pow(b: nat, e: nat): nat {
    if e == 0 then 1 else b * Pow(b, e - 1)
  }

  /** `BN_num_bits` by its meaning: the number of bits of the absolute value. */
  function NumBits(v: nat): nat {
    if v == 0 then 0 else 1 + NumBits(v / 2)
  }

  /** `BN_num_bytes` */
  function NumBytes(v: nat): nat {
    (NumBits(v) + 7) / 8
  }

  /** The word count of `bn_expand`. */
  function WordsFor(bits: nat): nat {
    (bits + WORD_BITS - 1) / WORD_BITS
  }

  lemma {:induction false} NumBitsIsLeast(v: nat, k: nat)
    ensures v < Pow(2, k) <==> NumBits(v) <= k
  {
    if k > 0 && v > 0 {
      NumBitsIsLeast(v / 2, k - 1);
    } else {
      PowPositive(2, k);
    }
  }

  lemma {:induction false} PowPositive(b: nat, e: nat)
    requires b > 0
    ensures Pow(b, e) > 0
  {
    if e > 0 {
      PowPositive(b, e - 1);
    }
  }

  lemma {:induction false} PowAdd(b: nat, m: nat, n: nat)
    ensures Pow(b, m + n) == Pow(b, m) * Pow(b, n)
  {
    if m > 0 {
      PowAdd(b, m - 1, n);
      assert Pow(b, m + n) == b * Pow(b, m - 1 + n);
    }
  }

  lemma {:induction false} PowOfPow2(step: nat, k: nat)
    ensures Pow(Pow(2, step), k) == Pow(2, step * k)
  {
    if k > 0 {
      PowOfPow2(step, k - 1);
      PowAdd(2, step, step * (k - 1));
      assert step + step * (k - 1) == step * k;
    }
  }

  lemma {:induction false} Pow2Monotone(m: nat, n: nat)
    ensures Pow(2, m) <= Pow(2, n) <==> m <= n
  {
    if m > 0 && n > 0 {
      Pow2Monotone(m - 1, n - 1);
    } else {
      PowPositive(2, if m > 0 then m - 1 else 0);
      PowPositive(2, n);
    }
  }

  /** `BN_num_bytes` is the least number of octets that hold the value. */
  lemma NumBytesIsLeast(v: nat, k: nat)
    ensures v < Pow(256, k) <==> NumBytes(v) <= k
  {
    Pow256Is();
    PowOfPow2(8, k);
    NumBitsIsLeast(v, 8 * k);
  }

  lemma Pow256Is()
    ensures Pow(2, 8) == 256
  {
    assert Pow(2, 4) == 16;
  }

  /** A word has as many values as its bits allow. */
  lemma WordIsPower()
    ensures Pow(2, WORD_BITS) == 0x1_0000_0000_0000_0000 == BASE
  {
    assert Pow(2, 8) == 256 by { Pow256Is(); }
    PowAdd(2, 8, 8);
    PowAdd(2, 16, 16);
    PowAdd(2, 32, 32);
  }

  /** v is below base to the power e. */
  predicate Below(v: nat, base: nat, e: nat) {
    v < Pow(base, e)
  }

  /** The word count of `bn_expand` is the least that holds every value of that many bits: with
      `dmax` words the macro leaves the array alone exactly when all of them fit. */
  lemma ExpandIsExact(bits: nat, dmax: nat)
    ensures WordsFor(bits) <= dmax
       <==> forall v: nat :: Below(v, 2, bits) ==> Below(v, 0x1_0000_0000_0000_0000, dmax)
  {
    WordIsPower();
    hide Pow;
    PowOfPow2(WORD_BITS, dmax);
    Pow2Monotone(bits, WORD_BITS * dmax);
    var most := Pow(Pow(2, WORD_BITS), dmax);
    if WORD_BITS * dmax < bits {
      Pow2Monotone(WORD_BITS * dmax, bits);
      assert Below(most, 2, bits) && !Below(most, Pow(2, WORD_BITS), dmax);
    }
  }
}
