/** Bytes, byte order and the XOR transform of section 5.3 of RFC 6455.

    A byte is a number below 256 and the bit operations of the C code are written out on it.
    Lengths are natural numbers, and `BigEndian` is the value a big-endian field denotes.
 */
module Bytes {

  type byte = n: int | 0 <= n < 256

  datatype Option<+T> = None | Some(value: T)

  // ---------------------------------------------------------------- bits

  /** `b & 0x80 == 0x80` */
  predicate Bit7(b: byte) {
    b >= 128
  }

  /** `b & 0x7F` */
  function Low7(b: byte): byte {
    b % 128
  }

  /** `b & 0x0F` */
  function Low4(b: byte): byte {
    b % 16
  }

  /** Exclusive or of the lowest `width` bits. */
  function XorBits(a: nat, b: nat, width: nat): nat {
    if width == 0 then 0 else
    (if a % 2 == b % 2 then 0 else 1) + 2 * XorBits(a / 2, b / 2, width - 1)
  }

  lemma {:induction false} XorBitsBound(a: nat, b: nat, width: nat)
    ensures XorBits(a, b, width) < Pow2(width)
  {
    if width > 0 {
      XorBitsBound(a / 2, b / 2, width - 1);
    }
  }

  function Pow2(k: nat): nat {
    if k == 0 then 1 else 2 * Pow2(k - 1)
  }

  /** `a ^ b` on unsigned bytes */
  function Xor(a: byte, b: byte): byte {
    XorBitsBound(a, b, 8);
    assert Pow2(8) == 256;
    XorBits(a, b, 8)
  }

  lemma {:induction false} XorBitsCancel(a: nat, k: nat, l: nat, width: nat)
    requires a < Pow2(width) && k < Pow2(width) && l < Pow2(width)
    ensures XorBits(XorBits(a, k, width), l, width) == a <==> k == l
  {
    if width > 0 {
      XorBitsCancel(a / 2, k / 2, l / 2, width - 1);
      assert XorBits(a, k, width) / 2 == XorBits(a / 2, k / 2, width - 1);
    }
  }

  /** Xoring with k and then with l gives the byte back exactly when k and l are the same. */
  lemma XorCancels(a: byte, k: byte, l: byte)
    ensures Xor(Xor(a, k), l) == a <==> k == l
  {
    assert Pow2(8) == 256;
    XorBitsCancel(a, k, l, 8);
  }

  lemma XorStep(a: nat, b: nat, width: nat)
    requires width > 0
    ensures XorBits(a, b, width) == (if a % 2 == b % 2 then 0 else 1) + 2 * XorBits(a / 2, b / 2, width - 1)
  {
  }

  /** The lowest four bits, written out. */
  lemma XorFourBits(a: nat, b: nat, width: nat)
    ensures XorBits(a, b, width + 4)
         == (if a % 2 == b % 2 then 0 else 1) + (if a / 2 % 2 == b / 2 % 2 then 0 else 2)
            + (if a / 4 % 2 == b / 4 % 2 then 0 else 4) + (if a / 8 % 2 == b / 8 % 2 then 0 else 8)
            + 16 * XorBits(a / 16, b / 16, width)
  {
    hide XorBits;
    XorStep(a, b, width + 4);
    XorStep(a / 2, b / 2, width + 3);
    XorStep(a / 4, b / 4, width + 2);
    XorStep(a / 8, b / 8, width + 1);
    assert a / 2 / 2 == a / 4 && a / 4 / 2 == a / 8 && a / 8 / 2 == a / 16;
    assert b / 2 / 2 == b / 4 && b / 4 / 2 == b / 8 && b / 8 / 2 == b / 16;
  }

  /** Exclusive or, bit by bit: each is set in the result exactly when it differs in the operands. */
  lemma XorIsSum(a: byte, k: byte)
    ensures var r: int := Xor(a, k);
            r == (if a % 2 == k % 2 then 0 else 1) + (if a / 2 % 2 == k / 2 % 2 then 0 else 2)
                 + (if a / 4 % 2 == k / 4 % 2 then 0 else 4) + (if a / 8 % 2 == k / 8 % 2 then 0 else 8)
                 + (if a / 16 % 2 == k / 16 % 2 then 0 else 16) + (if a / 32 % 2 == k / 32 % 2 then 0 else 32)
                 + (if a / 64 % 2 == k / 64 % 2 then 0 else 64) + (if a / 128 % 2 == k / 128 % 2 then 0 else 128)
  {
    XorFourBits(a, k, 4);
    XorFourBits(a / 16, k / 16, 0);
    assert XorBits(a / 16 / 16, k / 16 / 16, 0) == 0;
    hide XorBits;
    assert a / 16 / 2 == a / 32 && a / 16 / 4 == a / 64 && a / 16 / 8 == a / 128;
    assert k / 16 / 2 == k / 32 && k / 16 / 4 == k / 64 && k / 16 / 8 == k / 128;
  }

  lemma LastDigit(d: nat, h: nat)
    requires d < 2
    ensures (d + 2 * h) % 2 == d && (d + 2 * h) / 2 == h
  {
  }

  lemma FourDigits(d0: nat, d1: nat, d2: nat, d3: nat, h: nat)
    requires d0 < 2 && d1 < 2 && d2 < 2 && d3 < 2
    ensures var r := d0 + 2 * d1 + 4 * d2 + 8 * d3 + 16 * h;
            && r % 2 == d0 && r / 2 % 2 == d1 && r / 4 % 2 == d2 && r / 8 % 2 == d3
            && r / 16 == h && r / 32 == h / 2 && r / 64 == h / 4 && r / 128 == h / 8
  {
    var r3 := d3 + 2 * h;
    var r2 := d2 + 2 * r3;
    var r1 := d1 + 2 * r2;
    LastDigit(d3, h);
    LastDigit(d2, r3);
    LastDigit(d1, r2);
    LastDigit(d0, r1);
  }

  function Differ(a: byte, k: byte, p: nat): (d: nat)
    requires p > 0
    ensures d < 2
  {
    if a / p % 2 == k / p % 2 then 0 else 1
  }

  lemma XorDigits(a: byte, k: byte)
    ensures var r: int := Xor(a, k);
            r == Differ(a, k, 1) + 2 * Differ(a, k, 2) + 4 * Differ(a, k, 4) + 8 * Differ(a, k, 8)
                 + 16 * (Differ(a, k, 16) + 2 * Differ(a, k, 32) + 4 * Differ(a, k, 64) + 8 * Differ(a, k, 128))
  {
    XorIsSum(a, k);
    assert a / 1 == a && k / 1 == k;
  }

  lemma XorDigit(a: byte, k: byte, p: nat)
    requires p in {1, 2, 4, 8, 16, 32, 64, 128}
    ensures Xor(a, k) / p % 2 == Differ(a, k, p)
  {
    hide *;
    XorDigits(a, k);
    var high := Differ(a, k, 16) + 2 * Differ(a, k, 32) + 4 * Differ(a, k, 64) + 8 * Differ(a, k, 128);
    FourDigits(Differ(a, k, 1), Differ(a, k, 2), Differ(a, k, 4), Differ(a, k, 8), high);
    FourDigits(Differ(a, k, 16), Differ(a, k, 32), Differ(a, k, 64), Differ(a, k, 128), 0);
  }

  /** The bit of weight p. */
  lemma XorIsBitwise(a: byte, k: byte, p: nat)
    requires p in {1, 2, 4, 8, 16, 32, 64, 128}
    ensures Xor(a, k) / p % 2 == if a / p % 2 == k / p % 2 then 0 else 1
  {
    hide Xor;
    XorDigit(a, k, p);
  }

  /** The three tests above are the machine's operators. */
  lemma MaskedBits(b: bv8)
    ensures Bit7(b as int) <==> b & 0x80 == 0x80
    ensures Low7(b as int) == (b & 0x7F) as int
    ensures Low4(b as int) == (b & 0x0F) as int
  {
  }

  // ---------------------------------------------------------------- sequences

  function Flatten<T>(parts: seq<seq<T>>): seq<T> {
    if parts == [] then [] else parts[0] + Flatten(parts[1..])
  }

  lemma Associative<T>(a: seq<T>, b: seq<T>, c: seq<T>)
    ensures (a + b) + c == a + (b + c)
  {
  }

  lemma Cut<T>(s: seq<T>, i: nat)
    requires i <= |s|
    ensures s == s[..i] + s[i..]
  {
  }

  lemma {:induction false} FlattenAppend<T>(a: seq<seq<T>>, b: seq<seq<T>>)
    ensures Flatten(a + b) == Flatten(a) + Flatten(b)
  {
    if a == [] {
      assert a + b == b;
    } else {
      FlattenAppend(a[1..], b);
      assert (a + b)[1..] == a[1..] + b;
      Associative(a[0], Flatten(a[1..]), Flatten(b));
    }
  }

  /** Two concatenations cut at the same place are equal exactly when their parts are. */
  lemma ConcatEqual<T>(a: seq<T>, b: seq<T>, c: seq<T>, d: seq<T>)
    requires |a| == |c|
    ensures a + b == c + d <==> a == c && b == d
  {
    if a + b == c + d {
      assert a == (a + b)[..|a|] == c;
      assert b == (a + b)[|a|..] == d;
    }
  }

  /** The C string at the start of `s`: what comes before the first NUL. */
  function CString(s: seq<byte>): (r: seq<byte>)
    ensures |r| <= |s| && r == s[..|r|] && 0 !in r
    ensures |r| < |s| ==> s[|r|] == 0
  {
    if s == [] || s[0] == 0 then [] else [s[0]] + CString(s[1..])
  }

  lemma {:induction false} CStringWhole(s: seq<byte>)
    ensures CString(s) == s <==> 0 !in s
  {
    if s != [] {
      CStringWhole(s[1..]);
      assert s == [s[0]] + s[1..];
    }
  }

  lemma {:induction false} CStringAt(s: seq<byte>, n: nat)
    requires n <= |s| && 0 !in s[..n] && (n < |s| ==> s[n] == 0)
    ensures CString(s) == s[..n]
  {
    if n > 0 {
      assert s[0] == s[..n][0];
      assert s[1..][..n - 1] == s[..n][1..];
      CStringAt(s[1..], n - 1);
    }
  }

  /** Up to its first NUL a string does not depend on what follows. */
  lemma {:induction false} CStringAppend(s: seq<byte>, more: seq<byte>)
    ensures CString(s + more) == if 0 in s then CString(s) else s + CString(more)
  {
    if s == [] {
      assert s + more == more;
    } else {
      assert (s + more)[1..] == s[1..] + more;
      CStringAppend(s[1..], more);
    }
  }

  /** A C string with its terminator is read back. */
  lemma CStringTerminated(s: seq<byte>)
    ensures CString(s + [0]) == CString(s)
  {
    CStringAppend(s, [0]);
    CStringWhole(s);
    assert CString([0]) == [];
    assert s + [] == s;
  }

  // ---------------------------------------------------------------- byte order

  function Pow256(k: nat): (p: nat)
    ensures p > 0
  {
    if k == 0 then 1 else 256 * Pow256(k - 1)
  }

  function BigEndian(b: seq<byte>): nat {
    if b == [] then 0 else BigEndian(b[..|b| - 1]) * 256 + b[|b| - 1]
  }

  function LittleEndian(b: seq<byte>): nat {
    if b == [] then 0 else b[0] + 256 * LittleEndian(b[1..])
  }

  function ToBigEndian(n: nat, k: nat): (b: seq<byte>)
    ensures |b| == k
  {
    if k == 0 then [] else ToBigEndian(n / 256, k - 1) + [n % 256]
  }

  function Reverse(b: seq<byte>): (r: seq<byte>)
    ensures |r| == |b|
    ensures forall i :: 0 <= i < |b| ==> r[i] == b[|b| - 1 - i]
  {
    if b == [] then [] else [b[|b| - 1]] + Reverse(b[..|b| - 1])
  }

  /** Reading the reversed bytes in little-endian order gives the big-endian value. */
  lemma {:induction false} LittleEndianOfReverse(b: seq<byte>)
    ensures LittleEndian(Reverse(b)) == BigEndian(b)
  {
    if b != [] {
      LittleEndianOfReverse(b[..|b| - 1]);
      assert Reverse(b)[1..] == Reverse(b[..|b| - 1]);
    }
  }

  lemma {:induction false} BigEndianBound(b: seq<byte>)
    ensures BigEndian(b) < Pow256(|b|)
  {
    if b != [] {
      BigEndianBound(b[..|b| - 1]);
    }
  }

  /** A number that fits in k bytes is read back from its k-byte big-endian form. */
  lemma {:induction false} BigEndianOfToBigEndian(n: nat, k: nat)
    requires n < Pow256(k)
    ensures BigEndian(ToBigEndian(n, k)) == n
  {
    if k > 0 {
      BigEndianOfToBigEndian(n / 256, k - 1);
      var b := ToBigEndian(n, k);
      assert b[..k - 1] == ToBigEndian(n / 256, k - 1);
      }
  }

  /** Any k bytes are the k-byte big-endian form of their value. */
  lemma {:induction false} ToBigEndianOfBigEndian(b: seq<byte>)
    ensures ToBigEndian(BigEndian(b), |b|) == b
  {
    if b != [] {
      var front, last := b[..|b| - 1], b[|b| - 1];
      ToBigEndianOfBigEndian(front);
      assert BigEndian(b) / 256 == BigEndian(front);
      assert BigEndian(b) % 256 == last;
      assert b == front + [last];
    }
  }

  lemma ShortFields()
    ensures Pow256(2) == 0x1_0000
    ensures Pow256(8) == 0x1_0000_0000_0000_0000
  {
    assert Pow256(4) == 0x1_0000_0000;
  }

  // ---------------------------------------------------------------- masking

  /** The key octet that meets octet i of data whose first octet has phase `phase`. */
  function KeyOctet(key: seq<byte>, phase: nat, i: nat): byte
    requires |key| == 4
  {
    key[(phase + i) % 4]
  }

  /** Section 5.3 of RFC 6455, started at octet `phase` of the masking key. */
  function Mask(data: seq<byte>, key: seq<byte>, phase: nat): (r: seq<byte>)
    requires |key| == 4
    ensures |r| == |data|
    ensures forall i :: 0 <= i < |data| ==> r[i] == Xor(data[i], KeyOctet(key, phase, i))
  {
    seq(|data|, i requires 0 <= i < |data| => Xor(data[i], KeyOctet(key, phase, i)))
  }

  /** Section 5.3 of RFC 6455 bit by bit: octet i of the transformed data differs from octet i of the
      data in exactly the bits that are set in octet i mod 4 of the key. */
  lemma MaskIsBitwise(data: seq<byte>, key: seq<byte>, i: nat, p: nat)
    requires |key| == 4 && i < |data| && p in {1, 2, 4, 8, 16, 32, 64, 128}
    ensures |Mask(data, key, 0)| == |data|
    ensures Mask(data, key, 0)[i] / p % 2 == if data[i] / p % 2 == key[i % 4] / p % 2 then 0 else 1
  {
    XorIsBitwise(data[i], key[i % 4], p);
  }

  /** For n octets the key looks the same from phase p and from phase q. */
  predicate PhasesAgree(key: seq<byte>, p: nat, q: nat, n: nat)
    requires |key| == 4
  {
    forall i :: 0 <= i < n ==> KeyOctet(key, p, i) == KeyOctet(key, q, i)
  }

  lemma MaskTwiceAt(data: seq<byte>, key: seq<byte>, p: nat, q: nat, i: nat)
    requires |key| == 4 && i < |data|
    ensures Mask(Mask(data, key, p), key, q)[i] == data[i] <==> KeyOctet(key, p, i) == KeyOctet(key, q, i)
  {
    var once := Mask(data, key, p);
    var a, k, l := data[i], KeyOctet(key, p, i), KeyOctet(key, q, i);
    XorCancels(a, k, l);
    var b := once[i];
    assert b == Xor(a, k);
    var c := Mask(once, key, q)[i];
    assert c == Xor(b, l);
  }

  /** Unmasking with phase q what was masked with phase p gives the data back exactly when
      the key octets that meet are the same. */
  lemma MaskTwice(data: seq<byte>, key: seq<byte>, p: nat, q: nat)
    requires |key| == 4
    ensures Mask(Mask(data, key, p), key, q) == data <==> PhasesAgree(key, p, q, |data|)
  {
    var twice := Mask(Mask(data, key, p), key, q);
    assert twice == data <==> forall i :: 0 <= i < |data| ==> twice[i] == data[i];
    forall i | 0 <= i < |data|
      ensures twice[i] == data[i] <==> KeyOctet(key, p, i) == KeyOctet(key, q, i)
    {
      MaskTwiceAt(data, key, p, q, i);
    }
  }

  /** Phases that differ by a multiple of four agree for every key. */
  lemma WholePeriods(key: seq<byte>, p: nat, n: nat)
    requires |key| == 4 && p % 4 == 0
    ensures PhasesAgree(key, p, 0, n)
  {
    forall i: nat | i < n
      ensures KeyOctet(key, p, i) == KeyOctet(key, 0, i)
    {
      assert (p + i) % 4 == i % 4;
    }
  }

  lemma KeyShift(key: seq<byte>, phase: nat, n: nat, i: nat)
    requires |key| == 4
    ensures KeyOctet(key, phase, n + i) == KeyOctet(key, phase + n, i) == KeyOctet(key, (phase + n) % 4, i)
  {
    assert ((phase + n) % 4 + i) % 4 == (phase + n + i) % 4;
  }

  lemma MaskTail(a: seq<byte>, b: seq<byte>, key: seq<byte>, phase: nat)
    requires |key| == 4
    ensures Mask(a + b, key, phase)[|a|..] == Mask(b, key, (phase + |a|) % 4)
  {
    var whole, tail := Mask(a + b, key, phase)[|a|..], Mask(b, key, (phase + |a|) % 4);
    forall i | 0 <= i < |b|
      ensures whole[i] == tail[i]
    {
      KeyShift(key, phase, |a|, i);
    }
  }

  /** The transform can be cut anywhere when the phase is carried over the cut. */
  lemma MaskSplits(a: seq<byte>, b: seq<byte>, key: seq<byte>, phase: nat)
    requires |key| == 4
    ensures Mask(a + b, key, phase) == Mask(a, key, phase) + Mask(b, key, (phase + |a|) % 4)
  {
    var whole := Mask(a + b, key, phase);
    MaskTail(a, b, key, phase);
    assert whole[..|a|] == Mask(a, key, phase);
    Cut(whole, |a|);
  }

  /** Masked data cut after n octets: the second part is masked from phase + n. */
  lemma MaskCut(data: seq<byte>, key: seq<byte>, phase: nat, n: nat)
    requires |key| == 4 && n <= |data|
    ensures Mask(data, key, phase)[..n] == Mask(data[..n], key, phase)
    ensures Mask(data, key, phase)[n..] == Mask(data[n..], key, phase + n)
  {
    var tail, rest := Mask(data, key, phase)[n..], Mask(data[n..], key, phase + n);
    forall i | 0 <= i < |data| - n
      ensures tail[i] == rest[i]
    {
      KeyShift(key, phase, n, i);
    }
  }
}
