/** The order of keys, told from what a double stands for and from the bytes of a string. */
module Numbers {
  import opened Bytes
  import opened Atoms

  const FRACTION: int := 0x10_0000_0000_0000

  /** The power of two with this exponent. */
  function Power(n: int): (p: real)
    ensures p > 0.0
    decreases if n < 0 then -n else n
  {
    if n == 0 then 1.0 else if n > 0 then 2.0 * Power(n - 1) else Power(n + 1) / 2.0
  }

  predicate Finite(bits: Double) {
    bits % SIGN_BIT != INFINITY
  }

  function Times(p: real, x: real): real {
    p * x
  }

  /** The fraction field as a number below 1. */
  function Part(fraction: nat): real {
    fraction as real / FRACTION as real
  }

  /** The number with these fields of exponent and fraction, its sign aside; exponent 0 is for the subnormal ones. */
  function Magnitude(exponent: nat, fraction: nat): real {
    if exponent == 0 then Times(Power(-1022), Part(fraction)) else Times(Power(exponent - 1023), 1.0 + Part(fraction))
  }

  /** The number a finite double stands for (section 3.4 of IEEE 754): 1 bit of sign, 11 of exponent, 52 of fraction. */
  function NumberOf(bits: Double): real
    requires Finite(bits)
  {
    var m := Magnitude(bits % SIGN_BIT / FRACTION, bits % FRACTION);
    if bits / SIGN_BIT == 1 then -m else m
  }

  lemma {:induction false} PowerGrows(m: int, n: int)
    requires m <= n
    ensures Power(m) <= Power(n)
    decreases n - m
  {
    if m < n {
      PowerGrows(m + 1, n);
      NextPower(m);
    }
  }

  lemma NextPower(n: int)
    ensures Power(n + 1) == 2.0 * Power(n)
  {
  }

  lemma Scaled(p: real, x: real, y: real)
    requires p > 0.0 && x < y
    ensures Times(p, x) < Times(p, y)
  {
  }

  lemma Multiples(p: real)
    ensures Times(p, 0.0) == 0.0 && Times(p, 1.0) == p && Times(p, 2.0) == 2.0 * p
  {
  }

  lemma PartIs(f: nat)
    requires f < FRACTION
    ensures 0.0 <= Part(f) < 1.0
    ensures f > 0 ==> Part(f) > 0.0
    ensures Part(0) == 0.0
  {
  }

  lemma Parts(f: nat, g: nat)
    requires f < g
    ensures Part(f) < Part(g)
  {
  }

  lemma Between(p: real, f: nat)
    requires p > 0.0 && f < FRACTION
    ensures 0.0 <= Times(p, Part(f)) < p <= Times(p, 1.0 + Part(f)) < 2.0 * p
  {
    hide Times, Part;
    PartIs(f);
    Multiples(p);
    Scaled(p, Part(f), 1.0);
    Scaled(p, 1.0 + Part(f), 2.0);
    if f > 0 {
      Scaled(p, 0.0, Part(f));
      Scaled(p, 1.0, 1.0 + Part(f));
    }
  }

  /** Numbers with an exponent below another one are smaller than all numbers with that. */
  lemma BelowNext(e: nat, f: nat)
    requires f < FRACTION
    ensures Magnitude(e, f) >= 0.0
    ensures e == 0 ==> Magnitude(e, f) < Power(-1022)
    ensures e > 0 ==> Power(e - 1023) <= Magnitude(e, f) < Power(e - 1022)
  {
    hide Power, Times, Part;
    if e == 0 {
      Between(Power(-1022), f);
    } else {
      Between(Power(e - 1023), f);
      NextPower(e - 1023);
    }
  }

  lemma MagnitudeGrows(e: nat, f: nat, e': nat, f': nat)
    requires f < FRACTION && f' < FRACTION && (e < e' || (e == e' && f < f'))
    ensures Magnitude(e, f) < Magnitude(e', f')
  {
    hide Power, Times, Part;
    if e == e' {
      Parts(f, f');
      if e == 0 {
        Scaled(Power(-1022), Part(f), Part(f'));
      } else {
        Scaled(Power(e - 1023), 1.0 + Part(f), 1.0 + Part(f'));
      }
    } else {
      BelowNext(e, f);
      BelowNext(e', f');
      if e == 0 { PowerGrows(-1022, e' - 1023); } else { PowerGrows(e - 1022, e' - 1023); }
    }
  }

  /** Without the sign bits patterns are in the order of their magnitudes. */
  lemma PatternsInOrder(m: nat, n: nat)
    requires m < n
    ensures Magnitude(m / FRACTION, m % FRACTION) < Magnitude(n / FRACTION, n % FRACTION)
  {
    hide Magnitude;
    MagnitudeGrows(m / FRACTION, m % FRACTION, n / FRACTION, n % FRACTION);
  }

  lemma SignAndPattern(bits: U64)
    ensures var m := bits % SIGN_BIT;
            && (bits / SIGN_BIT == 1 <==> bits >= SIGN_BIT) && bits % FRACTION == m % FRACTION
            && m == if bits >= SIGN_BIT then bits - SIGN_BIT else bits
  {
  }

  lemma ZeroMagnitude(m: nat)
    ensures Magnitude(m / FRACTION, m % FRACTION) >= 0.0
    ensures Magnitude(m / FRACTION, m % FRACTION) == 0.0 <==> m == 0
  {
    BelowNext(m / FRACTION, m % FRACTION);
    BelowNext(0, 0);
    PartIs(0);
    Multiples(Power(-1022));
    hide Magnitude, Power;
    if m > 0 { PatternsInOrder(0, m); }
  }

  /** Finite doubles compare as the numbers they stand for: -0.0 and 0.0 are one key. */
  lemma NumbersInOrder(a: Double, b: Double)
    requires Finite(a) && Finite(b)
    ensures Compare(Num(a), Num(b)) < 0 <==> NumberOf(a) < NumberOf(b)
    ensures Compare(Num(a), Num(b)) == 0 <==> NumberOf(a) == NumberOf(b)
    ensures Compare(Num(a), Num(b)) > 0 <==> NumberOf(a) > NumberOf(b)
  {
    SignAndPattern(a);
    SignAndPattern(b);
    var m, n := a % SIGN_BIT, b % SIGN_BIT;
    hide Magnitude;
    ZeroMagnitude(m);
    ZeroMagnitude(n);
    if m < n { PatternsInOrder(m, n); }
    if n < m { PatternsInOrder(n, m); }
  }

  /** The infinities are at the two ends. */
  lemma InfinitiesAtTheEnds(a: Double)
    ensures Compare(Num(a), Num(INFINITY)) == if a == INFINITY then 0 else -1
    ensures Compare(Num(SIGN_BIT + INFINITY), Num(a)) == if a == SIGN_BIT + INFINITY then 0 else -1
    ensures Finite(a) <==> a != INFINITY && a != SIGN_BIT + INFINITY
  {
    SignAndPattern(a);
    assert !IsNaN(a) && !IsNaN(INFINITY) && !IsNaN(SIGN_BIT + INFINITY);
  }

  lemma NumbersBeforeStrings(a: Double, s: Text)
    ensures Compare(Num(a), Str(s)) < 0 && Compare(Str(s), Num(a)) > 0
  {
  }

  /** The first byte in which two strings differ decides. */
  lemma FirstDifferenceDecides(a: Text, b: Text, i: nat)
    requires i < |a| && i < |b| && a[..i] == b[..i] && a[i] != b[i]
    ensures Compare(Str(a), Str(b)) < 0 <==> a[i] < b[i]
    ensures Compare(Str(a), Str(b)) > 0 <==> a[i] > b[i]
  {
    MemcmpIsLex(a, b);
    LexDiffers(a, b, i);
  }

  lemma {:induction false} LexDiffers(a: seq<Byte>, b: seq<Byte>, i: nat)
    requires i < |a| && i < |b| && a[..i] == b[..i] && a[i] != b[i]
    ensures LexCompare(a, b) == if a[i] < b[i] then -1 else 1
    decreases i
  {
    if i > 0 {
      assert a[0] == a[..i][0] == b[..i][0] == b[0];
      assert a[1..][..i - 1] == a[..i][1..] && b[1..][..i - 1] == b[..i][1..];
      LexDiffers(a[1..], b[1..], i - 1);
    }
  }

  /** Without a difference the length decides. */
  lemma PrefixComesFirst(a: Text, b: Text)
    requires a <= b
    ensures Compare(Str(a), Str(b)) == if |a| < |b| then -1 else 0
  {
    MemcmpIsLex(a, b);
    LexPrefix(a, b);
  }

  lemma {:induction false} LexPrefix(a: seq<Byte>, b: seq<Byte>)
    requires a <= b
    ensures LexCompare(a, b) == if |a| < |b| then -1 else 0
    decreases |a|
  {
    if a != [] { LexPrefix(a[1..], b[1..]); }
  }
}
