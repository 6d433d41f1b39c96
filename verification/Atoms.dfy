/** Keys and values of the B+tree store: numbers and byte strings, their order and their encoding. */
module Atoms {
  import opened Bytes
  import opened Options

  const SIGN_BIT: int := 0x8000_0000_0000_0000
  const INFINITY: int := 0x7FF0_0000_0000_0000

  predicate IsNaN(bits: U64) {
    bits % SIGN_BIT > INFINITY
  }

  /** A binary64 number other than NaN, as the bit pattern a `double` has in memory. */
  type Double = bits: U64 | !IsNaN(bits) witness 0

  /** A string whose length fits the `int length` of an interpreter string. */
  type Text = s: seq<Byte> | |s| <= 0x7FFF_FFFF witness []

  datatype Atom = Num(bits: Double) | Str(chars: Text)

  /** The values a program can hand to the store. */
  datatype HostValue = HostNumber(raw: U64) | HostString(text: Text) | HostOther

  /** `atom_from_value`: only numbers that are not NaN and strings are accepted. */
  function AtomFromValue(v: HostValue): (r: Option<Atom>)
    ensures r.Some? <==> v.HostString? || (v.HostNumber? && !IsNaN(v.raw))
  {
    match v
    case HostNumber(raw) => if IsNaN(raw) then None else Some(Num(raw))
    case HostString(text) => Some(Str(text))
    case HostOther => None
  }

  /** `atom_to_value` */
  function AtomToValue(a: Atom): HostValue {
    match a
    case Num(bits) => HostNumber(bits)
    case Str(chars) => HostString(chars)
  }

  /** What the store accepts it gives back unchanged, and every atom stands for a value it accepts. */
  lemma ValueBack(v: HostValue, a: Atom)
    ensures AtomFromValue(v) == Some(a) <==> v == AtomToValue(a)
  {
  }

  // ----- order -----

  /** Position of a non-NaN double on the number line: the IEEE 754 order, with both zeros at 0. */
  function NumberRank(bits: Double): int {
    if bits < SIGN_BIT then bits else SIGN_BIT - bits
  }

  function Memcmp(a: seq<Byte>, b: seq<Byte>): int
    requires |a| == |b|
  {
    if a == [] then 0
    else if a[0] < b[0] then -1
    else if a[0] > b[0] then 1
    else Memcmp(a[1..], b[1..])
  }

  function Compare(a: Atom, b: Atom): int {
    if a.Num? && b.Str? then -1
    else if a.Str? && b.Num? then 1
    else if a.Num? then
      if NumberRank(a.bits) < NumberRank(b.bits) then -1
      else if NumberRank(a.bits) > NumberRank(b.bits) then 1
      else 0
    else
      var n := if |a.chars| < |b.chars| then |a.chars| else |b.chars|;
      var c := Memcmp(a.chars[..n], b.chars[..n]);
      if c != 0 then c
      else if |a.chars| < |b.chars| then -1
      else if |a.chars| > |b.chars| then 1
      else 0
  }

  /** What two atoms must share to be the same key: -0.0 and 0.0 are one key. */
  datatype Key = NumKey(rank: int) | StrKey(chars: seq<Byte>)

  function KeyOf(a: Atom): Key {
    match a
    case Num(bits) => NumKey(NumberRank(bits))
    case Str(chars) => StrKey(chars)
  }

  /** Dictionary order by recursion on both strings at once. */
  function LexCompare(a: seq<Byte>, b: seq<Byte>): int {
    if a == [] && b == [] then 0
    else if a == [] then -1
    else if b == [] then 1
    else if a[0] < b[0] then -1
    else if a[0] > b[0] then 1
    else LexCompare(a[1..], b[1..])
  }

  lemma {:induction false} MemcmpIsLex(a: seq<Byte>, b: seq<Byte>)
    ensures var n := if |a| < |b| then |a| else |b|;
            var c := Memcmp(a[..n], b[..n]);
            LexCompare(a, b) == if c != 0 then c
                                else if |a| < |b| then -1
                                else if |a| > |b| then 1
                                else 0
  {
    if a != [] && b != [] && a[0] == b[0] {
      var n := if |a| < |b| then |a| else |b|;
      assert a[..n][1..] == a[1..][..n - 1] && b[..n][1..] == b[1..][..n - 1];
      MemcmpIsLex(a[1..], b[1..]);
    }
  }

  lemma {:induction false} LexZeroIsEqual(a: seq<Byte>, b: seq<Byte>)
    ensures LexCompare(a, b) == 0 <==> a == b
  {
    if a != [] && b != [] && a[0] == b[0] {
      LexZeroIsEqual(a[1..], b[1..]);
      assert a == [a[0]] + a[1..] && b == [b[0]] + b[1..];
    }
  }

  lemma {:induction false} LexFlips(a: seq<Byte>, b: seq<Byte>)
    ensures LexCompare(b, a) == -LexCompare(a, b)
  {
    if a != [] && b != [] {
      LexFlips(a[1..], b[1..]);
    }
  }

  lemma {:induction false} LexTransitive(a: seq<Byte>, b: seq<Byte>, c: seq<Byte>)
    requires LexCompare(a, b) < 0 && LexCompare(b, c) < 0
    ensures LexCompare(a, c) < 0
  {
    if a != [] && b != [] && c != [] && a[0] == b[0] == c[0] {
      LexTransitive(a[1..], b[1..], c[1..]);
    }
  }

  /** The comparison says "same" exactly for atoms with the same key. */
  lemma CompareZero(a: Atom, b: Atom)
    ensures Compare(a, b) == 0 <==> KeyOf(a) == KeyOf(b)
  {
    if a.Str? && b.Str? {
      MemcmpIsLex(a.chars, b.chars);
      LexZeroIsEqual(a.chars, b.chars);
    }
  }

  lemma CompareFlips(a: Atom, b: Atom)
    ensures Compare(b, a) == -Compare(a, b)
  {
    if a.Str? && b.Str? {
      MemcmpIsLex(a.chars, b.chars);
      MemcmpIsLex(b.chars, a.chars);
      LexFlips(a.chars, b.chars);
    }
  }

  /** Together with CompareFlips and CompareZero: a total order on keys. */
  lemma CompareTransitive(a: Atom, b: Atom, c: Atom)
    requires Compare(a, b) <= 0 && Compare(b, c) <= 0
    ensures Compare(a, c) <= 0
    ensures Compare(a, b) < 0 || Compare(b, c) < 0 ==> Compare(a, c) < 0
  {
    if a.Str? && c.Str? {
      MemcmpIsLex(a.chars, b.chars);
      MemcmpIsLex(b.chars, c.chars);
      MemcmpIsLex(a.chars, c.chars);
      LexZeroIsEqual(a.chars, b.chars);
      LexZeroIsEqual(b.chars, c.chars);
      if LexCompare(a.chars, b.chars) < 0 && LexCompare(b.chars, c.chars) < 0 {
        LexTransitive(a.chars, b.chars, c.chars);
      }
    }
  }

  // ----- encoding -----

  const TAG_NUMBER: Byte := 1
  const TAG_STRING: Byte := 2

  function EncodedSize(a: Atom): U32 {
    match a
    case Num(_) => 9
    case Str(chars) => 5 + |chars|
  }

  function Encode(a: Atom): (s: seq<Byte>)
    ensures |s| == EncodedSize(a)
  {
    match a
    case Num(bits) => [TAG_NUMBER] + Le64(bits)
    case Str(chars) => [TAG_STRING] + Le32(|chars|) + chars
  }

  datatype Decoded = Decoded(atom: Atom, used: nat)

  /** Decodes the atom at the front of `s`. */
  function Decode(s: seq<Byte>): Option<Decoded> {
    if |s| < 1 then None
    else if s[0] == TAG_NUMBER then
      if |s| < 9 || IsNaN(ReadU64(s, 1)) then None
      else Some(Decoded(Num(ReadU64(s, 1)), 9))
    else if s[0] == TAG_STRING then
      if |s| < 5 then None
      else
        var len := ReadU32(s, 1);
        if |s| < 5 + len || len > 0x7FFF_FFFF then None
        else Some(Decoded(Str(s[5..5 + len]), 5 + len))
    else None
  }

  /** Decoding undoes encoding, whatever bytes follow the record. */
  lemma DecodeEncode(a: Atom, rest: seq<Byte>)
    ensures Decode(Encode(a) + rest) == Some(Decoded(a, EncodedSize(a)))
  {
    var s := Encode(a) + rest;
    match a
    case Num(bits) =>
      assert s[1..9] == Le64(bits);
      Read64Back(s, 1, bits);
    case Str(chars) =>
      assert s[1..5] == Le32(|chars|);
      Read32Back(s, 1, |chars|);
      assert s[5..5 + |chars|] == chars;
  }
}
