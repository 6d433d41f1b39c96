/** JSON arrays with nulls in them: which of the values behind a null the decoder keeps. */
module JsonNulls {
  import opened TableArray
  import opened Json
  import opened JsonRoundTrip

  /** A null, or a value that is read back as it was written. */
  ghost predicate Items(items: seq<Value>) {
    forall i :: 0 <= i < |items| ==> items[i].Nil? || Plain(items[i], 1)
  }

  ghost function ArrayText(items: seq<Value>, lib: Lib): string {
    "[" + EncodeItems(Table(items, []), |items|, 0, lib) + "]"
  }

  // ----- the decoder stores the items one by one -----

  ghost function Stored(items: seq<Value>, n: nat): (a: ArrayPart<Value>)
    requires n <= |items|
    ensures |a.values| <= n
  {
    if n == 0 then ArrayPart([], 0)
    else
      StoreSize(Stored(items, n - 1), n, items[n - 1]);
      Store(Stored(items, n - 1), n, items[n - 1], Nil)
  }

  lemma StoreSize(a: ArrayPart<Value>, index: nat, v: Value)
    requires |a.values| < index
    ensures |Store(a, index, v, Nil).values| <= index
  {
  }

  lemma ItemBack(v: Value, rest: string, lib: Lib)
    requires Reads(lib) && (v.Nil? || Plain(v, 1)) && Follows(rest)
    ensures ParseValue(Encode(v, 1, lib) + rest, lib) == Ok(v, rest)
  {
    if v.Nil? {
      hide ParseItems, ParseFields, ParseString;
      var t := "null" + rest;
      assert Skip(t) == t && "null" <= t && t[4..] == rest;
    } else {
      hide *;
      RoundTrip(v, 1, rest, lib);
    }
  }

  /** The text from item `i` on. */
  ghost function TextFrom(items: seq<Value>, i: nat, lib: Lib): string
    requires i < |items|
  {
    Encode(items[i], 1, lib) + RestFrom(items, i + 1, lib)
  }

  ghost function RestFrom(items: seq<Value>, i: nat, lib: Lib): string
    requires i <= |items|
  {
    ItemsFrom(Table(items, []), i, 0, lib) + "]" + ""
  }

  lemma RestIs(items: seq<Value>, i: nat, lib: Lib)
    requires i <= |items|
    ensures var rest := RestFrom(items, i, lib);
            && Follows(rest) && rest != [] && Skip(rest) == rest
            && if i == |items| then rest == "]" else rest[0] == ',' && rest[1..] == TextFrom(items, i, lib)
  {
    hide Encode, ItemsFrom;
    ItemFollows(Table(items, []), i, 0, "", lib);
  }

  lemma {:induction false} ItemsParsed(items: seq<Value>, i: nat, lib: Lib)
    requires Reads(lib) && Items(items) && i < |items|
    ensures ParseItems(TextFrom(items, i, lib), Stored(items, i), i + 1, lib) == Ok(Stored(items, |items|), "]")
    decreases |items| - i
  {
    hide Encode, ItemsFrom, RestFrom, Stored, Skip, ParseItems, ParseValue, Reads, Items, Expect, Plain, Follows;
    var rest := RestFrom(items, i + 1, lib);
    RestIs(items, i + 1, lib);
    ItemIs(items, i);
    ItemBack(items[i], rest, lib);
    hide *;
    ParseItemsIs(TextFrom(items, i, lib), Stored(items, i), i + 1, lib);
    StoredNext(items, i);
    ExpectIs(rest, ',');
    if i + 1 < |items| {
      ItemsParsed(items, i + 1, lib);
    }
  }

  lemma ItemIs(items: seq<Value>, i: nat)
    requires Items(items) && i < |items|
    ensures items[i].Nil? || Plain(items[i], 1)
  {
    hide Plain;
  }

  lemma StoredNext(items: seq<Value>, n: nat)
    requires n < |items|
    ensures Stored(items, n + 1) == Store(Stored(items, n), n + 1, items[n], Nil)
    ensures Stored(items, 0) == ArrayPart([], 0)
  {
    hide Store;
  }

  /** Decoding an array text gives what was stored in the end. */
  lemma ArrayDecoded(items: seq<Value>, lib: Lib)
    requires Reads(lib) && Items(items) && items != []
    ensures Decode(ArrayText(items, lib), lib) == Ok(Table(Stored(items, |items|).values, []), [])
  {
    hide *;
    var u := TextFrom(items, 0, lib);
    ArrayTextIs(items, lib);
    StoredNext(items, 0);
    ItemsParsed(items, 0, lib);
    ClosesWith(']', "");
    assert [']'] + "" == "]";
    ParseArrayIs(u, lib);
    DecodeIs("[" + u, lib);
  }

  lemma ArrayTextIs(items: seq<Value>, lib: Lib)
    requires Items(items) && items != []
    ensures var u := TextFrom(items, 0, lib);
            ArrayText(items, lib) == "[" + u && u != [] && Skip(u) == u && u[0] != ']'
  {
    hide Encode, EncodeItems, Plain, Skip;
    FirstItem(Table(items, []), 0, lib);
    ItemIs(items, 0);
    EncodeStarts(items[0], 1, lib);
    var e, f := Encode(items[0], 1, lib), ItemsFrom(Table(items, []), 1, 0, lib);
    assert "[" + (e + f) + "]" == "[" + (e + (f + "]" + ""));
    NotSkipped(e + (f + "]" + ""));
  }

  // ----- what is kept -----

  /** The index of the last value among the first `n` items, 0 if there is none. */
  function Last(items: seq<Value>, n: nat): (k: nat)
    requires n <= |items|
    ensures k <= n
  {
    if n == 0 then 0 else if !items[n - 1].Nil? then n else Last(items, n - 1)
  }

  /**
   * The capacity of the array part after the first `n` items: it grows when the next index is right behind the last
   * value.
   */
  function Room(items: seq<Value>, n: nat): nat
    requires n <= |items|
  {
    if n == 0 then 0
    else if n > Last(items, n - 1) + 1 && n > Room(items, n - 1) then Room(items, n - 1)
    else Grown(Room(items, n - 1), n)
  }

  /** Every value among the first `n` items comes right behind the last value before it, or within the capacity. */
  predicate AllFit(items: seq<Value>, n: nat)
    requires n <= |items|
  {
    forall i :: 0 <= i < n && !items[i].Nil? ==> i <= Last(items, i) || i < Room(items, i)
  }

  lemma {:induction false} TrimmedIsLast(items: seq<Value>, n: nat)
    requires n <= |items|
    ensures Trimmed(items[..n], Nil) == items[..Last(items, n)]
    ensures Last(items, n) > 0 ==> !items[Last(items, n) - 1].Nil?
    ensures forall i :: Last(items, n) <= i < n ==> items[i].Nil?
  {
    if n > 0 {
      TrimmedIsLast(items, n - 1);
      assert items[..n][..n - 1] == items[..n - 1];
    }
  }

  lemma {:induction false} StoredWhole(items: seq<Value>, n: nat)
    requires n <= |items| && AllFit(items, n)
    ensures Stored(items, n) == ArrayPart(items[..Last(items, n)], Room(items, n))
  {
    if n > 0 {
      StoredWhole(items, n - 1);
      StoreWhole(items, n);
    }
  }

  lemma StoreWhole(items: seq<Value>, n: nat)
    requires 0 < n <= |items|
    requires !items[n - 1].Nil? ==> n - 1 <= Last(items, n - 1) || n - 1 < Room(items, n - 1)
    ensures Store(ArrayPart(items[..Last(items, n - 1)], Room(items, n - 1)), n, items[n - 1], Nil) ==
            ArrayPart(items[..Last(items, n)], Room(items, n))
  {
    var k := Last(items, n - 1);
    TrimmedIsLast(items, n - 1);
    if !items[n - 1].Nil? {
      assert items[..k] + Nils(n - 1 - k, Nil) + [items[n - 1]] == items[..n];
    }
  }

  /** A value that does not fit is not stored, and nothing that comes later takes its place. */
  lemma {:induction false} StaysLost(items: seq<Value>, i: nat, n: nat)
    requires i < n <= |items| && AllFit(items, i) && !items[i].Nil? && i > Last(items, i) && i >= Room(items, i)
    ensures var a := Stored(items, n).values;
            |a| <= i || a[i].Nil?
  {
    if n == i + 1 {
      StoredWhole(items, i);
    } else {
      StaysLost(items, i, n - 1);
      OthersStored(Stored(items, n - 1), n, items[n - 1], i);
    }
  }

  lemma OthersStored(a: ArrayPart<Value>, index: nat, v: Value, i: nat)
    requires |a.values| < index && i < index - 1 && (|a.values| <= i || a.values[i].Nil?)
    ensures var b := Store(a, index, v, Nil).values;
            |b| <= i || b[i].Nil?
  {
  }

  lemma FirstLost(items: seq<Value>, n: nat) returns (i: nat)
    requires n <= |items| && !AllFit(items, n)
    ensures i < n && AllFit(items, i) && !items[i].Nil? && i > Last(items, i) && i >= Room(items, i)
  {
    i := 0;
    while AllFit(items, i + 1)
      invariant i < n && AllFit(items, i)
      decreases n - i
    {
      if i + 1 == n { assert false; }
      i := i + 1;
    }
  }

  /**
   * Decoding keeps all values of an array at their places exactly when each comes right behind the last value before
   * it, or within the capacity the array part has by then. Trailing nulls are never kept.
   */
  lemma NullsKept(items: seq<Value>, lib: Lib)
    requires Reads(lib) && Items(items) && items != []
    ensures Decode(ArrayText(items, lib), lib) == Ok(Table(Trimmed(items, Nil), []), []) <==> AllFit(items, |items|)
  {
    var n := |items|;
    hide Decode, ArrayText, Stored, Store, Room, AllFit;
    ArrayDecoded(items, lib);
    TrimmedIsLast(items, n);
    assert items[..n] == items;
    if AllFit(items, n) {
      StoredWhole(items, n);
    } else {
      var i := FirstLost(items, n);
      StaysLost(items, i, n);
      assert !items[i].Nil? && i < Last(items, n);
    }
  }

  lemma {:induction false} RoomAfterNulls(items: seq<Value>, n: nat)
    requires n <= |items| && forall i :: 0 <= i < n ==> items[i].Nil?
    ensures Last(items, n) == 0 && Room(items, n) == if n == 0 then 0 else 8
  {
    if n > 0 { RoomAfterNulls(items, n - 1); }
  }

  /** A value behind `n` leading nulls is decoded exactly when there are at most seven of them; it is lost otherwise. */
  lemma ValueAfterNulls(n: nat, v: Value, lib: Lib)
    requires Reads(lib) && Plain(v, 1) && !v.Nil?
    ensures var items := seq(n, _ => Nil) + [v];
            Decode(ArrayText(items, lib), lib) == Ok(Table(if n <= 7 then items else [], []), [])
  {
    var items := seq(n, _ => Nil) + [v];
    hide Decode, ArrayText, Plain, Reads, Store;
    ArrayDecoded(items, lib);
    RoomAfterNulls(items, n);
    if n <= 7 {
      assert AllFit(items, n + 1);
      StoredWhole(items, n + 1);
      assert items[..n + 1] == items;
    } else {
      assert AllFit(items, n);
      StoredWhole(items, n);
      StoredNext(items, n);
      NotStored(Stored(items, n), n + 1, v);
    }
  }

  lemma NotStored(a: ArrayPart<Value>, index: nat, v: Value)
    requires index > |a.values| + 1 && index > a.capacity
    ensures Store(a, index, v, Nil) == a
  {
  }
}
