/**
 * The plain JavaScript object that `urlForQueryAndPage` fills in and then
 * enumerates: an ordered table of string-keyed data properties, the
 * assignment `data[key] = value` that updates or appends one of them, and
 * the order in which `Object.keys` lists them (the OrdinaryOwnPropertyKeys
 * operation of ECMA-262: array-index keys first in ascending numeric order,
 * then the other string keys in the order they were created).
 */
module PropertyTable {
  import opened Wrappers

  datatype Property = Property(key: string, value: string)

  type Table = seq<Property>

  /** The name of the accessor that every ordinary object inherits from Object.prototype. */
  const PROTO_KEY: string := "__proto__"

  // ---------------------------------------------------------------------
  // Decimal numerals (Number::toString for non-negative integers)

  predicate IsDigit(c: char) {
    '0' <= c <= '9'
  }

  predicate AllDigits(s: string) {
    forall i :: 0 <= i < |s| ==> IsDigit(s[i])
  }

  function DigitChar(d: nat): (c: char)
    requires d < 10
    ensures IsDigit(c) && c as int - '0' as int == d
  {
    ('0' as int + d) as char
  }

  /** The number a string of decimal digits denotes. */
  function DigitsValue(s: string): nat
    requires AllDigits(s)
  {
    if s == [] then 0 else DigitsValue(s[..|s| - 1]) * 10 + (s[|s| - 1] as int - '0' as int)
  }

  /** The shortest decimal numeral of `n`: digits only, no leading zero, denoting `n`. */
  function DecimalString(n: nat): (s: string)
    ensures |s| > 0 && AllDigits(s)
    ensures s[0] == '0' ==> |s| == 1
    ensures DigitsValue(s) == n
  {
    if n < 10 then [DigitChar(n)]
    else
      var s := DecimalString(n / 10) + [DigitChar(n % 10)];
      assert s[..|s| - 1] == DecimalString(n / 10);
      s
  }

  /**
   * A canonical array index: the decimal numeral, without leading zeros,
   * of an integer below 2^32 - 1.
   */
  predicate IsArrayIndex(k: string) {
    |k| > 0 && AllDigits(k) && (k[0] == '0' ==> |k| == 1) && DigitsValue(k) < 0xFFFF_FFFF
  }

  /** The decimal numerals of the integers below 2^32 - 1 are exactly the array indices. */
  lemma DecimalStringIsArrayIndex(n: nat)
    ensures IsArrayIndex(DecimalString(n)) <==> n < 0xFFFF_FFFF
  {
  }

  // ---------------------------------------------------------------------
  // Lookup and assignment

  function Keys(t: Table): (ks: seq<string>)
    ensures |ks| == |t|
  {
    if t == [] then [] else [t[0].key] + Keys(t[1..])
  }

  /** The names of a table, position by position. */
  lemma {:induction false} KeysAt(t: Table)
    ensures forall i :: 0 <= i < |t| ==> Keys(t)[i] == t[i].key
  {
    if t != [] {
      KeysAt(t[1..]);
      assert forall i :: 0 < i < |t| ==> Keys(t)[i] == Keys(t[1..])[i - 1];
    }
  }

  predicate DistinctKeys(t: Table) {
    forall i, j :: 0 <= i < j < |t| ==> t[i].key != t[j].key
  }

  predicate Distinct(ks: seq<string>) {
    forall i, j :: 0 <= i < j < |ks| ==> ks[i] != ks[j]
  }

  lemma DistinctKeysOf(t: Table)
    ensures DistinctKeys(t) <==> Distinct(Keys(t))
  {
    KeysAt(t);
  }

  lemma {:induction false} KeysAppend(a: Table, b: Table)
    ensures Keys(a + b) == Keys(a) + Keys(b)
  {
    KeysAt(a);
    KeysAt(b);
    KeysAt(a + b);
  }

  lemma KeysUpdate(t: Table, i: nat, v: string)
    requires i < |t|
    ensures Keys(t[i := Property(t[i].key, v)]) == Keys(t)
  {
    KeysAt(t);
    KeysAt(t[i := Property(t[i].key, v)]);
  }

  /** A new name added at either end keeps the names distinct. */
  lemma DistinctExtend(ks: seq<string>, k: string)
    requires Distinct(ks) && k !in ks
    ensures Distinct(ks + [k]) && Distinct([k] + ks)
  {
    assert forall i :: 0 <= i < |ks| ==> ks[i] != k;
    assert forall i :: 0 < i <= |ks| ==> ([k] + ks)[i] == ks[i - 1];
  }

  /** The value of the property named `k`, if the table has one. */
  function Lookup(t: Table, k: string): (r: Option<string>)
    ensures r.None? <==> k !in Keys(t)
  {
    if t == [] then None
    else if t[0].key == k then Some(t[0].value)
    else Lookup(t[1..], k)
  }

  /**
   * Storing into a data property: an existing property keeps its position
   * and takes the new value, a new one is created after all the others.
   */
  function Put(t: Table, k: string, v: string): (r: Table)
    ensures Lookup(r, k) == Some(v)
    ensures forall k' :: k' != k ==> Lookup(r, k') == Lookup(t, k')
    ensures Keys(r) == if k in Keys(t) then Keys(t) else Keys(t) + [k]
  {
    if t == [] then [Property(k, v)]
    else if t[0].key == k then [Property(k, v)] + t[1..]
    else [t[0]] + Put(t[1..], k, v)
  }

  /** On a table with distinct keys, Put replaces the one property of that name in place. */
  lemma {:induction false} PutExisting(t: Table, i: nat, v: string)
    requires i < |t| && DistinctKeys(t)
    ensures Put(t, t[i].key, v) == t[i := Property(t[i].key, v)]
  {
    if i > 0 {
      assert DistinctKeys(t[1..]) by {
        forall a, b | 0 <= a < b < |t[1..]| ensures t[1..][a].key != t[1..][b].key {
          assert t[1..][a] == t[a + 1] && t[1..][b] == t[b + 1];
        }
      }
      assert t[1..][i - 1] == t[i];
      PutExisting(t[1..], i - 1, v);
      assert t[i := Property(t[i].key, v)] == [t[0]] + t[1..][i - 1 := Property(t[i].key, v)];
    }
  }

  /** Put appends a property whose name is new. */
  lemma {:induction false} PutAbsent(t: Table, k: string, v: string)
    requires k !in Keys(t)
    ensures Put(t, k, v) == t + [Property(k, v)]
  {
    if t != [] {
      assert Keys(t) == [t[0].key] + Keys(t[1..]);
      assert t[0].key != k && k !in Keys(t[1..]);
      assert Put(t, k, v) == [t[0]] + Put(t[1..], k, v);
      PutAbsent(t[1..], k, v);
      assert t + [Property(k, v)] == [t[0]] + (t[1..] + [Property(k, v)]);
    }
  }

  /** Put keeps the names distinct. */
  lemma PutDistinct(t: Table, k: string, v: string)
    requires DistinctKeys(t)
    ensures DistinctKeys(Put(t, k, v))
  {
    DistinctKeysOf(t);
    DistinctKeysOf(Put(t, k, v));
    if k !in Keys(t) {
      DistinctExtend(Keys(t), k);
    }
  }

  /**
   * The assignment `data[k] = v` of a string `v` on an object that inherits
   * from Object.prototype. The key `__proto__` reaches the inherited
   * accessor, whose setter ignores a value that is not an object, so the
   * table is left as it was; any other key is stored as a data property.
   */
  function Assign(t: Table, k: string, v: string): (r: Table)
    ensures k == PROTO_KEY ==> r == t
    ensures k != PROTO_KEY ==> Lookup(r, k) == Some(v)
    ensures forall k' :: k' != k ==> Lookup(r, k') == Lookup(t, k')
  {
    if k == PROTO_KEY then t else Put(t, k, v)
  }

  // ---------------------------------------------------------------------
  // Enumeration order

  function IndexProperties(t: Table): (r: Table)
    ensures forall i :: 0 <= i < |r| ==> IsArrayIndex(r[i].key)
  {
    if t == [] then []
    else if IsArrayIndex(t[0].key) then [t[0]] + IndexProperties(t[1..])
    else IndexProperties(t[1..])
  }

  function NamedProperties(t: Table): (r: Table)
    ensures forall i :: 0 <= i < |r| ==> !IsArrayIndex(r[i].key)
  {
    if t == [] then []
    else if IsArrayIndex(t[0].key) then NamedProperties(t[1..])
    else [t[0]] + NamedProperties(t[1..])
  }

  /** The numeric value of an array-index name (0 for any other name). */
  function IndexValue(p: Property): nat {
    if IsArrayIndex(p.key) then DigitsValue(p.key) else 0
  }

  predicate SortedByIndex(t: Table) {
    forall i, j :: 0 <= i < j < |t| ==> IndexValue(t[i]) <= IndexValue(t[j])
  }

  predicate NoIndexKeys(t: Table) {
    forall i :: 0 <= i < |t| ==> !IsArrayIndex(t[i].key)
  }

  function InsertByIndex(p: Property, t: Table): (r: Table)
    ensures multiset(r) == multiset(t) + multiset{p}
  {
    if t == [] || IndexValue(p) <= IndexValue(t[0]) then [p] + t
    else
      assert multiset(t) == multiset{t[0]} + multiset(t[1..]) by { assert t == [t[0]] + t[1..]; }
      [t[0]] + InsertByIndex(p, t[1..])
  }

  /** Insertion into an ascending table keeps it ascending. */
  lemma {:induction false} InsertSorted(p: Property, t: Table)
    requires SortedByIndex(t)
    ensures SortedByIndex(InsertByIndex(p, t))
    ensures InsertByIndex(p, t)[0] == p || (t != [] && InsertByIndex(p, t)[0] == t[0])
  {
    if t == [] || IndexValue(p) <= IndexValue(t[0]) {
      ConsSorted(p, t);
    } else {
      assert SortedByIndex(t[1..]) by {
        forall i, j | 0 <= i < j < |t[1..]| ensures IndexValue(t[1..][i]) <= IndexValue(t[1..][j]) {
          assert t[1..][i] == t[i + 1] && t[1..][j] == t[j + 1];
        }
      }
      InsertSorted(p, t[1..]);
      var rest := InsertByIndex(p, t[1..]);
      assert t[1..] != [] ==> IndexValue(t[0]) <= IndexValue(t[1]);
      ConsSorted(t[0], rest);
    }
  }

  lemma ConsSorted(p: Property, t: Table)
    requires SortedByIndex(t) && (t != [] ==> IndexValue(p) <= IndexValue(t[0]))
    ensures SortedByIndex([p] + t)
  {
    var r := [p] + t;
    forall i, j | 0 <= i < j < |r| ensures IndexValue(r[i]) <= IndexValue(r[j]) {
      if i == 0 && j > 1 {
        assert IndexValue(t[0]) <= IndexValue(t[j - 1]);
      }
    }
  }

  /** Insertion sort by numeric value. */
  function SortByIndex(t: Table): (r: Table)
    ensures multiset(r) == multiset(t)
  {
    if t == [] then []
    else
      assert multiset(t) == multiset{t[0]} + multiset(t[1..]) by { assert t == [t[0]] + t[1..]; }
      InsertByIndex(t[0], SortByIndex(t[1..]))
  }

  /** The sort puts the table in ascending order. */
  lemma {:induction false} SortSorted(t: Table)
    ensures SortedByIndex(SortByIndex(t))
  {
    if t != [] {
      SortSorted(t[1..]);
      InsertSorted(t[0], SortByIndex(t[1..]));
    }
  }

  /** The properties in the order `Object.keys` lists their names. */
  function OwnProperties(t: Table): (r: Table)
    ensures multiset(r) == multiset(t)
  {
    PartitionCount(t);
    SortByIndex(IndexProperties(t)) + NamedProperties(t)
  }

  lemma {:induction false} PartitionCount(t: Table)
    ensures multiset(IndexProperties(t)) + multiset(NamedProperties(t)) == multiset(t)
  {
    if t != [] {
      PartitionCount(t[1..]);
      assert t == [t[0]] + t[1..];
    }
  }

  /**
   * The order of enumeration: every array-index property comes before every
   * other one, the array-index ones ascend, and the rest keep the order of
   * creation.
   */
  lemma OwnPropertiesOrder(t: Table)
    ensures exists n :: (0 <= n <= |OwnProperties(t)|
      && (forall i :: 0 <= i < n ==> IsArrayIndex(OwnProperties(t)[i].key))
      && SortedByIndex(OwnProperties(t)[..n])
      && OwnProperties(t)[n..] == NamedProperties(t))
  {
    var s := SortByIndex(IndexProperties(t));
    var r := OwnProperties(t);
    SortSorted(IndexProperties(t));
    assert r[..|s|] == s && r[|s|..] == NamedProperties(t);
    assert forall p :: p in s ==> p in multiset(IndexProperties(t));
    forall i | 0 <= i < |s| ensures IsArrayIndex(r[i].key) {
      assert r[i] == s[i] && s[i] in multiset(IndexProperties(t));
      var j :| 0 <= j < |IndexProperties(t)| && IndexProperties(t)[j] == s[i];
    }
  }

  /** Enumeration lists the same properties, so every name still finds its value. */
  lemma LookupOwnProperties(t: Table)
    requires DistinctKeys(t)
    ensures forall k :: Lookup(OwnProperties(t), k) == Lookup(t, k)
  {
    forall k ensures Lookup(OwnProperties(t), k) == Lookup(t, k) {
      LookupPermutation(t, OwnProperties(t), k);
    }
  }

  /** Lookup finds the first property of that name. */
  lemma {:induction false} LookupFound(t: Table, k: string)
    ensures Lookup(t, k).Some? ==> Property(k, Lookup(t, k).value) in t
    ensures Lookup(t, k).None? ==> forall p :: p in t ==> p.key != k
  {
    if t != [] {
      LookupFound(t[1..], k);
      assert forall p :: p in t ==> p == t[0] || p in t[1..];
    }
  }

  /** With distinct names, the property of that name is the one Lookup finds. */
  lemma {:induction false} LookupDistinct(t: Table, p: Property)
    requires DistinctKeys(t) && p in t
    ensures Lookup(t, p.key) == Some(p.value)
  {
    if p != t[0] {
      var j :| 0 <= j < |t| && t[j] == p;
      assert t[0].key != p.key;
      assert t[1..][j - 1] == p;
      assert DistinctKeys(t[1..]) by {
        forall a, b | 0 <= a < b < |t[1..]| ensures t[1..][a].key != t[1..][b].key {
          assert t[1..][a] == t[a + 1] && t[1..][b] == t[b + 1];
        }
      }
      LookupDistinct(t[1..], p);
    }
  }

  lemma LookupPermutation(t: Table, u: Table, k: string)
    requires DistinctKeys(t) && multiset(u) == multiset(t)
    ensures Lookup(u, k) == Lookup(t, k)
  {
    LookupFound(t, k);
    LookupFound(u, k);
    forall p | p in t ensures p in u {
      assert p in multiset(t);
    }
    if Lookup(u, k).Some? {
      var p := Property(k, Lookup(u, k).value);
      assert p in multiset(u);
      LookupDistinct(t, p);
    }
  }

  /** A table without array-index keys is enumerated in creation order. */
  lemma {:induction false} OwnPropertiesWithoutIndices(t: Table)
    requires NoIndexKeys(t)
    ensures OwnProperties(t) == t
  {
    NoIndices(t);
  }

  lemma {:induction false} NoIndices(t: Table)
    requires NoIndexKeys(t)
    ensures IndexProperties(t) == [] && NamedProperties(t) == t
  {
    if t != [] {
      NoIndices(t[1..]);
    }
  }

  /** A single array-index key created last is enumerated first. */
  lemma OwnPropertiesIndexLast(t: Table, p: Property)
    requires NoIndexKeys(t)
    requires IsArrayIndex(p.key)
    ensures OwnProperties(t + [p]) == [p] + t
  {
    OneIndexLast(t, p);
  }

  lemma {:induction false} OneIndexLast(t: Table, p: Property)
    requires NoIndexKeys(t)
    requires IsArrayIndex(p.key)
    ensures IndexProperties(t + [p]) == [p] && NamedProperties(t + [p]) == t
  {
    if t != [] {
      assert (t + [p])[1..] == t[1..] + [p];
      OneIndexLast(t[1..], p);
    } else {
      assert t + [p] == [p];
    }
  }

  // ---------------------------------------------------------------------
  // One assignment into a table of plain names, then enumeration

  /** Assigning to an existing name changes its value in place. */
  lemma AssignExisting(t: Table, i: nat, v: string)
    requires i < |t| && DistinctKeys(t) && NoIndexKeys(t) && t[i].key != PROTO_KEY
    ensures OwnProperties(Assign(t, t[i].key, v)) == t[i := Property(t[i].key, v)]
  {
    PutExisting(t, i, v);
    var r := t[i := Property(t[i].key, v)];
    assert NoIndexKeys(r) by {
      forall j | 0 <= j < |r| ensures !IsArrayIndex(r[j].key) {
        assert r[j].key == t[j].key;
      }
    }
    OwnPropertiesWithoutIndices(r);
  }

  /** Assigning to `__proto__` leaves the table and its order alone. */
  lemma AssignProto(t: Table, v: string)
    requires NoIndexKeys(t)
    ensures OwnProperties(Assign(t, PROTO_KEY, v)) == t
  {
    OwnPropertiesWithoutIndices(t);
  }

  /** A new plain name is enumerated last. */
  lemma AssignNamed(t: Table, k: string, v: string)
    requires NoIndexKeys(t) && k !in Keys(t) && k != PROTO_KEY && !IsArrayIndex(k)
    ensures OwnProperties(Assign(t, k, v)) == t + [Property(k, v)]
  {
    PutAbsent(t, k, v);
    var r := t + [Property(k, v)];
    assert NoIndexKeys(r) by {
      forall j | 0 <= j < |r| ensures !IsArrayIndex(r[j].key) {
        if j < |t| { assert r[j] == t[j]; }
      }
    }
    OwnPropertiesWithoutIndices(r);
  }

  /** A new array-index name is enumerated first. */
  lemma AssignIndex(t: Table, k: string, v: string)
    requires NoIndexKeys(t) && k !in Keys(t) && IsArrayIndex(k)
    ensures OwnProperties(Assign(t, k, v)) == [Property(k, v)] + t
  {
    assert k != PROTO_KEY by { assert !IsDigit(PROTO_KEY[0]); }
    PutAbsent(t, k, v);
    OwnPropertiesIndexLast(t, Property(k, v));
  }
}
