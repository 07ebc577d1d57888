/**
Run-time values as far as validation looks at them.
*/
module Values {
  import opened Wrappers

  /** `Special` stands for the types with a text format (UUID, dates, paths, ...): `kind` is the type and
      `text` identifies the value.  A `Set` lists its elements in iteration order, a `Dict` its items in
      insertion order, a `State` its fields in the order of its class. */
  datatype Value =
    | Missing
    | Null
    | Bool(truth: bool)
    | Int(number: int)
    | Float(fraction: real)
    | Str(text: string)
    | Bytes(bytes: seq<nat>)
    | Special(kind: string, format: string)
    | Tuple(items: seq<Value>)
    | List(items: seq<Value>)
    | Set(items: seq<Value>)
    | Dict(entries: seq<(Value, Value)>)
    | State(cls: string, fields: seq<Value>)

  // ----- Equality and hashing -------------------------------------------------------------------

  /** Booleans, integers and integral floats that are equal hash and compare alike. */
  function Canonical(v: Value): Value {
    match v
    case Bool(truth) => Int(if truth then 1 else 0)
    case Float(r) => if r.Floor as real == r then Int(r.Floor) else v
    case Tuple(items) => Tuple(seq(|items|, i requires 0 <= i < |items| => Canonical(items[i])))
    case _ => v
  }

  /** `==` as sets, dictionaries and literals use it. */
  predicate Same(a: Value, b: Value) {
    Canonical(a) == Canonical(b)
  }

  predicate Hashable(v: Value) {
    match v
    case List(_) => false
    case Dict(_) => false
    case Tuple(items) => forall i | 0 <= i < |items| :: Hashable(items[i])
    case _ => true
  }

  // ----- Sets and dictionaries ------------------------------------------------------------------

  predicate Holds(items: seq<Value>, v: Value) {
    exists i :: 0 <= i < |items| && Same(items[i], v)
  }

  /** The elements of a set built from the given ones: the first of equal elements stays. */
  function Dedup(items: seq<Value>): (distinct: seq<Value>)
    ensures forall x <- distinct :: x in items
    decreases |items|
  {
    if items == [] then []
    else
      var n := |items| - 1;
      var before := Dedup(items[..n]);
      if Holds(before, items[n]) then before else before + [items[n]]
  }

  /** The value stored under a key. */
  function Lookup(entries: seq<(Value, Value)>, key: Value): (found: Option<Value>)
    ensures found.Some? <==> exists i :: 0 <= i < |entries| && Same(entries[i].0, key)
    ensures found.Some? ==> exists i :: 0 <= i < |entries| && Same(entries[i].0, key) && found.value == entries[i].1
  {
    if entries == [] then None
    else if Same(entries[0].0, key) then Some(entries[0].1)
    else
      var found := Lookup(entries[1..], key);
      assert forall i | 0 < i < |entries| :: entries[1..][i - 1] == entries[i];
      found
  }

  /** Storing under a key: an equal key stays where it is and gets the new value, a new one goes last. */
  function Put(entries: seq<(Value, Value)>, key: Value, value: Value): seq<(Value, Value)> {
    if entries == [] then [(key, value)]
    else if Same(entries[0].0, key) then [(entries[0].0, value)] + entries[1..]
    else [entries[0]] + Put(entries[1..], key, value)
  }

  /** The dictionary built from pairs in order. */
  function DictOf(pairs: seq<(Value, Value)>): seq<(Value, Value)>
    decreases |pairs|
  {
    if pairs == [] then []
    else
      var n := |pairs| - 1;
      Put(DictOf(pairs[..n]), pairs[n].0, pairs[n].1)
  }

  ghost predicate Unequal(items: seq<Value>, i: nat, j: nat)
    requires i < |items| && j < |items|
  {
    !Same(items[i], items[j])
  }

  ghost predicate DistinctItems(items: seq<Value>) {
    forall i, j {:trigger Unequal(items, i, j)} | 0 <= i < j < |items| :: Unequal(items, i, j)
  }

  function Keys(entries: seq<(Value, Value)>): seq<Value> {
    seq(|entries|, i requires 0 <= i < |entries| => entries[i].0)
  }

  lemma {:induction false} DedupIsDistinct(items: seq<Value>)
    ensures DistinctItems(Dedup(items))
    decreases |items|
  {
    if items != [] {
      var n := |items| - 1;
      DedupIsDistinct(items[..n]);
      var before, all := Dedup(items[..n]), Dedup(items);
      forall i, j | 0 <= i < j < |all| ensures Unequal(all, i, j) {
        assert j < |before| ==> Unequal(before, i, j);
      }
    }
  }

  lemma PrefixIsDistinct(items: seq<Value>, n: nat)
    requires DistinctItems(items) && n <= |items|
    ensures DistinctItems(items[..n])
  {
    forall i, j | 0 <= i < j < n ensures Unequal(items[..n], i, j) {
      assert Unequal(items, i, j);
    }
  }

  lemma {:induction false} DedupOfDistinct(items: seq<Value>)
    requires DistinctItems(items)
    ensures Dedup(items) == items
    decreases |items|
  {
    if items != [] {
      var n := |items| - 1;
      PrefixIsDistinct(items, n);
      DedupOfDistinct(items[..n]);
      forall i | 0 <= i < n ensures !Same(items[i], items[n]) {
        assert Unequal(items, i, n);
      }
    }
  }

  /** Storing under a new key appends, under a known key changes one value in place. */
  lemma {:induction false} PutEffect(entries: seq<(Value, Value)>, key: Value, value: Value)
    ensures (forall i | 0 <= i < |entries| :: !Same(entries[i].0, key)) ==>
              Put(entries, key, value) == entries + [(key, value)]
    ensures (exists i :: 0 <= i < |entries| && Same(entries[i].0, key)) ==>
              exists i :: 0 <= i < |entries| && Same(entries[i].0, key)
                          && Put(entries, key, value) == entries[i := (entries[i].0, value)]
  {
    if entries != [] && !Same(entries[0].0, key) {
      var rest := entries[1..];
      PutEffect(rest, key, value);
      if exists i :: 0 <= i < |entries| && Same(entries[i].0, key) {
        var k :| 0 <= k < |entries| && Same(entries[k].0, key);
        assert Same(rest[k - 1].0, key);
        var i :| 0 <= i < |rest| && Same(rest[i].0, key) && Put(rest, key, value) == rest[i := (rest[i].0, value)];
        assert [entries[0]] + rest[i := (rest[i].0, value)] == entries[i + 1 := (entries[i + 1].0, value)];
        assert Same(entries[i + 1].0, key);
      } else {
        assert forall i | 0 <= i < |rest| :: rest[i] == entries[i + 1];
      }
    } else if entries != [] {
      assert [(entries[0].0, value)] + entries[1..] == entries[0 := (entries[0].0, value)];
    }
  }

  lemma PutIsDistinct(entries: seq<(Value, Value)>, key: Value, value: Value)
    requires DistinctItems(Keys(entries))
    ensures DistinctItems(Keys(Put(entries, key, value)))
  {
    PutEffect(entries, key, value);
    var all := Put(entries, key, value);
    if exists i :: 0 <= i < |entries| && Same(entries[i].0, key) {
      assert Keys(all) == Keys(entries);
    } else {
      forall i, j | 0 <= i < j < |all| ensures Unequal(Keys(all), i, j) {
        assert j < |entries| ==> Unequal(Keys(entries), i, j);
      }
    }
  }

  lemma {:induction false} DictKeysDiffer(pairs: seq<(Value, Value)>)
    ensures DistinctItems(Keys(DictOf(pairs)))
    decreases |pairs|
  {
    if pairs != [] {
      var n := |pairs| - 1;
      DictKeysDiffer(pairs[..n]);
      PutIsDistinct(DictOf(pairs[..n]), pairs[n].0, pairs[n].1);
    }
  }

  ghost predicate ComesFrom(pairs: seq<(Value, Value)>, entry: (Value, Value)) {
    && (exists j :: 0 <= j < |pairs| && entry.0 == pairs[j].0)
    && (exists j :: 0 <= j < |pairs| && entry.1 == pairs[j].1)
  }

  lemma ComesFromMore(pairs: seq<(Value, Value)>, more: seq<(Value, Value)>, entry: (Value, Value))
    requires ComesFrom(pairs, entry) && pairs <= more
    ensures ComesFrom(more, entry)
  {
    var j :| 0 <= j < |pairs| && entry.0 == pairs[j].0;
    var k :| 0 <= k < |pairs| && entry.1 == pairs[k].1;
    assert more[j] == pairs[j] && more[k] == pairs[k];
  }

  lemma {:induction false} DictComesFrom(pairs: seq<(Value, Value)>, i: nat)
    requires i < |DictOf(pairs)|
    ensures ComesFrom(pairs, DictOf(pairs)[i])
    decreases |pairs|
  {
    var n := |pairs| - 1;
    var before, entry := DictOf(pairs[..n]), DictOf(pairs)[i];
    PutEffect(before, pairs[n].0, pairs[n].1);
    if i < |before| {
      DictComesFrom(pairs[..n], i);
      ComesFromMore(pairs[..n], pairs, before[i]);
    }
  }

  /** A dictionary built from pairs has distinct keys, each taken from some pair, as is each value. */
  lemma DictIsDistinct(pairs: seq<(Value, Value)>)
    ensures var all := DictOf(pairs);
            DistinctItems(Keys(all)) && forall i | 0 <= i < |all| :: ComesFrom(pairs, all[i])
  {
    DictKeysDiffer(pairs);
    forall i | 0 <= i < |DictOf(pairs)| ensures ComesFrom(pairs, DictOf(pairs)[i]) {
      DictComesFrom(pairs, i);
    }
  }

  lemma {:induction false} DictOfDistinct(pairs: seq<(Value, Value)>)
    requires DistinctItems(Keys(pairs))
    ensures DictOf(pairs) == pairs
    decreases |pairs|
  {
    if pairs != [] {
      var n := |pairs| - 1;
      assert Keys(pairs[..n]) == Keys(pairs)[..n];
      PrefixIsDistinct(Keys(pairs), n);
      DictOfDistinct(pairs[..n]);
      forall i | 0 <= i < n ensures !Same(pairs[i].0, pairs[n].0) {
        assert Unequal(Keys(pairs), i, n);
      }
      PutEffect(pairs[..n], pairs[n].0, pairs[n].1);
    }
  }

  /** With distinct keys the look-up of a key finds its own value. */
  lemma {:induction false} LookupOfDistinct(entries: seq<(Value, Value)>, i: nat, key: Value)
    requires DistinctItems(Keys(entries)) && i < |entries| && Same(entries[i].0, key)
    ensures Lookup(entries, key) == Some(entries[i].1)
  {
    if i > 0 {
      assert Unequal(Keys(entries), 0, i);
      forall j, k | 0 <= j < k < |entries| - 1 ensures Unequal(Keys(entries[1..]), j, k) {
        assert Unequal(Keys(entries), j + 1, k + 1);
      }
      LookupOfDistinct(entries[1..], i - 1, key);
    }
  }

  // ----- What the operations mean ---------------------------------------------------------------

  /** The number that a value stands for. */
  function NumberOf(v: Value): Option<real> {
    match v
    case Bool(truth) => Some(if truth then 1.0 else 0.0)
    case Int(number) => Some(number as real)
    case Float(fraction) => Some(fraction)
    case _ => None
  }

  /** Numbers are equal as numbers, tuples element by element, and everything else only to itself. */
  ghost predicate Equal(a: Value, b: Value)
    decreases a
  {
    if NumberOf(a).Some? then NumberOf(a) == NumberOf(b)
    else if a.Tuple? then
      b.Tuple? && |a.items| == |b.items| && forall i | 0 <= i < |a.items| :: Equal(a.items[i], b.items[i])
    else a == b
  }

  lemma {:induction false} SameIffEqual(a: Value, b: Value)
    ensures Same(a, b) <==> Equal(a, b)
    decreases a
  {
    if a.Tuple? && b.Tuple? {
      var c, d := Canonical(a), Canonical(b);
      forall i | 0 <= i < |a.items| && i < |b.items|
        ensures Same(a.items[i], b.items[i]) <==> Equal(a.items[i], b.items[i])
      {
        SameIffEqual(a.items[i], b.items[i]);
      }
      if Equal(a, b) {
        assert c.items == d.items;
      }
      if c == d {
        forall i | 0 <= i < |a.items| ensures Equal(a.items[i], b.items[i]) {
          assert c.items[i] == d.items[i];
        }
      }
    } else if NumberOf(a).Some? {
      NumbersAreCanonical(a);
      if NumberOf(b).Some? {
        NumbersAreCanonical(b);
      }
    }
  }

  lemma NumbersAreCanonical(v: Value)
    requires NumberOf(v).Some?
    ensures var n := NumberOf(v).value;
            Canonical(v) == if n.Floor as real == n then Int(n.Floor) else Float(n)
  {
    assert v.Int? ==> (v.number as real).Floor == v.number;
    assert 1.0.Floor == 1 && 0.0.Floor == 0;
  }

  /** A list or a dictionary, or one inside tuples. */
  ghost predicate HoldsMutable(v: Value)
    decreases v
  {
    v.List? || v.Dict? || (v.Tuple? && exists i :: 0 <= i < |v.items| && HoldsMutable(v.items[i]))
  }

  lemma {:induction false} HashableIff(v: Value)
    ensures Hashable(v) <==> !HoldsMutable(v)
    decreases v
  {
    if v.Tuple? {
      forall i | 0 <= i < |v.items| ensures Hashable(v.items[i]) <==> !HoldsMutable(v.items[i]) {
        HashableIff(v.items[i]);
      }
    }
  }

  lemma HoldsAppend(items: seq<Value>, x: Value, v: Value)
    ensures Holds(items + [x], v) <==> Holds(items, v) || Same(x, v)
  {
    var all := items + [x];
    assert all[|items|] == x;
    if Holds(items, v) {
      var i :| 0 <= i < |items| && Same(items[i], v);
      assert all[i] == items[i];
    }
  }

  lemma {:induction false} DedupHolds(items: seq<Value>, v: Value)
    ensures Holds(Dedup(items), v) <==> Holds(items, v)
    decreases |items|
  {
    if items != [] {
      var n := |items| - 1;
      DedupHolds(items[..n], v);
      DedupHolds(items[..n], items[n]);
      assert items == items[..n] + [items[n]];
      HoldsAppend(items[..n], items[n], v);
      HoldsAppend(Dedup(items[..n]), items[n], v);
    }
  }

  /** A set keeps, of equal elements, the first, in order: the next element joins it exactly when nothing equal
      came before. */
  lemma DedupKeepsFirst(items: seq<Value>, next: Value)
    ensures Dedup(items + [next]) == if Holds(items, next) then Dedup(items) else Dedup(items) + [next]
  {
    assert (items + [next])[..|items|] == items;
    DedupHolds(items, next);
  }

  /** What the last of the pairs with an equal key holds. */
  ghost function LastUnder(pairs: seq<(Value, Value)>, key: Value): Option<Value>
    decreases |pairs|
  {
    if pairs == [] then None
    else
      var n := |pairs| - 1;
      if Same(pairs[n].0, key) then Some(pairs[n].1) else LastUnder(pairs[..n], key)
  }

  /** In a dictionary built from pairs the last of the pairs with an equal key counts. */
  lemma {:induction false} DictFindsLast(pairs: seq<(Value, Value)>, key: Value)
    ensures Lookup(DictOf(pairs), key) == LastUnder(pairs, key)
    decreases |pairs|
  {
    if pairs != [] {
      var n := |pairs| - 1;
      DictFindsLast(pairs[..n], key);
      PutThenLookup(DictOf(pairs[..n]), pairs[n].0, pairs[n].1, key);
    }
  }

  lemma {:induction false} PutThenLookup(entries: seq<(Value, Value)>, key: Value, x: Value, other: Value)
    ensures Lookup(Put(entries, key, x), other) == if Same(key, other) then Some(x) else Lookup(entries, other)
  {
    if entries != [] {
      PutThenLookup(entries[1..], key, x, other);
    }
  }
}
