/** Whole runs of the database: the two backends cannot be told apart. */
module DatabaseRuns {
  import opened Results
  import opened Sequences
  import opened ByteOrder
  import opened OrderedMap
  import opened Database

  datatype Op<V> =
    | PutBatch(pairs: seq<Pair<V>>)
    | Delete(key: Key)
    | DeleteBatch(keys: seq<Key>)
    | DeleteRange(start: Key, end: Key)
    | Get(key: Key)
    | Prev(key: Key)
    | Next(key: Key)
    | ContainsPrefixedKey(prefix: Key)
    | IterateAscending(start: Key)
    | IterateDescending(end: Key)

  datatype Answer<V> =
    | Done
    | Panicked
    | Value(value: Option<V>)
    | Entry(entry: Option<Pair<V>>)
    | Flag(flag: bool)
    | Entries(entries: seq<Pair<V>>)

  /** What an operation does to the contents. */
  ghost function Effect<V>(m: map<Key, V>, op: Op<V>): (r: map<Key, V>) {
    match op
    case PutBatch(pairs) => WithPairs(m, pairs)
    case Delete(key) => m - {key}
    case DeleteBatch(keys) => m - Elements(keys)
    case DeleteRange(start, end) => Outside(m, start, end)
    case _ => m
  }

  /** What an operation answers. */
  ghost function Reply<V>(m: map<Key, V>, op: Op<V>): (r: Answer<V>) {
    match op
    case Get(key) => Value(if key in m then Some(m[key]) else None)
    case Prev(key) => Entry(OrderedMap.Prev(m, key))
    case Next(key) => Entry(OrderedMap.Next(m, key))
    case ContainsPrefixedKey(prefix) => Flag(exists key :: key in m && prefix <= key)
    case IterateAscending(start) => Entries(Ascending(From(m, start)))
    case IterateDescending(end) => Entries(Reverse(Ascending(UpTo(m, end))))
    case _ => Done
  }

  /** The one call on which the backends differ: an inverted range whose end is a key. */
  predicate InvertedAtKey<V>(m: map<Key, V>, op: Op<V>) {
    op.DeleteRange? && Less(op.end, op.start) && op.end in m
  }

  method OnPersistent<V>(db: Persistent<V>, op: Op<V>) returns (r: Answer<V>)
    requires db.Valid()
    modifies db
    ensures db.Valid() && r == Reply(old(db.contents), op) && db.contents == Effect(old(db.contents), op)
  {
    hide Lists, Outside, WithPairs, Ascending;
    r := Done;
    match op
    case PutBatch(pairs) => db.PutBatch(pairs);
    case Delete(key) => db.Delete(key);
    case DeleteBatch(keys) => db.DeleteBatch(keys);
    case DeleteRange(start, end) => db.DeleteRange(start, end);
    case Get(key) => var value := db.Get(key); r := Value(value);
    case Prev(key) => var entry := db.Prev(key); r := Entry(entry);
    case Next(key) => var entry := db.NextRaw(key); r := Entry(entry);
    case ContainsPrefixedKey(prefix) => var flag := db.ContainsPrefixedKey(prefix); r := Flag(flag);
    case IterateAscending(start) => var entries := db.IteratorAscending(start); r := Entries(entries);
    case IterateDescending(end) => var entries := db.IteratorDescending(end); r := Entries(entries);
  }

  method OnInMemory<V>(db: InMemory<V>, op: Op<V>) returns (r: Answer<V>)
    modifies db
    ensures db.poisoned <==> old(db.poisoned) || InvertedAtKey(old(db.contents), op)
    ensures r == if db.poisoned then Panicked else Reply(old(db.contents), op)
    ensures db.contents == if db.poisoned then old(db.contents) else Effect(old(db.contents), op)
  {
    hide Lists, Outside, WithPairs, Ascending;
    if db.poisoned {
      return Panicked;
    }
    r := Done;
    match op
    case PutBatch(pairs) => db.PutBatch(pairs);
    case Delete(key) => db.Delete(key);
    case DeleteBatch(keys) => db.DeleteBatch(keys);
    case DeleteRange(start, end) =>
      db.DeleteRange(start, end);
      r := if db.poisoned then Panicked else Done;
    case Get(key) => var value := db.Get(key); r := Value(value);
    case Prev(key) => var entry := db.Prev(key); r := Entry(entry);
    case Next(key) => var entry := db.NextRaw(key); r := Entry(entry);
    case ContainsPrefixedKey(prefix) => var flag := db.ContainsPrefixedKey(prefix); r := Flag(flag);
    case IterateAscending(start) => var entries := db.IteratorAscending(start); r := Entries(entries);
    case IterateDescending(end) => var entries := db.IteratorDescending(end); r := Entries(entries);
  }

  ghost function After<V>(ops: seq<Op<V>>): (r: map<Key, V>) {
    if ops == [] then map[] else Effect(After(ops[..|ops| - 1]), ops[|ops| - 1])
  }

  /** No operation of the run is an inverted range deletion ending at a stored key. */
  ghost predicate NeverInvertedAtKey<V>(ops: seq<Op<V>>) {
    forall n | 0 <= n < |ops| :: !InvertedAtKey(After(ops[..n]), ops[n])
  }

  /** Runs the same operations on both backends. The answers are equal exactly when no range deletion is inverted
      at a stored key, and then so are the final contents. */
  method RunBoth<V>(ops: seq<Op<V>>)
    returns (persistent: seq<Answer<V>>, inMemory: seq<Answer<V>>, stored: seq<Pair<V>>, kept: map<Key, V>)
    ensures |persistent| == |inMemory| == |ops|
    ensures forall n | 0 <= n < |ops| :: persistent[n] == Reply(After(ops[..n]), ops[n])
    ensures stored == Ascending(After(ops))
    ensures persistent == inMemory <==> NeverInvertedAtKey(ops)
    ensures NeverInvertedAtKey(ops) ==> kept == After(ops)
  {
    hide Lists, Effect, Reply, After, InvertedAtKey, NeverInvertedAtKey;
    var first := new Persistent<V>();
    var second := new InMemory<V>();
    persistent, inMemory := [], [];
    RunStart(ops);
    for n := 0 to |ops|
      invariant first.Valid() && fresh(first) && fresh(second)
      invariant |persistent| == |inMemory| == n
      invariant first.contents == After(ops[..n])
      invariant forall i | 0 <= i < n :: persistent[i] == Reply(After(ops[..i]), ops[i])
      invariant second.poisoned <==> !NeverInvertedAtKey(ops[..n])
      invariant persistent == inMemory <==> !second.poisoned
      invariant !second.poisoned ==> second.contents == After(ops[..n])
    {
      RunStep(ops, n);
      ghost var p, q := persistent, inMemory;
      var x := OnPersistent(first, ops[n]);
      var y := OnInMemory(second, ops[n]);
      RepliesNeverPanic(After(ops[..n]), ops[n]);
      persistent, inMemory := persistent + [x], inMemory + [y];
      AppendedEqual(p, q, x, y);
    }
    assert ops[..|ops|] == ops;
    ListingIsUnique(first.entries, Ascending(After(ops)), After(ops));
    stored, kept := first.entries, second.contents;
  }

  // --- What a run leaves behind ------------------------------------------------------------------

  /** The operation stores something under the key, or removes it. */
  ghost predicate Touches<V>(op: Op<V>, key: Key) {
    match op
    case PutBatch(pairs) => exists i :: 0 <= i < |pairs| && pairs[i].key == key
    case Delete(k) => k == key
    case DeleteBatch(keys) => key in keys
    case DeleteRange(start, end) => AtMost(start, key) && Less(key, end)
    case _ => false
  }

  /** The operation stores the value under the key, and no later pair of its batch has the key. */
  ghost predicate Stores<V>(op: Op<V>, key: Key, value: V) {
    op.PutBatch? && exists i: nat :: IsLastWith(op.pairs, key, i) && op.pairs[i].value == value
  }

  lemma EffectByKey<V>(m: map<Key, V>, op: Op<V>, key: Key, value: V)
    ensures var r := Effect(m, op);
      key in r && r[key] == value <==>
        Stores(op, key, value) || (!Touches(op, key) && key in m && m[key] == value)
  {
    hide WithPairs, Less;
    match op
    case PutBatch(pairs) =>
      var last := LastPairWins(m, pairs, key);
      assert HasKey(pairs, key) <==> Touches(op, key);
      if i: nat :| IsLastWith(pairs, key, i) && pairs[i].value == value {
        assert Touches(op, key) && i == last.value;
      }
    case DeleteRange(start, end) =>
    case _ =>
  }

  /** The run stores the value with its operation `n`, and does not touch the key afterwards. */
  ghost predicate StoredAt<V>(ops: seq<Op<V>>, key: Key, value: V, n: nat) {
    n < |ops| && Stores(ops[n], key, value) && forall k | n < k < |ops| :: !Touches(ops[k], key)
  }

  /** After any run a value is stored under a key if and only if some batch of the run stored it and no later operation
      of the run touches the key. */
  lemma {:induction false} StoredExactlyWhen<V>(ops: seq<Op<V>>, key: Key, value: V)
    ensures key in After(ops) && After(ops)[key] == value <==> exists n: nat :: StoredAt(ops, key, value, n)
  {
    hide Effect, Touches, Stores;
    if ops == [] {
    } else {
      var n := |ops| - 1;
      var before := ops[..n];
      StoredExactlyWhen(before, key, value);
      EffectByKey(After(before), ops[n], key, value);
      assert Stores(ops[n], key, value) ==> StoredAt(ops, key, value, n);
      forall i: nat | !Touches(ops[n], key) && StoredAt(before, key, value, i) ensures StoredAt(ops, key, value, i) {
        assert forall k | i < k < n :: before[k] == ops[k];
      }
      forall i: nat | StoredAt(ops, key, value, i) && i != n
        ensures StoredAt(before, key, value, i) && !Touches(ops[n], key)
      {
        assert before[i] == ops[i];
      }
    }
  }

  // --- What the queries answer -------------------------------------------------------------------

  /** A pair of the contents. */
  predicate IsPair<V(==)>(m: map<Key, V>, pair: Pair<V>) {
    pair.key in m && m[pair.key] == pair.value
  }

  /** A query for one pair answers the stored value, the last pair up to the key, or the first one from it on. */
  lemma QueryMeans<V>(m: map<Key, V>, key: Key) returns (value: Option<V>, prev: Option<Pair<V>>, next: Option<Pair<V>>)
    ensures Reply(m, Get(key)) == Value(value)
    ensures Reply(m, Prev(key)) == Entry(prev) && Reply(m, Next(key)) == Entry(next)
    ensures match value case None => key !in m case Some(v) => key in m && m[key] == v
    ensures match prev
      case None => forall k | k in m :: Less(key, k)
      case Some(p) => IsPair(m, p) && AtMost(p.key, key) && forall k | k in m && AtMost(k, key) :: AtMost(k, p.key)
    ensures match next
      case None => forall k | k in m :: Less(k, key)
      case Some(p) => IsPair(m, p) && AtMost(key, p.key) && forall k | k in m && AtMost(key, k) :: AtMost(p.key, k)
  {
    hide Less, OrderedMap.Prev, OrderedMap.Next;
    value := if key in m then Some(m[key]) else None;
    prev, next := OrderedMap.Prev(m, key), OrderedMap.Next(m, key);
  }

  /** A prefixed key is found if and only if some key of the contents begins with the prefix. */
  lemma PrefixQueryMeans<V>(m: map<Key, V>, prefix: Key)
    ensures Reply(m, ContainsPrefixedKey(prefix)) ==
      Flag(exists key :: key in m && |prefix| <= |key| && key[..|prefix|] == prefix)
  {
    assert forall key | key in m :: prefix <= key <==> |prefix| <= |key| && key[..|prefix|] == prefix;
  }

  /** An iteration gives each pair from a key on, or each pair down from a key, once and in order. */
  lemma IterationMeans<V>(m: map<Key, V>, key: Key) returns (up: seq<Pair<V>>, down: seq<Pair<V>>)
    ensures Reply(m, IterateAscending(key)) == Entries(up) && Reply(m, IterateDescending(key)) == Entries(down)
    ensures forall i, j | 0 <= i < j < |up| :: Less(up[i].key, up[j].key)
    ensures forall i | 0 <= i < |up| :: IsPair(m, up[i]) && AtMost(key, up[i].key)
    ensures forall k | k in m && AtMost(key, k) :: exists i :: 0 <= i < |up| && up[i].key == k
    ensures forall i, j | 0 <= i < j < |down| :: Less(down[j].key, down[i].key)
    ensures forall i | 0 <= i < |down| :: IsPair(m, down[i]) && AtMost(down[i].key, key)
    ensures forall k | k in m && AtMost(k, key) :: exists i :: 0 <= i < |down| && down[i].key == k
  {
    hide Less, Reverse;
    up := Ascending(From(m, key));
    forall k | k in m && AtMost(key, k) ensures exists i :: 0 <= i < |up| && up[i].key == k {
      assert HasKey(up, k);
    }
    var s := Ascending(UpTo(m, key));
    ReverseMirrors(s);
    down := Reverse(s);
    forall k | k in m && AtMost(k, key) ensures exists i :: 0 <= i < |down| && down[i].key == k {
      assert HasKey(s, k);
      var i :| 0 <= i < |s| && s[i].key == k;
      assert down[|s| - 1 - i] == s[i];
    }
  }

  /** Storing one key and deleting an inverted range that ends at it tells the backends apart. */
  lemma InvertedRangeDiffers<V>(value: V)
    ensures !NeverInvertedAtKey([PutBatch([Pair([0], value)]), DeleteRange([1], [0])])
  {
    var put := PutBatch([Pair([0], value)]);
    var ops := [put, DeleteRange([1], [0])];
    assert ops[..1] == [put] && [put][..0] == [];
    assert After(ops[..1]) == Effect(After([]), put);
    assert put.pairs[..0] == [];
    assert InvertedAtKey(After(ops[..1]), ops[1]);
  }

  lemma RunStart<V>(ops: seq<Op<V>>)
    ensures After(ops[..0]) == map[] && NeverInvertedAtKey(ops[..0])
  {
  }

  lemma RunStep<V>(ops: seq<Op<V>>, n: nat)
    requires n < |ops|
    ensures After(ops[..n + 1]) == Effect(After(ops[..n]), ops[n])
    ensures NeverInvertedAtKey(ops[..n + 1]) <==>
      NeverInvertedAtKey(ops[..n]) && !InvertedAtKey(After(ops[..n]), ops[n])
  {
    hide Effect, InvertedAtKey;
    assert forall i | 0 <= i <= n :: ops[..n + 1][..i] == ops[..i];
    assert forall i | 0 <= i <= n :: ops[..n][..i] == ops[..i];
    assert forall i | 0 <= i < n :: ops[..n][i] == ops[..n + 1][i];
    if NeverInvertedAtKey(ops[..n + 1]) {
      assert !InvertedAtKey(After(ops[..n + 1][..n]), ops[..n + 1][n]);
      forall i | 0 <= i < n ensures !InvertedAtKey(After(ops[..n][..i]), ops[..n][i]) {
        assert !InvertedAtKey(After(ops[..n + 1][..i]), ops[..n + 1][i]);
      }
    } else {
      var i :| 0 <= i < n + 1 && InvertedAtKey(After(ops[..n + 1][..i]), ops[..n + 1][i]);
      assert i < n ==> InvertedAtKey(After(ops[..n][..i]), ops[..n][i]);
    }
  }

  lemma RepliesNeverPanic<V>(m: map<Key, V>, op: Op<V>)
    ensures Reply(m, op) != Panicked
  {
  }

  lemma AppendedEqual<T>(p: seq<T>, q: seq<T>, x: T, y: T)
    requires |p| == |q|
    ensures p + [x] == q + [y] <==> p == q && x == y
  {
    if p + [x] == q + [y] {
      assert p == (p + [x])[..|p|] && q == (q + [y])[..|q|];
      assert x == (p + [x])[|p|] && y == (q + [y])[|q|];
    }
  }
}
