/** Maps with ordered keys: what a database holds, and what its queries mean. */
module OrderedMap {
  import opened ByteOrder
  import opened Results

  datatype Pair<V> = Pair(key: Key, value: V)

  // --- Sorted sequences of pairs -----------------------------------------------------------------

  ghost predicate Sorted<V>(s: seq<Pair<V>>) {
    forall i, j | 0 <= i < j < |s| :: Less(s[i].key, s[j].key)
  }

  ghost predicate HasKey<V>(s: seq<Pair<V>>, key: Key) {
    exists i :: 0 <= i < |s| && s[i].key == key
  }

  /** The sorted sequence `s` stands for the map `m`. */
  ghost predicate Lists<V>(s: seq<Pair<V>>, m: map<Key, V>) {
    && Sorted(s)
    && (forall key | key in m :: HasKey(s, key))
    && (forall i | 0 <= i < |s| :: s[i].key in m && m[s[i].key] == s[i].value)
  }

  /** A map is listed by one sorted sequence only. */
  lemma {:induction false} ListingIsUnique<V>(s: seq<Pair<V>>, t: seq<Pair<V>>, m: map<Key, V>)
    requires Lists(s, m) && Lists(t, m)
    ensures s == t
  {
    hide Less, Lists;
    ListsNothing(s, m);
    ListsNothing(t, m);
    if s != [] {
      var i, j := |s| - 1, |t| - 1;
      SameLast(s, t, m);
      RemoveLists(s, m, i);
      RemoveLists(t, m, j);
      assert s[..i] + s[i + 1..] == s[..i] && t[..j] + t[j + 1..] == t[..j];
      ListingIsUnique(s[..i], t[..j], m - {s[i].key});
      assert s == s[..i] + [s[i]] && t == t[..j] + [t[j]];
    }
  }

  lemma ListsNothing<V>(s: seq<Pair<V>>, m: map<Key, V>)
    requires Lists(s, m)
    ensures s == [] <==> m == map[]
  {
    if s == [] {
      assert forall key :: key !in m;
    } else {
      assert s[0].key in m;
    }
  }

  lemma SameLast<V>(s: seq<Pair<V>>, t: seq<Pair<V>>, m: map<Key, V>)
    requires Lists(s, m) && Lists(t, m) && s != [] && t != []
    ensures s[|s| - 1] == t[|t| - 1]
  {
    hide Less;
    var a, b := s[|s| - 1], t[|t| - 1];
    assert HasKey(t, a.key) && HasKey(s, b.key);
    var i :| 0 <= i < |t| && t[i].key == a.key;
    var j :| 0 <= j < |s| && s[j].key == b.key;
    LessIsTotal(a.key, b.key);
  }

  lemma RemoveSorts<V>(s: seq<Pair<V>>, n: nat)
    requires Sorted(s) && n < |s|
    ensures Sorted(s[..n] + s[n + 1..])
    ensures forall i | 0 <= i < |s| && i != n :: s[i].key != s[n].key
  {
    hide Less;
    forall i | 0 <= i < |s| && i != n ensures s[i].key != s[n].key {
      LessIsTotal(s[i].key, s[n].key);
    }
  }

  lemma RemoveLists<V>(s: seq<Pair<V>>, m: map<Key, V>, n: nat)
    requires Lists(s, m) && n < |s|
    ensures Lists(s[..n] + s[n + 1..], m - {s[n].key})
  {
    hide Sorted;
    RemoveSorts(s, n);
    var r := s[..n] + s[n + 1..];
    assert forall i | 0 <= i < |r| :: r[i] == s[if i < n then i else i + 1];
    forall k | k in m && k != s[n].key ensures HasKey(r, k) {
      assert HasKey(s, k);
      var i :| 0 <= i < |s| && s[i].key == k;
      assert r[if i > n then i - 1 else i].key == k;
    }
  }

  // --- Searching a sorted sequence ---------------------------------------------------------------

  /** The position of the first pair whose key is at least `key`. */
  function LowerBound<V>(s: seq<Pair<V>>, key: Key): (n: nat)
    ensures n <= |s|
    ensures forall i | 0 <= i < n :: Less(s[i].key, key)
    ensures n < |s| ==> AtMost(key, s[n].key)
  {
    if s == [] then 0
    else if AtMost(key, s[0].key) then 0
    else 1 + LowerBound(s[1..], key)
  }

  lemma LowerBoundSplits<V>(s: seq<Pair<V>>, key: Key)
    requires Sorted(s)
    ensures forall i | LowerBound(s, key) <= i < |s| :: AtMost(key, s[i].key)
    ensures HasKey(s, key) <==> LowerBound(s, key) < |s| && s[LowerBound(s, key)].key == key
  {
    var n := LowerBound(s, key);
    forall i | n <= i < |s| ensures AtMost(key, s[i].key) {
      if n < i {
        AtMostLess(key, s[n].key, s[i].key);
        LessIsTotal(key, s[i].key);
      }
    }
    if i :| 0 <= i < |s| && s[i].key == key {
      LessIsTotal(key, key);
      LessIsTotal(key, s[n].key);
    }
  }

  /** Inserting or replacing a pair. */
  function Put<V>(s: seq<Pair<V>>, key: Key, value: V): (r: seq<Pair<V>>) {
    var n := LowerBound(s, key);
    if n < |s| && s[n].key == key then s[n := Pair(key, value)] else s[..n] + [Pair(key, value)] + s[n..]
  }

  lemma PutSorts<V>(s: seq<Pair<V>>, key: Key, value: V)
    requires Sorted(s)
    ensures Sorted(Put(s, key, value))
  {
    hide Less;
    LowerBoundSplits(s, key);
    var n := LowerBound(s, key);
    forall i | n <= i < |s| && s[i].key != key ensures Less(key, s[i].key) {
      LessIsTotal(key, s[i].key);
    }
    if n < |s| && s[n].key == key {
      var r := s[n := Pair(key, value)];
      assert forall i | 0 <= i < |r| :: r[i].key == s[i].key;
    } else {
      assert forall i | n <= i < |s| :: s[i].key != key;
    }
  }

  /** Where the pair at `i` was before the pair at `n` was put there. */
  function PutSource<V>(s: seq<Pair<V>>, r: seq<Pair<V>>, n: nat, i: nat): int {
    if |r| > |s| && i > n then i - 1 else i
  }

  lemma PutTakes<V>(s: seq<Pair<V>>, key: Key, value: V, i: nat)
    requires Sorted(s) && i < |Put(s, key, value)|
    ensures var n, r := LowerBound(s, key), Put(s, key, value);
      if i == n then r[i] == Pair(key, value)
      else 0 <= PutSource(s, r, n, i) < |s| && r[i] == s[PutSource(s, r, n, i)] && r[i].key != key
  {
    hide Less, LowerBound;
    PutSorts(s, key, value);
    LowerBoundSplits(s, key);
    var n, r := LowerBound(s, key), Put(s, key, value);
    if i != n {
      PutKeysDiffer(r, n, i);
    }
  }

  lemma PutKeysDiffer<V>(r: seq<Pair<V>>, n: nat, i: nat)
    requires Sorted(r) && n < |r| && i < |r| && i != n
    ensures r[i].key != r[n].key
  {
    LessIsTotal(r[i].key, r[n].key);
  }

  lemma PutKeeps<V>(s: seq<Pair<V>>, key: Key, value: V, k: Key)
    requires k == key || HasKey(s, k)
    ensures HasKey(Put(s, key, value), k)
  {
    hide LowerBound;
    var n, r := LowerBound(s, key), Put(s, key, value);
    assert r[n].key == key;
    if k != key {
      var i :| 0 <= i < |s| && s[i].key == k;
      assert r[if |r| > |s| && i >= n then i + 1 else i].key == k;
    }
  }

  lemma PutLists<V>(s: seq<Pair<V>>, m: map<Key, V>, key: Key, value: V)
    requires Lists(s, m)
    ensures Lists(Put(s, key, value), m[key := value])
  {
    hide Sorted, LowerBound, Put, HasKey, PutSource;
    PutSorts(s, key, value);
    var r := Put(s, key, value);
    forall k | k in m[key := value] ensures HasKey(r, k) {
      PutKeeps(s, key, value, k);
    }
    forall i | 0 <= i < |r| ensures r[i].key in m[key := value] && m[key := value][r[i].key] == r[i].value {
      PutTakes(s, key, value, i);
    }
  }

  // --- Queries -----------------------------------------------------------------------------------

  lemma {:induction false} ListingExists<V>(m: map<Key, V>)
    ensures exists s :: Lists(s, m)
    decreases m.Keys
  {
    if m.Keys == {} {
      assert m == map[];
      assert Lists<V>([], m);
    } else {
      var key :| key in m;
      ListingExists(m - {key});
      var s :| Lists(s, m - {key});
      PutLists(s, m - {key}, key, m[key]);
      assert m == (m - {key})[key := m[key]];
      assert Lists(Put(s, key, m[key]), m);
    }
  }

  /** All pairs of a map in ascending order. */
  ghost function Ascending<V>(m: map<Key, V>): (s: seq<Pair<V>>)
    ensures Lists(s, m)
  {
    ListingExists(m);
    var s :| Lists(s, m);
    s
  }

  function From<V>(m: map<Key, V>, start: Key): (r: map<Key, V>) {
    map key | key in m && AtMost(start, key) :: m[key]
  }

  function UpTo<V>(m: map<Key, V>, end: Key): (r: map<Key, V>) {
    map key | key in m && AtMost(key, end) :: m[key]
  }

  function Outside<V>(m: map<Key, V>, start: Key, end: Key): (r: map<Key, V>) {
    map key | key in m && (Less(key, start) || AtMost(end, key)) :: m[key]
  }

  /** The first pair from a key on. */
  ghost function Next<V>(m: map<Key, V>, key: Key): (r: Option<Pair<V>>)
    ensures r.None? <==> forall k | k in m :: Less(k, key)
    ensures r.Some? ==>
      && r.value.key in m && m[r.value.key] == r.value.value && AtMost(key, r.value.key)
      && forall k | k in m && AtMost(key, k) :: AtMost(r.value.key, k)
  {
    var s := Ascending(From(m, key));
    FirstIsLeast(s);
    assert forall k | k in m && AtMost(key, k) :: HasKey(s, k);
    if s == [] then None else Some(s[0])
  }

  /** The last pair up to a key. */
  ghost function Prev<V>(m: map<Key, V>, key: Key): (r: Option<Pair<V>>)
    ensures r.None? <==> forall k | k in m :: Less(key, k)
    ensures r.Some? ==>
      && r.value.key in m && m[r.value.key] == r.value.value && AtMost(r.value.key, key)
      && forall k | k in m && AtMost(k, key) :: AtMost(k, r.value.key)
  {
    var s := Ascending(UpTo(m, key));
    FirstIsLeast(s);
    assert forall k | k in m && AtMost(k, key) :: HasKey(s, k);
    if s == [] then None else Some(s[|s| - 1])
  }

  lemma FirstIsLeast<V>(s: seq<Pair<V>>)
    requires Sorted(s)
    ensures forall key | HasKey(s, key) :: AtMost(s[0].key, key) && AtMost(key, s[|s| - 1].key)
  {
    forall i | 0 <= i < |s| ensures AtMost(s[0].key, s[i].key) && AtMost(s[i].key, s[|s| - 1].key) {
      LessIsTotal(s[0].key, s[i].key);
      LessIsTotal(s[i].key, s[|s| - 1].key);
    }
  }

  /** In a sorted sequence the pairs from a key on are a suffix. */
  lemma SuffixLists<V>(s: seq<Pair<V>>, m: map<Key, V>, key: Key)
    requires Lists(s, m)
    ensures s[LowerBound(s, key)..] == Ascending(From(m, key))
  {
    hide Less, LowerBound;
    LowerBoundSplits(s, key);
    var n, part := LowerBound(s, key), From(m, key);
    var r := s[n..];
    forall k | k in part ensures HasKey(r, k) {
      assert HasKey(s, k);
      var i :| 0 <= i < |s| && s[i].key == k;
      assert r[i - n] == s[i];
    }
    ListingIsUnique(r, Ascending(part), part);
  }

  /** The number of leading pairs whose key is at most `key`. */
  function UpperBound<V>(s: seq<Pair<V>>, key: Key): (n: nat)
    ensures n <= |s|
  {
    var n := LowerBound(s, key);
    if n < |s| && s[n].key == key then n + 1 else n
  }

  lemma UpperBoundSplits<V>(s: seq<Pair<V>>, key: Key)
    requires Sorted(s)
    ensures forall i | 0 <= i < |s| :: AtMost(s[i].key, key) <==> i < UpperBound(s, key)
  {
    hide LowerBound;
    LowerBoundSplits(s, key);
    var n := LowerBound(s, key);
    forall i | 0 <= i < |s| ensures AtMost(s[i].key, key) <==> i < UpperBound(s, key) {
      LessIsTotal(s[i].key, key);
      if n < i {
        LessIsTotal(key, s[n].key);
        AtMostLess(key, s[n].key, s[i].key);
      }
    }
  }

  /** In a sorted sequence the pairs up to a key are a prefix. */
  lemma PrefixLists<V>(s: seq<Pair<V>>, m: map<Key, V>, key: Key)
    requires Lists(s, m)
    ensures s[..UpperBound(s, key)] == Ascending(UpTo(m, key))
  {
    hide Less, UpperBound;
    UpperBoundSplits(s, key);
    var n, part := UpperBound(s, key), UpTo(m, key);
    var r := s[..n];
    forall k | k in part ensures HasKey(r, k) {
      assert HasKey(s, k);
      var i :| 0 <= i < |s| && s[i].key == k;
      assert r[i] == s[i];
    }
    ListingIsUnique(r, Ascending(part), part);
  }

  /** Some key has the prefix exactly when the first key from the prefix on has it. */
  lemma PrefixIsFoundFirst<V>(m: map<Key, V>, prefix: Key)
    ensures (exists key :: key in m && prefix <= key) <==>
      Next(m, prefix).Some? && prefix <= Next(m, prefix).value.key
  {
    if key :| key in m && prefix <= key {
      PrefixInterval(prefix, key, key);
      if Next(m, prefix).Some? {
        PrefixInterval(prefix, Next(m, prefix).value.key, key);
      }
    }
  }
}
