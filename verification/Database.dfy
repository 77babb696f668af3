/** The key-value database and its two backends: an ordered map, and transactions with a moving cursor. Values
    are kept as stored, after compression. */
module Database {
  import opened Results
  import opened Sequences
  import opened ByteOrder
  import opened OrderedMap

  // --- Cursors -----------------------------------------------------------------------------------

  /** Where a cursor stands: on an entry, or in the gap before the entry with that index. */
  datatype Position = Unset | At(index: nat) | Gap(index: nat)

  /** A libmdbx cursor over the sorted entries that its transaction sees. */
  class Cursor<V> {
    var entries: seq<Pair<V>>
    var position: Position

    ghost predicate Valid()
      reads this
    {
      && (position.At? ==> position.index < |entries|)
      && (position.Gap? ==> position.index <= |entries|)
    }

    constructor (entries: seq<Pair<V>>)
      ensures Valid() && this.entries == entries && position == Unset
    {
      this.entries := entries;
      position := Unset;
    }

    method Set(key: Key) returns (found: bool)
      requires Valid()
      modifies this`position
      ensures Valid()
      ensures var n := LowerBound(entries, key);
        && (found <==> n < |entries| && entries[n].key == key)
        && position == if found then At(n) else Gap(n)
    {
      var n := LowerBound(entries, key);
      found := n < |entries| && entries[n].key == key;
      position := if found then At(n) else Gap(n);
    }

    method SetRange(key: Key) returns (r: Option<Pair<V>>)
      requires Valid()
      modifies this`position
      ensures Valid()
      ensures var n := LowerBound(entries, key);
        && r == (if n < |entries| then Some(entries[n]) else None)
        && position == (if n < |entries| then At(n) else Gap(n))
    {
      var n := LowerBound(entries, key);
      r := if n < |entries| then Some(entries[n]) else None;
      position := if n < |entries| then At(n) else Gap(n);
    }

    /** Like `SetRange`, and also tells whether the entry found comes after the key. */
    method SetLowerbound(key: Key) returns (r: Option<(bool, Pair<V>)>)
      requires Valid()
      modifies this`position
      ensures Valid()
      ensures var n := LowerBound(entries, key);
        && r == (if n < |entries| then Some((entries[n].key != key, entries[n])) else None)
        && position == (if n < |entries| then At(n) else Gap(n))
    {
      var n := LowerBound(entries, key);
      r := if n < |entries| then Some((entries[n].key != key, entries[n])) else None;
      position := if n < |entries| then At(n) else Gap(n);
    }

    /** The entry after the cursor. After a deletion that is the successor of the deleted entry. */
    method Next() returns (r: Option<Pair<V>>)
      requires Valid()
      modifies this`position
      ensures Valid()
      ensures var n := match old(position) { case Unset => 0 case At(i) => i + 1 case Gap(i) => i };
        && r == (if n < |entries| then Some(entries[n]) else None)
        && position == (if n < |entries| then At(n) else Gap(n))
    {
      var n := match position { case Unset => 0 case At(i) => i + 1 case Gap(i) => i };
      r := if n < |entries| then Some(entries[n]) else None;
      position := if n < |entries| then At(n) else Gap(n);
    }

    /** The entry before the cursor. */
    method Prev() returns (r: Option<Pair<V>>)
      requires Valid()
      modifies this`position
      ensures Valid()
      ensures var n := match old(position) { case Unset => |entries| case At(i) => i case Gap(i) => i };
        && r == (if n > 0 then Some(entries[n - 1]) else None)
        && position == (if n > 0 then At(n - 1) else Gap(0))
    {
      var n := match position { case Unset => |entries| case At(i) => i case Gap(i) => i };
      r := if n > 0 then Some(entries[n - 1]) else None;
      position := if n > 0 then At(n - 1) else Gap(0);
    }

    method Last() returns (r: Option<Pair<V>>)
      requires Valid()
      modifies this`position
      ensures Valid()
      ensures r == if |entries| > 0 then Some(entries[|entries| - 1]) else None
      ensures position == if |entries| > 0 then At(|entries| - 1) else Gap(0)
    {
      r := if |entries| > 0 then Some(entries[|entries| - 1]) else None;
      position := if |entries| > 0 then At(|entries| - 1) else Gap(0);
    }

    method Del()
      requires Valid() && position.At?
      modifies this
      ensures Valid()
      ensures var n := old(position).index;
        position == Gap(n) && entries == old(entries)[..n] + old(entries)[n + 1..]
    {
      var n := position.index;
      entries := entries[..n] + entries[n + 1..];
      position := Gap(n);
    }

    /** Removes an entry if it is there. */
    method DeleteKey(key: Key, ghost contents: map<Key, V>) returns (found: bool)
      requires Valid() && Lists(entries, contents)
      modifies this
      ensures Valid() && Lists(entries, contents - {key})
      ensures !found ==> entries == old(entries)
    {
      hide Less, LowerBound, Sorted;
      LowerBoundSplits(entries, key);
      found := Set(key);
      if found {
        RemoveLists(entries, contents, position.index);
        Del();
      } else {
        assert contents - {key} == contents;
      }
    }

    /** Removes entries from the cursor on while their keys are less than `end`. */
    method DeleteBelow(end: Key) returns (ghost j: nat)
      requires Valid() && position.At?
      modifies this
      ensures Valid() && old(position.index) <= j <= |old(entries)|
      ensures entries == old(entries)[..old(position.index)] + old(entries)[j..]
      ensures forall i | old(position.index) <= i < j :: Less(old(entries)[i].key, end)
      ensures j < |old(entries)| ==> AtMost(end, old(entries)[j].key)
    {
      hide Less;
      ghost var before, n := entries, position.index;
      var key := entries[position.index].key;
      j := n;
      while Less(key, end)
        invariant Valid() && n <= j < |before| && key == before[j].key && position == At(n)
        invariant entries == before[..n] + before[j..]
        invariant forall i | n <= i < j :: Less(before[i].key, end)
        decreases |before| - j
      {
        RemoveAtSeam(before, n, j);
        Del();
        j := j + 1;
        var next := Next();
        if next.None? {
          break;
        }
        key := next.value.key;
      }
    }

    /** All entries from the cursor on, as `Iterator` chains collect them. */
    method Rest(first: Option<Pair<V>>) returns (r: seq<Pair<V>>)
      requires Valid()
      requires if first.Some? then position.At? && first == Some(entries[position.index])
        else position == Gap(|entries|)
      modifies this`position
      ensures Valid()
      ensures r == if first.Some? then entries[old(position).index..] else []
    {
      ghost var start := position.index;
      r := if first.Some? then [first.value] else [];
      var next := Next();
      while next.Some?
        invariant Valid() && start <= |entries|
        invariant if next.Some? then position.At? && next == Some(entries[position.index])
          else position == Gap(|entries|)
        invariant start <= position.index && r == entries[start..position.index]
        decreases |entries| - position.index, next.Some?
      {
        r := r + [next.value];
        assert entries[start..position.index + 1] == entries[start..position.index] + [entries[position.index]];
        next := Next();
      }
    }

    /** All entries from the cursor back. */
    method RestBackwards(first: Option<Pair<V>>) returns (r: seq<Pair<V>>)
      requires Valid()
      requires if first.Some? then position.At? && first == Some(entries[position.index]) else position == Gap(0)
      modifies this`position
      ensures Valid()
      ensures r == if first.Some? then Reverse(entries[..old(position).index + 1]) else []
    {
      hide Backwards, Reverse;
      ghost var left: nat := if first.Some? then position.index else 0;
      ghost var end: nat := if first.Some? then left + 1 else 0;
      BackwardsStart(entries, left);
      BackwardsAll(entries, end);
      r := if first.Some? then [first.value] else [];
      var next := Prev();
      while next.Some?
        invariant Valid() && left <= end <= |entries|
        invariant if next.Some? then left > 0 && position == At(left - 1) && next == Some(entries[left - 1])
          else left == 0
        invariant r == Backwards(entries, left, end)
        decreases left, next.Some?
      {
        BackwardsStep(entries, left, end);
        left := left - 1;
        r := r + [next.value];
        next := Prev();
      }
    }
  }

  /** The elements from `left` up to `end`, last one first. */
  ghost function Backwards<T>(s: seq<T>, left: nat, end: nat): (r: seq<T>)
    requires left <= end <= |s|
  {
    Reverse(s[left..end])
  }

  lemma BackwardsStart<T>(s: seq<T>, at: nat)
    requires at <= |s|
    ensures Backwards(s, at, at) == []
    ensures at < |s| ==> Backwards(s, at, at + 1) == [s[at]]
  {
    if at < |s| {
      assert s[at..at + 1] == [s[at]] + [];
      ReversePrepend(s[at], []);
    }
  }

  lemma BackwardsStep<T>(s: seq<T>, left: nat, end: nat)
    requires 0 < left <= end <= |s|
    ensures Backwards(s, left - 1, end) == Backwards(s, left, end) + [s[left - 1]]
  {
    assert s[left - 1..end] == [s[left - 1]] + s[left..end];
    ReversePrepend(s[left - 1], s[left..end]);
  }

  lemma BackwardsAll<T>(s: seq<T>, end: nat)
    requires end <= |s|
    ensures Backwards(s, 0, end) == Reverse(s[..end])
    ensures end == 0 ==> Reverse(s[..end]) == []
  {
    assert s[0..end] == s[..end];
  }

  function Reverse<T>(s: seq<T>): (r: seq<T>) {
    if s == [] then [] else Reverse(s[1..]) + [s[0]]
  }

  lemma RemoveAtSeam<T>(s: seq<T>, n: nat, j: nat)
    requires n <= j < |s|
    ensures var r := s[..n] + s[j..];
      n < |r| && r[..n] + r[n + 1..] == s[..n] + s[j + 1..]
  {
    var r := s[..n] + s[j..];
    assert r[..n] == s[..n] && r[n..] == s[j..];
    assert r[n + 1..] == r[n..][1..] == s[j + 1..];
  }

  lemma {:induction false} ReverseMirrors<T>(s: seq<T>)
    ensures |Reverse(s)| == |s|
    ensures forall i | 0 <= i < |s| :: Reverse(s)[i] == s[|s| - 1 - i]
  {
    if s != [] {
      ReverseMirrors(s[1..]);
    }
  }

  lemma ReversePrepend<T>(x: T, s: seq<T>)
    ensures Reverse([x] + s) == Reverse(s) + [x]
  {
    assert ([x] + s)[1..] == s;
  }

  // --- The cursor backend ------------------------------------------------------------------------

  /** `DatabaseKind::Persistent`: every call runs in its own transaction. */
  class Persistent<V> {
    var entries: seq<Pair<V>>
    ghost var contents: map<Key, V>

    ghost predicate Valid()
      reads this
    {
      Lists(entries, contents)
    }

    constructor ()
      ensures Valid() && contents == map[]
    {
      entries := [];
      contents := map[];
    }

    method Delete(key: Key)
      requires Valid()
      modifies this
      ensures Valid() && contents == old(contents) - {key}
    {
      var cursor := new Cursor(entries);
      var found := cursor.DeleteKey(key, contents);
      if found {
        entries := cursor.entries;
      }
      contents := contents - {key};
    }

    method DeleteBatch(keys: seq<Key>)
      requires Valid()
      modifies this
      ensures Valid() && contents == old(contents) - Elements(keys)
    {
      hide Lists;
      var cursor := new Cursor(entries);
      ghost var left := contents;
      for n := 0 to |keys|
        invariant cursor.Valid() && Lists(cursor.entries, left) && fresh(cursor)
        invariant left == contents - Elements(keys[..n]) && contents == old(contents) && entries == old(entries)
      {
        assert keys[..n + 1] == keys[..n] + [keys[n]];
        var _ := cursor.DeleteKey(keys[n], left);
        left := left - {keys[n]};
      }
      assert keys[..|keys|] == keys;
      entries := cursor.entries;
      contents := left;
    }

    /** Removes exactly the keys that are at least `start` and less than `end`. */
    method DeleteRange(start: Key, end: Key)
      requires Valid()
      modifies this
      ensures Valid() && contents == Outside(old(contents), start, end)
    {
      hide Less, LowerBound, Lists, Outside;
      var cursor := new Cursor(entries);
      var first := cursor.SetRange(start);
      if first.None? {
        RangeLists(entries, contents, start, end, |entries|);
        assert entries[..|entries|] + entries[|entries|..] == entries;
        contents := Outside(contents, start, end);
        return;
      }
      ghost var j := cursor.DeleteBelow(end);
      RangeLists(entries, contents, start, end, j);
      entries := cursor.entries;
      contents := Outside(contents, start, end);
    }

    method Get(key: Key) returns (r: Option<V>)
      requires Valid()
      ensures r == if key in contents then Some(contents[key]) else None
    {
      hide Less, LowerBound;
      LowerBoundSplits(entries, key);
      var n := LowerBound(entries, key);
      r := if n < |entries| && entries[n].key == key then Some(entries[n].value) else None;
    }

    method PutBatch(pairs: seq<Pair<V>>)
      requires Valid()
      modifies this
      ensures Valid() && contents == WithPairs(old(contents), pairs)
      ensures forall i: nat | i < |pairs| && IsLastWith(pairs, pairs[i].key, i) ::
        pairs[i].key in contents && contents[pairs[i].key] == pairs[i].value
    {
      hide Lists, OrderedMap.Put;
      if pairs == [] {
        return;
      }
      for n := 0 to |pairs|
        invariant Valid() && contents == WithPairs(old(contents), pairs[..n])
      {
        assert pairs[..n + 1][..n] == pairs[..n];
        PutLists(entries, contents, pairs[n].key, pairs[n].value);
        entries := OrderedMap.Put(entries, pairs[n].key, pairs[n].value);
        contents := contents[pairs[n].key := pairs[n].value];
      }
      assert pairs[..|pairs|] == pairs;
      LastPairsAreStored(old(contents), pairs);
    }

    method NextRaw(key: Key) returns (r: Option<Pair<V>>)
      requires Valid()
      ensures r == OrderedMap.Next(contents, key)
    {
      hide Less, LowerBound, Lists;
      var cursor := new Cursor(entries);
      r := cursor.SetRange(key);
      SuffixLists(entries, contents, key);
    }

    method ContainsPrefixedKey(prefix: Key) returns (r: bool)
      requires Valid()
      ensures r <==> exists key :: key in contents && prefix <= key
    {
      var next := NextRaw(prefix);
      PrefixIsFoundFirst(contents, prefix);
      r := next.Some? && prefix <= next.value.key;
    }

    method Prev(key: Key) returns (r: Option<Pair<V>>)
      requires Valid()
      ensures r == OrderedMap.Prev(contents, key)
    {
      hide Less, LowerBound, Lists;
      var cursor := new Cursor(entries);
      PrefixLists(entries, contents, key);
      var bound := cursor.SetLowerbound(key);
      if bound.Some? {
        if bound.value.0 {
          r := cursor.Prev();
        } else {
          r := Some(bound.value.1);
        }
      } else {
        r := cursor.Last();
      }
    }

    method IteratorAscending(start: Key) returns (r: seq<Pair<V>>)
      requires Valid()
      ensures r == Ascending(From(contents, start))
    {
      hide Less, LowerBound, Lists;
      var cursor := new Cursor(entries);
      var first := cursor.SetRange(start);
      r := cursor.Rest(first);
      SuffixLists(entries, contents, start);
    }

    method IteratorDescending(end: Key) returns (r: seq<Pair<V>>)
      requires Valid()
      ensures r == Reverse(Ascending(UpTo(contents, end)))
    {
      hide Less, LowerBound, Lists;
      var cursor := new Cursor(entries);
      PrefixLists(entries, contents, end);
      var bound := cursor.SetLowerbound(end);
      var first := None;
      if bound.Some? {
        if bound.value.0 {
          first := cursor.Prev();
        } else {
          first := Some(bound.value.1);
        }
      } else {
        first := cursor.Last();
      }
      r := cursor.RestBackwards(first);
    }
  }

  function WithPairs<V>(m: map<Key, V>, pairs: seq<Pair<V>>): (r: map<Key, V>) {
    if pairs == [] then m else
      var last := pairs[|pairs| - 1];
      WithPairs(m, pairs[..|pairs| - 1])[last.key := last.value]
  }

  /** The last pair with the key. */
  ghost predicate IsLastWith<V>(pairs: seq<Pair<V>>, key: Key, i: nat) {
    i < |pairs| && pairs[i].key == key && forall j | i < j < |pairs| :: pairs[j].key != key
  }

  /** Of the pairs with a key the last one is stored; a key without a pair is as before. */
  lemma {:induction false} LastPairWins<V>(m: map<Key, V>, pairs: seq<Pair<V>>, key: Key) returns (last: Option<nat>)
    ensures var r := WithPairs(m, pairs);
      match last
      case Some(i) => IsLastWith(pairs, key, i) && key in r && r[key] == pairs[i].value
      case None => !HasKey(pairs, key) && (key in r <==> key in m) && (key in m ==> r[key] == m[key])
  {
    if pairs == [] {
      last := None;
    } else {
      var n := |pairs| - 1;
      if pairs[n].key == key {
        last := Some(n);
      } else {
        last := LastPairWins(m, pairs[..n], key);
        assert forall i | 0 <= i < n :: pairs[..n][i] == pairs[i];
      }
    }
  }

  lemma LastPairsAreStored<V>(m: map<Key, V>, pairs: seq<Pair<V>>)
    ensures forall i: nat | i < |pairs| && IsLastWith(pairs, pairs[i].key, i) ::
      pairs[i].key in WithPairs(m, pairs) && WithPairs(m, pairs)[pairs[i].key] == pairs[i].value
  {
    hide WithPairs;
    forall i: nat | i < |pairs| && IsLastWith(pairs, pairs[i].key, i)
      ensures pairs[i].key in WithPairs(m, pairs) && WithPairs(m, pairs)[pairs[i].key] == pairs[i].value
    {
      var last := LastPairWins(m, pairs, pairs[i].key);
    }
  }

  /** Cutting the entries from the first one at `start` up to the first one at `end` leaves what is outside. */
  lemma RangeLists<V>(entries: seq<Pair<V>>, contents: map<Key, V>, start: Key, end: Key, j: nat)
    requires Lists(entries, contents) && LowerBound(entries, start) <= j <= |entries|
    requires forall i | LowerBound(entries, start) <= i < j :: Less(entries[i].key, end)
    requires j < |entries| ==> AtMost(end, entries[j].key)
    ensures Lists(entries[..LowerBound(entries, start)] + entries[j..], Outside(contents, start, end))
  {
    hide Less, LowerBound, Sorted, HasKey;
    var n := LowerBound(entries, start);
    LowerBoundSplits(entries, start);
    TailIsAbove(entries, end, j);
    var r, m := entries[..n] + entries[j..], Outside(contents, start, end);
    CutSorts(entries, n, j);
    forall i | 0 <= i < |r| ensures r[i].key in m && m[r[i].key] == r[i].value {
      assert r[i] == entries[if i < n then i else i - n + j];
    }
    forall k | k in m ensures HasKey(r, k) {
      CutKeeps(entries, n, j, k, start, end);
    }
  }

  lemma CutKeeps<V>(entries: seq<Pair<V>>, n: nat, j: nat, key: Key, start: Key, end: Key)
    requires n <= j <= |entries| && HasKey(entries, key)
    requires forall i | n <= i < j :: AtMost(start, entries[i].key) && Less(entries[i].key, end)
    requires Less(key, start) || AtMost(end, key)
    ensures HasKey(entries[..n] + entries[j..], key)
  {
    hide Less;
    var i :| 0 <= i < |entries| && entries[i].key == key;
    var r := entries[..n] + entries[j..];
    assert r[if i < n then i else i - j + n] == entries[i];
  }

  lemma TailIsAbove<V>(entries: seq<Pair<V>>, end: Key, j: nat)
    requires Sorted(entries) && (j < |entries| ==> AtMost(end, entries[j].key))
    ensures forall i | j <= i < |entries| :: AtMost(end, entries[i].key)
  {
    hide Less;
    forall i | j < i < |entries| ensures AtMost(end, entries[i].key) {
      AtMostLess(end, entries[j].key, entries[i].key);
      LessIsTotal(end, entries[i].key);
    }
  }

  lemma CutSorts<V>(entries: seq<Pair<V>>, n: nat, j: nat)
    requires Sorted(entries) && n <= j <= |entries|
    ensures Sorted(entries[..n] + entries[j..])
  {
  }

  // --- The ordered-map backend -------------------------------------------------------------------

  /** Both parts of `OrdMap::split`; neither holds the key itself. */
  function Below<V>(m: map<Key, V>, key: Key): (r: map<Key, V>) {
    map k | k in m && Less(k, key) :: m[k]
  }

  function Above<V>(m: map<Key, V>, key: Key): (r: map<Key, V>) {
    map k | k in m && Less(key, k) :: m[k]
  }

  /** `OrdMap::into_iter`. */
  method IntoIter<V>(m: map<Key, V>) returns (s: seq<Pair<V>>)
    ensures s == Ascending(m)
  {
    hide Less, OrderedMap.Put, Lists;
    s := [];
    var left := m;
    NothingListed<V>();
    ghost var listed: map<Key, V> := map[];
    while left.Keys != {}
      invariant left.Keys !! listed.Keys && left + listed == m
      invariant Lists(s, listed)
      decreases left.Keys
    {
      var key :| key in left;
      PutLists(s, listed, key, left[key]);
      s := OrderedMap.Put(s, key, left[key]);
      listed := listed[key := left[key]];
      left := left - {key};
    }
    assert listed == m;
    ListingIsUnique(s, Ascending(m), m);
  }

  lemma NothingListed<V>()
    ensures Lists<V>([], map[])
  {
  }

  /** `DatabaseKind::InMemory`. A failed `expect_none` panics and leaves the mutex around the map poisoned; from
      then on every call panics. */
  class InMemory<V> {
    var contents: map<Key, V>
    var poisoned: bool

    constructor ()
      ensures contents == map[] && !poisoned
    {
      contents, poisoned := map[], false;
    }

    method Delete(key: Key)
      modifies this`contents
      ensures contents == old(contents) - {key}
    {
      contents := contents - {key};
    }

    method DeleteBatch(keys: seq<Key>)
      modifies this`contents
      ensures contents == old(contents) - Elements(keys)
    {
      for n := 0 to |keys|
        invariant contents == old(contents) - Elements(keys[..n])
      {
        assert keys[..n + 1] == keys[..n] + [keys[n]];
        contents := contents - {keys[n]};
      }
      assert keys[..|keys|] == keys;
    }

    /** Panics exactly when the range is inverted and its end is a key. Otherwise it removes exactly the keys
        that are at least `start` and less than `end`. */
    method DeleteRange(start: Key, end: Key)
      requires !poisoned
      modifies this
      ensures poisoned <==> end in old(contents) && Less(end, start)
      ensures contents == if poisoned then old(contents) else Outside(old(contents), start, end)
    {
      hide Less;
      var below := Below(contents, start);
      var above := Above(contents, end);
      var newMap := below + above;
      LessIsTotal(end, end);
      if end in contents {
        if end in newMap {
          poisoned := true;
          return;
        }
        newMap := newMap[end := contents[end]];
      }
      OutsideOfSplits(contents, start, end);
      contents := newMap;
    }

    method Get(key: Key) returns (r: Option<V>)
      ensures r == if key in contents then Some(contents[key]) else None
    {
      r := if key in contents then Some(contents[key]) else None;
    }

    method PutBatch(pairs: seq<Pair<V>>)
      modifies this`contents
      ensures contents == WithPairs(old(contents), pairs)
      ensures forall i: nat | i < |pairs| && IsLastWith(pairs, pairs[i].key, i) ::
        pairs[i].key in contents && contents[pairs[i].key] == pairs[i].value
    {
      if pairs == [] {
        return;
      }
      for n := 0 to |pairs|
        invariant contents == WithPairs(old(contents), pairs[..n])
      {
        assert pairs[..n + 1][..n] == pairs[..n];
        contents := contents[pairs[n].key := pairs[n].value];
      }
      assert pairs[..|pairs|] == pairs;
      LastPairsAreStored(old(contents), pairs);
    }

    /** `OrdMap::get_next`. */
    method NextRaw(key: Key) returns (r: Option<Pair<V>>)
      ensures r == OrderedMap.Next(contents, key)
    {
      hide Less, Lists;
      var s := IntoIter(From(contents, key));
      r := if |s| == 0 then None else Some(s[0]);
    }

    method ContainsPrefixedKey(prefix: Key) returns (r: bool)
      ensures r <==> exists key :: key in contents && prefix <= key
    {
      var next := NextRaw(prefix);
      PrefixIsFoundFirst(contents, prefix);
      r := next.Some? && prefix <= next.value.key;
    }

    /** `OrdMap::get_prev`. */
    method Prev(key: Key) returns (r: Option<Pair<V>>)
      ensures r == OrderedMap.Prev(contents, key)
    {
      hide Less, Lists;
      var s := IntoIter(UpTo(contents, key));
      r := if |s| == 0 then None else Some(s[|s| - 1]);
    }

    method IteratorAscending(start: Key) returns (r: seq<Pair<V>>)
      ensures r == Ascending(From(contents, start))
    {
      hide Less, Lists;
      var above := Above(contents, start);
      LessIsTotal(start, start);
      if start in contents {
        // `expect_none` cannot fail here.
        assert start !in above;
        above := above[start := contents[start]];
      }
      assert above == From(contents, start) by {
        forall k | k in contents ensures AtMost(start, k) <==> Less(start, k) || k == start {
          LessIsTotal(start, k);
        }
      }
      r := IntoIter(above);
    }

    method IteratorDescending(end: Key) returns (r: seq<Pair<V>>)
      ensures r == Reverse(Ascending(UpTo(contents, end)))
    {
      hide Less, Lists;
      var below := Below(contents, end);
      LessIsTotal(end, end);
      if end in contents {
        // `expect_none` cannot fail here.
        assert end !in below;
        below := below[end := contents[end]];
      }
      assert below == UpTo(contents, end) by {
        forall k | k in contents ensures AtMost(k, end) <==> Less(k, end) || k == end {
          LessIsTotal(k, end);
        }
      }
      var s := IntoIter(below);
      r := Reverse(s);
    }
  }

  lemma OutsideOfSplits<V>(m: map<Key, V>, start: Key, end: Key)
    requires end in m ==> !Less(end, start)
    ensures var union := Below(m, start) + Above(m, end);
      Outside(m, start, end) == if end in m then union[end := m[end]] else union
  {
    hide Less;
    LessIsTotal(end, end);
    forall k | k in m ensures AtMost(end, k) <==> Less(end, k) || k == end {
      LessIsTotal(end, k);
    }
  }
}
