/** Byte strings in lexicographic order, the order of keys in both database backends. */
module ByteOrder {
  type Byte = b: nat | b < 256
  type Key = seq<Byte>

  predicate Less(a: Key, b: Key) {
    if b == [] then false
    else if a == [] then true
    else a[0] < b[0] || (a[0] == b[0] && Less(a[1..], b[1..]))
  }

  predicate AtMost(a: Key, b: Key) {
    !Less(b, a)
  }

  /** Exactly one of less, equal and greater holds. */
  lemma {:induction false} LessIsTotal(a: Key, b: Key)
    ensures Less(a, b) || a == b || Less(b, a)
    ensures !(Less(a, b) && Less(b, a))
    ensures a == b ==> !Less(a, b)
  {
    if a != [] && b != [] && a[0] == b[0] {
      LessIsTotal(a[1..], b[1..]);
      assert a == [a[0]] + a[1..] && b == [b[0]] + b[1..];
    }
  }

  lemma {:induction false} LessIsTransitive(a: Key, b: Key, c: Key)
    requires Less(a, b) && Less(b, c)
    ensures Less(a, c)
  {
    if a != [] && a[0] == b[0] == c[0] {
      LessIsTransitive(a[1..], b[1..], c[1..]);
    }
  }

  lemma AtMostLess(a: Key, b: Key, c: Key)
    requires (AtMost(a, b) && Less(b, c)) || (Less(a, b) && AtMost(b, c))
    ensures Less(a, c)
  {
    LessIsTotal(a, b);
    LessIsTotal(b, c);
    if Less(a, b) && Less(b, c) {
      LessIsTransitive(a, b, c);
    }
  }

  /** A string comes no later than its extensions, and everything between a string and one of its extensions
      extends it too. */
  lemma {:induction false} PrefixInterval(prefix: Key, key: Key, extension: Key)
    requires prefix <= extension
    ensures AtMost(prefix, extension)
    ensures AtMost(prefix, key) && AtMost(key, extension) ==> prefix <= key
  {
    if prefix != [] {
      assert prefix[0] == extension[0];
      if key != [] && key[0] == prefix[0] {
        PrefixInterval(prefix[1..], key[1..], extension[1..]);
        if prefix[1..] <= key[1..] {
          assert prefix == [prefix[0]] + prefix[1..] && key == [key[0]] + key[1..];
        }
      } else {
        PrefixInterval(prefix[1..], [], extension[1..]);
      }
    }
  }
}
