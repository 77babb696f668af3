/** Printing and parsing execution requests undo each other, and which strings the parser accepts. */
module RequestsRoundTrip {
  import opened Results
  import opened ExecutionRequests

  // --- What is printed can be parsed -------------------------------------------------------------

  lemma TypeOfPrefixed(t: RequestType, digits: string)
    ensures TypeOf(Prefix(t) + digits) == Some(t)
  {
    var s := Prefix(t) + digits;
    assert s[..4] == Prefix(t);
    assert s[3] == Prefix(t)[3];
    forall u: RequestType | Prefix(u) <= s ensures u == t {
      assert s[3] == Prefix(u)[3];
    }
  }

  lemma EntryParses(parsed: Parsed, t: RequestType, list: seq<Bytes>, bounds: RequestType -> nat)
    requires parsed.previous.Some? ==> Rank(parsed.previous.value) < Rank(t)
    requires list != [] && |list| <= bounds(t) && AllOfSize(list, ElementSize(t))
    ensures ParseOne(parsed, Prefix(t) + EncodeHex(ToSsz(list)), bounds) ==
      Ok(Parsed(Some(t), WithList(parsed.requests, t, list)))
  {
    hide Prefix, TypeOf, ToSsz, EncodeHex, DecodeHex, FromSsz, WithList, ElementSize;
    var digits := EncodeHex(ToSsz(list));
    TypeOfPrefixed(t, digits);
    assert (Prefix(t) + digits)[|Prefix(t)|..] == digits;
    DecodeOfEncode(ToSsz(list));
    FromSszOfToSsz(list, ElementSize(t), bounds(t));
  }

  lemma ParseAppend(s: seq<string>, element: string, bounds: RequestType -> nat)
    requires ParseAll(s, bounds).Ok?
    ensures ParseAll(s + [element], bounds) == ParseOne(ParseAll(s, bounds).value, element, bounds)
  {
  }

  /** The requests of the first `count` types only. */
  function FirstTypes(r: RawExecutionRequests, count: nat): RawExecutionRequests {
    RawExecutionRequests(
      if count > 0 then r.deposits else [], if count > 1 then r.withdrawals else [],
      if count > 2 then r.consolidations else [], if count > 3 then r.builderDeposits else [],
      if count > 4 then r.builderExits else [])
  }

  lemma NextType(r: RawExecutionRequests, count: nat)
    requires count < |TYPES|
    ensures var list := List(r, TYPES[count]);
      FirstTypes(r, count + 1) == if list == [] then FirstTypes(r, count)
                                  else WithList(FirstTypes(r, count), TYPES[count], list)
    ensures Rank(TYPES[count]) == count
  {
  }

  lemma {:induction false} PrintedTypesParse(r: RawExecutionRequests, count: nat, bounds: RequestType -> nat)
    requires WithinBounds(r, bounds) && count <= |TYPES|
    ensures var parsed := ParseAll(PrintTypes(r, count), bounds);
      && parsed.Ok? && parsed.value.requests == FirstTypes(r, count)
      && (parsed.value.previous.Some? ==> Rank(parsed.value.previous.value) < count)
  {
    hide FirstTypes, Prefix, ParseOne, ParseAll, PrintTypes, EncodeHex, ToSsz, List, WithList, Rank, ElementSize;
    hide AllOfSize;
    if count == 0 {
      NoTypes(r, bounds);
    } else {
      var n := count - 1;
      PrintedTypesParse(r, n, bounds);
      NextType(r, n);
      PrintNext(r, n);
      var t, printed := TYPES[n], PrintTypes(r, n);
      var list := List(r, t);
      if list != [] {
        ParseAppend(printed, Prefix(t) + EncodeHex(ToSsz(list)), bounds);
        EntryParses(ParseAll(printed, bounds).value, t, list, bounds);
      }
    }
  }

  lemma NoTypes(r: RawExecutionRequests, bounds: RequestType -> nat)
    ensures FirstTypes(r, 0) == NO_REQUESTS
    ensures PrintTypes(r, 0) == [] && ParseAll([], bounds) == Ok(Parsed(None, NO_REQUESTS))
  {
  }

  /** Parsing what was printed returns the requests, for all lists within their bounds. */
  lemma ParseOfPrint(r: RawExecutionRequests, bounds: RequestType -> nat)
    requires WithinBounds(r, bounds)
    ensures Parse(Print(r), bounds) == Ok(r)
  {
    PrintedTypesParse(r, |TYPES|, bounds);
    assert FirstTypes(r, |TYPES|) == r;
  }

  // --- What is parsed prints back ----------------------------------------------------------------

  /** No requests of this type or of a later one. */
  ghost predicate NoneFrom(r: RawExecutionRequests, rank: nat) {
    forall t: RequestType | Rank(t) >= rank :: List(r, t) == []
  }

  lemma OtherLists(r: RawExecutionRequests, t: RequestType, list: seq<Bytes>)
    ensures List(WithList(r, t, list), t) == list
    ensures forall u: RequestType | u != t :: List(WithList(r, t, list), u) == List(r, u)
  {
  }

  lemma {:induction false} PrintOfWithList(r: RawExecutionRequests, t: RequestType, list: seq<Bytes>, count: nat)
    requires count <= |TYPES| && NoneFrom(r, Rank(t)) && list != []
    ensures PrintTypes(WithList(r, t, list), count) ==
      if count <= Rank(t) then PrintTypes(r, count) else PrintTypes(r, count) + Entry(Prefix(t), list)
  {
    hide List, WithList, Prefix, EncodeHex, ToSsz, PrintTypes, Rank;
    OtherLists(r, t, list);
    if count == 0 {
      PrintNone(r);
      PrintNone(WithList(r, t, list));
    } else {
      var n := count - 1;
      PrintOfWithList(r, t, list, n);
      RankOfType(n);
      RankIsInjective();
      PrintNext(r, n);
      PrintNext(WithList(r, t, list), n);
    }
  }

  function LowerAll(s: seq<string>): (r: seq<string>) {
    seq(|s|, i requires 0 <= i < |s| => Lower(s[i]))
  }

  lemma LowerOfElement(s: string, t: RequestType)
    requires Prefix(t) <= s
    ensures Lower(s) == Prefix(t) + Lower(s[|Prefix(t)|..])
  {
  }

  /** An accepted string prints back, in lower case. */
  lemma ParsedEntryPrints(element: string, t: RequestType, bounds: RequestType -> nat)
    requires Prefix(t) <= element && DecodeBody(element[|Prefix(t)|..], t, bounds).Ok?
    ensures var list := DecodeBody(element[|Prefix(t)|..], t, bounds).value;
      Entry(Prefix(t), list) == [Lower(element)] && |list| <= bounds(t) && AllOfSize(list, ElementSize(t)) && list != []
  {
    hide Prefix, ToSsz, EncodeHex, DecodeHex, FromSsz, Lower, ElementSize;
    var digits := element[|Prefix(t)|..];
    EncodeOfDecode(digits);
    ToSszOfFromSsz(DecodeHex(digits).value, ElementSize(t), bounds(t));
    LowerOfElement(element, t);
  }

  ghost predicate Faithful(s: seq<string>, parsed: Parsed, bounds: RequestType -> nat) {
    && WithinBounds(parsed.requests, bounds)
    && NoneFrom(parsed.requests, if parsed.previous.Some? then Rank(parsed.previous.value) + 1 else 0)
    && Print(parsed.requests) == LowerAll(s)
  }

  lemma ParseOneIsFaithful(s: seq<string>, parsed: Parsed, element: string, bounds: RequestType -> nat)
    requires Faithful(s, parsed, bounds) && ParseOne(parsed, element, bounds).Ok?
    ensures Faithful(s + [element], ParseOne(parsed, element, bounds).value, bounds)
  {
    hide Prefix, TypeOf, Lower, List, WithList, DecodeBody, Entry, PrintTypes, ElementSize, AllOfSize;
    var t := TypeOf(element).value;
    TypeHasPrefix(element);
    ParsedEntryPrints(element, t, bounds);
    var list := DecodeBody(element[|Prefix(t)|..], t, bounds).value;
    PrintOfWithList(parsed.requests, t, list, |TYPES|);
    OtherLists(parsed.requests, t, list);
    assert LowerAll(s + [element]) == LowerAll(s) + [Lower(element)];
    RankIsInjective();
  }

  lemma TypeHasPrefix(s: string)
    ensures TypeOf(s).Some? ==> Prefix(TypeOf(s).value) <= s
  {
  }

  lemma RankIsInjective()
    ensures forall t: RequestType, u: RequestType | Rank(t) == Rank(u) :: t == u
  {
  }

  lemma {:induction false} ParseAllIsFaithful(s: seq<string>, bounds: RequestType -> nat)
    requires ParseAll(s, bounds).Ok?
    ensures Faithful(s, ParseAll(s, bounds).value, bounds)
  {
    hide ParseOne, Faithful;
    if s == [] {
      NothingIsFaithful(bounds);
    } else {
      var n := |s| - 1;
      ParseAllIsFaithful(s[..n], bounds);
      ParseOneIsFaithful(s[..n], ParseAll(s[..n], bounds).value, s[n], bounds);
      assert s == s[..n] + [s[n]];
    }
  }

  lemma NothingIsFaithful(bounds: RequestType -> nat)
    ensures Faithful([], Parsed(None, NO_REQUESTS), bounds)
  {
    hide List, PrintTypes, ElementSize, Rank;
    NoLists();
    PrintOfNothing(|TYPES|);
  }

  lemma NoLists()
    ensures forall t: RequestType :: List(NO_REQUESTS, t) == []
  {
  }

  lemma {:induction false} PrintOfNothing(count: nat)
    requires count <= |TYPES|
    ensures PrintTypes(NO_REQUESTS, count) == []
  {
    if count > 0 {
      PrintOfNothing(count - 1);
    }
  }

  /** Whatever the parser accepts is within bounds and prints back to itself up to the case of hex letters. */
  lemma PrintOfParse(s: seq<string>, bounds: RequestType -> nat)
    requires Parse(s, bounds).Ok?
    ensures WithinBounds(Parse(s, bounds).value, bounds) && Print(Parse(s, bounds).value) == LowerAll(s)
  {
    ParseAllIsFaithful(s, bounds);
  }

  // --- What is accepted --------------------------------------------------------------------------

  ghost predicate AllHex(s: string) {
    forall i | 0 <= i < |s| :: HexValue(s[i]).Some?
  }

  lemma AllHexAppend(a: string, c: char, d: char)
    ensures AllHex(a + [c, d]) <==> AllHex(a) && HexValue(c).Some? && HexValue(d).Some?
  {
    hide HexValue;
    var s := a + [c, d];
    assert s[|a|] == c && s[|a| + 1] == d && forall i | 0 <= i < |a| :: s[i] == a[i];
    if AllHex(s) {
      forall i | 0 <= i < |a| ensures HexValue(a[i]).Some? {
        assert HexValue(s[i]).Some?;
      }
    }
  }

  lemma {:induction false} HexDecodes(s: string)
    ensures DecodeHex(s).Some? <==> |s| % 2 == 0 && AllHex(s)
  {
    hide HexValue;
    if |s| >= 2 {
      var n := |s| - 2;
      HexDecodes(s[..n]);
      assert s == s[..n] + [s[n], s[n + 1]];
      DecodeAppend(s[..n], s[n], s[n + 1]);
      AllHexAppend(s[..n], s[n], s[n + 1]);
    }
  }

  /** A non-empty hexadecimal string that holds a whole number of requests, not too many. */
  ghost predicate GoodBody(digits: string, t: RequestType, bounds: RequestType -> nat) {
    && digits != [] && |digits| % 2 == 0 && AllHex(digits)
    && |digits| / 2 % ElementSize(t) == 0 && |digits| / 2 / ElementSize(t) <= bounds(t)
  }

  lemma BodyDecodes(digits: string, t: RequestType, bounds: RequestType -> nat)
    ensures DecodeBody(digits, t, bounds).Ok? <==> GoodBody(digits, t, bounds)
  {
    hide DecodeHex, Chunks, ElementSize, AllHex;
    HexDecodes(digits);
    if DecodeHex(digits).Some? {
      var bytes := DecodeHex(digits).value;
      assert |bytes| == |digits| / 2;
    }
  }

  /** The string has a known prefix and a good body. */
  ghost predicate GoodElement(element: string, bounds: RequestType -> nat) {
    match TypeOf(element)
    case None => false
    case Some(t) => Prefix(t) <= element && GoodBody(element[|Prefix(t)|..], t, bounds)
  }

  /** Both strings have known prefixes, and the type of the first one comes before that of the second. */
  ghost predicate Precedes(a: string, b: string) {
    TypeOf(a).Some? && TypeOf(b).Some? && Rank(TypeOf(a).value) < Rank(TypeOf(b).value)
  }

  ghost predicate Acceptable(s: seq<string>, bounds: RequestType -> nat) {
    && (forall i | 0 <= i < |s| :: GoodElement(s[i], bounds))
    && (forall i, j | 0 <= i < j < |s| :: Precedes(s[i], s[j]))
  }

  /** The first string that is not accepted decides the error: by its prefix, then by the type before it, then by its
      digits, then by the length of what they encode. */
  lemma {:induction false} FailsExactlyWith(s: seq<string>, bounds: RequestType -> nat) returns (n: nat)
    requires Parse(s, bounds).Err?
    ensures n < |s| && Acceptable(s[..n], bounds) && !Acceptable(s[..n + 1], bounds)
    ensures Parse(s, bounds).error ==
      if TypeOf(s[n]).None? then UnknownVariant
      else
        var t := TypeOf(s[n]).value;
        var digits := s[n][4..];
        if n > 0 && !Precedes(s[n - 1], s[n]) then NotAscending(t)
        else if |digits| % 2 != 0 || !AllHex(digits) then InvalidHex
        else if digits == [] then EmptyRequests(t)
        else if |digits| / 2 % ElementSize(t) != 0 then InvalidSsz(ListSizeNotMultiple)
        else InvalidSsz(ListTooLong)
  {
    hide TypeOf, DecodeBody, Acceptable, Prefix, GoodBody, AllHex, ElementSize, Rank, Precedes;
    var last := |s| - 1;
    if Parse(s[..last], bounds).Err? {
      n := FailsExactlyWith(s[..last], bounds);
      assert s[..last][..n] == s[..n] && s[..last][..n + 1] == s[..n + 1];
    } else {
      n := last;
      AcceptsExactly(s[..n], bounds);
      AcceptsExactly(s, bounds);
      assert s[..n + 1] == s;
      PreviousIsLast(s[..n], bounds);
      if TypeOf(s[n]).Some? {
        PrefixOfType(s[n]);
        if DecodeBody(s[n][4..], TypeOf(s[n]).value, bounds).Err? {
          BodyErrors(s[n][4..], TypeOf(s[n]).value, bounds);
        }
        if n > 0 {
          PrecedesMeans(s[n - 1], s[n]);
        }
      }
    }
  }

  lemma PrefixOfType(s: string)
    requires TypeOf(s).Some?
    ensures |Prefix(TypeOf(s).value)| == 4 <= |s|
  {
  }

  lemma PrecedesMeans(a: string, b: string)
    ensures Precedes(a, b) <==> TypeOf(a).Some? && TypeOf(b).Some? && Rank(TypeOf(a).value) < Rank(TypeOf(b).value)
  {
  }

  /** The type that the parser remembers is that of the last string. */
  lemma PreviousIsLast(s: seq<string>, bounds: RequestType -> nat)
    requires ParseAll(s, bounds).Ok?
    ensures ParseAll(s, bounds).value.previous == if s == [] then None else TypeOf(s[|s| - 1])
  {
    hide TypeOf, DecodeRequests, WithList;
  }

  lemma BodyErrors(digits: string, t: RequestType, bounds: RequestType -> nat)
    requires DecodeBody(digits, t, bounds).Err?
    ensures DecodeBody(digits, t, bounds).error ==
      if |digits| % 2 != 0 || !AllHex(digits) then InvalidHex
      else if digits == [] then EmptyRequests(t)
      else if |digits| / 2 % ElementSize(t) != 0 then InvalidSsz(ListSizeNotMultiple)
      else InvalidSsz(ListTooLong)
  {
    hide DecodeHex, Chunks, ElementSize, AllHex;
    HexDecodes(digits);
    if DecodeHex(digits).Some? {
      assert |DecodeHex(digits).value| == |digits| / 2;
    }
  }

  lemma AcceptableStep(s: seq<string>, bounds: RequestType -> nat)
    requires s != []
    ensures var n := |s| - 1;
      Acceptable(s, bounds) <==>
        Acceptable(s[..n], bounds) && GoodElement(s[n], bounds) && (n > 0 ==> Precedes(s[n - 1], s[n]))
  {
    hide GoodElement, Precedes;
    var n := |s| - 1;
    if Acceptable(s[..n], bounds) && n > 0 && Precedes(s[n - 1], s[n]) {
      forall i | 0 <= i < n ensures Precedes(s[i], s[n]) {
        if i < n - 1 {
          assert Precedes(s[..n][i], s[..n][n - 1]);
          PrecedesTwice(s[i], s[n - 1], s[n]);
        }
      }
    }
  }

  lemma PrecedesTwice(a: string, b: string, c: string)
    requires Precedes(a, b) && Precedes(b, c)
    ensures Precedes(a, c)
  {
    hide TypeOf, Rank;
  }

  lemma ParseOneAccepts(parsed: Parsed, element: string, bounds: RequestType -> nat)
    ensures ParseOne(parsed, element, bounds).Ok? <==>
      && GoodElement(element, bounds)
      && (parsed.previous.Some? ==>
            TypeOf(element).Some? && Rank(parsed.previous.value) < Rank(TypeOf(element).value))
    ensures ParseOne(parsed, element, bounds).Ok? ==>
      ParseOne(parsed, element, bounds).value.previous == TypeOf(element)
  {
    hide TypeOf, GoodBody, DecodeBody, Prefix, Rank, WithList;
    TypeHasPrefix(element);
    if TypeOf(element).Some? {
      BodyDecodes(element[|Prefix(TypeOf(element).value)|..], TypeOf(element).value, bounds);
    }
  }

  lemma GoodHasType(element: string, bounds: RequestType -> nat)
    requires GoodElement(element, bounds)
    ensures TypeOf(element).Some?
  {
  }

  /** The parser accepts exactly the strings with known prefixes, strictly ascending types and good bodies. */
  lemma {:induction false} AcceptsExactly(s: seq<string>, bounds: RequestType -> nat)
    ensures ParseAll(s, bounds).Ok? <==> Acceptable(s, bounds)
    ensures ParseAll(s, bounds).Ok? ==>
      ParseAll(s, bounds).value.previous == if s == [] then None else TypeOf(s[|s| - 1])
  {
    hide TypeOf, Rank, ParseOne, GoodElement;
    if s != [] {
      var n := |s| - 1;
      AcceptsExactly(s[..n], bounds);
      AcceptableStep(s, bounds);
      if ParseAll(s[..n], bounds).Ok? {
        ParseOneAccepts(ParseAll(s[..n], bounds).value, s[n], bounds);
        if n > 0 {
          GoodHasType(s[..n][n - 1], bounds);
        }
      }
    }
  }
}
