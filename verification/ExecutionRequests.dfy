/** Execution requests as the Engine API carries them: a list of hexadecimal strings, one per request type, each a
    type prefix followed by the SSZ list of the requests. */
module ExecutionRequests {
  import opened Results
  import opened Arithmetic
  import opened ByteOrder

  type Bytes = seq<Byte>

  datatype RequestType = Deposits | Withdrawals | Consolidations | BuilderDeposits | BuilderExits

  const TYPES: seq<RequestType> := [Deposits, Withdrawals, Consolidations, BuilderDeposits, BuilderExits]

  /** The position in `TYPES`, which is also the type byte. */
  function Rank(t: RequestType): (r: nat)
    ensures r < |TYPES| && TYPES[r] == t
  {
    match t
    case Deposits => 0
    case Withdrawals => 1
    case Consolidations => 2
    case BuilderDeposits => 3
    case BuilderExits => 4
  }

  function Prefix(t: RequestType): (r: string)
    ensures |r| == 4
  {
    match t
    case Deposits => "0x00"
    case Withdrawals => "0x01"
    case Consolidations => "0x02"
    case BuilderDeposits => "0x03"
    case BuilderExits => "0x04"
  }

  /** The SSZ sizes of the fields of one request: addresses, keys, amounts, credentials, signatures and indices. */
  function FieldSizes(t: RequestType): seq<nat> {
    match t
    case Deposits => [48, 32, 8, 96, 8]
    case Withdrawals => [20, 48, 8]
    case Consolidations => [20, 48, 48]
    case BuilderDeposits => [48, 32, 8, 96]
    case BuilderExits => [20, 48]
  }

  /** The SSZ size of one request. */
  function ElementSize(t: RequestType): (r: nat)
    ensures r > 0
  {
    match t
    case Deposits => 192
    case Withdrawals => 76
    case Consolidations => 116
    case BuilderDeposits => 184
    case BuilderExits => 68
  }

  function Sum(sizes: seq<nat>): nat {
    if sizes == [] then 0 else sizes[0] + Sum(sizes[1..])
  }

  /** The size of a request is that of its fields together. */
  lemma SizeOfFields(t: RequestType)
    ensures ElementSize(t) == Sum(FieldSizes(t))
  {
    var sizes := FieldSizes(t);
    assert Sum(sizes) == sizes[0] + sizes[1] + Sum(sizes[2..]);
    SumOfThree(sizes[2..]);
  }

  lemma SumOfThree(sizes: seq<nat>)
    requires |sizes| <= 3
    ensures Sum(sizes) ==
      (if |sizes| > 0 then sizes[0] else 0) + (if |sizes| > 1 then sizes[1] else 0)
      + if |sizes| > 2 then sizes[2] else 0
  {
    if |sizes| > 1 {
      assert Sum(sizes[1..]) == sizes[1] + Sum(sizes[1..][1..]);
    }
  }

  // --- Hexadecimal strings -----------------------------------------------------------------------

  function HexDigit(n: nat): char
    requires n < 16
  {
    if n < 10 then ('0' as nat + n) as char else ('a' as nat + n - 10) as char
  }

  function HexValue(c: char): (r: Option<nat>)
    ensures r.Some? ==> r.value < 16
  {
    if '0' <= c <= '9' then Some(c as nat - '0' as nat)
    else if 'a' <= c <= 'f' then Some(c as nat - 'a' as nat + 10)
    else if 'A' <= c <= 'F' then Some(c as nat - 'A' as nat + 10)
    else None
  }

  function LowerChar(c: char): char {
    if 'A' <= c <= 'F' then (c as nat - 'A' as nat + 'a' as nat) as char else c
  }

  /** The string with its hexadecimal letters in lower case. */
  function Lower(s: string): (r: string)
    ensures |r| == |s|
  {
    seq(|s|, i requires 0 <= i < |s| => LowerChar(s[i]))
  }

  lemma HexDigitIs(n: nat)
    requires n < 16
    ensures HexDigit(n) == "0123456789abcdef"[n]
  {
  }

  lemma HexDigitValue(n: nat)
    requires n < 16
    ensures HexValue(HexDigit(n)) == Some(n)
  {
  }

  lemma HexValueDigit(c: char)
    requires HexValue(c).Some?
    ensures HexDigit(HexValue(c).value) == LowerChar(c)
  {
  }

  function EncodeHex(bytes: Bytes): (r: string)
    ensures |r| == 2 * |bytes|
  {
    if bytes == [] then [] else
      var last := bytes[|bytes| - 1];
      EncodeHex(bytes[..|bytes| - 1]) + [HexDigit(last / 16), HexDigit(last % 16)]
  }

  /** Two digits for each byte, the high one first. */
  lemma {:induction false} EncodedAt(bytes: Bytes, i: nat)
    requires i < |bytes|
    ensures EncodeHex(bytes)[2 * i] == "0123456789abcdef"[bytes[i] / 16]
    ensures EncodeHex(bytes)[2 * i + 1] == "0123456789abcdef"[bytes[i] % 16]
  {
    HexDigitIs(bytes[i] / 16);
    HexDigitIs(bytes[i] % 16);
    if i < |bytes| - 1 {
      EncodedAt(bytes[..|bytes| - 1], i);
    }
  }

  /** Exactly the hexadecimal digits are read, in either case. */
  lemma HexValueOf(c: char, v: nat)
    requires v < 16
    ensures HexValue(c) == Some(v) <==> c == "0123456789abcdef"[v] || c == "0123456789ABCDEF"[v]
  {
    hide LowerChar;
    HexDigitIs(v);
  }

  function DecodeHex(s: string): (r: Option<Bytes>)
    ensures r.Some? ==> |s| == 2 * |r.value|
  {
    if s == [] then Some([])
    else if |s| == 1 then None
    else
      var high, low := HexValue(s[|s| - 2]), HexValue(s[|s| - 1]);
      var rest := DecodeHex(s[..|s| - 2]);
      if rest.None? || high.None? || low.None? then None else Some(rest.value + [16 * high.value + low.value])
  }

  lemma EncodeAppend(bytes: Bytes, b: Byte)
    ensures EncodeHex(bytes + [b]) == EncodeHex(bytes) + [HexDigit(b / 16), HexDigit(b % 16)]
  {
  }

  lemma DecodeAppend(s: string, c: char, d: char)
    ensures DecodeHex(s + [c, d]) ==
      var high, low, rest := HexValue(c), HexValue(d), DecodeHex(s);
      if rest.None? || high.None? || low.None? then None else Some(rest.value + [16 * high.value + low.value])
  {
  }

  /** Decoding an encoded string returns it. */
  lemma {:induction false} DecodeOfEncode(bytes: Bytes)
    ensures DecodeHex(EncodeHex(bytes)) == Some(bytes)
  {
    hide HexValue, HexDigit;
    if bytes != [] {
      var n := |bytes| - 1;
      var b := bytes[n];
      DecodeOfEncode(bytes[..n]);
      HexDigitValue(b / 16);
      HexDigitValue(b % 16);
      assert bytes == bytes[..n] + [b];
      EncodeAppend(bytes[..n], b);
      DecodeAppend(EncodeHex(bytes[..n]), HexDigit(b / 16), HexDigit(b % 16));
      assert 16 * (b / 16) + b % 16 == b;
    }
  }

  lemma NibblesOfByte(high: nat, low: nat)
    requires high < 16 && low < 16
    ensures (16 * high + low) / 16 == high && (16 * high + low) % 16 == low
  {
  }

  /** What decodes encodes to the same string in lower case. */
  lemma {:induction false} EncodeOfDecode(s: string)
    requires DecodeHex(s).Some?
    ensures EncodeHex(DecodeHex(s).value) == Lower(s)
  {
    hide HexValue, HexDigit, LowerChar, EncodeHex, DecodeHex;
    if s != [] {
      var n := |s| - 2;
      var rest, c, d := s[..n], s[n], s[n + 1];
      assert s == rest + [c, d];
      DecodeAppend(rest, c, d);
      EncodeOfDecode(rest);
      HexValueDigit(c);
      HexValueDigit(d);
      var b := 16 * HexValue(c).value + HexValue(d).value;
      EncodeAppend(DecodeHex(rest).value, b);
      NibblesOfByte(HexValue(c).value, HexValue(d).value);
      assert Lower(s) == Lower(rest) + [LowerChar(c), LowerChar(d)];
    }
  }

  // --- SSZ lists of fixed-size elements ----------------------------------------------------------

  ghost predicate AllOfSize(list: seq<Bytes>, size: nat) {
    forall i | 0 <= i < |list| :: |list[i]| == size
  }

  function ToSsz(list: seq<Bytes>): (r: Bytes) {
    if list == [] then [] else ToSsz(list[..|list| - 1]) + list[|list| - 1]
  }

  datatype SszError = ListSizeNotMultiple | ListTooLong

  function FromSsz(bytes: Bytes, size: nat, maximum: nat): (r: Result<seq<Bytes>, SszError>)
    requires size > 0
  {
    if |bytes| % size != 0 then Err(ListSizeNotMultiple)
    else if |bytes| / size > maximum then Err(ListTooLong)
    else Ok(Chunks(bytes, size))
  }

  function Chunks(bytes: Bytes, size: nat): (r: seq<Bytes>)
    requires size > 0
  {
    if |bytes| < size then [] else Chunks(bytes[..|bytes| - size], size) + [bytes[|bytes| - size..]]
  }

  lemma ToSszAppend(list: seq<Bytes>, element: Bytes)
    ensures ToSsz(list + [element]) == ToSsz(list) + element
  {
  }

  /** The elements are written one after another. */
  lemma {:induction false} ToSszAt(list: seq<Bytes>, size: nat, i: nat)
    requires AllOfSize(list, size) && i < |list|
    ensures |ToSsz(list)| == |list| * size && 0 <= i * size <= i * size + size <= |ToSsz(list)|
    ensures ToSsz(list)[i * size..i * size + size] == list[i]
  {
    var last := |list| - 1;
    MulDistributes(last, 1, size);
    MulDistributes(i, 1, size);
    MulMonotone(i + 1, |list|, size);
    ToSszLength(list[..last], size);
    if i < last {
      ToSszAt(list[..last], size, i);
    }
  }

  lemma {:induction false} ToSszLength(list: seq<Bytes>, size: nat)
    requires AllOfSize(list, size)
    ensures |ToSsz(list)| == |list| * size
  {
    if list != [] {
      ToSszLength(list[..|list| - 1], size);
      MulDistributes(|list| - 1, 1, size);
    }
  }

  lemma ChunksAppend(bytes: Bytes, element: Bytes)
    requires element != []
    ensures Chunks(bytes + element, |element|) == Chunks(bytes, |element|) + [element]
  {
  }

  lemma {:induction false} ChunksOfList(list: seq<Bytes>, size: nat)
    requires size > 0 && AllOfSize(list, size)
    ensures Chunks(ToSsz(list), size) == list && |ToSsz(list)| == |list| * size
  {
    if list != [] {
      var n := |list| - 1;
      assert list == list[..n] + [list[n]];
      ChunksOfList(list[..n], size);
      ToSszAppend(list[..n], list[n]);
      ChunksAppend(ToSsz(list[..n]), list[n]);
      MulDistributes(n, 1, size);
    }
  }

  lemma {:induction false} ListOfChunks(bytes: Bytes, size: nat, count: nat)
    requires size > 0 && |bytes| == count * size
    ensures ToSsz(Chunks(bytes, size)) == bytes
    ensures AllOfSize(Chunks(bytes, size), size) && |Chunks(bytes, size)| == count
  {
    hide ToSsz, Chunks;
    if count == 0 {
      assert bytes == [];
      NoChunks(size);
    } else {
      MulDistributes(count - 1, 1, size);
      MulMonotone(0, count - 1, size);
      var at := |bytes| - size;
      ListOfChunks(bytes[..at], size, count - 1);
      assert bytes == bytes[..at] + bytes[at..];
      ChunksAppend(bytes[..at], bytes[at..]);
      ToSszAppend(Chunks(bytes[..at], size), bytes[at..]);
    }
  }

  lemma NoChunks(size: nat)
    requires size > 0
    ensures Chunks([], size) == [] && ToSsz([]) == []
  {
  }

  /** Decoding an encoded list returns it. */
  lemma FromSszOfToSsz(list: seq<Bytes>, size: nat, maximum: nat)
    requires size > 0 && AllOfSize(list, size) && |list| <= maximum
    ensures FromSsz(ToSsz(list), size, maximum) == Ok(list)
    ensures list != [] ==> ToSsz(list) != []
  {
    hide Chunks, ToSsz;
    ChunksOfList(list, size);
    MulDistributes(|list|, 1, size);
    DivUnique(|ToSsz(list)|, size, |list|);
    ModUnique(|list|, size, 0);
    if list != [] {
      MulMonotone(1, |list|, size);
    }
  }

  /** What decodes is within bounds and encodes to the same bytes. */
  lemma ToSszOfFromSsz(bytes: Bytes, size: nat, maximum: nat)
    requires size > 0 && FromSsz(bytes, size, maximum).Ok?
    ensures var list := FromSsz(bytes, size, maximum).value;
      ToSsz(list) == bytes && AllOfSize(list, size) && |list| <= maximum && (bytes != [] ==> list != [])
  {
    hide Chunks, ToSsz;
    var count := |bytes| / size;
    assert |bytes| == count * size;
    ListOfChunks(bytes, size, count);
  }

  // --- Printing ----------------------------------------------------------------------------------

  datatype RawExecutionRequests = RawExecutionRequests(
    deposits: seq<Bytes>, withdrawals: seq<Bytes>, consolidations: seq<Bytes>,
    builderDeposits: seq<Bytes>, builderExits: seq<Bytes>)

  const NO_REQUESTS: RawExecutionRequests := RawExecutionRequests([], [], [], [], [])

  function List(r: RawExecutionRequests, t: RequestType): seq<Bytes> {
    match t
    case Deposits => r.deposits
    case Withdrawals => r.withdrawals
    case Consolidations => r.consolidations
    case BuilderDeposits => r.builderDeposits
    case BuilderExits => r.builderExits
  }

  function WithList(r: RawExecutionRequests, t: RequestType, list: seq<Bytes>): RawExecutionRequests {
    match t
    case Deposits => r.(deposits := list)
    case Withdrawals => r.(withdrawals := list)
    case Consolidations => r.(consolidations := list)
    case BuilderDeposits => r.(builderDeposits := list)
    case BuilderExits => r.(builderExits := list)
  }

  /** All lists are within the bounds of the preset, and all requests have the size of their type. */
  ghost predicate WithinBounds(r: RawExecutionRequests, bounds: RequestType -> nat) {
    forall t: RequestType :: |List(r, t)| <= bounds(t) && AllOfSize(List(r, t), ElementSize(t))
  }

  /** What is printed for one list: nothing when there are no requests in it. */
  function Entry(prefix: string, list: seq<Bytes>): (r: seq<string>) {
    if list == [] then [] else [prefix + EncodeHex(ToSsz(list))]
  }

  /** What is printed for the first `count` types. */
  function PrintTypes(r: RawExecutionRequests, count: nat): (s: seq<string>)
    requires count <= |TYPES|
  {
    if count == 0 then [] else PrintTypes(r, count - 1) + Entry(Prefix(TYPES[count - 1]), List(r, TYPES[count - 1]))
  }

  function Print(r: RawExecutionRequests): (s: seq<string>) {
    PrintTypes(r, |TYPES|)
  }

  lemma PrintNext(r: RawExecutionRequests, count: nat)
    requires count < |TYPES|
    ensures var t, list := TYPES[count], List(r, TYPES[count]);
      PrintTypes(r, count + 1) ==
      if list == [] then PrintTypes(r, count) else PrintTypes(r, count) + [Prefix(t) + EncodeHex(ToSsz(list))]
  {
  }

  lemma PrintNone(r: RawExecutionRequests)
    ensures PrintTypes(r, 0) == []
  {
  }

  /** The prefix is the type byte in hexadecimal. */
  lemma PrefixIsTypeByte(t: RequestType)
    ensures Prefix(t) == "0x" + EncodeHex([Rank(t)])
  {
    EncodedAt([Rank(t)], 0);
  }

  lemma {:induction false} EncodeConcat(a: Bytes, b: Bytes)
    ensures EncodeHex(a + b) == EncodeHex(a) + EncodeHex(b)
  {
    hide HexDigit;
    if b == [] {
      assert a + b == a;
    } else {
      var last := |b| - 1;
      assert a + b == (a + b[..last]) + [b[last]];
      EncodeConcat(a, b[..last]);
      EncodeAppend(a + b[..last], b[last]);
      EncodeAppend(b[..last], b[last]);
      assert b == b[..last] + [b[last]];
    }
  }

  /** What one type is printed as: its type byte followed by its list, all in hexadecimal. */
  lemma EntryIsTypeAndList(t: RequestType, list: seq<Bytes>)
    ensures Prefix(t) + EncodeHex(ToSsz(list)) == "0x" + EncodeHex([Rank(t)] + ToSsz(list))
  {
    hide EncodeHex, ToSsz, Prefix;
    PrefixIsTypeByte(t);
    EncodeConcat([Rank(t)], ToSsz(list));
  }

  ghost predicate AscendingRanks(types: seq<RequestType>) {
    forall i, j | 0 <= i < j < |types| :: Rank(types[i]) < Rank(types[j])
  }

  /** One string for each type that has requests, in the order of the type bytes. */
  lemma {:induction false} PrintedTypes(r: RawExecutionRequests, count: nat) returns (types: seq<RequestType>)
    requires count <= |TYPES|
    ensures AscendingRanks(types)
    ensures forall t: RequestType :: t in types <==> Rank(t) < count && List(r, t) != []
    ensures |PrintTypes(r, count)| == |types|
    ensures forall i | 0 <= i < |types| ::
      PrintTypes(r, count)[i] == "0x" + EncodeHex([Rank(types[i])] + ToSsz(List(r, types[i])))
  {
    hide EncodeHex, ToSsz, Prefix, List, PrintTypes;
    if count == 0 {
      types := [];
      PrintNone(r);
    } else {
      var t := TYPES[count - 1];
      var before := PrintedTypes(r, count - 1);
      PrintNext(r, count - 1);
      EntryIsTypeAndList(t, List(r, t));
      RankOfType(count - 1);
      forall i | 0 <= i < |before| ensures Rank(before[i]) < count - 1 {
        assert before[i] in before;
      }
      types := if List(r, t) == [] then before else before + [t];
      forall u: RequestType ensures u in types <==> Rank(u) < count && List(r, u) != [] {
        assert TYPES[Rank(u)] == u;
      }
    }
  }

  lemma RankOfType(n: nat)
    requires n < |TYPES|
    ensures Rank(TYPES[n]) == n
  {
  }

  lemma PrintsFiveLists(r: RawExecutionRequests)
    ensures Print(r) ==
      Entry("0x00", r.deposits) + Entry("0x01", r.withdrawals) + Entry("0x02", r.consolidations)
      + Entry("0x03", r.builderDeposits) + Entry("0x04", r.builderExits)
  {
    hide Entry, PrintTypes;
    PrintTypesNext(r, 0);
    PrintTypesNext(r, 1);
    PrintTypesNext(r, 2);
    PrintTypesNext(r, 3);
    PrintTypesNext(r, 4);
    PrintNone(r);
  }

  lemma PrintTypesNext(r: RawExecutionRequests, count: nat)
    requires count < |TYPES|
    ensures PrintTypes(r, count + 1) == PrintTypes(r, count) + Entry(Prefix(TYPES[count]), List(r, TYPES[count]))
  {
  }

  /** `Serialize`: the types are written one after another. */
  method Serialize(r: RawExecutionRequests) returns (s: seq<string>)
    ensures s == Print(r)
    ensures s == Entry("0x00", r.deposits) + Entry("0x01", r.withdrawals) + Entry("0x02", r.consolidations)
                 + Entry("0x03", r.builderDeposits) + Entry("0x04", r.builderExits)
  {
    hide ToSsz, EncodeHex, Prefix, PrintTypes, Entry;
    PrintsFiveLists(r);
    PrintNone(r);
    s := [];
    PrintNext(r, 0);
    if r.deposits != [] {
      s := s + [Prefix(Deposits) + EncodeHex(ToSsz(r.deposits))];
    }
    assert s == PrintTypes(r, 1);
    PrintNext(r, 1);
    if r.withdrawals != [] {
      s := s + [Prefix(Withdrawals) + EncodeHex(ToSsz(r.withdrawals))];
    }
    assert s == PrintTypes(r, 2);
    PrintNext(r, 2);
    if r.consolidations != [] {
      s := s + [Prefix(Consolidations) + EncodeHex(ToSsz(r.consolidations))];
    }
    assert s == PrintTypes(r, 3);
    PrintNext(r, 3);
    if r.builderDeposits != [] {
      s := s + [Prefix(BuilderDeposits) + EncodeHex(ToSsz(r.builderDeposits))];
    }
    assert s == PrintTypes(r, 4);
    PrintNext(r, 4);
    if r.builderExits != [] {
      s := s + [Prefix(BuilderExits) + EncodeHex(ToSsz(r.builderExits))];
    }
  }

  // --- Parsing -----------------------------------------------------------------------------------

  datatype ParseError =
    | UnknownVariant
    | NotAscending(t: RequestType)
    | InvalidHex
    | EmptyRequests(t: RequestType)
    | InvalidSsz(error: SszError)

  /** The type whose prefix the string starts with. */
  function TypeOf(s: string): (r: Option<RequestType>)
    ensures r.Some? ==> Prefix(r.value) <= s
    ensures r.None? ==> forall t: RequestType :: !(Prefix(t) <= s)
  {
    if Prefix(Deposits) <= s then Some(Deposits)
    else if Prefix(Withdrawals) <= s then Some(Withdrawals)
    else if Prefix(Consolidations) <= s then Some(Consolidations)
    else if Prefix(BuilderDeposits) <= s then Some(BuilderDeposits)
    else if Prefix(BuilderExits) <= s then Some(BuilderExits)
    else
      assert forall t: RequestType :: t in TYPES by {
        forall t: RequestType ensures t in TYPES {
          assert TYPES[Rank(t)] == t;
        }
      }
      None
  }

  /** The requests in the digits after a prefix. */
  function DecodeBody(digits: string, t: RequestType, bounds: RequestType -> nat): (r: Result<seq<Bytes>, ParseError>) {
    var bytes := DecodeHex(digits);
    if bytes.None? then Err(InvalidHex)
    else if bytes.value == [] then Err(EmptyRequests(t))
    else
      match FromSsz(bytes.value, ElementSize(t), bounds(t))
      case Err(error) => Err(InvalidSsz(error))
      case Ok(list) => Ok(list)
  }

  /** `decode_requests`. */
  function DecodeRequests(
    digits: string, t: RequestType, previous: Option<RequestType>, bounds: RequestType -> nat):
    (r: Result<seq<Bytes>, ParseError>)
  {
    if previous.Some? && Rank(previous.value) >= Rank(t) then Err(NotAscending(t)) else DecodeBody(digits, t, bounds)
  }

  datatype Parsed = Parsed(previous: Option<RequestType>, requests: RawExecutionRequests)

  /** The state of the parser after the given strings. */
  function ParseAll(s: seq<string>, bounds: RequestType -> nat): (r: Result<Parsed, ParseError>) {
    if s == [] then Ok(Parsed(None, NO_REQUESTS)) else
      var element := s[|s| - 1];
      match ParseAll(s[..|s| - 1], bounds)
      case Err(error) => Err(error)
      case Ok(parsed) => ParseOne(parsed, element, bounds)
  }

  function ParseOne(parsed: Parsed, element: string, bounds: RequestType -> nat): (r: Result<Parsed, ParseError>) {
    match TypeOf(element)
    case None => Err(UnknownVariant)
    case Some(t) =>
      match DecodeRequests(element[|Prefix(t)|..], t, parsed.previous, bounds)
      case Err(error) => Err(error)
      case Ok(list) => Ok(Parsed(Some(t), WithList(parsed.requests, t, list)))
  }

  function Parse(s: seq<string>, bounds: RequestType -> nat): (r: Result<RawExecutionRequests, ParseError>) {
    match ParseAll(s, bounds)
    case Err(error) => Err(error)
    case Ok(parsed) => Ok(parsed.requests)
  }

  /** `visit_seq`: five lists and the previous type, updated string by string. */
  method VisitSeq(s: seq<string>, bounds: RequestType -> nat) returns (r: Result<RawExecutionRequests, ParseError>)
    ensures r == Parse(s, bounds)
  {
    hide TypeOf, DecodeRequests;
    var previous: Option<RequestType> := None;
    var requests := NO_REQUESTS;
    for n := 0 to |s|
      invariant ParseAll(s[..n], bounds) == Ok(Parsed(previous, requests))
    {
      assert s[..n + 1][..n] == s[..n];
      var t := TypeOf(s[n]);
      if t.None? {
        ParseFailurePersists(s, n + 1, bounds);
        return Err(UnknownVariant);
      }
      var list := DecodeRequests(s[n][|Prefix(t.value)|..], t.value, previous, bounds);
      if list.Err? {
        ParseFailurePersists(s, n + 1, bounds);
        return Err(list.error);
      }
      previous, requests := t, WithList(requests, t.value, list.value);
    }
    assert s[..|s|] == s;
    r := Ok(requests);
  }

  lemma {:induction false} ParseFailurePersists(s: seq<string>, n: nat, bounds: RequestType -> nat)
    requires n <= |s| && ParseAll(s[..n], bounds).Err?
    ensures ParseAll(s, bounds) == ParseAll(s[..n], bounds)
    decreases |s|
  {
    hide ParseOne;
    if n == |s| {
      assert s[..n] == s;
    } else {
      assert s[..|s| - 1][..n] == s[..n];
      ParseFailurePersists(s[..|s| - 1], n, bounds);
    }
  }
}
