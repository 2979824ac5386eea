/** The wire format of egg/egg-buffer.c: what the typed adds append and what the gets find. */
module WireFormat {
  import opened Wrappers

  type Uint16 = n: int | 0 <= n < 0x1_0000
  type Uint32 = n: int | 0 <= n < 0x1_0000_0000
  type Uint64 = n: int | 0 <= n < 0x1_0000_0000_0000_0000

  const ABSENT: Uint32 := 0xFFFF_FFFF
  const TOO_LONG: Uint32 := 0x7FFF_FFFF

  // The widths of the integers, in octets.
  const SHORT: nat := 2
  const WORD: nat := 4

  /** n in k octets, most significant first. */
  function BigEndian(n: nat, k: nat): (r: Bytes)
    ensures |r| == k
  {
    if k == 0 then [] else BigEndian(n / 0x100, k - 1) + [n % 0x100]
  }

  /** The number octets stand for. */
  function Number(b: Bytes): nat {
    if b == [] then 0 else Number(b[..|b| - 1]) * 0x100 + b[|b| - 1]
  }

  function Limit(k: nat): nat { if k == 0 then 1 else 0x100 * Limit(k - 1) }

  /** What fits k octets is read back. */
  lemma {:induction false} NumberBack(n: nat, k: nat)
    requires n < Limit(k)
    ensures Number(BigEndian(n, k)) == n
  {
    if k > 0 {
      NumberBack(n / 0x100, k - 1);
      var b := BigEndian(n, k);
      assert b[..k - 1] == BigEndian(n / 0x100, k - 1);
    }
  }

  lemma {:induction false} NumberBelow(b: Bytes)
    ensures Number(b) < Limit(|b|)
  {
    if b != [] { NumberBelow(b[..|b| - 1]); }
  }

  lemma Limits()
    ensures Limit(SHORT) == 0x1_0000 && Limit(WORD) == 0x1_0000_0000
  {
    assert Limit(0) == 1;
    assert Limit(1) == 0x100;
    assert Limit(2) == 0x1_0000;
    assert Limit(3) == 0x100_0000;
    assert Limit(4) == 0x1_0000_0000;
  }

  function Encode16(n: Uint16): Bytes { BigEndian(n, SHORT) }

  function Encode32(n: Uint32): Bytes { BigEndian(n, WORD) }

  function Encode64(n: Uint64): Bytes { Encode32(n / 0x1_0000_0000) + Encode32(n % 0x1_0000_0000) }

  /** The characters of a C string: none of them is zero. */
  predicate NoZero(s: Bytes) { forall k | 0 <= k < |s| :: s[k] != 0 }

  /** The values that can be added. */
  datatype Item =
    | Octet(octet: Byte)
    | Short(short: Uint16)
    | Word(word: Uint32)
    | Long(long: Uint64)
    | Array(bytes: Option<Bytes>)
    | Text(text: Option<Bytes>)
    | Texts(texts: seq<Bytes>)

  /** Byte arrays and strings: a length and the octets, or a length that stands for none. */
  function EncodeArray(bytes: Option<Bytes>): Bytes {
    match bytes
    case None => BigEndian(ABSENT, WORD)
    case Some(b) => BigEndian(|b|, WORD) + b
  }

  predicate ShortTexts(texts: seq<Bytes>) { forall k | 0 <= k < |texts| :: |texts[k]| < TOO_LONG && NoZero(texts[k]) }

  function EncodeTexts(texts: seq<Bytes>): Bytes {
    if texts == [] then [] else EncodeArray(Some(texts[0])) + EncodeTexts(texts[1..])
  }

  /** Items short enough to be added. */
  predicate Fits(item: Item) {
    match item
    case Array(bytes) => bytes.Some? ==> |bytes.value| < TOO_LONG
    case Text(text) => text.Some? ==> |text.value| < TOO_LONG && NoZero(text.value)
    case Texts(texts) => |texts| < 0x1_0000_0000 && ShortTexts(texts)
    case _ => true
  }

  function Encode(item: Item): Bytes {
    match item
    case Octet(b) => [b]
    case Short(n) => Encode16(n)
    case Word(n) => Encode32(n)
    case Long(n) => Encode64(n)
    case Array(bytes) => EncodeArray(bytes)
    case Text(text) => EncodeArray(text)
    case Texts(texts) => BigEndian(|texts|, WORD) + EncodeTexts(texts)
  }

  lemma WordOctets(n: Uint32)
    ensures BigEndian(n, WORD) == [n / 0x100_0000, n / 0x1_0000 % 0x100, n / 0x100 % 0x100, n % 0x100]
  {
    assert BigEndian(n / 0x1_0000_0000, 0) == [];
    assert BigEndian(n / 0x100_0000, 1) == [n / 0x100_0000];
    assert BigEndian(n / 0x1_0000, 2) == [n / 0x100_0000, n / 0x1_0000 % 0x100];
    assert BigEndian(n / 0x100, 3) == [n / 0x100_0000, n / 0x1_0000 % 0x100, n / 0x100 % 0x100];
  }

  /** No string and no array are four octets 255; others are their length, most significant octet first, and they are
    * shorter than 2^31 - 1. */
  lemma ArrayOctets(b: Bytes)
    ensures Encode(Array(None)) == Encode(Text(None)) == [255, 255, 255, 255]
    ensures Fits(Array(Some(b))) <==> |b| < 0x7FFF_FFFF
    ensures var n := |b|;
      Fits(Array(Some(b))) ==>
        Encode(Array(Some(b))) == [n / 0x100_0000, n / 0x1_0000 % 0x100, n / 0x100 % 0x100, n % 0x100] + b
  {
    WordOctets(0xFFFF_FFFF);
    if |b| < 0x7FFF_FFFF { WordOctets(|b|); }
  }

  // ---------------------------------------------------------------- the gets

  /** A get: the value and where the next one starts. */
  function GetOctet(d: Bytes, at: nat): Option<(Byte, nat)> {
    if |d| < 1 || at > |d| - 1 then None else Some((d[at], at + 1))
  }

  function Get16(d: Bytes, at: nat): Option<(Uint16, nat)> {
    if |d| < SHORT || at > |d| - SHORT then None else
      Limits();
      NumberBelow(d[at..at + SHORT]);
      Some((Number(d[at..at + SHORT]), at + SHORT))
  }

  function Get32(d: Bytes, at: nat): Option<(Uint32, nat)> {
    if |d| < WORD || at > |d| - WORD then None else
      Limits();
      NumberBelow(d[at..at + WORD]);
      Some((Number(d[at..at + WORD]), at + WORD))
  }

  function Join(a: Uint32, b: Uint32): Uint64 {
    var high: int := a;
    high * 0x1_0000_0000 + b
  }

  function Get64(d: Bytes, at: nat): Option<(Uint64, nat)> {
    match Get32(d, at)
    case None => None
    case Some((a, next)) =>
      match Get32(d, next)
      case None => None
      case Some((b, end)) => Some((Join(a, b), end))
  }

  function GetArray(d: Bytes, at: nat): (r: Option<(Option<Bytes>, nat)>)
    ensures r.Some? ==> r.value.1 <= |d|
  {
    match Get32(d, at)
    case None => None
    case Some((len, next)) =>
      if len == ABSENT then Some((None, next))
      else if len >= TOO_LONG || |d| < len || next > |d| - len then None
      else Some((Some(d[next..next + len]), next + len))
  }

  /** A string may not hold a zero octet. */
  function GetText(d: Bytes, at: nat): (r: Option<(Option<Bytes>, nat)>)
    ensures r.Some? ==> r.value.1 <= |d|
  {
    match GetArray(d, at)
    case None => None
    case Some((None, next)) => Some((None, next))
    case Some((Some(b), next)) => if NoZero(b) then Some((Some(b), next)) else None
  }

  /** n strings one after the other; none of them may be the absent one to be a vector of strings. */
  function GetTexts(d: Bytes, at: nat, n: nat): Option<(seq<Option<Bytes>>, nat)>
    decreases n
  {
    if n == 0 then Some(([], at)) else
    match GetText(d, at)
    case None => None
    case Some((text, next)) =>
      match GetTexts(d, next, n - 1)
      case None => None
      case Some((rest, end)) => Some(([text] + rest, end))
  }

  function GetVector(d: Bytes, at: nat): Option<(seq<Option<Bytes>>, nat)> {
    match Get32(d, at)
    case None => None
    case Some((n, next)) => GetTexts(d, next, n)
  }

  function Present(texts: seq<Bytes>): seq<Option<Bytes>> {
    if texts == [] then [] else [Some(texts[0])] + Present(texts[1..])
  }

  /** The get that matches the add of an item finds the item at a place and leaves off at another. */
  predicate Finds(d: Bytes, at: nat, item: Item, next: nat) {
    match item
    case Octet(b) => GetOctet(d, at) == Some((b, next))
    case Short(n) => Get16(d, at) == Some((n, next))
    case Word(n) => Get32(d, at) == Some((n, next))
    case Long(n) => Get64(d, at) == Some((n, next))
    case Array(bytes) => GetArray(d, at) == Some((bytes, next))
    case Text(text) => GetText(d, at) == Some((text, next))
    case Texts(texts) => GetVector(d, at) == Some((Present(texts), next))
  }

  // ---------------------------------------------------------------- reading back

  /** The octets bs stand at a place. */
  ghost predicate StandsAt(d: Bytes, at: nat, bs: Bytes) {
    at + |bs| <= |d| && forall k {:trigger bs[k]} | 0 <= k < |bs| :: d[at + k] == bs[k]
  }

  lemma StandParts(d: Bytes, at: nat, a: Bytes, b: Bytes)
    requires StandsAt(d, at, a + b)
    ensures StandsAt(d, at, a) && StandsAt(d, at + |a|, b)
  {
    assert forall k | 0 <= k < |a| :: (a + b)[k] == a[k];
    assert forall k | 0 <= k < |b| :: (a + b)[|a| + k] == b[k];
  }

  lemma StandSlice(d: Bytes, at: nat, bs: Bytes)
    requires StandsAt(d, at, bs)
    ensures at + |bs| <= |d| && d[at..at + |bs|] == bs
  {
  }

  lemma Finds32(d: Bytes, at: nat, n: Uint32)
    requires StandsAt(d, at, Encode32(n))
    ensures Get32(d, at) == Some((n, at + WORD))
  {
    Limits();
    StandSlice(d, at, Encode32(n));
    NumberBack(n, WORD);
  }

  lemma Finds64(d: Bytes, at: nat, n: Uint64)
    requires StandsAt(d, at, Encode64(n))
    ensures Get64(d, at) == Some((n, at + WORD + WORD))
  {
    StandParts(d, at, Encode32(n / 0x1_0000_0000), Encode32(n % 0x1_0000_0000));
    Finds32(d, at, n / 0x1_0000_0000);
    Finds32(d, at + WORD, n % 0x1_0000_0000);
  }

  lemma FindsArray(d: Bytes, at: nat, bytes: Option<Bytes>)
    requires (bytes.Some? ==> |bytes.value| < TOO_LONG) && StandsAt(d, at, EncodeArray(bytes))
    ensures GetArray(d, at) == Some((bytes, at + |EncodeArray(bytes)|))
  {
    match bytes {
      case None => Finds32(d, at, ABSENT);
      case Some(b) =>
        StandParts(d, at, BigEndian(|b|, WORD), b);
        StandSlice(d, at + WORD, b);
        Finds32(d, at, |b|);
    }
  }

  lemma NextText(d: Bytes, at: nat, n: nat, first: Bytes, next: nat, rest: seq<Option<Bytes>>, end: nat)
    requires n > 0 && GetText(d, at) == Some((Some(first), next)) && GetTexts(d, next, n - 1) == Some((rest, end))
    ensures GetTexts(d, at, n) == Some(([Some(first)] + rest, end))
  {
  }

  lemma RestShort(texts: seq<Bytes>)
    requires texts != [] && ShortTexts(texts)
    ensures |texts[0]| < TOO_LONG && NoZero(texts[0]) && ShortTexts(texts[1..])
  {
  }

  /** Where the first part of two ends and the second starts. */
  lemma StandSplit(d: Bytes, at: nat, whole: Bytes, a: Bytes, b: Bytes) returns (next: nat)
    requires whole == a + b && StandsAt(d, at, whole)
    ensures next == at + |a| && next + |b| == at + |whole| && StandsAt(d, at, a) && StandsAt(d, next, b)
  {
    next := at + |a|;
    StandParts(d, at, a, b);
  }

  lemma TextSplit(d: Bytes, at: nat, texts: seq<Bytes>) returns (next: nat, size: nat)
    requires texts != [] && StandsAt(d, at, EncodeTexts(texts))
    ensures StandsAt(d, at, EncodeArray(Some(texts[0]))) && next == at + |EncodeArray(Some(texts[0]))|
    ensures StandsAt(d, next, EncodeTexts(texts[1..]))
    ensures size == |EncodeTexts(texts[1..])| && next + size == at + |EncodeTexts(texts)|
  {
    var rest := EncodeTexts(texts[1..]);
    next := StandSplit(d, at, EncodeTexts(texts), EncodeArray(Some(texts[0])), rest);
    size := |rest|;
  }

  lemma FirstText(d: Bytes, at: nat, texts: seq<Bytes>) returns (next: nat, size: nat)
    requires texts != [] && ShortTexts(texts) && StandsAt(d, at, EncodeTexts(texts))
    ensures GetText(d, at) == Some((Some(texts[0]), next)) && StandsAt(d, next, EncodeTexts(texts[1..]))
    ensures size == |EncodeTexts(texts[1..])| && next + size == at + |EncodeTexts(texts)|
  {
    next, size := TextSplit(d, at, texts);
    RestShort(texts);
    FindsText(d, at, Some(texts[0]));
  }

  lemma {:induction false} FindsTexts(d: Bytes, at: nat, texts: seq<Bytes>) returns (end: nat)
    requires ShortTexts(texts) && StandsAt(d, at, EncodeTexts(texts))
    ensures end == at + |EncodeTexts(texts)| && GetTexts(d, at, |texts|) == Some((Present(texts), end))
    decreases |texts|
  {
    end := at;
    if texts != [] {
      var next, size := FirstText(d, at, texts);
      var rest := texts[1..];
      end := FindsTexts(d, next, rest);
      PresentFirst(texts, rest);
      assert |rest| == |texts| - 1;
      NextText(d, at, |texts|, texts[0], next, Present(rest), end);
    }
  }

  lemma PresentFirst(texts: seq<Bytes>, rest: seq<Bytes>)
    requires texts != [] && rest == texts[1..]
    ensures Present(texts) == [Some(texts[0])] + Present(rest)
  {
  }

  lemma FindsText(d: Bytes, at: nat, text: Option<Bytes>)
    requires (text.Some? ==> |text.value| < TOO_LONG && NoZero(text.value)) && StandsAt(d, at, EncodeArray(text))
    ensures GetText(d, at) == Some((text, at + |EncodeArray(text)|))
  {
    FindsArray(d, at, text);
  }

  lemma VectorHead(d: Bytes, at: nat, texts: seq<Bytes>) returns (next: nat)
    requires |texts| < 0x1_0000_0000 && StandsAt(d, at, BigEndian(|texts|, WORD) + EncodeTexts(texts))
    ensures next == at + WORD && Get32(d, at) == Some((|texts|, next)) && StandsAt(d, next, EncodeTexts(texts))
  {
    next := at + WORD;
    StandParts(d, at, BigEndian(|texts|, WORD), EncodeTexts(texts));
    Finds32(d, at, |texts|);
  }

  lemma FindsVector(d: Bytes, at: nat, texts: seq<Bytes>) returns (end: nat)
    requires |texts| < 0x1_0000_0000 && ShortTexts(texts)
    requires StandsAt(d, at, BigEndian(|texts|, WORD) + EncodeTexts(texts))
    ensures end == at + WORD + |EncodeTexts(texts)| && GetVector(d, at) == Some((Present(texts), end))
  {
    var next := VectorHead(d, at, texts);
    end := FindsTexts(d, next, texts);
    VectorIs(d, at, |texts|, next, Present(texts), end);
  }

  lemma VectorIs(d: Bytes, at: nat, n: Uint32, next: nat, texts: seq<Option<Bytes>>, end: nat)
    requires Get32(d, at) == Some((n, next)) && GetTexts(d, next, n) == Some((texts, end))
    ensures GetVector(d, at) == Some((texts, end))
  {
  }

  lemma FindsShort(d: Bytes, at: nat, n: Uint16)
    requires StandsAt(d, at, Encode16(n))
    ensures Get16(d, at) == Some((n, at + SHORT))
  {
    Limits();
    StandSlice(d, at, Encode16(n));
    NumberBack(n, SHORT);
  }

  /** Every item is found where it was written. */
  lemma FindsItem(d: Bytes, at: nat, item: Item)
    requires Fits(item) && StandsAt(d, at, Encode(item))
    ensures Finds(d, at, item, at + |Encode(item)|)
  {
    match item {
      case Octet(b) => assert d[at + 0] == [b][0];
      case Short(n) => FindsShort(d, at, n);
      case Word(n) => Finds32(d, at, n);
      case Long(n) => Finds64(d, at, n);
      case Array(bytes) => FindsArray(d, at, bytes);
      case Text(text) => FindsText(d, at, text);
      case Texts(texts) => var end := FindsVector(d, at, texts);
    }
  }

  predicate AllFit(items: seq<Item>) { forall i | i in items :: Fits(i) }

  function EncodeAll(items: seq<Item>): Bytes {
    if items == [] then [] else Encode(items[0]) + EncodeAll(items[1..])
  }

  /** One get after the other, each from where the last one left off, finds these items and ends at end. */
  ghost predicate FindsAll(d: Bytes, at: nat, items: seq<Item>, end: nat)
    decreases |items|
  {
    if items == [] then at == end else exists next: nat ::
      Finds(d, at, items[0], next) && FindsAll(d, next, items[1..], end)
  }

  lemma NextItem(d: Bytes, at: nat, items: seq<Item>, next: nat, end: nat)
    requires items != [] && Finds(d, at, items[0], next) && FindsAll(d, next, items[1..], end)
    ensures FindsAll(d, at, items, end)
  {
  }

  lemma ItemSplit(d: Bytes, at: nat, items: seq<Item>) returns (next: nat, size: nat)
    requires items != [] && StandsAt(d, at, EncodeAll(items))
    ensures StandsAt(d, at, Encode(items[0])) && next == at + |Encode(items[0])|
    ensures StandsAt(d, next, EncodeAll(items[1..]))
    ensures size == |EncodeAll(items[1..])| && next + size == at + |EncodeAll(items)|
  {
    var rest := EncodeAll(items[1..]);
    next := StandSplit(d, at, EncodeAll(items), Encode(items[0]), rest);
    size := |rest|;
  }

  lemma FindsItemTo(d: Bytes, at: nat, item: Item, next: nat)
    requires Fits(item) && StandsAt(d, at, Encode(item)) && next == at + |Encode(item)|
    ensures Finds(d, at, item, next)
  {
    FindsItem(d, at, item);
  }

  lemma FirstItem(d: Bytes, at: nat, items: seq<Item>) returns (next: nat, size: nat)
    requires items != [] && AllFit(items) && StandsAt(d, at, EncodeAll(items))
    ensures Finds(d, at, items[0], next) && AllFit(items[1..]) && StandsAt(d, next, EncodeAll(items[1..]))
    ensures size == |EncodeAll(items[1..])| && next + size == at + |EncodeAll(items)|
  {
    next, size := ItemSplit(d, at, items);
    FindsItemTo(d, at, items[0], next);
  }

  /** Whatever items were added one after the other, the matching gets return them all and end behind the last. */
  lemma {:induction false} ReadBack(d: Bytes, at: nat, items: seq<Item>) returns (end: nat)
    requires AllFit(items) && StandsAt(d, at, EncodeAll(items))
    ensures end == at + |EncodeAll(items)| && FindsAll(d, at, items, end)
    decreases |items|
  {
    if items == [] {
      end := at;
    } else {
      var next, size := FirstItem(d, at, items);
      end := ReadBack(d, next, items[1..]);
      NextItem(d, at, items, next, end);
    }
  }
}
