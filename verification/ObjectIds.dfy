/** Object identifiers (section 8.19 of ITU-T X.690) as egg/egg-asn1x.c writes them from dotted
    text and reads them back. */
module ObjectIds {
  import opened Wrappers
  import opened Numerals
  import opened Headers

  /** atoin from the last digit to the first, in ints that wrap around; -1 for anything else. */
  function AtoinFrom(s: string, ret: int, base: int): int {
    if s == [] then ret
    else if !IsDigit(s[|s| - 1]) then -1
    else AtoinFrom(s[..|s| - 1], Wrap(ret + Wrap(DigitOf(s[|s| - 1]) * base)), Wrap(base * 10))
  }

  function Atoin(s: string): int { AtoinFrom(s, 0, 1) }

  /** num >> (7 * k). */
  function Shift(num: nat, k: nat): nat { if k == 0 then num else Shift(num / 128, k - 1) }

  function Septet(num: nat, k: nat): (b: nat)
    ensures b < 128
  {
    Shift(num, k) % 128
  }

  /** The octets of one arc from septet k down to the last; leading zero septets are dropped. */
  function ArcFrom(num: nat, k: nat, had: bool): Bytes {
    if k == 0 then [Septet(num, k)]
    else if Septet(num, k) != 0 || had then [Septet(num, k) + 128] + ArcFrom(num, k - 1, true)
    else ArcFrom(num, k - 1, false)
  }

  /** Where the first '.' from k on is, or the end. */
  function DotFrom(s: string, k: nat): (p: nat)
    requires k <= |s|
    ensures k <= p <= |s|
    decreases |s| - k
  {
    if k == |s| || s[k] == '.' then k else DotFrom(s, k + 1)
  }

  function Dot(s: string): nat { DotFrom(s, 0) }

  function Behind(s: string): string { if Dot(s) == |s| then [] else s[Dot(s) + 1..] }

  /** The octets arc number i contributes. */
  function ArcOctets(i: nat, num1: int, num: nat): Bytes {
    if i == 0 then [] else if i == 1 then [(40 * num1 + num) % 256] else ArcFrom(num, 4, false)
  }

  /** The loop of anode_write_object_id from arc number i on. */
  function WriteFrom(oid: string, i: nat, num1: int): Option<Bytes>
    decreases |oid|
  {
    if oid == [] then Some([]) else
    var p := Dot(oid);
    if p == 0 then None else
    var num := Atoin(oid[..p]);
    if num < 0 then None else
    match WriteFrom(Behind(oid), i + 1, if i == 0 then num else num1)
    case None => None
    case Some(rest) => Some(ArcOctets(i, num1, num) + rest)
  }

  /** anode_write_object_id. */
  function WriteOid(oid: string): Option<Bytes> {
    match WriteFrom(oid, 0, 0)
    case None => None
    case Some(d) => if |d| < 2 then None else Some(d)
  }

  const UINT_LIMIT: int := 0x1_0000_0000

  /** A uint that takes seven more bits may wrap around. */
  function NextVal(val: nat, x: Byte): (r: nat)
    requires val < UINT_LIMIT
    ensures r < UINT_LIMIT
    ensures val * 128 + Low(x) < UINT_LIMIT ==> r == val * 128 + Low(x)
  {
    (val * 128) % UINT_LIMIT + Low(x)
  }

  /** The loop of anode_read_object_id. An octet 0x80 is refused anywhere; an arc that does not
      end is dropped. */
  function ReadArcs(d: Bytes, val: nat): Option<seq<nat>>
    requires val < UINT_LIMIT
  {
    if d == [] then Some([]) else
    if d[0] == 0x80 then None else
    var next := NextVal(val, d[0]);
    if next < val then None else
    if d[0] >= 128 then ReadArcs(d[1..], next) else
    match ReadArcs(d[1..], 0)
    case None => None
    case Some(arcs) => Some([next] + arcs)
  }

  /** printf's %u. */
  function Decimal(n: nat): (s: string)
    ensures s != [] && forall c | c in s :: IsDigit(c)
  {
    if n == 0 then "0" else Chars(Digits(n, 10))
  }

  function Chars(ds: seq<nat>): (s: string)
    requires InBase(ds, 10)
    ensures |s| == |ds| && forall k | 0 <= k < |s| :: IsDigit(s[k]) && DigitOf(s[k]) == ds[k]
  {
    seq(|ds|, k requires 0 <= k < |ds| => (ds[k] + '0' as int) as char)
  }

  /** Dotted text. */
  function Text(arcs: seq<nat>): string
  {
    if arcs == [] then "" else if |arcs| == 1 then Decimal(arcs[0]) else Decimal(arcs[0]) + "." + Text(arcs[1..])
  }

  /** anode_read_object_id. */
  function ReadOid(d: Bytes): Option<string>
    requires d != []
  {
    match ReadArcs(d[1..], 0)
    case None => None
    case Some(arcs) => Some(Text([d[0] / 40, d[0] - d[0] / 40 * 40] + arcs))
  }

  // ---------------------------------------------------------------- the output is shorter

  /** The k + 1 low septets of a number. */
  function LowSeptets(num: nat, k: nat): (s: seq<nat>)
    ensures |s| == k + 1 && InBase(s, 128)
  {
    (if k == 0 then [] else LowSeptets(num / 128, k - 1)) + [num % 128]
  }

  lemma {:induction false} SeptetOnTop(num: nat, k: nat)
    requires k > 0
    ensures LowSeptets(num, k) == [Shift(num, k) % 128] + LowSeptets(num, k - 1)
  {
    if k > 1 { SeptetOnTop(num / 128, k - 1); }
  }

  /** Once an octet was written all lower septets are. */
  lemma {:induction false} ArcHad(num: nat, k: nat)
    ensures ArcFrom(num, k, true) == Marked(LowSeptets(num, k))
  {
    if k > 0 {
      ArcHad(num, k - 1);
      SeptetOnTop(num, k);
      MarkFirst(Shift(num, k) % 128, LowSeptets(num, k - 1));
    }
  }

  lemma MarkFirst(x: nat, s: seq<nat>)
    requires x < 128 && InBase(s, 128) && s != []
    ensures Marked([x] + s) == [x + 128] + Marked(s)
  {
  }

  lemma {:induction false} DigitsAreSeptets(num: nat, k: nat)
    requires 0 < Shift(num, k) < 128
    ensures Digits(num, 128) == LowSeptets(num, k)
  {
    if k == 0 {
      assert Digits(num / 128, 128) == [];
    } else {
      DigitsAreSeptets(num / 128, k - 1);
      ShiftPositive(num / 128, k - 1);
    }
  }

  lemma {:induction false} ShiftPositive(num: nat, k: nat)
    requires Shift(num, k) > 0
    ensures num > 0
  {
    if k > 0 { ShiftPositive(num / 128, k - 1); }
  }

  lemma {:induction false} ShiftNext(num: nat, k: nat)
    ensures Shift(num, k + 1) == Shift(num, k) / 128
  {
    if k > 0 { ShiftNext(num / 128, k - 1); }
  }

  /** Written with leading zero septets dropped, an arc is its base-128 digits, or one zero octet. */
  lemma {:induction false} ArcIsDigits(num: nat, k: nat)
    requires Shift(num, k + 1) == 0
    ensures ArcFrom(num, k, false) == if num == 0 then [0] else Marked(Digits(num, 128))
  {
    ShiftNext(num, k);
    if k == 0 {
      if num > 0 {
        DigitsAreSeptets(num, 0);
        ArcHad(num, 0);
      }
    } else if Shift(num, k) == 0 {
      ArcIsDigits(num, k - 1);
    } else {
      ArcHad(num, k);
      DigitsAreSeptets(num, k);
      ShiftPositive(num, k);
    }
  }

  /** An int has at most five septets. */
  lemma IntSeptets(num: nat)
    requires num < INT_LIMIT
    ensures Shift(num, 5) == 0
  {
    var a1 := num / 128;
    var a2 := a1 / 128;
    var a3 := a2 / 128;
    var a4 := a3 / 128;
    assert Shift(a4, 1) == a4 / 128 == 0;
    assert Shift(num, 5) == Shift(a1, 4) == Shift(a2, 3) == Shift(a3, 2) == Shift(a4, 1);
  }

  /** Small numbers have few septets. */
  lemma ArcSize(num: nat)
    requires num < INT_LIMIT
    ensures |ArcFrom(num, 4, false)| <= 5
    ensures num < 128 ==> |ArcFrom(num, 4, false)| == 1
    ensures num < 16384 ==> |ArcFrom(num, 4, false)| <= 2
  {
    IntSeptets(num);
    ArcIsDigits(num, 4);
    DigitsFew(num);
  }

  lemma DigitsFew(num: nat)
    requires num < INT_LIMIT
    ensures |Digits(num, 128)| <= 5
    ensures num < 128 ==> |Digits(num, 128)| <= 1
    ensures num < 16384 ==> |Digits(num, 128)| <= 2
  {
    var a1 := num / 128;
    var a2 := a1 / 128;
    var a3 := a2 / 128;
    var a4 := a3 / 128;
    assert a4 / 128 == 0;
    assert |Digits(a4, 128)| <= 1;
    assert |Digits(a3, 128)| <= 2;
    assert |Digits(a2, 128)| <= 3;
    assert |Digits(a1, 128)| <= 4;
  }

  /** One digit, while no int wraps around. */
  lemma AtoinStep(s: string, ret: nat, base: nat, d: nat, product: nat)
    requires s != [] && IsDigit(s[|s| - 1]) && d == DigitOf(s[|s| - 1]) && product == d * base
    requires ret + product < INT_LIMIT && (|s| > 1 ==> base * 10 < INT_LIMIT)
    ensures AtoinFrom(s, ret, base) == AtoinFrom(s[..|s| - 1], ret + product, base * 10)
  {
    var init := s[..|s| - 1];
    assert Wrap(product) == product && Wrap(ret + product) == ret + product;
    if init == [] {
    } else {
      assert Wrap(base * 10) == base * 10;
    }
  }

  lemma DigitTimes(d: nat, base: nat)
    requires d < 10
    ensures 0 <= d * base <= 9 * base
  {
  }

  /** Few digits make a small number. */
  lemma AtoinSmall(s: string, ret: nat, base: nat, k: nat)
    requires AtoinFrom(s, ret, base) >= 0 && |s| == k
    requires ret < base
    requires ((k <= 4 && base == 1) || (k <= 3 && base == 10) || (k <= 2 && base == 100) || (k <= 1 && base == 1000)
      || k == 0)
    ensures k == 0 ==> AtoinFrom(s, ret, base) < base
    ensures k == 1 ==> AtoinFrom(s, ret, base) < 10 * base
    ensures k == 2 ==> AtoinFrom(s, ret, base) < 100 * base
    ensures k == 3 ==> AtoinFrom(s, ret, base) < 1000 * base
    ensures k == 4 ==> AtoinFrom(s, ret, base) < 10000 * base
    decreases k
  {
    if k > 0 {
      var d := DigitOf(s[k - 1]);
      var product := d * base;
      DigitTimes(d, base);
      AtoinStep(s, ret, base, d, product);
      AtoinSmall(s[..k - 1], ret + product, base * 10, k - 1);
    }
  }

  lemma {:induction false} AtoinBelow(s: string, ret: int, base: int)
    requires ret < INT_LIMIT
    ensures AtoinFrom(s, ret, base) < INT_LIMIT
  {
    if s != [] && IsDigit(s[|s| - 1]) {
      AtoinBelow(s[..|s| - 1], Wrap(ret + Wrap(DigitOf(s[|s| - 1]) * base)), Wrap(base * 10));
    }
  }

  /** No arc takes more octets than it has digits. */
  lemma ArcShorter(i: nat, num1: int, s: string)
    requires s != [] && Atoin(s) >= 0
    ensures |ArcOctets(i, num1, Atoin(s))| <= |s| && (i == 0 ==> |ArcOctets(i, num1, Atoin(s))| < |s|)
  {
    if |s| <= 4 { AtoinSmall(s, 0, 1, |s|); }
    AtoinBelow(s, 0, 1);
    ArcSize(Atoin(s));
  }

  /** Octets that are written for a text are as few as those for what comes behind its first arc allow. */
  ghost predicate AsFew(write: Writer, oid: string, i: nat, num1: int, octets: Bytes) {
    write(oid, i, num1) == Some(octets) ==>
      exists behind: string, n: int, rest: Bytes {:trigger AsFewWith(write, oid, i, octets, behind, n, rest)} ::
        AsFewWith(write, oid, i, octets, behind, n, rest)
  }

  ghost predicate AsFewWith(write: Writer, oid: string, i: nat, octets: Bytes, behind: string, n: int, rest: Bytes) {
    |behind| < |oid| && write(behind, i + 1, n) == Some(rest)
    && (|rest| <= |behind| ==> |octets| <= |oid| && (i == 0 ==> |octets| < |oid|))
  }

  /** The first arc of a text takes no more octets than characters. */
  lemma FirstArcShorter(oid: string, i: nat, num1: int, octets: Bytes)
    requires oid != []
    ensures AsFew(WriteFrom, oid, i, num1, octets)
  {
    if WriteFrom(oid, i, num1) == Some(octets) {
      var s, behind := oid[..Dot(oid)], Behind(oid);
      ArcShorter(i, num1, s);
      var n := if i == 0 then Atoin(s) else num1;
      assert AsFewWith(WriteFrom, oid, i, octets, behind, n, WriteFrom(behind, i + 1, n).value);
    }
  }

  lemma FewBehind(write: Writer, oid: string, i: nat, num1: int, octets: Bytes)
    returns (behind: string, n: int, rest: Bytes)
    requires write(oid, i, num1) == Some(octets) && AsFew(write, oid, i, num1, octets)
    ensures AsFewWith(write, oid, i, octets, behind, n, rest)
  {
    behind, n, rest :| AsFewWith(write, oid, i, octets, behind, n, rest);
  }

  lemma {:induction false} ShorterBy(write: Writer, oid: string, i: nat, num1: int, octets: Bytes)
    requires write(oid, i, num1) == Some(octets) && forall j: nat, n: int :: write([], j, n) == Some([])
    requires forall t, j, n, o {:trigger AsFew(write, t, j, n, o)} | t != [] :: AsFew(write, t, j, n, o)
    ensures |octets| <= |oid| && (i == 0 && oid != [] ==> |octets| < |oid|)
    decreases |oid|
  {
    if oid != [] {
      var behind, n, rest := FewBehind(write, oid, i, num1, octets);
      ShorterBy(write, behind, i + 1, n, rest);
    }
  }

  /** The octets are strictly fewer than the characters, so a buffer of the text's length is never full. */
  lemma WrittenShorter(oid: string, i: nat, num1: int)
    requires WriteFrom(oid, i, num1).Some?
    ensures |WriteFrom(oid, i, num1).value| <= |oid|
    ensures i == 0 && oid != [] ==> |WriteFrom(oid, i, num1).value| < |oid|
  {
    forall t, j, n, o | t != [] ensures AsFew(WriteFrom, t, j, n, o) { FirstArcShorter(t, j, n, o); }
    ShorterBy(WriteFrom, oid, i, num1, WriteFrom(oid, i, num1).value);
  }

  // ---------------------------------------------------------------- reading back

  lemma {:induction false} AtoinExact(ds: seq<nat>, ret: nat, base: nat, n: nat)
    requires InBase(ds, 10) && (ds != [] ==> ds[0] > 0) && base > 0
    requires ret + base * Val(ds, 10) == n < INT_LIMIT
    ensures AtoinFrom(Chars(ds), ret, base) == n
    decreases |ds|
  {
    if ds != [] {
      var init, d, s := ds[..|ds| - 1], ds[|ds| - 1], Chars(ds);
      SameChars(ds);
      var product := ExactStep(ret, base, Val(init, 10), d, n);
      if init != [] { PositiveVal(init); }
      AtoinStep(s, ret, base, d, product);
      AtoinExact(init, ret + product, base * 10, n);
    }
  }

  lemma ExactStep(ret: nat, base: nat, v: nat, d: nat, n: nat) returns (product: nat)
    requires base > 0 && ret + base * (v * 10 + d) == n
    ensures product == d * base && ret + product <= n
    ensures ret + product + base * 10 * v == n && (v > 0 ==> base * 10 <= n)
  {
    product := d * base;
    assert base * (v * 10 + d) == base * 10 * v + product;
    if v > 0 { AtLeast(v, base * 10); }
  }

  lemma SameChars(ds: seq<nat>)
    requires InBase(ds, 10) && ds != []
    ensures Chars(ds)[..|ds| - 1] == Chars(ds[..|ds| - 1])
  {
    var a, b := Chars(ds)[..|ds| - 1], Chars(ds[..|ds| - 1]);
    forall k | 0 <= k < |a| ensures a[k] == b[k] {
      assert DigitOf(a[k]) == DigitOf(b[k]);
    }
  }

  lemma {:induction false} PositiveVal(ds: seq<nat>)
    requires ds != [] && ds[0] > 0
    ensures Val(ds, 10) > 0
  {
    if |ds| > 1 { PositiveVal(ds[..|ds| - 1]); }
  }

  /** Decimal text is read as the number it was printed from. */
  lemma AtoinDecimal(n: nat)
    requires n < INT_LIMIT
    ensures Atoin(Decimal(n)) == n
  {
    if n == 0 {
      assert "0"[..0] == "";
    } else {
      ValDigits(n, 10);
      AtoinExact(Digits(n, 10), 0, 1, n);
    }
  }

  lemma {:induction false} DotAt(s: string, rest: string, k: nat)
    requires (forall c | c in s :: c != '.') && (rest != [] ==> rest[0] == '.') && k <= |s|
    ensures DotFrom(s + rest, k) == |s|
    decreases |s| - k
  {
    if k < |s| {
      assert s[k] in s && (s + rest)[k] == s[k];
      DotAt(s, rest, k + 1);
    }
  }

  lemma DotBehind(s: string, rest: string)
    requires forall c | c in s :: c != '.'
    ensures Dot(s) == |s| && Dot(s + "." + rest) == |s|
    ensures (s + "." + rest)[..|s|] == s && Behind(s) == [] && Behind(s + "." + rest) == rest
  {
    DotAt(s, [], 0);
    DotAt(s, "." + rest, 0);
    assert s + [] == s && s + ("." + rest) == s + "." + rest;
  }

  /** What arcs are written as when their numbers are read right. */
  function WrittenArcs(arcs: seq<nat>, i: nat, num1: int): Bytes {
    if arcs == [] then
        []
      else
        ArcOctets(i, num1, arcs[0]) + WrittenArcs(arcs[1..], i + 1, if i == 0 then arcs[0] else num1)
  }

  predicate IntArcs(arcs: seq<nat>) { forall k | 0 <= k < |arcs| :: arcs[k] < INT_LIMIT }

  lemma TextArc(arcs: seq<nat>)
    requires arcs != []
    ensures var t := Text(arcs); t != [] && t[..Dot(t)] == Decimal(arcs[0]) && Behind(t) == Text(arcs[1..])
  {
    var s := Decimal(arcs[0]);
    DotBehind(s, Text(arcs[1..]));
    assert s[..|s|] == s;
    assert |arcs| == 1 ==> arcs[1..] == [];
  }

  // A way to write text from arc number i on.
  type Writer = (string, nat, int) -> Option<Bytes>

  /** Text t starts with an arc that is read as this number, and rest is what comes behind it. */
  ghost predicate Continues(write: Writer, t: string, num: int, rest: string) {
    forall i: nat, num1: int {:trigger write(t, i, num1)} :: write(t, i, num1) ==
      if num < 0 then None else
      match write(rest, i + 1, if i == 0 then num else num1)
      case None => None
      case Some(d) => Some(ArcOctets(i, num1, num) + d)
  }

  lemma OneArc(t: string, s: string, i: nat, num1: int)
    requires s != [] && t != [] && t[..Dot(t)] == s
    ensures WriteFrom(t, i, num1) ==
      if Atoin(s) < 0 then None else
      match WriteFrom(Behind(t), i + 1, if i == 0 then Atoin(s) else num1)
      case None => None
      case Some(rest) => Some(ArcOctets(i, num1, Atoin(s)) + rest)
  {
  }

  lemma TextContinues(arcs: seq<nat>)
    requires arcs != []
    ensures Continues(WriteFrom, Text(arcs), Atoin(Decimal(arcs[0])), Text(arcs[1..]))
  {
    TextArc(arcs);
    var num := Atoin(Decimal(arcs[0]));
    forall i: nat, num1: int
      ensures WriteFrom(Text(arcs), i, num1) ==
        if num < 0 then None else
        match WriteFrom(Text(arcs[1..]), i + 1, if i == 0 then num else num1)
        case None => None
        case Some(d) => Some(ArcOctets(i, num1, num) + d)
    {
      OneArc(Text(arcs), Decimal(arcs[0]), i, num1);
    }
  }

  /** A chain of texts, each an arc longer than the next, down to none. */
  ghost predicate Chained(write: Writer, nums: seq<int>, texts: seq<string>) {
    |texts| == |nums| + 1 && (forall j: nat, n: int :: write(texts[|nums|], j, n) == Some([]))
    && forall k | 0 <= k < |nums| :: Continues(write, texts[k], nums[k], texts[k + 1])
  }

  lemma ChainedRest(write: Writer, nums: seq<int>, texts: seq<string>)
    requires Chained(write, nums, texts) && nums != []
    ensures Chained(write, nums[1..], texts[1..]) && Continues(write, texts[0], nums[0], texts[1..][0])
  {
  }

  /** What is written for a chain of texts, when every arc is read as a number. */
  lemma {:induction false} WriteChain(write: Writer, arcs: seq<nat>, texts: seq<string>, i: nat, num1: int)
    requires Chained(write, arcs, texts)
    ensures write(texts[0], i, num1) == Some(WrittenArcs(arcs, i, num1))
    decreases |arcs|
  {
    if arcs != [] {
      ChainedRest(write, arcs, texts);
      WriteChain(write, arcs[1..], texts[1..], i + 1, if i == 0 then arcs[0] else num1);
    }
  }

  /** When one is not, nothing is written. */
  lemma {:induction false} RefuseChain(write: Writer, nums: seq<int>, texts: seq<string>, k: nat, i: nat, num1: int)
    requires Chained(write, nums, texts) && k < |nums| && nums[k] < 0
    ensures write(texts[0], i, num1) == None
    decreases k
  {
    ChainedRest(write, nums, texts);
    if k > 0 && nums[0] >= 0 {
      RefuseChain(write, nums[1..], texts[1..], k - 1, i + 1, if i == 0 then nums[0] else num1);
    }
  }

  /** The numbers that the arcs of a text are read as. */
  function NumsOf(arcs: seq<nat>): (nums: seq<int>)
    ensures |nums| == |arcs| && forall k | 0 <= k < |arcs| :: nums[k] == Atoin(Decimal(arcs[k]))
  {
    seq(|arcs|, k requires 0 <= k < |arcs| => Atoin(Decimal(arcs[k])))
  }

  lemma TextsChained(arcs: seq<nat>) returns (texts: seq<string>)
    ensures Chained(WriteFrom, NumsOf(arcs), texts) && texts[0] == Text(arcs)
  {
    texts := seq(|arcs| + 1, k requires 0 <= k <= |arcs| => Text(arcs[k..]));
    forall k | 0 <= k < |arcs| ensures Continues(WriteFrom, texts[k], NumsOf(arcs)[k], texts[k + 1]) {
      TextContinues(arcs[k..]);
      assert arcs[k..][1..] == arcs[k + 1..];
    }
    assert arcs[0..] == arcs && arcs[|arcs|..] == [];
    assert texts[|arcs|] == Text([]) == "";
  }

  lemma WriteText(arcs: seq<nat>, i: nat, num1: int)
    requires IntArcs(arcs)
    ensures WriteFrom(Text(arcs), i, num1) == Some(WrittenArcs(arcs, i, num1))
  {
    var texts := TextsChained(arcs);
    forall k | 0 <= k < |arcs| ensures NumsOf(arcs)[k] == arcs[k] { AtoinDecimal(arcs[k]); }
    assert NumsOf(arcs) == arcs;
    WriteChain(WriteFrom, arcs, texts, i, num1);
  }

  /** No septet between the first and the last is zero: no octet of the arc is 0x80. */
  predicate NoZeroSeptet(n: nat) {
    var ds := Digits(n, 128); forall k | 0 <= k < |ds| - 1 :: ds[k] != 0
  }

  /** The septets of one arc, read one after the other. */
  lemma {:induction false} ReadSeptets(ds: seq<nat>, rest: Bytes, val: nat)
    requires ds != [] && InBase(ds, 128) && val < INT_LIMIT && Fold(val, ds, 128) < INT_LIMIT
    ensures ReadArcs(Marked(ds) + rest, val) ==
      if exists k :: 0 <= k < |ds| - 1 && ds[k] == 0 then None
      else match ReadArcs(rest, 0) case None => None case Some(arcs) => Some([Fold(val, ds, 128)] + arcs)
    decreases |ds|
  {
    var next := val * 128 + ds[0];
    FoldGrows(next, ds[1..], 128);
    if |ds| == 1 {
      assert ds[1..] == [] && Marked(ds) == ds;
      ReadOctet(ds[0], rest, val);
    } else {
      assert ds == [ds[0]] + ds[1..];
      MarkFirst(ds[0], ds[1..]);
      assert Marked(ds) + rest == [ds[0] + 128] + (Marked(ds[1..]) + rest);
      ReadOctet(ds[0] + 128, Marked(ds[1..]) + rest, val);
      if ds[0] != 0 {
        ReadSeptets(ds[1..], rest, next);
        ZeroLater(ds);
      }
    }
  }

  lemma ZeroLater(ds: seq<nat>)
    requires |ds| > 1 && ds[0] != 0
    ensures (exists k :: 0 <= k < |ds| - 1 && ds[k] == 0) <==> (exists k :: 0 <= k < |ds[1..]| - 1 && ds[1..][k] == 0)
  {
    if k :| 0 <= k < |ds| - 1 && ds[k] == 0 {
      assert ds[1..][k - 1] == 0;
    }
    if k :| 0 <= k < |ds[1..]| - 1 && ds[1..][k] == 0 {
      assert ds[k + 1] == 0;
    }
  }

  /** One octet of an arc, while no value wraps around. */
  lemma ReadOctet(x: Byte, rest: Bytes, val: nat)
    requires val * 128 + Low(x) < UINT_LIMIT
    ensures ReadArcs([x] + rest, val) ==
      if x == 0x80 then None
      else if x > 0x80 then ReadArcs(rest, val * 128 + Low(x))
      else match ReadArcs(rest, 0) case None => None case Some(arcs) => Some([val * 128 + Low(x)] + arcs)
  {
    assert ([x] + rest)[1..] == rest;
  }

  lemma ReadArc(num: nat, rest: Bytes)
    requires num < INT_LIMIT
    ensures ReadArcs(ArcFrom(num, 4, false) + rest, 0) ==
      if !NoZeroSeptet(num) then None
      else match ReadArcs(rest, 0) case None => None case Some(arcs) => Some([num] + arcs)
  {
    IntSeptets(num);
    ArcIsDigits(num, 4);
    if num == 0 {
      var m := [0] + rest;
      assert m[1..] == rest;
    } else {
      FoldDigits(num, 128);
      ReadSeptets(Digits(num, 128), rest, 0);
    }
  }

  lemma {:induction false} ReadWrittenArcs(arcs: seq<nat>, i: nat, num1: int)
    requires i >= 2 && IntArcs(arcs)
    ensures ReadArcs(WrittenArcs(arcs, i, num1), 0) ==
      if Readable(arcs) then Some(arcs) else None
    decreases |arcs|
  {
    if arcs != [] {
      ReadArc(arcs[0], WrittenArcs(arcs[1..], i + 1, num1));
      ReadWrittenArcs(arcs[1..], i + 1, num1);
      assert arcs == [arcs[0]] + arcs[1..];
      assert forall k | 0 < k < |arcs| :: arcs[k] == arcs[1..][k - 1];
      assert forall k | 0 <= k < |arcs| - 1 :: arcs[1..][k] == arcs[k + 1];
    }
  }

  /** At least three arcs, the first two of which fit one octet without overlap, all of them ints. */
  predicate Canonical(arcs: seq<nat>) {
    |arcs| >= 3 && arcs[1] < 40 && 40 * arcs[0] + arcs[1] < 256 && IntArcs(arcs)
  }

  predicate Readable(arcs: seq<nat>) { forall k | 0 <= k < |arcs| :: NoZeroSeptet(arcs[k]) }

  lemma FirstOctets(a: nat, b: nat)
    requires b < 40
    ensures (40 * a + b) / 40 == a && 40 * a + b - (40 * a + b) / 40 * 40 == b
  {
  }

  lemma WrittenParts(a: nat, b: nat, later: seq<nat>)
    requires 40 * a + b < 256
    ensures WrittenArcs([a, b] + later, 0, 0) == [40 * a + b] + WrittenArcs(later, 2, a)
  {
    var arcs := [a, b] + later;
    assert arcs[1..] == [b] + later && arcs[1..][1..] == later;
    assert WrittenArcs(arcs, 0, 0) == [] + WrittenArcs(arcs[1..], 1, a);
  }

  /** What is written for canonical text is read back as the same text exactly if no later arc has
      a zero septet between its first and last; otherwise reading fails. */
  lemma OidRoundTrip(arcs: seq<nat>)
    requires Canonical(arcs)
    ensures WriteOid(Text(arcs)).Some?
    ensures ReadOid(WriteOid(Text(arcs)).value) == if Readable(arcs[2..]) then Some(Text(arcs)) else None
  {
    var a, b, later := arcs[0], arcs[1], arcs[2..];
    var tail := WrittenArcs(later, 2, a);
    WriteText(arcs, 0, 0);
    assert arcs == [a, b] + later;
    WrittenParts(a, b, later);
    ArcFromSome(later[0]);
    ReadWrittenArcs(later, 2, a);
    ReadFirst(a, b, tail);
  }

  // ---------------------------------------------------------------- exactly which identifiers are read back

  /** Written and read back, an identifier is the same. */
  predicate Returns(arcs: seq<nat>) {
    var d := WriteOid(Text(arcs));
    d.Some? && ReadOid(d.value) == Some(Text(arcs))
  }

  lemma DecimalInjective(n: nat, m: nat)
    requires Decimal(n) == Decimal(m)
    ensures n == m
  {
    ValDigits(n, 10);
    ValDigits(m, 10);
    if n > 0 && m > 0 {
      SameDigits(Digits(n, 10), Digits(m, 10));
    } else if n > 0 {
      ZeroDigit(n);
    } else if m > 0 {
      ZeroDigit(m);
    }
  }

  lemma SameDigits(a: seq<nat>, b: seq<nat>)
    requires InBase(a, 10) && InBase(b, 10) && Chars(a) == Chars(b)
    ensures a == b
  {
    assert |a| == |Chars(a)| == |b|;
    forall k | 0 <= k < |a| ensures a[k] == b[k] {
      assert DigitOf(Chars(a)[k]) == DigitOf(Chars(b)[k]);
    }
  }

  lemma ZeroDigit(n: nat)
    requires n > 0
    ensures Decimal(n) != "0"
  {
    ValDigits(n, 10);
  }

  /** No two identifiers have the same text. */
  lemma {:induction false} TextInjective(a: seq<nat>, b: seq<nat>)
    requires Text(a) == Text(b)
    ensures a == b
  {
    if a != [] { TextArc(a); }
    if b != [] { TextArc(b); }
    if a != [] && b != [] {
      DecimalInjective(a[0], b[0]);
      TextInjective(a[1..], b[1..]);
      assert a == [a[0]] + a[1..] && b == [b[0]] + b[1..];
    }
  }

  /** What is written for any arcs is what the numbers they are read as are written as. */
  lemma NumsWritten(arcs: seq<nat>) returns (nums: seq<nat>)
    requires WriteFrom(Text(arcs), 0, 0).Some?
    ensures |nums| == |arcs| && IntArcs(nums)
    ensures forall k | 0 <= k < |arcs| :: Atoin(Decimal(arcs[k])) == nums[k]
    ensures WriteFrom(Text(arcs), 0, 0) == Some(WrittenArcs(nums, 0, 0))
  {
    var all := NumsOf(arcs);
    var texts := TextsChained(arcs);
    forall k | 0 <= k < |arcs| ensures 0 <= all[k] < INT_LIMIT {
      AtoinBelow(Decimal(arcs[k]), 0, 1);
      if all[k] < 0 { RefuseChain(WriteFrom, all, texts, k, 0, 0); }
    }
    nums := all;
    WriteChain(WriteFrom, nums, texts, 0, 0);
  }

  /** The first octet holds the first two arcs only if they fit. */
  lemma FirstFits(a: nat, b: nat, a': nat, b': nat, x: nat)
    requires x == (40 * a' + b') % 256 && a == x / 40 && b == x - x / 40 * 40
    requires Atoin(Decimal(a)) == a' && Atoin(Decimal(b)) == b'
    ensures b < 40 && 40 * a + b == x < 256 && a' == a && b' == b
  {
    AtoinDecimal(a);
    AtoinDecimal(b);
  }

  lemma {:induction false} FewWritten(nums: seq<nat>)
    requires |nums| < 3
    ensures |WrittenArcs(nums, 0, 0)| < 2
  {
    if nums != [] {
      assert WrittenArcs(nums, 0, 0) == [] + WrittenArcs(nums[1..], 1, nums[0]);
      if |nums| == 2 { assert nums[1..][1..] == []; }
    }
  }

  lemma TwoArcsRefused(arcs: seq<nat>)
    requires |arcs| < 3
    ensures WriteOid(Text(arcs)).None?
  {
    if WriteFrom(Text(arcs), 0, 0).Some? {
      var nums := NumsWritten(arcs);
      FewWritten(nums);
    }
  }

  lemma ReadAny(x: Byte, tail: Bytes)
    ensures ReadOid([x] + tail) == match ReadArcs(tail, 0)
      case None => None
      case Some(arcs) => Some(Text([x / 40, x - x / 40 * 40] + arcs))
  {
    assert ([x] + tail)[1..] == tail;
  }

  lemma FirstWritten(nums: seq<nat>) returns (x: Byte, later: seq<nat>)
    requires |nums| >= 2
    ensures x == (40 * nums[0] + nums[1]) % 256 && later == nums[2..]
    ensures WrittenArcs(nums, 0, 0) == [x] + WrittenArcs(later, 2, nums[0])
  {
    x, later := (40 * nums[0] + nums[1]) % 256, nums[2..];
    assert nums[1..][1..] == later;
    assert WrittenArcs(nums, 0, 0) == [] + WrittenArcs(nums[1..], 1, nums[0]);
  }

  /** What is read back, whatever was written. */
  lemma ReadBack(nums: seq<nat>) returns (x: Byte, later: seq<nat>)
    requires |nums| >= 3 && IntArcs(nums)
    ensures x == (40 * nums[0] + nums[1]) % 256 && later == nums[2..] && IntArcs(later)
    ensures WrittenArcs(nums, 0, 0) != []
    ensures ReadOid(WrittenArcs(nums, 0, 0)) ==
      if Readable(later) then Some(Text([x / 40, x - x / 40 * 40] + later)) else None
  {
    x, later := FirstWritten(nums);
    ReadAny(x, WrittenArcs(later, 2, nums[0]));
    ReadWrittenArcs(later, 2, nums[0]);
  }

  lemma BackCanonical(arcs: seq<nat>, nums: seq<nat>, x: Byte, later: seq<nat>)
    requires |arcs| >= 3 && |nums| == |arcs| && x == (40 * nums[0] + nums[1]) % 256
    requires arcs == [x / 40, x - x / 40 * 40] + later && IntArcs(later) && Readable(later)
    requires Atoin(Decimal(arcs[0])) == nums[0] && Atoin(Decimal(arcs[1])) == nums[1]
    ensures Canonical(arcs) && Readable(arcs[2..])
  {
    assert arcs[2..] == later;
    FirstFits(arcs[0], arcs[1], nums[0], nums[1], x);
    forall k | 0 <= k < |arcs| ensures arcs[k] < INT_LIMIT {
      if k >= 2 { assert arcs[k] == later[k - 2]; }
    }
  }

  lemma OidParts(arcs: seq<nat>) returns (nums: seq<nat>)
    requires WriteOid(Text(arcs)).Some?
    ensures |nums| == |arcs| && IntArcs(nums) && WriteOid(Text(arcs)).value == WrittenArcs(nums, 0, 0)
    ensures forall k | 0 <= k < |arcs| :: Atoin(Decimal(arcs[k])) == nums[k]
  {
    nums := NumsWritten(arcs);
  }

  /** What is read back is the same only for canonical identifiers. */
  lemma ReturnsCanonical(arcs: seq<nat>)
    requires |arcs| >= 3 && Returns(arcs)
    ensures Canonical(arcs) && Readable(arcs[2..])
  {
    var nums := OidParts(arcs);
    var x, later := ReadBack(nums);
    var back := [x / 40, x - x / 40 * 40] + later;
    TextInjective(arcs, back);
    BackCanonical(arcs, nums, x, later);
  }

  /** An identifier is read back as it was written exactly if it is canonical and no later arc has a zero septet. */
  lemma ReturnsExactly(arcs: seq<nat>)
    ensures Returns(arcs) <==> Canonical(arcs) && Readable(arcs[2..])
  {
    if |arcs| < 3 {
      TwoArcsRefused(arcs);
    } else if Returns(arcs) {
      ReturnsCanonical(arcs);
    } else if Canonical(arcs) {
      OidRoundTrip(arcs);
    }
  }

  /** The identifier 1.40.1 is written like 2.0.1, and read as that. */
  lemma SecondArcTooLarge()
    ensures WriteOid(Text([1, 40, 1])).Some? && !Returns([1, 40, 1])
  {
    ReturnsExactly([1, 40, 1]);
    WriteText([1, 40, 1], 0, 0);
    var x, later := FirstWritten([1, 40, 1]);
    ArcFromSome(1);
  }

  lemma ReadFirst(a: nat, b: nat, tail: Bytes)
    requires b < 40 && 40 * a + b < 256
    ensures ReadOid([40 * a + b] + tail) == match ReadArcs(tail, 0)
      case None => None
      case Some(arcs) => Some(Text([a, b] + arcs))
  {
    assert ([40 * a + b] + tail)[1..] == tail;
    FirstOctets(a, b);
  }

  lemma ArcFromSome(num: nat)
    requires num < INT_LIMIT
    ensures ArcFrom(num, 4, false) != []
  {
    IntSeptets(num);
    ArcIsDigits(num, 4);
  }

  /** The arc 16384 has a zero septet: it can be written but not read. */
  lemma ZeroSeptetRefused()
    ensures WriteOid(Text([1, 2, 16384])).Some? && ReadOid(WriteOid(Text([1, 2, 16384])).value) == None
  {
    var arcs := [1, 2, 16384];
    ZeroSeptet();
    assert arcs[2..][0] == 16384;
    OidRoundTrip(arcs);
  }

  lemma ZeroSeptet()
    ensures !NoZeroSeptet(16384)
  {
    assert Digits(1, 128) == [1] && Digits(128, 128) == [1, 0] && Digits(16384, 128) == [1, 0, 0];
    assert Digits(16384, 128)[1] == 0;
  }

  // ---------------------------------------------------------------- the loops

  /** The loop over the septets of one arc, into a buffer or only counting; the buffer is never full. */
  method PutArc(num: nat, data: array?<Byte>, start: nat) returns (at: nat)
    requires data != null ==> start + |ArcFrom(num, 4, false)| <= data.Length
    modifies data
    ensures at == start + |ArcFrom(num, 4, false)|
    ensures data != null ==> data[..at] == old(data[..start]) + ArcFrom(num, 4, false)
  {
    var had, k := false, 4;
    at := start;
    ghost var done: Bytes := [];
    while k >= 0
      invariant -1 <= k <= 4 && at == start + |done|
      invariant ArcFrom(num, 4, false) == done + ArcRest(num, k, had)
      invariant data != null ==> at <= data.Length && data[..at] == old(data[..start]) + done
      decreases k
    {
      var drop, octet := NextSeptet(num, k, had, done);
      if !drop {
        if data != null { PutOctet(data, at, octet); }
        done := done + [octet];
        at := at + 1;
        had := true;
      }
      k := k - 1;
    }
  }

  function ArcRest(num: nat, k: int, had: bool): Bytes { if k < 0 then [] else ArcFrom(num, k, had) }

  /** One septet: no octet while only zero septets were seen. */
  predicate Drops(num: nat, k: nat, had: bool) { Septet(num, k) == 0 && !had && k != 0 }

  function Octet(num: nat, k: nat): Byte { if k > 0 then Septet(num, k) + 128 else Septet(num, k) }

  /** The octet of one septet, unless it is dropped. */
  method NextSeptet(num: nat, k: nat, had: bool, ghost done: Bytes) returns (drop: bool, octet: Byte)
    ensures drop ==> !had && k > 0
    ensures done + ArcRest(num, k, had) == if drop then done + ArcRest(num, k - 1, had)
      else (done + [octet]) + ArcRest(num, k - 1, true)
  {
    drop, octet := Drops(num, k, had), Octet(num, k);
    ArcStep(num, k, had);
    if !drop { Pulled(done, octet, ArcRest(num, k - 1, true)); }
  }

  lemma ArcStep(num: nat, k: nat, had: bool)
    ensures ArcRest(num, k, had) ==
      if Drops(num, k, had) then ArcRest(num, k - 1, had) else [Octet(num, k)] + ArcRest(num, k - 1, true)
  {
  }

  lemma Pulled(done: Bytes, x: Byte, rest: Bytes)
    ensures done + ([x] + rest) == (done + [x]) + rest
  {
  }

  /** One octet behind those written; the buffer is never full. */
  method PutOctet(data: array<Byte>, at: nat, octet: Byte)
    requires at < data.Length
    modifies data
    ensures data[..at + 1] == old(data[..at]) + [octet]
  {
    assert data.Length > at;
    data[at] := octet;
  }

  ghost function Prepend(done: Bytes, r: Option<Bytes>): Option<Bytes> {
    match r
    case None => None
    case Some(d) => Some(done + d)
  }

  lemma PrependArc(done: Bytes, octets: Bytes, r: Option<Bytes>)
    ensures Prepend(done, Prepend(octets, r)) == Prepend(done + octets, r)
  {
    if r.Some? { assert done + (octets + r.value) == done + octets + r.value; }
  }

  lemma PrependNone(r: Option<Bytes>)
    ensures Prepend([], r) == r
  {
    if r.Some? { assert [] + r.value == r.value; }
  }

  /** One step of the loop over the text. */
  lemma WriteStep(oid: string, i: nat, num1: int, num: nat, done: Bytes) returns (octets: Bytes)
    requires oid != [] && Dot(oid) > 0 && Atoin(oid[..Dot(oid)]) == num
    ensures octets == ArcOctets(i, num1, num)
    ensures Prepend(done, WriteFrom(oid, i, num1)) ==
      Prepend(done + octets, WriteFrom(Behind(oid), i + 1, if i == 0 then num else num1))
    ensures |octets| + |Behind(oid)| <= |oid| && (i == 0 ==> |octets| + |Behind(oid)| < |oid|)
  {
    octets := ArcOctets(i, num1, num);
    ArcShorter(i, num1, oid[..Dot(oid)]);
    PrependArc(done, octets, WriteFrom(Behind(oid), i + 1, if i == 0 then num else num1));
  }

  lemma WriteStops(oid: string, i: nat, num1: int)
    requires oid != [] && (Dot(oid) == 0 || Atoin(oid[..Dot(oid)]) < 0)
    ensures WriteFrom(oid, i, num1) == None
  {
  }

  /** What one arc contributes. */
  method PutOctets(i: nat, num1: int, num: nat, data: array?<Byte>, start: nat) returns (at: nat)
    requires data != null ==> start + |ArcOctets(i, num1, num)| <= data.Length
    modifies data
    ensures at == start + |ArcOctets(i, num1, num)|
    ensures data != null ==> data[..at] == old(data[..start]) + ArcOctets(i, num1, num)
  {
    at := start;
    if i == 0 {
    } else if i == 1 {
      if data != null {
        assert data.Length > at;
        data[at] := (40 * num1 + num) % 256;
      }
      at := at + 1;
    } else {
      at := PutArc(num, data, start);
    }
  }

  /** Writes one arc behind what was written so far. */
  method WriteNext(oid: string, i: nat, num1: int, num: nat, data: array?<Byte>, start: nat, ghost done: Bytes)
    returns (at: nat, ghost more: Bytes)
    requires oid != [] && Dot(oid) > 0 && Atoin(oid[..Dot(oid)]) == num && start == |done|
    requires data != null ==> |done| + |oid| <= data.Length && data[..|done|] == done
    modifies data
    ensures at == |more| && |more| + |Behind(oid)| <= |done| + |oid|
    ensures (i == 0 ==> |more| + |Behind(oid)| < |done| + |oid|)
    ensures Prepend(done, WriteFrom(oid, i, num1)) ==
      Prepend(more, WriteFrom(Behind(oid), i + 1, if i == 0 then num else num1))
    ensures data != null ==> data[..at] == more
  {
    ghost var octets := WriteStep(oid, i, num1, num, done);
    more := done + octets;
    at := PutOctets(i, num1, num, data, start);
  }

  /** What was written of a text, and what is left of it; in the end it will be the whole. */
  ghost predicate Writing(oid: string, whole: Option<Bytes>, rest: string, i: nat, num1: int, done: Bytes) {
    && |done| + |rest| <= |oid| && (if i == 0 then rest == oid && done == [] else |done| + |rest| < |oid|)
    && forall later: Option<Bytes> {:trigger Prepend(done, later)} :: later == WriteFrom(rest, i, num1) ==>
      whole == Prepend(done, later)
  }

  lemma WritingNow(oid: string, whole: Option<Bytes>, rest: string, i: nat, num1: int, done: Bytes)
    ensures Writing(oid, whole, rest, i, num1, done) ==> whole == Prepend(done, WriteFrom(rest, i, num1))
  {
  }

  /** Fewer than two octets are no object identifier. */
  function LongEnough(whole: Option<Bytes>): Option<Bytes> {
    match whole
    case None => None
    case Some(d) => if |d| < 2 then None else Some(d)
  }

  lemma WritingStart(oid: string) returns (whole: Option<Bytes>)
    ensures Writing(oid, whole, oid, 0, 0, []) && WriteOid(oid) == LongEnough(whole)
  {
    whole := WriteFrom(oid, 0, 0);
    PrependNone(whole);
  }

  lemma WritingEnd(oid: string, whole: Option<Bytes>, i: nat, num1: int, done: Bytes)
    requires Writing(oid, whole, [], i, num1, done)
    ensures whole == Some(done) && (oid == [] ==> done == []) && (oid != [] ==> |done| < |oid|)
  {
    WritingNow(oid, whole, [], i, num1, done);
    assert done + [] == done;
  }

  /** One turn of the loop: an arc, or the end when it is none. */
  method WriteTurn(oid: string, ghost whole: Option<Bytes>, rest: string, i: nat, num1: int, data: array?<Byte>,
    at: nat, ghost done: Bytes)
    returns (ok: bool, num: int, next: nat, ghost more: Bytes)
    requires rest != [] && Writing(oid, whole, rest, i, num1, done) && at == |done|
    requires data != null ==> data.Length >= |oid| && data[..at] == done
    modifies data
    ensures !ok ==> whole == None
    ensures ok ==> Writing(oid, whole, Behind(rest), i + 1, if i == 0 then num else num1, more) && next == |more|
    ensures ok && data != null ==> data[..next] == more
  {
    ok, num, next, more := false, 0, at, done;
    WritingNow(oid, whole, rest, i, num1, done);
    var p := Dot(rest);
    if p == 0 || Atoin(rest[..p]) < 0 {
      WriteStops(rest, i, num1);
      return;
    }
    ok, num := true, Atoin(rest[..p]);
    next, more := WriteNext(rest, i, num1, num, data, at, done);
  }

  /** The loop over the arcs of a text. */
  method WriteArcs(oid: string, ghost whole: Option<Bytes>, data: array?<Byte>) returns (ok: bool, at: nat)
    requires Writing(oid, whole, oid, 0, 0, []) && (data != null ==> data.Length >= |oid|)
    modifies data
    ensures ok <==> whole.Some?
    ensures ok ==> at == |whole.value| && (oid == [] ==> at == 0) && (oid != [] ==> at < |oid|)
    ensures ok && data != null ==> data[..at] == whole.value
  {
    at, ok := 0, true;
    var rest, i, num1 := oid, 0, 0;
    ghost var done: Bytes := [];
    while rest != []
      invariant i >= 0 && at == |done| && ok && Writing(oid, whole, rest, i, num1, done)
      invariant data != null ==> data[..at] == done
      decreases |rest|
    {
      var num;
      ok, num, at, done := WriteTurn(oid, whole, rest, i, num1, data, at, done);
      if !ok { return; }
      rest, i, num1 := Behind(rest), i + 1, if i == 0 then num else num1;
    }
    WritingEnd(oid, whole, i, num1, done);
  }

  /** anode_write_object_id, with a buffer as long as the text or without one. */
  method WriteObjectId(oid: string, data: array?<Byte>) returns (ok: bool, at: nat)
    requires data != null ==> data.Length >= |oid|
    modifies data
    ensures ok <==> WriteOid(oid).Some?
    ensures ok ==> at == |WriteOid(oid).value| && at < |oid| && (data != null ==> data[..at] == WriteOid(oid).value)
  {
    ghost var whole := WritingStart(oid);
    ok, at := WriteArcs(oid, whole, data);
    ok := ok && at >= 2;
  }

  lemma Dotted(a: string, b: string, c: string)
    ensures a + "." + (b + "." + c) == a + "." + b + "." + c
  {
  }

  lemma {:induction false} TextMore(arcs: seq<nat>, next: nat)
    requires arcs != []
    ensures Text(arcs + [next]) == Text(arcs) + "." + Decimal(next)
  {
    if |arcs| == 1 {
      assert (arcs + [next])[1..] == [next];
    } else {
      TextMore(arcs[1..], next);
      assert (arcs + [next])[1..] == arcs[1..] + [next];
      Dotted(Decimal(arcs[0]), Text(arcs[1..]), Decimal(next));
    }
  }

  ghost function Arcs(before: seq<nat>, r: Option<seq<nat>>): Option<seq<nat>> {
    match r
    case None => None
    case Some(arcs) => Some(before + arcs)
  }

  lemma ArcsNone(r: Option<seq<nat>>)
    ensures Arcs([], r) == r
  {
    if r.Some? { assert [] + r.value == r.value; }
  }

  /** One octet of the loop over the encoding. */
  lemma ReadStep(d: Bytes, rest: Bytes, val: nat, before: seq<nat>)
    requires d != [] && rest == d[1..] && val < UINT_LIMIT
    ensures Arcs(before, ReadArcs(d, val)) ==
      var next := NextVal(val, d[0]);
      if d[0] == 0x80 || next < val then None
      else if d[0] >= 128 then Arcs(before, ReadArcs(rest, next))
      else Arcs(before + [next], ReadArcs(rest, 0))
  {
    var next := NextVal(val, d[0]);
    if d[0] < 128 && ReadArcs(rest, 0).Some? {
      assert before + ([next] + ReadArcs(rest, 0).value) == before + [next] + ReadArcs(rest, 0).value;
    }
  }

  /** anode_read_object_id. */
  method ReadObjectId(d: Bytes) returns (r: Option<string>)
    requires d != []
    ensures r == ReadOid(d)
  {
    var pval := d[0] / 40;
    var val := d[0] - pval * 40;
    ghost var head: seq<nat> := [pval, val];
    assert head[1..] == [val];
    ghost var arcs;
    var ok, result;
    ok, result, arcs := ReadLater(d, Decimal(pval) + "." + Decimal(val), head);
    r := if ok then Some(result) else None;
  }

  /** The loop over the octets behind the first. */
  method ReadLater(d: Bytes, start: string, ghost head: seq<nat>)
    returns (ok: bool, result: string, ghost arcs: seq<nat>)
    requires d != [] && head != [] && start == Text(head)
    ensures ReadArcs(d[1..], 0) == if ok then Some(arcs) else None
    ensures ok ==> result == Text(head + arcs)
  {
    ok, result, arcs := false, start, [];
    assert head + [] == head;
    ArcsNone(ReadArcs(d[1..], 0));
    var k, val, pval := 1, 0, 0;
    while k < |d|
      invariant 1 <= k <= |d| && 0 <= val == pval < UINT_LIMIT
      invariant result == Text(head + arcs)
      invariant ReadArcs(d[1..], 0) == Arcs(arcs, ReadArcs(d[k..], val))
    {
      assert d[k..][1..] == d[k + 1..];
      ReadStep(d[k..], d[k + 1..], val, arcs);
      if d[k] == 0x80 {
        return;
      }
      val := NextVal(val, d[k]);
      if val < pval {
        return;
      }
      pval := val;
      if d[k] < 128 {
        MoreText(head, arcs, val);
        result := result + "." + Decimal(val);
        arcs := arcs + [val];
        pval, val := 0, 0;
      }
      k := k + 1;
    }
    assert arcs + [] == arcs;
    ok := true;
  }

  lemma MoreText(head: seq<nat>, arcs: seq<nat>, next: nat)
    requires head != []
    ensures Text(head + (arcs + [next])) == Text(head + arcs) + "." + Decimal(next)
  {
    TextMore(head + arcs, next);
    assert head + arcs + [next] == head + (arcs + [next]);
  }
}
