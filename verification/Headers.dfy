/** Identifier and length octets of ITU-T X.690, as egg/egg-asn1x.c parses and writes
    them (sections 8.1.2, 8.1.3 and 10.1). */
module Headers {
  import opened Wrappers
  import opened Numerals

  /** The class bits of an identifier octet, with the structured bit. */
  type Class = c: int | 0 <= c < 256 && c % 32 == 0

  predicate Structured(cls: Class) { cls / 32 % 2 == 1 }

  const INT_LIMIT: int := 0x8000_0000

  /** The value a 32-bit int takes. */
  function Wrap(x: int): (r: int)
    ensures -INT_LIMIT <= r < INT_LIMIT
    ensures 0 <= x < INT_LIMIT ==> r == x
  {
    var m := x % (2 * INT_LIMIT);
    if m < INT_LIMIT then m else m - 2 * INT_LIMIT
  }

  // ---------------------------------------------------------------- parsing

  /** One step of reading a number: times base plus digit, None once the int wraps around. */
  function Append(n: nat, base: nat, digit: nat): (r: Option<nat>)
    requires base > 0
    ensures r.Some? ==> r.value < INT_LIMIT
    ensures n * base + digit < INT_LIMIT ==> r == Some(n * base + digit)
  {
    AtLeast(base, n);
    var m := Wrap(n * base);
    if m < n then None else
    var r := Wrap(m + digit);
    if r < m then None else Some(r)
  }

  /** The low seven bits of an octet. */
  function Low(x: Byte): (r: nat)
    ensures r < 128
  {
    if x >= 128 then x - 128 else x
  }

  /** The octets of a long tag from here on: the tag, and how many octets it takes. */
  function ScanTag(d: Bytes, ris: nat): (r: Option<(nat, nat)>)
    ensures r.Some? ==> 0 < r.value.1 <= |d|
  {
    if d == [] then None else
    match Append(ris, 128, Low(d[0]))
    case None => None
    case Some(n) =>
      if d[0] < 128 then Some((n, 1)) else
      match ScanTag(d[1..], n)
      case None => None
      case Some((tag, k)) => Some((tag, k + 1))
  }

  datatype Tag = Tag(cls: Class, tag: nat, off: nat)

  /** atlv_parse_cls_tag: at least one octet has to follow. */
  function ParseTag(d: Bytes): (r: Option<Tag>)
    ensures r.Some? ==> 0 < r.value.off < |d|
  {
    if |d| < 2 then None else
    var cls := d[0] - d[0] % 32;
    if d[0] % 32 != 31 then Some(Tag(cls, d[0] % 32, 1)) else
    match ScanTag(d[1..], 0)
    case None => None
    case Some((tag, k)) => if 1 + k >= |d| then None else Some(Tag(cls, tag, 1 + k))
  }

  /** At most k octets of a length: the length, and how many octets there were. */
  function ScanLength(d: Bytes, k: nat, ans: nat): (r: Option<(nat, nat)>)
    ensures r.Some? ==> r.value.1 <= |d| && r.value.1 <= k
  {
    if k == 0 || d == [] then Some((ans, 0)) else
    match Append(ans, 256, d[0])
    case None => None
    case Some(n) =>
      match ScanLength(d[1..], k - 1, n)
      case None => None
      case Some((len, used)) => Some((len, used + 1))
  }

  /** atlv_parse_length for definite lengths. */
  function ParseLength(d: Bytes): (r: Option<(nat, nat)>)
    requires d != []
    ensures r.Some? ==> 0 < r.value.1 <= |d|
  {
    if d[0] < 128 then Some((d[0], 1)) else
    if d[0] == 128 then None else
    match ScanLength(d[1..], d[0] - 128, 0)
    case None => None
    case Some((len, used)) => Some((len, used + 1))
  }

  datatype Header = Header(cls: Class, tag: nat, off: nat, len: nat)

  /** atlv_parse_cls_tag_len: the contents have to fit what is left. */
  function ParseHeader(d: Bytes): (r: Option<Header>)
    ensures r.Some? ==> 2 <= r.value.off && r.value.off + r.value.len <= |d|
  {
    match ParseTag(d)
    case None => None
    case Some(t) =>
      match ParseLength(d[t.off..])
      case None => None
      case Some((len, used)) =>
        if t.off + used + len > |d| then None else Some(Header(t.cls, t.tag, t.off + used, len))
  }

  // ---------------------------------------------------------------- writing

  /** Every octet but the last says that another one follows. */
  function Marked(s: seq<nat>): (r: Bytes)
    requires InBase(s, 128)
    ensures |r| == |s|
  {
    seq(|s|, k requires 0 <= k < |s| => if k + 1 < |s| then s[k] + 128 else s[k])
  }

  function EncodeTag(cls: Class, tag: nat): (r: Bytes)
    ensures r != []
  {
    if tag < 31 then [cls + tag] else [cls + 31] + Marked(Digits(tag, 128))
  }

  /** A length below 2^31 takes at most four octets. */
  lemma FewOctets(len: nat)
    requires len < INT_LIMIT
    ensures |Digits(len, 256)| <= 4
  {
    var a := len / 256;
    var b := a / 256;
    var c := b / 256;
    assert c / 256 == 0;
    assert |Digits(c, 256)| <= 1;
    assert |Digits(b, 256)| <= 2;
    assert |Digits(a, 256)| <= 3;
  }

  /** Below this a tag has at most eight septets, the octets of a C gulong. */
  const TAG_LIMIT: int := 0x100_0000_0000_0000

  lemma FewTagSeptets(tag: nat)
    requires tag < TAG_LIMIT
    ensures |Digits(tag, 128)| <= 8
  {
    var half := tag / 128 / 128 / 128 / 128;
    assert |Digits(half, 128)| <= 4 by { FourSeptets(half); }
    FourMore(tag);
  }

  lemma FourSeptets(n: nat)
    requires n < 128 * 128 * 128 * 128
    ensures |Digits(n, 128)| <= 4
  {
    var a := n / 128;
    var b := a / 128;
    var c := b / 128;
    assert c / 128 == 0;
    assert |Digits(c, 128)| <= 1;
    assert |Digits(b, 128)| <= 2;
    assert |Digits(a, 128)| <= 3;
  }

  lemma FourMore(n: nat)
    ensures |Digits(n, 128)| <= 4 + |Digits(n / 128 / 128 / 128 / 128, 128)|
  {
    var a := n / 128;
    var b := a / 128;
    var c := b / 128;
    assert |Digits(c, 128)| <= 1 + |Digits(c / 128, 128)|;
    assert |Digits(b, 128)| <= 1 + |Digits(c, 128)|;
    assert |Digits(a, 128)| <= 1 + |Digits(b, 128)|;
  }

  function EncodeLength(len: nat): (r: Bytes)
    ensures r != []
  {
    if len < 128 then [len] else [128 + |Digits(len, 256)| % 128] + Digits(len, 256)
  }

  function EncodeHeader(cls: Class, tag: nat, len: nat): (r: Bytes)
    ensures |r| >= 2
  {
    EncodeTag(cls, tag) + EncodeLength(len)
  }

  // ---------------------------------------------------------------- minimal headers

  /** The first k octets of d are a long tag's: all but the last one say that another one follows. */
  predicate Ends(d: Bytes, k: nat) {
    0 < k <= |d| && d[k - 1] < 128 && forall i | 0 <= i < k - 1 :: d[i] >= 128
  }

  /** How many octets there are up to the first one below 128, or all of them. */
  function Run(d: Bytes): (k: nat)
    ensures k <= |d|
  {
    if d == [] then 0 else if d[0] < 128 then 1 else 1 + Run(d[1..])
  }

  lemma {:induction false} RunEnds(d: Bytes, k: nat)
    requires Ends(d, k)
    ensures Run(d) == k
  {
    if k > 1 {
      assert d[0] >= 128;
      RunEnds(d[1..], k - 1);
    }
  }

  /** The low seven bits. */
  function Septets(d: Bytes): (s: seq<nat>)
    ensures |s| == |d| && InBase(s, 128)
    ensures forall i | 0 <= i < |d| :: s[i] == Low(d[i])
  {
    seq(|d|, i requires 0 <= i < |d| => Low(d[i]))
  }

  /** As long as no int wraps around, a long tag is read as the number its septets stand for. */
  lemma {:induction false} ScanExact(d: Bytes, ris: nat, k: nat)
    requires Ends(d, k)
    requires Fold(ris, Septets(d[..k]), 128) < INT_LIMIT
    ensures ScanTag(d, ris) == Some((Fold(ris, Septets(d[..k]), 128), k))
  {
    var s := Septets(d[..k]);
    var n := ris * 128 + s[0];
    FoldGrows(n, s[1..], 128);
    assert Append(ris, 128, Low(d[0])) == Some(n);
    if d[0] < 128 {
      assert s[1..] == [];
    } else {
      assert s[1..] == Septets(d[1..][..k - 1]);
      ScanExact(d[1..], n, k - 1);
    }
  }

  /** As long as no int wraps around, a long length is read as the number its octets stand for. */
  lemma {:induction false} LengthExact(d: Bytes, k: nat, ans: nat)
    requires k <= |d| && Fold(ans, d[..k], 256) < INT_LIMIT
    ensures ScanLength(d, k, ans) == Some((Fold(ans, d[..k], 256), k))
  {
    if k > 0 {
      var n := ans * 256 + d[0];
      assert d[..k][1..] == d[1..][..k - 1];
      FoldGrows(n, d[..k][1..], 256);
      LengthExact(d[1..], k - 1, n);
    }
  }

  /** The septets of a tag, with marks and without. */
  lemma MarkedSeptets(s: seq<nat>, rest: Bytes)
    requires s != [] && InBase(s, 128)
    ensures Ends(Marked(s) + rest, |s|) && Septets(Marked(s)) == s
  {
  }

  lemma FirstOctet(cls: Class, low: nat)
    requires low < 32
    ensures cls + low < 256 && (cls + low) % 32 == low && cls + low - (cls + low) % 32 == cls
  {
  }

  /** Written septets are read back. */
  lemma SeptetsReadBack(tag: nat, rest: Bytes)
    requires 0 < tag < INT_LIMIT
    ensures ScanTag(Marked(Digits(tag, 128)) + rest, 0) == Some((tag, |Digits(tag, 128)|))
  {
    var s := Digits(tag, 128);
    MarkedSeptets(s, rest);
    FoldDigits(tag, 128);
    assert (Marked(s) + rest)[..|s|] == Marked(s);
    ScanExact(Marked(s) + rest, 0, |s|);
  }

  lemma LongTagReadBack(cls: Class, m: Bytes, rest: Bytes, tag: nat)
    requires rest != [] && m != [] && ScanTag(m + rest, 0) == Some((tag, |m|))
    ensures cls + 31 < 256 && ParseTag([cls + 31] + m + rest) == Some(Tag(cls, tag, 1 + |m|))
  {
    FirstOctet(cls, 31);
    assert ([cls + 31] + m + rest)[1..] == m + rest;
  }

  /** A written tag is read back. */
  lemma TagReadBack(cls: Class, tag: nat, rest: Bytes)
    requires tag < INT_LIMIT && rest != []
    ensures ParseTag(EncodeTag(cls, tag) + rest) == Some(Tag(cls, tag, |EncodeTag(cls, tag)|))
  {
    if tag < 31 {
      FirstOctet(cls, tag);
    } else {
      SeptetsReadBack(tag, rest);
      LongTagReadBack(cls, Marked(Digits(tag, 128)), rest, tag);
    }
  }

  /** Written length octets are read back. */
  lemma OctetsReadBack(len: nat, rest: Bytes)
    requires len < INT_LIMIT
    ensures ScanLength(Digits(len, 256) + rest, |Digits(len, 256)|, 0) == Some((len, |Digits(len, 256)|))
  {
    var s := Digits(len, 256);
    FoldDigits(len, 256);
    assert (s + rest)[..|s|] == s;
    LengthExact(s + rest, |s|, 0);
  }

  lemma LongLengthReadBack(x: Byte, s: Bytes, rest: Bytes, len: nat)
    requires s != [] && x == 128 + |s| && ScanLength(s + rest, |s|, 0) == Some((len, |s|))
    ensures ParseLength([x] + s + rest) == Some((len, 1 + |s|))
  {
    assert ([x] + s + rest)[1..] == s + rest;
  }

  /** A written length is read back. */
  lemma LengthReadBack(len: nat, rest: Bytes)
    requires len < INT_LIMIT
    ensures ParseLength(EncodeLength(len) + rest) == Some((len, |EncodeLength(len)|))
  {
    if len >= 128 {
      var s: Bytes := Digits(len, 256);
      FewOctets(len);
      OctetsReadBack(len, rest);
      LongLengthReadBack(128 + |s|, s, rest, len);
    }
  }

  lemma HeaderFromParts(o: Bytes, u: Bytes, rest: Bytes, cls: Class, tag: nat, len: nat)
    requires ParseTag(o + (u + rest)) == Some(Tag(cls, tag, |o|)) && u != []
    requires ParseLength(u + rest) == Some((len, |u|))
    ensures ParseHeader(o + (u + rest)) == if |rest| < len then None else Some(Header(cls, tag, |o| + |u|, len))
    ensures (o + (u + rest))[..|o| + |u|] == o + u
  {
    assert (o + (u + rest))[|o|..] == u + rest;
  }

  /** A written header is read back when the contents follow. */
  lemma HeaderReadBack(cls: Class, tag: nat, len: nat, rest: Bytes)
    requires tag < INT_LIMIT && len < INT_LIMIT && |rest| >= len
    ensures ParseHeader(EncodeHeader(cls, tag, len) + rest) ==
      Some(Header(cls, tag, |EncodeHeader(cls, tag, len)|, len))
  {
    var o, u := EncodeTag(cls, tag), EncodeLength(len);
    TagReadBack(cls, tag, u + rest);
    LengthReadBack(len, rest);
    HeaderFromParts(o, u, rest, cls, tag, len);
    assert o + u + rest == o + (u + rest);
  }

  /** Exactly the octets of a tag in its shortest form. */
  predicate MinimalTag(o: Bytes) {
    if |o| == 1 then o[0] % 32 != 31 else
      && |o| > 1 && o[0] % 32 == 31
      && Ends(o[1..], |o| - 1)
      && Low(o[1]) != 0
      && 31 <= Val(Septets(o[1..]), 128) < INT_LIMIT
  }

  /** Exactly the octets of a length in its shortest form. */
  predicate MinimalLength(o: Bytes) {
    if |o| == 1 then o[0] < 128 else
      && |o| > 1 && o[0] == 128 + |o| - 1
      && o[1] != 0
      && 128 <= Val(o[1..], 256) < INT_LIMIT
  }

  function TagSize(d: Bytes): (k: nat)
    requires d != []
    ensures 0 < k <= |d|
  {
    if d[0] % 32 != 31 then 1 else 1 + Run(d[1..])
  }

  function LengthSize(d: Bytes): (k: nat)
    requires d != []
    ensures k > 0
  {
    if d[0] < 128 then 1 else 1 + (d[0] - 128)
  }

  /** d starts with a header whose tag and length are both in shortest form. */
  predicate MinimalHeader(d: Bytes) {
    && d != []
    && var k := TagSize(d);
    && k < |d| && MinimalTag(d[..k])
    && var l := LengthSize(d[k..]);
    && k + l <= |d| && MinimalLength(d[k..k + l])
  }

  lemma SeptetsMarked(o: Bytes)
    requires Ends(o, |o|)
    ensures Marked(Septets(o)) == o
  {
  }

  lemma LongTagWritten(m: Bytes)
    requires Ends(m, |m|) && Low(m[0]) != 0
    ensures Marked(Digits(Val(Septets(m), 128), 128)) == m
  {
    DigitsVal(Septets(m), 128);
    SeptetsMarked(m);
  }

  lemma MinimalTagWritten(o: Bytes)
    requires MinimalTag(o)
    ensures var tag := if |o| == 1 then o[0] % 32 else Val(Septets(o[1..]), 128);
      tag < INT_LIMIT && EncodeTag(o[0] - o[0] % 32, tag) == o
  {
    if |o| > 1 {
      LongTagWritten(o[1..]);
      assert o == [o[0]] + o[1..];
    }
  }

  lemma MinimalLengthWritten(o: Bytes)
    requires MinimalLength(o)
    ensures var len := if |o| == 1 then o[0] else Val(o[1..], 256);
      len < INT_LIMIT && EncodeLength(len) == o
  {
    if |o| > 1 {
      DigitsVal(o[1..], 256);
      FewOctets(Val(o[1..], 256));
      assert o == [o[0]] + o[1..];
    }
  }

  /** The septets written for a tag: marked, without a leading zero, and standing for the tag. */
  lemma SeptetsMinimal(tag: nat, rest: Bytes)
    requires 0 < tag
    ensures var m := Marked(Digits(tag, 128));
      && Ends(m, |m|) && Run(m + rest) == |m|
      && Low(m[0]) != 0 && Val(Septets(m), 128) == tag
  {
    var s := Digits(tag, 128);
    ValDigits(tag, 128);
    MarkedSeptets(s, []);
    MarkedSeptets(s, rest);
    RunEnds(Marked(s) + rest, |s|);
    assert Marked(s) + [] == Marked(s);
  }

  lemma LongTagMinimal(first: Byte, tag: nat, rest: Bytes)
    requires 31 <= tag < INT_LIMIT && first % 32 == 31
    ensures var o := [first] + Marked(Digits(tag, 128)); MinimalTag(o) && TagSize(o + rest) == |o|
  {
    var m := Marked(Digits(tag, 128));
    SeptetsMinimal(tag, rest);
    assert ([first] + m)[1..] == m && ([first] + m + rest)[1..] == m + rest;
  }

  lemma WrittenTagMinimal(cls: Class, tag: nat, rest: Bytes)
    requires tag < INT_LIMIT
    ensures MinimalTag(EncodeTag(cls, tag))
    ensures TagSize(EncodeTag(cls, tag) + rest) == |EncodeTag(cls, tag)|
  {
    FirstOctet(cls, if tag < 31 then tag else 31);
    if tag >= 31 {
      LongTagMinimal(cls + 31, tag, rest);
    }
  }

  lemma WrittenLengthMinimal(len: nat, rest: Bytes)
    requires len < INT_LIMIT
    ensures MinimalLength(EncodeLength(len))
    ensures LengthSize(EncodeLength(len) + rest) == |EncodeLength(len)|
  {
    if len >= 128 {
      FewOctets(len);
      ValDigits(len, 256);
      assert EncodeLength(len)[1..] == Digits(len, 256);
    }
  }

  lemma MinimalTagRead(o: Bytes, rest: Bytes) returns (cls: Class, tag: nat)
    requires MinimalTag(o) && rest != []
    ensures ParseTag(o + rest) == Some(Tag(cls, tag, |o|)) && EncodeTag(cls, tag) == o
  {
    cls, tag := o[0] - o[0] % 32, if |o| == 1 then o[0] % 32 else Val(Septets(o[1..]), 128);
    MinimalTagWritten(o);
    TagReadBack(cls, tag, rest);
  }

  lemma MinimalLengthRead(o: Bytes, rest: Bytes) returns (len: nat)
    requires MinimalLength(o)
    ensures len < INT_LIMIT && ParseLength(o + rest) == Some((len, |o|)) && EncodeLength(len) == o
  {
    len := if |o| == 1 then o[0] else Val(o[1..], 256);
    MinimalLengthWritten(o);
    LengthReadBack(len, rest);
  }

  lemma MinimalParts(d: Bytes) returns (o: Bytes, u: Bytes, rest: Bytes)
    requires MinimalHeader(d)
    ensures d == o + (u + rest) && u != [] && MinimalTag(o) && MinimalLength(u)
  {
    var k := TagSize(d);
    var l := LengthSize(d[k..]);
    o, u, rest := d[..k], d[k..k + l], d[k + l..];
  }

  /** A header in shortest form is accepted as what it says and written back octet by octet. */
  lemma MinimalWrittenBack(d: Bytes)
    requires ParseHeader(d).Some? && MinimalHeader(d)
    ensures var h := ParseHeader(d).value;
      h.len < INT_LIMIT && EncodeHeader(h.cls, h.tag, h.len) == d[..h.off]
  {
    var o, u, rest := MinimalParts(d);
    var cls, tag := MinimalTagRead(o, u + rest);
    var len := MinimalLengthRead(u, rest);
    HeaderFromParts(o, u, rest, cls, tag, len);
  }

  /** What starts with a written header starts with one in shortest form. */
  lemma WrittenIsMinimal(cls: Class, tag: nat, len: nat, rest: Bytes)
    requires tag < INT_LIMIT && len < INT_LIMIT
    ensures MinimalHeader(EncodeHeader(cls, tag, len) + rest)
  {
    var o, u := EncodeTag(cls, tag), EncodeLength(len);
    var d := EncodeHeader(cls, tag, len) + rest;
    assert d == o + (u + rest);
    WrittenTagMinimal(cls, tag, u + rest);
    WrittenLengthMinimal(len, rest);
    assert d[..|o|] == o && d[|o|..] == u + rest && d[|o|..|o| + |u|] == u;
  }

  lemma {:induction false} ScanBelow(d: Bytes, ris: nat)
    requires ris < INT_LIMIT
    ensures ScanTag(d, ris).Some? ==> ScanTag(d, ris).value.0 < INT_LIMIT
  {
    if d != [] && Append(ris, 128, Low(d[0])).Some? {
      ScanBelow(d[1..], Append(ris, 128, Low(d[0])).value);
    }
  }

  lemma {:induction false} LengthBelow(d: Bytes, k: nat, ans: nat)
    requires ans < INT_LIMIT
    ensures ScanLength(d, k, ans).Some? ==> ScanLength(d, k, ans).value.0 < INT_LIMIT
  {
    if k > 0 && d != [] && Append(ans, 256, d[0]).Some? {
      LengthBelow(d[1..], k - 1, Append(ans, 256, d[0]).value);
    }
  }

  lemma HeaderBelow(d: Bytes)
    requires ParseHeader(d).Some?
    ensures ParseHeader(d).value.tag < INT_LIMIT && ParseHeader(d).value.len < INT_LIMIT
  {
    ScanBelow(d[1..], 0);
    var t := ParseTag(d).value;
    LengthBelow(d[t.off..][1..], if d[t.off] < 128 then 0 else d[t.off] - 128, 0);
  }

  lemma SameHeader(d: Bytes, e: Bytes, off: nat)
    requires off <= |d| && e == d[..off] && MinimalHeader(e + d[off..])
    ensures MinimalHeader(d)
  {
    assert d == e + d[off..];
  }

  lemma WrittenBackMinimal(d: Bytes, h: Header)
    requires h.off <= |d| && h.tag < INT_LIMIT && h.len < INT_LIMIT && EncodeHeader(h.cls, h.tag, h.len) == d[..h.off]
    ensures MinimalHeader(d)
  {
    WrittenIsMinimal(h.cls, h.tag, h.len, d[h.off..]);
    SameHeader(d, EncodeHeader(h.cls, h.tag, h.len), h.off);
  }

  /** An accepted header is written back octet by octet if and only if it was in shortest form. */
  lemma HeaderWrittenBack(d: Bytes)
    requires ParseHeader(d).Some?
    ensures var h := ParseHeader(d).value;
      && h.tag < INT_LIMIT && h.len < INT_LIMIT
      && (MinimalHeader(d) <==> EncodeHeader(h.cls, h.tag, h.len) == d[..h.off])
  {
    HeaderBelow(d);
    var h := ParseHeader(d).value;
    if MinimalHeader(d) {
      MinimalWrittenBack(d);
    } else if EncodeHeader(h.cls, h.tag, h.len) == d[..h.off] {
      WrittenBackMinimal(d, h);
    }
  }

  // ---------------------------------------------------------------- sizes

  lemma AppendSize(n: nat, base: nat, digit: nat)
    requires base > 1 && digit < base && Append(n, base, digit).Some?
    ensures |Digits(Append(n, base, digit).value, base)| <= |Digits(n, base)| + 1
  {
    AtLeast(base, n);
    AppendBelow(n, base, digit);
    DigitsMonotone(Append(n, base, digit).value, n * base + digit, base);
    DigitsPush(n, digit, base);
  }

  /** Wrapping around never makes a number larger. */
  lemma AppendBelow(n: nat, base: nat, digit: nat)
    requires base > 0 && Append(n, base, digit).Some?
    ensures Append(n, base, digit).value <= n * base + digit
  {
    WrapBelow(n * base);
    WrapBelow(Wrap(n * base) + digit);
  }

  lemma WrapBelow(x: nat)
    ensures Wrap(x) <= x
  {
  }

  lemma {:induction false} ScanTagSize(d: Bytes, ris: nat)
    requires ScanTag(d, ris).Some?
    ensures |Digits(ScanTag(d, ris).value.0, 128)| <= |Digits(ris, 128)| + ScanTag(d, ris).value.1
  {
    AppendSize(ris, 128, Low(d[0]));
    if d[0] >= 128 {
      ScanTagSize(d[1..], Append(ris, 128, Low(d[0])).value);
    }
  }

  lemma {:induction false} ScanLengthSize(d: Bytes, k: nat, ans: nat)
    requires ScanLength(d, k, ans).Some?
    ensures |Digits(ScanLength(d, k, ans).value.0, 256)| <= |Digits(ans, 256)| + ScanLength(d, k, ans).value.1
  {
    if k > 0 && d != [] {
      AppendSize(ans, 256, d[0]);
      ScanLengthSize(d[1..], k - 1, Append(ans, 256, d[0]).value);
    }
  }

  /** Written back, an accepted header never gets longer. */
  lemma HeaderShrinks(d: Bytes)
    requires ParseHeader(d).Some?
    ensures var h := ParseHeader(d).value; |EncodeHeader(h.cls, h.tag, h.len)| <= h.off
  {
    var t := ParseTag(d).value;
    if d[0] % 32 == 31 {
      ScanTagSize(d[1..], 0);
    }
    if d[t.off] >= 128 {
      ScanLengthSize(d[t.off..][1..], d[t.off] - 128, 0);
    }
  }

  /** The header d starts with is as short as the one written for what it says. */
  predicate ShortHeader(d: Bytes) {
    ParseHeader(d).Some? ==> var h := ParseHeader(d).value; |EncodeHeader(h.cls, h.tag, h.len)| == h.off
  }

  lemma MinimalIsShort(d: Bytes)
    requires MinimalHeader(d)
    ensures ShortHeader(d)
  {
    if ParseHeader(d).Some? { HeaderWrittenBack(d); }
  }

  // ---------------------------------------------------------------- what follows a header does not matter

  lemma {:induction false} ScanTagPrefix(d: Bytes, ris: nat, m: nat)
    requires ScanTag(d, ris).Some? && ScanTag(d, ris).value.1 <= m <= |d|
    ensures ScanTag(d[..m], ris) == ScanTag(d, ris)
  {
    if d[0] >= 128 {
      var n := Append(ris, 128, Low(d[0])).value;
      ScanTagPrefix(d[1..], n, m - 1);
      assert d[..m][1..] == d[1..][..m - 1];
    }
  }

  lemma {:induction false} ScanLengthPrefix(d: Bytes, k: nat, ans: nat, m: nat)
    requires ScanLength(d, k, ans).Some? && ScanLength(d, k, ans).value.1 <= m <= |d|
    ensures ScanLength(d[..m], k, ans) == ScanLength(d, k, ans)
  {
    if k > 0 && d != [] {
      var n := Append(ans, 256, d[0]).value;
      ScanLengthPrefix(d[1..], k - 1, n, m - 1);
      assert d[..m][1..] == d[1..][..m - 1];
    }
  }

  lemma ParseTagPrefix(d: Bytes, m: nat)
    requires ParseTag(d).Some? && ParseTag(d).value.off < m <= |d|
    ensures ParseTag(d[..m]) == ParseTag(d)
  {
    if d[0] % 32 == 31 {
      ScanTagPrefix(d[1..], 0, m - 1);
      assert d[..m][1..] == d[1..][..m - 1];
    }
  }

  lemma ParseLengthPrefix(d: Bytes, m: nat)
    requires d != [] && ParseLength(d).Some? && ParseLength(d).value.1 <= m <= |d|
    ensures ParseLength(d[..m]) == ParseLength(d)
  {
    if d[0] > 128 {
      ScanLengthPrefix(d[1..], d[0] - 128, 0, m - 1);
      assert d[..m][1..] == d[1..][..m - 1];
    }
  }

  /** A header is read the same when the data ends with its contents. */
  lemma ParseHeaderPrefix(d: Bytes, m: nat)
    requires ParseHeader(d).Some? && ParseHeader(d).value.off + ParseHeader(d).value.len <= m <= |d|
    ensures ParseHeader(d[..m]) == ParseHeader(d)
  {
    var off := ParseTag(d).value.off;
    ParseTagPrefix(d, m);
    ParseLengthPrefix(d[off..], m - off);
    assert d[..m][off..] == d[off..][..m - off];
  }

  // ---------------------------------------------------------------- which headers are short

  lemma {:induction false} DigitsOfVal(s: seq<nat>, b: nat)
    requires b > 1 && InBase(s, b)
    ensures |Digits(Val(s, b), b)| <= |s|
    ensures s != [] && s[0] == 0 ==> |Digits(Val(s, b), b)| < |s|
  {
    if s != [] {
      var init, d := s[..|s| - 1], s[|s| - 1];
      DigitsOfVal(init, b);
      DigitsPush(Val(init, b), d, b);
    }
  }

  /** As many digits as there were octets: exactly when the first of them is not zero. */
  lemma FullSize(s: seq<nat>, b: nat)
    requires b > 1 && InBase(s, b) && s != []
    ensures |Digits(Val(s, b), b)| == |s| <==> s[0] != 0
  {
    DigitsOfVal(s, b);
    if s[0] != 0 { DigitsVal(s, b); }
  }

  lemma {:induction false} ScanEnds(d: Bytes, ris: nat)
    requires ScanTag(d, ris).Some?
    ensures Ends(d, ScanTag(d, ris).value.1)
  {
    if d[0] >= 128 {
      var n := Append(ris, 128, Low(d[0])).value;
      ScanEnds(d[1..], n);
      var k := ScanTag(d[1..], n).value.1;
      assert forall i | 0 < i < k + 1 :: d[i] == d[1..][i - 1];
    }
  }

  lemma FewSeptets(s: seq<nat>)
    requires |s| <= 4 && InBase(s, 128)
    ensures Val(s, 128) < INT_LIMIT
  {
    if s != [] {
      var a := s[..|s| - 1];
      if a != [] {
        var b := a[..|a| - 1];
        if b != [] {
          var c := b[..|b| - 1];
          assert c != [] ==> Val(c[..|c| - 1], 128) == 0;
          assert Val(c, 128) < 128;
        }
        assert Val(b, 128) < 128 * 128;
      }
      assert Val(a, 128) < 128 * 128 * 128;
    }
  }

  /** A long tag of few septets is the number they stand for. */
  lemma LongTagValue(d: Bytes) returns (k: nat)
    requires ParseTag(d).Some? && d[0] % 32 == 31 && TagSize(d) <= 5
    ensures 0 < k < |d| && Ends(d[1..], k) && TagSize(d) == 1 + k
    ensures ParseTag(d).value == Tag(d[0] - d[0] % 32, Val(Septets(d[1..1 + k]), 128), 1 + k)
  {
    var e := d[1..];
    k := ScanTag(e, 0).value.1;
    ScanEnds(e, 0);
    RunEnds(e, k);
    var s := Septets(e[..k]);
    FewSeptets(s);
    FoldVal([], s, 128);
    assert [] + s == s && d[1..1 + k] == e[..k];
    ScanExact(e, 0, k);
  }

  /** A tag of few septets is as long as the one written exactly if it is in shortest form. */
  lemma TagSizes(d: Bytes)
    requires ParseTag(d).Some? && TagSize(d) <= 5
    ensures var t := ParseTag(d).value;
      t.off == TagSize(d) && |EncodeTag(t.cls, t.tag)| <= t.off
        && (|EncodeTag(t.cls, t.tag)| == t.off <==> MinimalTag(d[..t.off]))
  {
    if d[0] % 32 == 31 {
      var k := LongTagValue(d);
      var o := d[..1 + k];
      assert o[1..] == d[1..1 + k] && Ends(o[1..], k);
      DigitsOfVal(Septets(o[1..]), 128);
      FullSize(Septets(o[1..]), 128);
      FewSeptets(Septets(o[1..]));
    }
  }

  const UINT_RANGE: int := 0x1_0000_0000

  /** A tag of five septets whose value wraps around to another one of five septets. */
  predicate WrappedTag(d: Bytes) {
    && |d| >= 6 && TagSize(d) == 6
    && var v := Val(Septets(d[1..5]), 128); v >= 0x100_0000 && v * 128 % UINT_RANGE >= 0x1000_0000
  }

  /** The fifth septet of a tag. */
  lemma FifthSeptet(v: nat, low: nat)
    requires v < 0x1000_0000 && low < 128 && Append(v, 128, low).Some?
    ensures Append(v, 128, low) == Some(v * 128 % UINT_RANGE + low) && v * 128 % UINT_RANGE + low < INT_LIMIT
    ensures v < 0x100_0000 ==> v * 128 % UINT_RANGE == v * 128
    ensures v * 128 % UINT_RANGE + low >= 0x1000_0000 <==> v * 128 % UINT_RANGE >= 0x1000_0000
  {
    var m := v * 128 % UINT_RANGE;
    assert m == v * 128 - v * 128 / UINT_RANGE * UINT_RANGE;
    assert m % 128 == 0 by { Multiple(v, v * 128 / UINT_RANGE); }
    assert m < INT_LIMIT ==> m + low < INT_LIMIT by { BelowMultiple(m, low); }
    assert m < 0x1000_0000 ==> m + low < 0x1000_0000 by { BelowMultiple(m, low); }
  }

  lemma Multiple(v: nat, k: nat)
    ensures (v * 128 - k * UINT_RANGE) % 128 == 0
  {
    assert v * 128 - k * UINT_RANGE == (v - k * 0x200_0000) * 128;
  }

  lemma BelowMultiple(m: nat, low: nat)
    requires m % 128 == 0 && low < 128
    ensures m < INT_LIMIT ==> m + low < INT_LIMIT
    ensures m < 0x1000_0000 ==> m + low < 0x1000_0000
  {
    var k := m / 128;
    assert m == 128 * k;
  }

  lemma ScanNext(d: Bytes, e: Bytes, ris: nat, n: nat)
    requires d != [] && d[0] >= 128 && e == d[1..] && Append(ris, 128, Low(d[0])) == Some(n)
    ensures ScanTag(d, ris) == match ScanTag(e, n) case None => None case Some((tag, k)) => Some((tag, k + 1))
  {
  }

  /** The first k octets of a long tag say that others follow: reading goes on behind them. */
  lemma {:induction false} ScanOn(d: Bytes, ris: nat, k: nat)
    requires k < |d| && (forall i | 0 <= i < k :: d[i] >= 128) && Fold(ris, Septets(d[..k]), 128) < INT_LIMIT
    ensures ScanTag(d, ris) == match ScanTag(d[k..], Fold(ris, Septets(d[..k]), 128))
      case None => None
      case Some((tag, n)) => Some((tag, n + k))
  {
    if k == 0 {
      assert d[0..] == d;
    } else {
      var s, e := Septets(d[..k]), d[1..];
      var n := ris * 128 + s[0];
      FoldGrows(n, s[1..], 128);
      assert s[1..] == Septets(e[..k - 1]) && e[k - 1..] == d[k..];
      assert forall i | 0 <= i < k - 1 :: e[i] == d[i + 1];
      ScanOn(e, n, k - 1);
      ScanNext(d, e, ris, n);
    }
  }

  /** A tag of five septets: the first four are exact, the last step may wrap around. */
  lemma FiveSeptets(d: Bytes) returns (v: nat, low: nat)
    requires ParseTag(d).Some? && d[0] % 32 == 31 && TagSize(d) == 6
    ensures |d| > 6 && v == Val(Septets(d[1..5]), 128) < 0x1000_0000 && low == Low(d[5])
    ensures Ends(d[1..], 5) && Append(v, 128, low).Some?
    ensures ParseTag(d).value == Tag(d[0] - d[0] % 32, Append(v, 128, low).value, 6)
  {
    var e := d[1..];
    var k := ScanTag(e, 0).value.1;
    ScanEnds(e, 0);
    RunEnds(e, k);
    var s := Septets(e[..4]);
    FourSmall(s);
    FoldVal([], s, 128);
    assert [] + s == s && d[1..5] == e[..4];
    ScanOn(e, 0, 4);
    v, low := Val(s, 128), Low(d[5]);
    assert e[4..][0] == d[5];
  }

  lemma FourSmall(s: seq<nat>)
    requires |s| == 4 && InBase(s, 128)
    ensures Val(s, 128) < 0x1000_0000 && (Val(s, 128) >= 0x20_0000 <==> s[0] > 0)
  {
    var a := s[..3];
    var b := a[..2];
    var c := b[..1];
    assert c[..0] == [] && Val(c, 128) == c[0];
    assert Val(b, 128) == c[0] * 128 + b[1];
    assert Val(a, 128) == Val(b, 128) * 128 + a[2];
  }

  lemma FiveDigits(tag: nat)
    requires tag < INT_LIMIT
    ensures |Digits(tag, 128)| <= 5 && (|Digits(tag, 128)| == 5 <==> tag >= 0x1000_0000)
  {
    FourMore(tag);
    var rest := tag / 128 / 128 / 128 / 128;
    assert rest < 128 && |Digits(rest, 128)| <= 1 by { assert rest / 128 == 0; }
    if tag < 0x1000_0000 {
      FourSeptets(tag);
    } else if |Digits(tag, 128)| <= 4 {
      ValDigits(tag, 128);
      FourBelow(Digits(tag, 128));
    }
  }

  lemma FourBelow(s: seq<nat>)
    requires |s| <= 4 && InBase(s, 128)
    ensures Val(s, 128) < 0x1000_0000
    decreases 4 - |s|
  {
    if |s| < 4 {
      ZeroInFront(s);
      FourBelow([0] + s);
    } else {
      FourSmall(s);
    }
  }

  lemma {:induction false} ZeroInFront(s: seq<nat>)
    requires InBase(s, 128)
    ensures InBase([0] + s, 128) && Val([0] + s, 128) == Val(s, 128)
  {
    if s == [] {
      assert [0][..0] == [] && [0] + s == [0];
    } else {
      ZeroInFront(s[..|s| - 1]);
      assert ([0] + s)[..|s|] == [0] + s[..|s| - 1];
    }
  }

  lemma FiveTagSizes(d: Bytes)
    requires ParseTag(d).Some? && d[0] % 32 == 31 && TagSize(d) == 6
    ensures var t := ParseTag(d).value;
      t.off == 6 && |EncodeTag(t.cls, t.tag)| <= 6
        && (|EncodeTag(t.cls, t.tag)| == 6 <==> MinimalTag(d[..6]) || WrappedTag(d))
  {
    var v, low := FiveSeptets(d);
    FifthSeptet(v, low);
    var tag, m := ParseTag(d).value.tag, v * 128 % UINT_RANGE;
    FiveDigits(tag);
    assert tag >= 31 ==> |EncodeTag(ParseTag(d).value.cls, tag)| == 1 + |Digits(tag, 128)|;
    var o := d[..6];
    assert o[1..] == d[1..6] && Ends(o[1..], 5);
    var s := Septets(o[1..]);
    assert s[..4] == Septets(d[1..5]) && Val(s, 128) == v * 128 + low;
    FourSmall(s[..4]);
    assert MinimalTag(o) <==> s[0] != 0 && 31 <= Val(s, 128) < INT_LIMIT;
  }

  /** Tags of more septets are never written as they were. */
  lemma ManyTagSizes(d: Bytes)
    requires ParseTag(d).Some? && TagSize(d) > 6
    ensures var t := ParseTag(d).value;
      t.off == TagSize(d) && |EncodeTag(t.cls, t.tag)| < t.off && !MinimalTag(d[..t.off]) && !WrappedTag(d)
  {
    var e := d[1..];
    var k := ScanTag(e, 0).value.1;
    ScanEnds(e, 0);
    RunEnds(e, k);
    ScanBelow(e, 0);
    FiveDigits(ParseTag(d).value.tag);
    var o := d[..1 + k];
    if MinimalTag(o) {
      MinimalTagWritten(o);
      FiveDigits(Val(Septets(o[1..]), 128));
    }
  }

  /** A tag is as long as the one written exactly if it is in shortest form, or wraps around to another one of as many
    * septets. */
  lemma AllTagSizes(d: Bytes)
    requires ParseTag(d).Some?
    ensures var t := ParseTag(d).value;
      t.off == TagSize(d) && |EncodeTag(t.cls, t.tag)| <= t.off
        && (|EncodeTag(t.cls, t.tag)| == t.off <==> MinimalTag(d[..t.off]) || WrappedTag(d))
  {
    if TagSize(d) <= 5 {
      TagSizes(d);
    } else if TagSize(d) == 6 {
      FiveTagSizes(d);
    } else {
      ManyTagSizes(d);
    }
  }

  lemma {:induction false} ScanCount(d: Bytes, k: nat, ans: nat)
    requires ScanLength(d, k, ans).Some?
    ensures ScanLength(d, k, ans).value.1 == if k < |d| then k else |d|
  {
    if k > 0 && d != [] { ScanCount(d[1..], k - 1, Append(ans, 256, d[0]).value); }
  }

  /** Below 2^24 an int that takes eight more bits wraps around to a negative one, or does not. */
  lemma AppendExact(n: nat, digit: nat)
    requires n < 0x100_0000 && digit < 256 && Append(n, 256, digit).Some?
    ensures Append(n, 256, digit) == Some(n * 256 + digit)
  {
  }

  /** What may have been read before k more octets, of four at most. */
  predicate Room(ans: nat, k: nat) {
    k == 0 || (k == 1 && ans < 0x100_0000) || (k == 2 && ans < 0x1_0000) || (k == 3 && ans < 0x100)
      || (k == 4 && ans == 0)
  }

  lemma {:induction false} FewLengthOctets(d: Bytes, k: nat, ans: nat)
    requires k <= |d| && Room(ans, k) && ScanLength(d, k, ans).Some?
    ensures ScanLength(d, k, ans) == Some((Fold(ans, d[..k], 256), k))
  {
    if k > 0 {
      AppendExact(ans, d[0]);
      FewLengthOctets(d[1..], k - 1, ans * 256 + d[0]);
      assert d[..k][1..] == d[1..][..k - 1];
    }
  }

  /** The octets of a length end before the length says. */
  predicate CutLength(u: Bytes) { |u| == 1 && u[0] > 128 }

  lemma FewLong(u: Bytes, n: nat)
    requires u != [] && u[0] == 128 + n && 0 < n <= |u| - 1 && n <= 4 && ParseLength(u).Some?
    ensures ParseLength(u).value.1 == 1 + n && ParseLength(u).value.0 == Val(u[1..1 + n], 256)
  {
    var s: Bytes := u[1..][..n];
    FewLengthOctets(u[1..], n, 0);
    FoldVal([], s, 256);
    assert [] + s == s && u[1..1 + n] == s;
  }

  lemma ManyLong(u: Bytes, n: nat)
    requires u != [] && u[0] == 128 + n && 4 < n <= |u| - 1 && ParseLength(u).Some?
    ensures ParseLength(u).value.1 == 1 + n && |EncodeLength(ParseLength(u).value.0)| < 1 + n
    ensures !MinimalLength(u[..1 + n])
  {
    var o := u[..1 + n];
    ScanCount(u[1..], n, 0);
    LengthBelow(u[1..], n, 0);
    FewOctets(ParseLength(u).value.0);
    if MinimalLength(o) {
      MinimalLengthWritten(o);
      FewOctets(Val(o[1..], 256));
    }
  }

  lemma LongLength(u: Bytes, n: nat)
    requires u != [] && u[0] == 128 + n && 0 < n <= |u| - 1 && ParseLength(u).Some?
    ensures var (len, used) := ParseLength(u).value;
      used == 1 + n && |EncodeLength(len)| <= used && (|EncodeLength(len)| == used <==> MinimalLength(u[..used]))
  {
    if n > 4 {
      ManyLong(u, n);
    } else {
      var s: Bytes := u[1..1 + n];
      FewLong(u, n);
      LengthBelow(u[1..], n, 0);
      assert u[..1 + n][1..] == s;
      DigitsOfVal(s, 256);
      FullSize(s, 256);
    }
  }

  lemma LengthSizes(u: Bytes)
    requires u != [] && ParseLength(u).Some? && ParseLength(u).value.0 + ParseLength(u).value.1 <= |u|
    ensures var (len, used) := ParseLength(u).value; var l := LengthSize(u);
      && |EncodeLength(len)| <= used
      && (|EncodeLength(len)| == used <==> (l <= |u| && MinimalLength(u[..l])) || CutLength(u))
  {
    if u[0] > 128 {
      var n := u[0] - 128;
      if n <= |u| - 1 {
        LongLength(u, n);
      } else {
        ScanCount(u[1..], n, 0);
      }
    }
  }

  /** The length at the start of u is all there and in shortest form. */
  predicate MinimalLengthAt(u: Bytes) {
    u != [] && LengthSize(u) <= |u| && MinimalLength(u[..LengthSize(u)])
  }

  /** A header is as short as the one written exactly if its tag is in shortest form, or wraps around to another one of
    * as many septets; and its length is in shortest form, or the data ends with the octet that says how long it is. */
  lemma ShortExactly(d: Bytes)
    requires ParseHeader(d).Some?
    ensures ShortHeader(d) <==>
      (MinimalTag(d[..TagSize(d)]) || WrappedTag(d))
      && (MinimalLengthAt(d[TagSize(d)..]) || CutLength(d[TagSize(d)..]))
  {
    AllTagSizes(d);
    LengthSizes(d[TagSize(d)..]);
  }

  lemma WrappedNotMinimal(d: Bytes)
    requires WrappedTag(d)
    ensures !MinimalTag(d[..6])
  {
    var s := Septets(d[1..6]);
    assert d[..6][1..] == d[1..6] && s[..4] == Septets(d[1..5]);
    assert Val(s, 128) == Val(s[..4], 128) * 128 + s[4];
  }

  /** A tag that wraps around is written back in as many octets, but as another tag. */
  lemma WrappedChanges(d: Bytes)
    requires ParseHeader(d).Some? && WrappedTag(d) && MinimalLengthAt(d[6..])
    ensures var h := ParseHeader(d).value; ShortHeader(d) && EncodeHeader(h.cls, h.tag, h.len) != d[..h.off]
  {
    WrappedNotMinimal(d);
    ShortExactly(d);
    HeaderWrittenBack(d);
  }

  /** The tag 17 * 2^28, which is read as 2^28. */
  lemma WrappedTagRead() returns (d: Bytes)
    ensures d == [31, 145, 128, 128, 128, 0, 0] && ParseHeader(d) == Some(Header(0, 0x1000_0000, 7, 0))
    ensures ShortHeader(d) && EncodeHeader(0, 0x1000_0000, 0) != d
  {
    d := [31, 145, 128, 128, 128, 0, 0];
    var s := Septets(d[1..5]);
    SeventeenFirst(s);
    RunEnds(d[1..], 5);
    ReadWrapped(d);
    assert d[6..] == [0] && [0][..1] == [0] && d[..7] == d;
    WrappedChanges(d);
  }

  lemma SeventeenFirst(s: seq<nat>)
    requires s == [17, 0, 0, 0]
    ensures Val(s, 128) == 17 * 0x20_0000
  {
    assert s[..3] == [17, 0, 0] && s[..3][..2] == [17, 0] && s[..3][..2][..1] == [17] && [17][..0] == [];
    assert Val([17], 128) == 17 && Val([17, 0], 128) == 17 * 128 && Val([17, 0, 0], 128) == 17 * 128 * 128;
  }

  lemma ReadWrapped(d: Bytes)
    requires d == [31, 145, 128, 128, 128, 0, 0] && Val(Septets(d[1..5]), 128) == 17 * 0x20_0000
    ensures ParseHeader(d) == Some(Header(0, 0x1000_0000, 7, 0))
  {
    var e: Bytes := [145, 128, 128, 128, 0, 0];
    assert d[1..] == e && d[1..5] == e[..4];
    ScanWrapped(e);
    assert d[6..] == [0];
  }

  lemma ScanWrapped(e: Bytes)
    requires e == [145, 128, 128, 128, 0, 0] && Val(Septets(e[..4]), 128) == 17 * 0x20_0000
    ensures ScanTag(e, 0) == Some((0x1000_0000, 5))
  {
    var s, f: Bytes := Septets(e[..4]), [0, 0];
    FoldVal([], s, 128);
    assert [] + s == s && e[4..] == f;
    ScanOn(e, 0, 4);
    LastOctet(f, 17 * 0x20_0000);
  }

  lemma LastOctet(f: Bytes, v: nat)
    requires f == [0, 0] && v == 17 * 0x20_0000
    ensures ScanTag(f, v) == Some((0x1000_0000, 1))
  {
    assert Append(v, 128, 0) == Some(0x1000_0000);
  }
}
