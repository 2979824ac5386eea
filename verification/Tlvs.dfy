/** Trees of tag, length and value: how egg/egg-asn1x.c reads them from DER octets and
    writes them back. */
module Tlvs {
  import opened Wrappers
  import opened Numerals
  import opened Headers

  /** The number of empty bits at the end of a bit string. */
  type Bits = n: int | 0 <= n < 8

  /** What is put in front of a value: nothing, the number of empty bits of a bit string,
      or a zero octet that keeps an integer positive. */
  datatype Prefix = NoPrefix | EmptyBits(n: Bits) | ZeroOctet

  datatype Content = Value(bytes: Bytes, prefix: Prefix) | Children(tlvs: seq<Tlv>)

  datatype Tlv = Tlv(cls: Class, tag: nat, off: nat, len: nat, content: Content, decoded: Bytes)

  // ---------------------------------------------------------------- writing

  function ClearLow(x: Byte, n: Bits): (r: Byte)
    ensures r <= x
  {
    RemainderBelow(x, Power(n));
    x - x % Power(n)
  }

  lemma RemainderBelow(x: nat, p: nat)
    requires p > 0
    ensures 0 <= x % p <= x
  {
  }

  /** A bit string with its empty bits set to zero. */
  function Masked(bytes: Bytes, n: Bits): (r: Bytes)
    ensures |r| == |bytes|
  {
    if bytes == [] then [] else
      bytes[|bytes| - 1 := ClearLow(bytes[|bytes| - 1], n)]
  }

  /** The octets of a value with its prefix. */
  function Payload(bytes: Bytes, prefix: Prefix): (r: Bytes)
    ensures |r| == |bytes| + if prefix.NoPrefix? then 0 else 1
  {
    match prefix
    case NoPrefix => bytes
    case EmptyBits(n) => [n] + Masked(bytes, n)
    case ZeroOctet => [0] + bytes
  }

  /** The octets of a tree. */
  function Encode(t: Tlv): (r: Bytes)
    ensures |r| >= 2
  {
    EncodeHeader(t.cls, t.tag, t.len) + match t.content
      case Value(bytes, prefix) => Payload(bytes, prefix)
      case Children(ts) => EncodeAll(ts)
  }

  function EncodeAll(ts: seq<Tlv>): Bytes {
    if ts == [] then [] else Encode(ts[0]) + EncodeAll(ts[1..])
  }

  function TotalSize(ts: seq<Tlv>): nat {
    if ts == [] then 0 else ts[0].off + ts[0].len + TotalSize(ts[1..])
  }

  /** Every offset is the size of the header and every length that of the contents. */
  predicate Sized(t: Tlv) {
    && t.off == |EncodeHeader(t.cls, t.tag, t.len)|
    && match t.content
       case Value(bytes, prefix) => t.len == |bytes| + if prefix.NoPrefix? then 0 else 1
       case Children(ts) => t.len == TotalSize(ts) && AllSized(ts)
  }

  predicate AllSized(ts: seq<Tlv>) {
    forall t | t in ts :: Sized(t)
  }

  /** Every length fits an int, and the septets of every tag the eight octets the writer has for them. */
  predicate InRange(t: Tlv) {
    t.len < INT_LIMIT && t.tag < TAG_LIMIT && (t.content.Children? ==> AllInRange(t.content.tlvs))
  }

  predicate AllInRange(ts: seq<Tlv>) {
    forall t | t in ts :: InRange(t)
  }

  /** The sizes are those of the octets written. */
  lemma {:induction false} SizedSize(t: Tlv)
    requires Sized(t)
    ensures |Encode(t)| == t.off + t.len
  {
    if t.content.Children? {
      SizedTotal(t.content.tlvs);
    }
  }

  lemma {:induction false} SizedTotal(ts: seq<Tlv>)
    requires AllSized(ts)
    ensures |EncodeAll(ts)| == TotalSize(ts)
  {
    if ts != [] {
      SizedSize(ts[0]);
      SizedTotal(ts[1..]);
    }
  }

  lemma {:induction false} EncodeAppend(ts: seq<Tlv>, t: Tlv)
    ensures EncodeAll(ts + [t]) == EncodeAll(ts) + Encode(t)
    ensures TotalSize(ts + [t]) == TotalSize(ts) + t.off + t.len
  {
    if ts == [] {
      assert ts + [t] == [t];
    } else {
      EncodeAppend(ts[1..], t);
      assert (ts + [t])[1..] == ts[1..] + [t];
    }
  }

  // ---------------------------------------------------------------- parsing

  /** atlv_parse_cls_tag_len and atlv_parse_der_tag for definite lengths: one tree from the
      start of d, and how many octets it takes. */
  function Parse(d: Bytes): (r: Option<(Tlv, nat)>)
    ensures r.Some? ==> 2 <= r.value.1 <= |d| && r.value.0.decoded == d[..r.value.1]
    decreases |d|, 0
  {
    match ParseHeader(d)
    case None => None
    case Some(h) =>
      var n := h.off + h.len;
      var body := d[h.off..n];
      if Structured(h.cls) then
        match ParseAll(body)
        case None => None
        case Some(ts) => Some((Tlv(h.cls, h.tag, h.off, h.len, Children(ts), d[..n]), n))
      else
        Some((Tlv(h.cls, h.tag, h.off, h.len, Value(body, NoPrefix), d[..n]), n))
  }

  /** Behind a header there is a value or there are children. */
  lemma ParseBody(d: Bytes, h: Header, body: Bytes, whole: Bytes)
    requires ParseHeader(d) == Some(h) && body == d[h.off..h.off + h.len] && whole == d[..h.off + h.len]
    ensures Parse(d) ==
      if !Structured(h.cls) then Some((Read(h, Value(body, NoPrefix), whole), h.off + h.len))
      else if ParseAll(body).None? then None
      else Some((Read(h, Children(ParseAll(body).value), whole), h.off + h.len))
  {
  }

  function Read(h: Header, content: Content, whole: Bytes): Tlv {
    Tlv(h.cls, h.tag, h.off, h.len, content, whole)
  }

  /** The loop over the children: it goes on to the end of the contents. */
  function ParseAll(d: Bytes): (r: Option<seq<Tlv>>)
    decreases |d|, 1
  {
    if d == [] then Some([]) else
    match Parse(d)
    case None => None
    case Some((t, n)) =>
      match ParseAll(d[n..])
      case None => None
      case Some(ts) => Some([t] + ts)
  }

  /** atlv_parse_der: the one tree takes all of the data. */
  function ParseDer(d: Bytes): Option<Tlv> {
    match Parse(d)
    case None => None
    case Some((t, n)) => if n == |d| then Some(t) else None
  }

  // ---------------------------------------------------------------- reading back what was written

  /** Trees the encoder may be given: sized, with children exactly under structured classes. */
  predicate Proper(t: Tlv) {
    && Sized(t)
    && t.tag < INT_LIMIT && t.len < INT_LIMIT
    && (Structured(t.cls) <==> t.content.Children?)
    && (t.content.Children? ==> AllProper(t.content.tlvs))
  }

  predicate AllProper(ts: seq<Tlv>) {
    forall t | t in ts :: Proper(t)
  }

  /** The same tree as a parser sees it: prefixes are part of the value, and every node knows
      its own octets. */
  function Plain(t: Tlv): Tlv {
    t.(decoded := Encode(t), content := match t.content
      case Value(bytes, prefix) => Value(Payload(bytes, prefix), NoPrefix)
      case Children(ts) => Children(PlainAll(ts)))
  }

  function PlainAll(ts: seq<Tlv>): seq<Tlv> {
    if ts == [] then [] else [Plain(ts[0])] + PlainAll(ts[1..])
  }

  /** Parsing undoes encoding, whatever follows. */
  lemma {:induction false} ParseEncoded(t: Tlv, rest: Bytes)
    requires Proper(t)
    ensures Parse(Encode(t) + rest) == Some((Plain(t), |Encode(t)|))
    decreases t, 0
  {
    var d, e := Encode(t) + rest, EncodeHeader(t.cls, t.tag, t.len);
    SizedSize(t);
    var body := Encode(t)[t.off..];
    assert d == e + (body + rest);
    HeaderReadBack(t.cls, t.tag, t.len, body + rest);
    assert d[t.off..t.off + t.len] == body && d[..t.off + t.len] == Encode(t);
    if t.content.Children? {
      assert body == EncodeAll(t.content.tlvs);
      ParseAllEncoded(t.content.tlvs);
    }
  }

  lemma {:induction false} ParseAllEncoded(ts: seq<Tlv>)
    requires AllProper(ts)
    ensures ParseAll(EncodeAll(ts)) == Some(PlainAll(ts))
    decreases ts, 1
  {
    if ts != [] {
      ParseEncoded(ts[0], EncodeAll(ts[1..]));
      ParseAllEncoded(ts[1..]);
      assert EncodeAll(ts)[|Encode(ts[0])|..] == EncodeAll(ts[1..]);
    }
  }

  /** The octets written for a tree are read back as that tree. */
  lemma RoundTrip(t: Tlv)
    requires Proper(t)
    ensures ParseDer(Encode(t)) == Some(Plain(t))
  {
    ParseEncoded(t, []);
    assert Encode(t) + [] == Encode(t);
  }

  // ---------------------------------------------------------------- what parsing finds

  function Joined(ts: seq<Tlv>): Bytes {
    if ts == [] then [] else ts[0].decoded + Joined(ts[1..])
  }

  /** The decoded spans of the children exactly fill the contents of their parent. */
  predicate Spanned(t: Tlv) {
    && |t.decoded| == t.off + t.len
    && match t.content
       case Value(bytes, prefix) => prefix.NoPrefix? && bytes == t.decoded[t.off..] && !Structured(t.cls)
       case Children(ts) => Structured(t.cls) && t.decoded[t.off..] == Joined(ts) && forall c | c in ts :: Spanned(c)
  }

  lemma {:induction false} ParsedSpanned(d: Bytes)
    requires Parse(d).Some?
    ensures Spanned(Parse(d).value.0)
    decreases |d|, 0
  {
    var (t, n) := Parse(d).value;
    if t.content.Children? {
      ParsedAllSpanned(d[t.off..n]);
    }
  }

  lemma {:induction false} ParsedAllSpanned(d: Bytes)
    requires ParseAll(d).Some?
    ensures Joined(ParseAll(d).value) == d
    ensures forall c | c in ParseAll(d).value :: Spanned(c)
    decreases |d|, 1
  {
    if d != [] {
      var (t, n) := Parse(d).value;
      ParsedSpanned(d);
      ParsedAllSpanned(d[n..]);
      assert d == d[..n] + d[n..];
    }
  }

  // ---------------------------------------------------------------- writing back what was read

  /** Every header met while parsing d is in shortest form. */
  predicate Minimal(d: Bytes)
    requires Parse(d).Some?
    decreases |d|, 0
  {
    var (t, n) := Parse(d).value;
    MinimalHeader(d) && (t.content.Children? ==> MinimalAll(d[t.off..n]))
  }

  predicate MinimalAll(d: Bytes)
    requires ParseAll(d).Some?
    decreases |d|, 1
  {
    d == [] || (Minimal(d) && MinimalAll(d[Parse(d).value.1..]))
  }

  /** Written back, accepted data never gets longer. */
  lemma {:induction false} EncodedShrinks(d: Bytes)
    requires Parse(d).Some?
    ensures |Encode(Parse(d).value.0)| <= Parse(d).value.1
    decreases |d|, 0
  {
    var (t, n) := Parse(d).value;
    HeaderShrinks(d);
    if t.content.Children? {
      EncodedAllShrinks(d[t.off..n]);
    }
  }

  lemma {:induction false} EncodedAllShrinks(d: Bytes)
    requires ParseAll(d).Some?
    ensures |EncodeAll(ParseAll(d).value)| <= |d|
    decreases |d|, 1
  {
    if d != [] {
      EncodedShrinks(d);
      EncodedAllShrinks(d[Parse(d).value.1..]);
    }
  }

  /** What was read and what is written, each in two parts: header and contents. */
  lemma Parts(d: Bytes) returns (head: Bytes, body: Bytes, e: Bytes, c: Bytes)
    requires Parse(d).Some?
    ensures var (t, n) := Parse(d).value;
      && d[..n] == head + body && Encode(t) == e + c && |e| <= |head|
      && body == d[t.off..n] && (MinimalHeader(d) <==> e == head)
      && match t.content
         case Value(_, _) => c == body
         case Children(ts) => c == EncodeAll(ts) && ParseAll(body) == Some(ts)
  {
    var h := ParseHeader(d).value;
    var whole := d[..h.off + h.len];
    head, body, e := d[..h.off], d[h.off..h.off + h.len], EncodeHeader(h.cls, h.tag, h.len);
    assert whole == head + body;
    ParseBody(d, h, body, whole);
    c := if Structured(h.cls) then EncodeAll(ParseAll(body).value) else body;
    HeaderWrittenBack(d);
    HeaderShrinks(d);
  }

  /** Accepted data is written back octet by octet exactly when all its headers are in shortest form. */
  lemma {:induction false} EncodedParsed(d: Bytes)
    requires Parse(d).Some?
    ensures var (t, n) := Parse(d).value; Minimal(d) <==> Encode(t) == d[..n]
    decreases |d|, 0
  {
    var head, body, e, c := Parts(d);
    if Parse(d).value.0.content.Children? {
      EncodedAllShrinks(body);
      EncodedAllParsed(body);
    }
    SameParts(e, c, head, body);
  }

  lemma SameParts(a: Bytes, b: Bytes, x: Bytes, y: Bytes)
    requires |a| <= |x| && |b| <= |y|
    ensures a + b == x + y <==> a == x && b == y
  {
    if a + b == x + y {
      assert |a| == |x|;
      assert (a + b)[..|a|] == a && (x + y)[..|x|] == x;
      assert (a + b)[|a|..] == b && (x + y)[|x|..] == y;
    }
  }

  /** The first of several elements and the others. */
  lemma AllParts(d: Bytes) returns (n: nat, first: Bytes, rest: Bytes)
    requires d != [] && ParseAll(d).Some?
    ensures Parse(d).Some? && n == Parse(d).value.1 && 0 < n <= |d| && d == d[..n] + d[n..]
    ensures ParseAll(d[n..]).Some? && first == Encode(Parse(d).value.0) && rest == EncodeAll(ParseAll(d[n..]).value)
    ensures EncodeAll(ParseAll(d).value) == first + rest
    ensures MinimalAll(d) <==> Minimal(d) && MinimalAll(d[n..])
  {
    n := Parse(d).value.1;
    var t, ts := Parse(d).value.0, ParseAll(d[n..]).value;
    assert ParseAll(d).value == [t] + ts && ([t] + ts)[1..] == ts;
    first, rest := Encode(t), EncodeAll(ts);
  }

  lemma {:induction false} EncodedAllParsed(d: Bytes)
    requires ParseAll(d).Some?
    ensures MinimalAll(d) <==> EncodeAll(ParseAll(d).value) == d
    decreases |d|, 1
  {
    if d != [] {
      var n, first, rest := AllParts(d);
      EncodedParsed(d);
      EncodedShrinks(d);
      EncodedAllParsed(d[n..]);
      EncodedAllShrinks(d[n..]);
      SameParts(first, rest, d[..n], d[n..]);
    }
  }

  /** Whole inputs: reading and writing back gives the same octets if and only if every header
      was in shortest form. */
  lemma WrittenBack(d: Bytes)
    requires ParseDer(d).Some?
    ensures Encode(ParseDer(d).value) == d <==> Minimal(d)
  {
    EncodedParsed(d);
    assert d[..|d|] == d;
  }

  /** A length that stops short is read as zero, though it is not what is written for zero. */
  lemma CutLengthRead()
    ensures ParseDer([4, 0x81]).Some? && Encode(ParseDer([4, 0x81]).value) == [4, 0]
  {
    var d: Bytes := [4, 0x81];
    assert d[1..][1..] == [];
    assert ParseLength(d[1..]) == Some((0, 1));
    assert ParseHeader(d) == Some(Header(0, 4, 2, 0));
    assert d[2..2] == [];
  }

  // ---------------------------------------------------------------- giving the writer what was read

  /** Every header met while parsing d is as short as the one written for it. */
  predicate Short(d: Bytes)
    requires Parse(d).Some?
    decreases |d|, 0
  {
    var (t, n) := Parse(d).value;
    ShortHeader(d) && (t.content.Children? ==> ShortAll(d[t.off..n]))
  }

  predicate ShortAll(d: Bytes)
    requires ParseAll(d).Some?
    decreases |d|, 1
  {
    d == [] || (Short(d) && ShortAll(d[Parse(d).value.1..]))
  }

  lemma {:induction false} ShortestIsShort(d: Bytes)
    requires Parse(d).Some? && Minimal(d)
    ensures Short(d)
    decreases |d|, 0
  {
    var (t, n) := Parse(d).value;
    MinimalIsShort(d);
    if t.content.Children? { AllShortestShort(d[t.off..n]); }
  }

  lemma {:induction false} AllShortestShort(d: Bytes)
    requires ParseAll(d).Some? && MinimalAll(d)
    ensures ShortAll(d)
    decreases |d|, 1
  {
    if d != [] {
      ShortestIsShort(d);
      AllShortestShort(d[Parse(d).value.1..]);
    }
  }

  lemma ParseAllParts(d: Bytes) returns (t: Tlv, n: nat, ts: seq<Tlv>)
    requires d != [] && ParseAll(d).Some?
    ensures Parse(d) == Some((t, n)) && ParseAll(d[n..]) == Some(ts) && ParseAll(d).value == [t] + ts
    ensures n == t.off + t.len && TotalSize(ParseAll(d).value) == n + TotalSize(ts)
    ensures AllSized(ParseAll(d).value) <==> Sized(t) && AllSized(ts)
    ensures AllProper(ParseAll(d).value) <==> Proper(t) && AllProper(ts)
  {
    t, n := Parse(d).value.0, Parse(d).value.1;
    ts := ParseAll(d[n..]).value;
    assert ([t] + ts)[1..] == ts;
    assert forall u :: u in [t] + ts <==> u == t || u in ts;
  }

  /** The sizes a parser finds are the writer's exactly if every header was as short as the writer's. */
  lemma {:induction false} ParsedSized(d: Bytes)
    requires Parse(d).Some?
    ensures Sized(Parse(d).value.0) <==> Short(d)
    decreases |d|, 0
  {
    var (t, n) := Parse(d).value;
    if t.content.Children? { ParsedAllSized(d[t.off..n]); }
  }

  lemma {:induction false} ParsedAllSized(d: Bytes)
    requires ParseAll(d).Some?
    ensures AllSized(ParseAll(d).value) <==> ShortAll(d)
    ensures TotalSize(ParseAll(d).value) == |d|
    decreases |d|, 1
  {
    if d != [] {
      var t, n, ts := ParseAllParts(d);
      ParsedSized(d);
      ParsedAllSized(d[n..]);
    }
  }

  /** What was read from headers as short as the writer's may be given to the writer. */
  lemma {:induction false} ParsedProper(d: Bytes)
    requires Parse(d).Some? && Short(d)
    ensures Proper(Parse(d).value.0)
    decreases |d|, 0
  {
    var (t, n) := Parse(d).value;
    ParsedSized(d);
    HeaderBelow(d);
    if t.content.Children? { ParsedAllProper(d[t.off..n]); }
  }

  lemma {:induction false} ParsedAllProper(d: Bytes)
    requires ParseAll(d).Some? && ShortAll(d)
    ensures AllProper(ParseAll(d).value)
    decreases |d|, 1
  {
    if d != [] {
      var t, n, ts := ParseAllParts(d);
      ParsedProper(d);
      ParsedAllProper(d[n..]);
    }
  }

  // ---------------------------------------------------------------- parts of what was read

  /** Read again from its own octets, a TLV is the same. */
  predicate Rereads(t: Tlv) { Parse(t.decoded) == Some((t, |t.decoded|)) }

  /** And its headers are as short as the writer's. */
  predicate ReadShort(t: Tlv) { Rereads(t) && Short(t.decoded) }

  // ---------------------------------------------------------------- what is made around what was read

  /** The sizes of a TLV itself are the writer's, given those of its children. */
  predicate SizedHere(t: Tlv) {
    && t.off == |EncodeHeader(t.cls, t.tag, t.len)|
    && match t.content
       case Value(bytes, prefix) => t.len == |bytes| + if prefix.NoPrefix? then 0 else 1
       case Children(ts) => t.len == TotalSize(ts)
  }

  /** A TLV was read, or was made with the writer's sizes from such ones. */
  predicate Made(t: Tlv) {
    if t.decoded != [] then Rereads(t) else SizedHere(t) && (t.content.Children? ==> AllMade(t.content.tlvs))
  }

  predicate AllMade(ts: seq<Tlv>) { forall t | t in ts :: Made(t) }

  /** No header that was read was longer than the writer's. */
  predicate NoneLong(t: Tlv) {
    if t.decoded != [] then ReadShort(t) else t.content.Children? ==> AllNoneLong(t.content.tlvs)
  }

  predicate AllNoneLong(ts: seq<Tlv>) { forall t | t in ts :: NoneLong(t) }

  /** What was made has the writer's sizes throughout exactly if no header that was read was longer than they are. */
  lemma {:induction false} MadeSized(t: Tlv)
    requires Made(t)
    ensures Sized(t) <==> NoneLong(t)
  {
    if t.decoded != [] {
      ParsedSized(t.decoded);
    } else if t.content.Children? {
      forall c | c in t.content.tlvs ensures Sized(c) <==> NoneLong(c) { MadeSized(c); }
    }
  }

  /** A TLV was read from short headers, or was made, with tags that fit, from such ones. */
  predicate Fit(t: Tlv) {
    if t.decoded != [] then ReadShort(t) else
      && SizedHere(t)
      && t.tag < INT_LIMIT
      && (Structured(t.cls) <==> t.content.Children?)
      && (t.content.Children? ==> AllFit(t.content.tlvs))
  }

  predicate AllFit(ts: seq<Tlv>) { forall t | t in ts :: Fit(t) }

  lemma {:induction false} PartOfTotal(ts: seq<Tlv>, t: Tlv)
    requires t in ts
    ensures t.off + t.len <= TotalSize(ts)
  {
    if t != ts[0] { PartOfTotal(ts[1..], t); }
  }

  /** What fits, and is not too long, may be given to the writer. */
  lemma {:induction false} FitProper(t: Tlv)
    requires Fit(t) && t.len < INT_LIMIT
    ensures Proper(t)
  {
    if t.decoded != [] {
      ParsedProper(t.decoded);
    } else if t.content.Children? {
      forall c | c in t.content.tlvs ensures Proper(c) && Sized(c) {
        PartOfTotal(t.content.tlvs, c);
        FitProper(c);
      }
    }
  }

  // ---------------------------------------------------------------- all parts of what was read

  lemma ParsePrefix(d: Bytes)
    requires Parse(d).Some?
    ensures var n := Parse(d).value.1; Parse(d[..n]) == Parse(d) && (Short(d[..n]) <==> Short(d))
  {
    var h := ParseHeader(d).value;
    var n := h.off + h.len;
    var e, body := d[..n], d[h.off..n];
    ParseHeaderPrefix(d, n);
    assert e[h.off..n] == body && e[..n] == e;
    ParseBody(d, h, body, e);
    ParseBody(e, h, body, e);
    ShortBody(d, h, body);
    ShortBody(e, h, body);
  }

  lemma ShortBody(d: Bytes, h: Header, body: Bytes)
    requires ParseHeader(d) == Some(h) && body == d[h.off..h.off + h.len] && Parse(d).Some?
    ensures Structured(h.cls) ==> ParseAll(body).Some?
    ensures Short(d) <==> |EncodeHeader(h.cls, h.tag, h.len)| == h.off && (Structured(h.cls) ==> ShortAll(body))
  {
    ParseBody(d, h, body, d[..h.off + h.len]);
  }

  /** A property of a TLV and of all TLVs inside it. */
  ghost predicate Throughout(t: Tlv, p: Tlv -> bool) {
    p(t) && (t.content.Children? ==> AllThroughout(t.content.tlvs, p))
  }

  ghost predicate AllThroughout(ts: seq<Tlv>, p: Tlv -> bool) {
    forall t | t in ts :: Throughout(t, p)
  }

  lemma {:induction false} ThroughoutMore(t: Tlv, p: Tlv -> bool, q: Tlv -> bool)
    requires Throughout(t, p) && forall u | p(u) :: q(u)
    ensures Throughout(t, q)
  {
    if t.content.Children? {
      forall c | c in t.content.tlvs ensures Throughout(c, q) { ThroughoutMore(c, p, q); }
    }
  }

  /** Every TLV found is one that can be read again, and is short if all of them are. */
  lemma {:induction false} ParsedThroughout(d: Bytes)
    requires Parse(d).Some?
    ensures Throughout(Parse(d).value.0, Rereads)
    ensures Short(d) ==> Throughout(Parse(d).value.0, ReadShort)
    decreases |d|, 0
  {
    var (t, n) := Parse(d).value;
    ParsePrefix(d);
    if t.content.Children? { ParsedAllThroughout(d[t.off..n]); }
  }

  lemma {:induction false} ParsedAllThroughout(d: Bytes)
    requires ParseAll(d).Some?
    ensures AllThroughout(ParseAll(d).value, Rereads)
    ensures ShortAll(d) ==> AllThroughout(ParseAll(d).value, ReadShort)
    decreases |d|, 1
  {
    if d != [] {
      var t, n, ts := ParseAllParts(d);
      ParsedThroughout(d);
      ParsedAllThroughout(d[n..]);
    }
  }
}
