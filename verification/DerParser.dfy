/** The parser of egg/egg-asn1x.c as it runs over a buffer, step by step. */
module DerParser {
  import opened Wrappers
  import opened Headers
  import opened Tlvs

  /** A scan that has k octets behind it already. */
  ghost function Later(r: Option<(nat, nat)>, k: nat): Option<(nat, nat)> {
    match r
    case None => None
    case Some((n, used)) => Some((n, used + k))
  }

  /** The step both scanning loops share: times base, plus digit, and give up when an int wraps around. */
  method AppendDigit(n: nat, base: nat, digit: nat) returns (ok: bool, r: nat)
    requires base > 0
    ensures Append(n, base, digit) == if ok then Some(r) else None
  {
    var last := n;
    var ans := Wrap(n * base);
    if ans < last {
      return false, 0;
    }
    last := ans;
    ans := Wrap(ans + digit);
    if ans < last {
      return false, 0;
    }
    return true, ans;
  }

  lemma ScanTagStep(d: Bytes, e: Bytes, ris: nat, punt: nat)
    requires d != [] && e == d[1..]
    ensures Later(ScanTag(d, ris), punt) == match Append(ris, 128, Low(d[0]))
              case None => None
              case Some(n) => if d[0] < 128 then Some((n, punt + 1)) else Later(ScanTag(e, n), punt + 1)
  {
  }

  /** atlv_parse_cls_tag between at and end. */
  method ParseClsTag(data: Bytes, at: nat, end: nat) returns (ok: bool, cls: Class, tag: nat, off: nat)
    requires at <= end <= |data|
    ensures ParseTag(data[at..end]) == if ok then Some(Tag(cls, tag, off)) else None
  {
    ok, cls, tag, off := false, 0, 0, 0;
    ghost var d := data[at..end];
    var n := end - at;
    if n < 2 {
      return;
    }
    cls := data[at] - data[at] % 32;
    if data[at] % 32 != 31 {
      return true, cls, data[at] % 32, 1;
    }
    var punt, ris := 1, 0;
    while punt <= n
      invariant 1 <= punt <= n
      invariant ScanTag(d[1..], 0) == Later(ScanTag(d[punt..], ris), punt - 1)
      decreases n - punt
    {
      if punt == n {
        return; // whatever lies behind the data, the tag is refused
      }
      var val := data[at + punt];
      assert val == d[punt] && d[punt..][1..] == d[punt + 1..];
      ScanTagStep(d[punt..], d[punt + 1..], ris, punt - 1);
      punt := punt + 1;
      var fits;
      fits, ris := AppendDigit(ris, 128, Low(val));
      if !fits {
        return;
      }
      if Low(val) == val {
        if punt >= n {
          return;
        }
        return true, cls, ris, punt;
      }
    }
  }

  lemma ScanLengthStep(d: Bytes, e: Bytes, k: nat, ans: nat, punt: nat)
    requires k > 0 && d != [] && e == d[1..]
    ensures Later(ScanLength(d, k, ans), punt) == match Append(ans, 256, d[0])
              case None => None
              case Some(n) => Later(ScanLength(e, k - 1, n), punt + 1)
  {
  }

  /** At most k octets of a length, between at and end. */
  method ParseLengthOctets(data: Bytes, at: nat, end: nat, k: nat) returns (ok: bool, ans: nat, punt: nat)
    requires at <= end <= |data|
    ensures ScanLength(data[at..end], k, 0) == if ok then Some((ans, punt)) else None
  {
    ghost var d := data[at..end];
    punt, ans := 0, 0;
    while punt < k && punt < end - at
      invariant punt <= k && punt <= end - at
      invariant ScanLength(d, k, 0) == Later(ScanLength(d[punt..], k - punt, ans), punt)
    {
      assert data[at + punt] == d[punt] && d[punt..][1..] == d[punt + 1..];
      ScanLengthStep(d[punt..], d[punt + 1..], k - punt, ans, punt);
      ok, ans := AppendDigit(ans, 256, data[at + punt]);
      if !ok {
        return;
      }
      punt := punt + 1;
    }
    ok := true;
  }

  /** atlv_parse_length between at and end, for definite lengths. */
  method ParseLengthAt(data: Bytes, at: nat, end: nat) returns (ok: bool, len: nat, off: nat)
    requires at < end <= |data|
    ensures ParseLength(data[at..end]) == if ok then Some((len, off)) else None
  {
    if data[at] < 128 {
      return true, data[at], 1;
    }
    var k := data[at] - 128;
    if k == 0 {
      return false, 0, 0;
    }
    assert data[at..end][1..] == data[at + 1..end];
    var used;
    ok, len, used := ParseLengthOctets(data, at + 1, end, k);
    off := 1 + used;
  }

  /** atlv_parse_cls_tag_len. */
  method ParseClsTagLen(data: Bytes, at: nat, end: nat) returns (ok: bool, h: Header)
    requires at <= end <= |data|
    ensures ParseHeader(data[at..end]) == if ok then Some(h) else None
  {
    h := Header(0, 0, 0, 0);
    var cls, tag, cb1, len, cb2;
    ok, cls, tag, cb1 := ParseClsTag(data, at, end);
    if !ok {
      return;
    }
    assert data[at..end][cb1..] == data[at + cb1..end];
    ok, len, cb2 := ParseLengthAt(data, at + cb1, end);
    if !ok {
      return;
    }
    h := Header(cls, tag, cb1 + cb2, len);
    ok := at + h.off + h.len <= end;
  }

  /** What the loop over the children comes to: those read so far and those still to come. */
  ghost function Onwards(ts: seq<Tlv>, r: Option<seq<Tlv>>): Option<seq<Tlv>> {
    match r
    case None => None
    case Some(us) => Some(ts + us)
  }

  lemma SubSlice(data: Bytes, at: nat, limit: nat, lo: nat, hi: nat)
    requires at <= limit <= |data| && lo <= hi <= limit - at
    ensures data[at..limit][lo..hi] == data[at + lo..at + hi]
  {
    var a, b := data[at..limit][lo..hi], data[at + lo..at + hi];
    assert |a| == |b| && forall k | 0 <= k < |a| :: a[k] == b[k];
  }

  /** atlv_parse_der_tag: the header h was read at `at`, before limit. */
  method ParseDerTag(h: Header, data: Bytes, at: nat, ghost limit: nat) returns (ok: bool, tlv: Tlv, next: nat)
    requires at <= limit <= |data| && ParseHeader(data[at..limit]) == Some(h)
    ensures Parse(data[at..limit]) == if ok then Some((tlv, next - at)) else None
    ensures ok ==> next == at + h.off + h.len
    decreases limit - at, 0
  {
    tlv := Tlv(h.cls, h.tag, h.off, h.len, Children([]), []);
    next := at + h.off;
    var end := next + h.len;
    SubSlice(data, at, limit, h.off, h.off + h.len);
    SubSlice(data, at, limit, 0, h.off + h.len);
    ParseBody(data[at..limit], h, data[next..end], data[at..end]);
    if Structured(h.cls) {
      var children;
      ok, children := ParseChildren(data, next, end);
      if !ok {
        return;
      }
      tlv := tlv.(content := Children(children));
    } else {
      tlv := tlv.(content := Value(data[next..end], NoPrefix));
    }
    next := end;
    tlv := tlv.(decoded := data[at..next]);
    ok := true;
  }

  /** The loop over the children, which ends exactly at end. */
  method ParseChildren(data: Bytes, at: nat, end: nat) returns (ok: bool, children: seq<Tlv>)
    requires at <= end <= |data|
    ensures ParseAll(data[at..end]) == if ok then Some(children) else None
    decreases end - at, 1
  {
    children := [];
    var next := at;
    NoneYet(ParseAll(data[at..end]));
    while next < end
      invariant at <= next <= end
      invariant ParseAll(data[at..end]) == Onwards(children, ParseAll(data[next..end]))
    {
      var ch, child, at';
      ok, ch := ParseClsTagLen(data, next, end);
      if !ok {
        return;
      }
      ok, child, at' := ParseDerTag(ch, data, next, end);
      if !ok {
        return;
      }
      assert data[next..end][at' - next..] == data[at'..end];
      ParseAllStep(children, data[next..end], data[at'..end]);
      children, next := children + [child], at';
    }
    assert data[next..end] == [];
    AllRead(children);
    ok := true;
  }

  lemma NoneYet(r: Option<seq<Tlv>>)
    ensures Onwards([], r) == r
  {
    if r.Some? {
      assert [] + r.value == r.value;
    }
  }

  lemma AllRead(ts: seq<Tlv>)
    ensures Onwards(ts, ParseAll([])) == Some(ts)
  {
    assert ts + [] == ts;
  }

  lemma ParseAllStep(ts: seq<Tlv>, d: Bytes, rest: Bytes)
    requires d != [] && Parse(d).Some? && rest == d[Parse(d).value.1..]
    ensures Onwards(ts, ParseAll(d)) == Onwards(ts + [Parse(d).value.0], ParseAll(rest))
  {
    var t := Parse(d).value.0;
    if ParseAll(rest).Some? {
      assert ts + ([t] + ParseAll(rest).value) == ts + [t] + ParseAll(rest).value;
    }
  }

  /** atlv_parse_der. */
  method ParseDerData(data: Bytes) returns (r: Option<Tlv>)
    ensures r == ParseDer(data)
  {
    assert data[0..|data|] == data;
    var ok, h := ParseClsTagLen(data, 0, |data|);
    if !ok {
      return None;
    }
    var tlv, at;
    ok, tlv, at := ParseDerTag(h, data, 0, |data|);
    if !ok || at != |data| {
      return None;
    }
    r := Some(tlv);
  }
}
