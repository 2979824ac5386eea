/** The writer of egg/egg-asn1x.c as it fills a buffer, step by step; run without a buffer
    it only counts. */
module DerWriter {
  import opened Wrappers
  import opened Numerals
  import opened Headers
  import opened Tlvs

  /** The octets bs were written at `at`, one after the other, and nothing else changed. */
  ghost predicate Wrote(s: Bytes, s': Bytes, at: nat, bs: Bytes)
    decreases |bs|
  {
    if bs == [] then s' == s && at <= |s| else at < |s| && Wrote(s[at := bs[0]], s', at + 1, bs[1..])
  }

  ghost predicate InPlace(s: Bytes, s': Bytes, at: nat, bs: Bytes) {
    |s'| == |s| && at + |bs| <= |s|
    && (forall k {:trigger bs[k]} | 0 <= k < |bs| :: s'[at + k] == bs[k])
    && forall i | 0 <= i < |s| && !(at <= i < at + |bs|) :: s'[i] == s[i]
  }

  lemma {:induction false} WroteExactly(s: Bytes, s': Bytes, at: nat, bs: Bytes)
    ensures Wrote(s, s', at, bs) <==> InPlace(s, s', at, bs)
    decreases |bs|
  {
    if bs != [] && at < |s| {
      WroteExactly(s[at := bs[0]], s', at + 1, bs[1..]);
      InPlaceStep(s, s', at, bs);
    }
  }

  lemma InPlaceStep(s: Bytes, s': Bytes, at: nat, bs: Bytes)
    requires bs != [] && at < |s|
    ensures InPlace(s, s', at, bs) <==> InPlace(s[at := bs[0]], s', at + 1, bs[1..])
  {
    if InPlace(s, s', at, bs) {
      assert s'[at + 0] == bs[0];
      forall k | 0 <= k < |bs[1..]| ensures s'[at + 1 + k] == bs[1..][k] { assert bs[k + 1] == s'[at + (k + 1)]; }
    }
    if InPlace(s[at := bs[0]], s', at + 1, bs[1..]) {
      forall k | 0 <= k < |bs| ensures s'[at + k] == bs[k] {
        if k > 0 { assert bs[1..][k - 1] == bs[k]; }
      }
    }
  }

  lemma {:induction false} WroteMore(s: Bytes, s': Bytes, s'': Bytes, at: nat, a: Bytes, b: Bytes)
    requires Wrote(s, s', at, a) && Wrote(s', s'', at + |a|, b)
    ensures Wrote(s, s'', at, a + b)
    decreases |a|
  {
    if a == [] {
      assert a + b == b;
    } else {
      WroteMore(s[at := a[0]], s', s'', at + 1, a[1..], b);
      assert (a + b)[0] == a[0] && (a + b)[1..] == a[1..] + b;
    }
  }

  lemma WroteOne(s: Bytes, s': Bytes, at: nat, x: Byte)
    requires at < |s| && s' == s[at := x]
    ensures Wrote(s, s', at, [x])
  {
    assert [x][1..] == [];
  }

  /** The digits of all behind those in front, last one first. */
  ghost predicate SplitOff(all: seq<nat>, front: seq<nat>, temp: seq<nat>) {
    |temp| + |front| == |all| && front <= all && forall k | 0 <= k < |temp| :: temp[k] == all[|all| - 1 - k]
  }

  lemma SplitStep(all: seq<nat>, front: seq<nat>, d: nat, temp: seq<nat>)
    requires SplitOff(all, front + [d], temp)
    ensures SplitOff(all, front, temp + [d])
  {
    assert all[|front|] == (front + [d])[|front|] == d;
  }

  lemma DigitsStep(n: nat, b: nat)
    requires n > 0 && b > 1
    ensures Digits(n, b) == Digits(n / b, b) + [n % b] && n / b < n
  {
    Shrinks(n, b);
  }

  /** The last digit, and the number in front of it. */
  method LastDigit(n: nat, b: nat) returns (front: nat, d: nat)
    requires n > 0 && b > 1
    ensures front < n && Digits(n, b) == Digits(front, b) + [d]
  {
    DigitsStep(n, b);
    front, d := n / b, n % b;
  }

  /** Splits a number into digits, least significant first. */
  method Split(n: nat, b: nat) returns (temp: seq<nat>)
    requires b > 1
    ensures |temp| == |Digits(n, b)|
    ensures forall k | 0 <= k < |temp| :: temp[k] == Digits(n, b)[|temp| - 1 - k]
  {
    temp := [];
    var rest: nat := n;
    ghost var all := Digits(n, b);
    while rest > 0
      invariant SplitOff(all, Digits(rest, b), temp)
    {
      var d;
      rest, d := LastDigit(rest, b);
      SplitStep(all, Digits(rest, b), d, temp);
      temp := temp + [d];
    }
  }

  /** atlv_unparse_len. */
  method UnparseLen(len: nat, ans: array?<Byte>, at: nat) returns (cb: nat)
    requires len < INT_LIMIT
    requires ans != null ==> at + |EncodeLength(len)| <= ans.Length
    modifies ans
    ensures cb == |EncodeLength(len)|
    ensures ans != null ==> Wrote(old(ans[..]), ans[..], at, EncodeLength(len))
  {
    if len < 128 {
      if ans != null {
        ghost var s0 := ans[..];
        ans[at] := len;
        WroteOne(s0, ans[..], at, len);
      }
      cb := 1;
    } else {
      FewOctets(len);
      var temp := Split(len, 256);
      assert |temp| <= 8;
      cb := |temp| + 1;
      if ans != null {
        PutThenFill(ans, at, 128 + |temp|, temp, Digits(len, 256));
      }
    }
  }

  /** One octet and then the digits. */
  method PutThenFill(ans: array<Byte>, at: nat, x: Byte, temp: seq<nat>, ghost bs: Bytes)
    requires |temp| == |bs| && at + 1 + |bs| <= ans.Length
    requires forall k | 0 <= k < |bs| :: temp[k] == bs[|bs| - 1 - k]
    modifies ans
    ensures Wrote(old(ans[..]), ans[..], at, [x] + bs)
  {
    ghost var s0 := ans[..];
    ans[at] := x;
    ghost var s1 := ans[..];
    WroteOne(s0, s1, at, x);
    FillBack(ans, at + 1, temp, bs);
    WroteMore(s0, s1, ans[..], at, [x], bs);
  }

  /** Digits kept least significant first are written most significant first. */
  method FillBack(ans: array<Byte>, at: nat, temp: seq<nat>, ghost bs: Bytes)
    requires |temp| == |bs| && at + |bs| <= ans.Length
    requires forall k | 0 <= k < |bs| :: temp[k] == bs[|bs| - 1 - k]
    modifies ans
    ensures Wrote(old(ans[..]), ans[..], at, bs)
  {
    var k := |temp|;
    while k > 0
      invariant 0 <= k <= |temp|
      invariant forall i | 0 <= i < |bs| - k :: ans[at + i] == bs[i]
      invariant forall i | 0 <= i < ans.Length && !(at <= i < at + |bs|) :: ans[i] == old(ans[i])
    {
      k := k - 1;
      assert temp[k] == bs[|bs| - 1 - k];
      ans[at + |temp| - 1 - k] := temp[k];
    }
    WroteExactly(old(ans[..]), ans[..], at, bs);
  }

  /** atlv_unparse_cls_tag_len: no assertion about the room left fires. */
  method UnparseClsTagLen(data: array?<Byte>, at: nat, nData: nat, cls: Class, tag: nat, len: nat) returns (off: nat)
    requires len < INT_LIMIT && tag < TAG_LIMIT
    requires data != null ==> |EncodeHeader(cls, tag, len)| <= nData && at + nData <= data.Length
    modifies data
    ensures off == |EncodeHeader(cls, tag, len)|
    ensures data != null ==> Wrote(old(data[..]), data[..], at, EncodeHeader(cls, tag, len))
  {
    ghost var s0 := if data != null then data[..] else [];
    off := UnparseTag(data, at, nData, cls, tag);
    ghost var s1 := if data != null then data[..] else [];
    var cb := UnparseLen(len, data, at + off);
    if data != null {
      WroteMore(s0, s1, data[..], at, EncodeTag(cls, tag), EncodeLength(len));
    }
    off := off + cb;
    assert data == null || nData >= off;
  }

  /** The identifier octets. */
  method UnparseTag(data: array?<Byte>, at: nat, nData: nat, cls: Class, tag: nat) returns (off: nat)
    requires tag < TAG_LIMIT
    requires data != null ==> |EncodeTag(cls, tag)| <= nData && at + nData <= data.Length
    modifies data
    ensures off == |EncodeTag(cls, tag)|
    ensures data != null ==> Wrote(old(data[..]), data[..], at, EncodeTag(cls, tag))
  {
    if tag < 31 {
      off := 1;
      if data != null {
        assert nData >= off;
        ghost var s0 := data[..];
        data[at] := cls + tag;
        WroteOne(s0, data[..], at, cls + tag);
      }
    } else {
      var temp := Split(tag, 128);
      FewTagSeptets(tag);
      assert |temp| <= 8;
      off := |temp| + 1;
      if data != null {
        assert nData >= off;
        var marked := Mark(temp, Digits(tag, 128));
        PutThenFill(data, at, cls + 31, marked, Marked(Digits(tag, 128)));
      }
    }
  }

  /** Every octet but the one written last gets the mark. */
  method Mark(temp: seq<nat>, ghost s: seq<nat>) returns (marked: seq<nat>)
    requires |temp| == |s| && InBase(s, 128) && forall k | 0 <= k < |s| :: temp[k] == s[|s| - 1 - k]
    ensures |marked| == |s| && forall k | 0 <= k < |s| :: marked[k] == Marked(s)[|s| - 1 - k]
  {
    marked := seq(|temp|, k requires 0 <= k < |temp| => if k == 0 then temp[k] else temp[k] + 128);
  }

  /** memcpy. */
  method Copy(data: array<Byte>, at: nat, bytes: Bytes)
    requires at + |bytes| <= data.Length
    modifies data
    ensures Wrote(old(data[..]), data[..], at, bytes)
  {
    forall k | 0 <= k < |bytes| {
      data[at + k] := bytes[k];
    }
    WroteExactly(old(data[..]), data[..], at, bytes);
  }

  /** One octet of prefix and the value behind it. */
  method PutThenCopy(data: array<Byte>, at: nat, x: Byte, bytes: Bytes)
    requires at + 1 + |bytes| <= data.Length
    modifies data
    ensures Wrote(old(data[..]), data[..], at, [x] + bytes)
  {
    ghost var s0 := data[..];
    data[at] := x;
    ghost var s1 := data[..];
    WroteOne(s0, s1, at, x);
    Copy(data, at + 1, bytes);
    WroteMore(s0, s1, data[..], at, [x], bytes);
  }

  /** Set the empty bits of a bit string that was just written to zero. */
  method ClearBits(data: array<Byte>, ghost s0: Bytes, at: nat, n: Bits, bytes: Bytes)
    requires Wrote(s0, data[..], at, [n] + bytes)
    modifies data
    ensures Wrote(s0, data[..], at, [n] + Masked(bytes, n))
  {
    if bytes != [] && n > 0 {
      var last := at + |bytes|;
      ghost var s1 := data[..];
      WroteExactly(s0, s1, at, [n] + bytes);
      assert ([n] + bytes)[|bytes|] == bytes[|bytes| - 1] == data[last];
      data[last] := ClearLow(data[last], n);
      WroteLast(s0, s1, data[..], at, [n] + bytes, data[last]);
      assert ([n] + bytes)[|bytes| := data[last]] == [n] + Masked(bytes, n);
    } else {
      assert n == 0 ==> forall x: Byte :: ClearLow(x, n) == x;
      assert Masked(bytes, n) == bytes;
    }
  }

  lemma WroteLast(s: Bytes, s': Bytes, s'': Bytes, at: nat, bs: Bytes, x: Byte)
    requires bs != [] && Wrote(s, s', at, bs) && |s'| == |s| && at + |bs| <= |s| && s'' == s'[at + |bs| - 1 := x]
    ensures Wrote(s, s'', at, bs[|bs| - 1 := x])
  {
    WroteExactly(s, s', at, bs);
    WroteExactly(s, s'', at, bs[|bs| - 1 := x]);
  }

  /** A value with its prefix. */
  method WriteValue(data: array<Byte>, at: nat, bytes: Bytes, prefix: Prefix, len: nat) returns (next: nat)
    requires len == |bytes| + (if prefix.NoPrefix? then 0 else 1) && at + len <= data.Length
    modifies data
    ensures next == at + len && Wrote(old(data[..]), data[..], at, Payload(bytes, prefix))
  {
    match prefix {
      case EmptyBits(n) =>
        assert |bytes| + 1 == len;
        ghost var s0 := data[..];
        PutThenCopy(data, at, n, bytes);
        ClearBits(data, s0, at, n, bytes);
        next := at + |bytes| + 1;
      case ZeroOctet =>
        assert |bytes| + 1 == len;
        PutThenCopy(data, at, 0, bytes);
        next := at + |bytes| + 1;
      case NoPrefix =>
        assert |bytes| == len;
        Copy(data, at, bytes);
        next := at + |bytes|;
    }
  }

  /** What stands behind the header. */
  function Body(content: Content): Bytes {
    match content
    case Value(bytes, prefix) => Payload(bytes, prefix)
    case Children(ts) => EncodeAll(ts)
  }

  lemma EncodeParts(tlv: Tlv)
    requires Sized(tlv) && InRange(tlv)
    ensures Encode(tlv) == EncodeHeader(tlv.cls, tlv.tag, tlv.len) + Body(tlv.content)
    ensures |EncodeHeader(tlv.cls, tlv.tag, tlv.len)| == tlv.off
  {
  }

  /** atlv_unparse_der: it writes exactly off + len octets and none of its assertions fires. */
  method UnparseDer(tlv: Tlv, data: array<Byte>, at: nat, end: nat) returns (next: nat)
    requires Sized(tlv) && InRange(tlv) && at + tlv.off + tlv.len <= end <= data.Length
    modifies data
    ensures next == at + tlv.off + tlv.len && Wrote(old(data[..]), data[..], at, Encode(tlv))
    decreases tlv, 1
  {
    ghost var s0 := data[..];
    EncodeParts(tlv);
    var off := UnparseClsTagLen(data, at, end - at, tlv.cls, tlv.tag, tlv.len);
    assert off == tlv.off;
    ghost var s1 := data[..];
    next := UnparseBody(tlv, data, at + off, end);
    WroteMore(s0, s1, data[..], at, EncodeHeader(tlv.cls, tlv.tag, tlv.len), Body(tlv.content));
    assert next <= end;
  }

  /** The value or the children behind a header. */
  method UnparseBody(tlv: Tlv, data: array<Byte>, at: nat, end: nat) returns (next: nat)
    requires Sized(tlv) && InRange(tlv) && at + tlv.len <= end <= data.Length
    modifies data
    ensures next == at + tlv.len && Wrote(old(data[..]), data[..], at, Body(tlv.content))
    decreases tlv, 0
  {
    match tlv.content {
      case Value(bytes, prefix) => next := WriteValue(data, at, bytes, prefix, tlv.len);
      case Children(ts) => next := UnparseChildren(ts, data, at, end);
    }
  }

  /** The children one after the other. */
  method UnparseChildren(ts: seq<Tlv>, data: array<Byte>, at: nat, end: nat) returns (next: nat)
    requires AllSized(ts) && AllInRange(ts) && at + TotalSize(ts) <= end <= data.Length
    modifies data
    ensures next == at + TotalSize(ts) && Wrote(old(data[..]), data[..], at, EncodeAll(ts))
    decreases ts, 2
  {
    ghost var s0 := data[..];
    next := at;
    var k := 0;
    while k < |ts|
      invariant 0 <= k <= |ts| && next == at + TotalSize(ts[..k]) && next + TotalSize(ts[k..]) <= end
      invariant Wrote(s0, data[..], at, EncodeAll(ts[..k]))
    {
      next := UnparseChild(ts, k, data, s0, at, next, end);
      k := k + 1;
    }
    assert ts[..k] == ts;
  }

  /** One child behind those before it. */
  method UnparseChild(ts: seq<Tlv>, k: nat, data: array<Byte>, ghost s0: Bytes, ghost at: nat, from: nat, end: nat)
    returns (next: nat)
    requires AllSized(ts) && AllInRange(ts) && k < |ts| && from == at + TotalSize(ts[..k])
    requires from + TotalSize(ts[k..]) <= end <= data.Length && Wrote(s0, data[..], at, EncodeAll(ts[..k]))
    modifies data
    ensures next == at + TotalSize(ts[..k + 1]) && next + TotalSize(ts[k + 1..]) <= end
    ensures Wrote(s0, data[..], at, EncodeAll(ts[..k + 1]))
    decreases ts, 1
  {
    var ctlv := ts[k];
    ghost var s1 := data[..];
    ChildNext(ts, k);
    var exp := from + ctlv.len + ctlv.off;
    next := UnparseDer(ctlv, data, from, end);
    assert exp == next;
    WroteMore(s0, s1, data[..], at, EncodeAll(ts[..k]), Encode(ctlv));
  }

  lemma ChildNext(ts: seq<Tlv>, k: nat)
    requires k < |ts| && AllSized(ts)
    ensures EncodeAll(ts[..k + 1]) == EncodeAll(ts[..k]) + Encode(ts[k])
    ensures TotalSize(ts[..k + 1]) == TotalSize(ts[..k]) + ts[k].off + ts[k].len
    ensures TotalSize(ts[k..]) == ts[k].off + ts[k].len + TotalSize(ts[k + 1..])
    ensures |EncodeAll(ts[..k])| == TotalSize(ts[..k]) && Sized(ts[k])
  {
    assert ts[..k + 1] == ts[..k] + [ts[k]] && ts[k..][1..] == ts[k + 1..];
    EncodeAppend(ts[..k], ts[k]);
    SizedTotal(ts[..k]);
  }

  /** atlv_unparse_to_bytes. */
  method UnparseToBytes(tlv: Tlv) returns (bytes: Bytes)
    requires Sized(tlv) && InRange(tlv)
    ensures bytes == Encode(tlv)
  {
    var len := tlv.off + tlv.len;
    var data := new Byte[len](_ => 0);
    ghost var before := data[..];
    var at := UnparseDer(tlv, data, 0, len);
    assert at == len;
    SizedSize(tlv);
    WroteExactly(before, data[..], 0, Encode(tlv));
    bytes := data[..];
  }
}
