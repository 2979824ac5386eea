/** egg/egg-decimal.c: decimal text to a big-endian number, by halving the digits in place
    and collecting the remainders as bits. */
module Decimals {
  import opened Wrappers
  import opened Numerals

  predicate AllDigits(s: string) { forall k | 0 <= k < |s| :: IsDigit(s[k]) }

  /** The digits of a text, leading zeros included. */
  function TextDigits(s: string): (ds: seq<nat>)
    requires AllDigits(s)
    ensures |ds| == |s| && InBase(ds, 10)
  {
    seq(|s|, k requires 0 <= k < |s| => DigitOf(s[k]))
  }

  /** The minimal big-endian form of the number a text stands for. Empty text stands for none: memory of no octets is a
    * null pointer. */
  function Decoded(s: string): Option<seq<nat>> {
    if s != [] && AllDigits(s) then Some(Digits(Val(TextDigits(s), 10), 256)) else None
  }

  lemma {:induction false} PowSum(m: nat, n: nat)
    ensures Power(m + n) == Power(m) * Power(n)
  {
    if n > 0 { PowSum(m, n - 1); }
  }

  lemma {:induction false} PowMonotone(m: nat, n: nat)
    requires Power(m) < Power(n)
    ensures m < n
  {
    if m >= n {
      PowSum(n, m - n);
      AtLeast(Power(m - n), Power(n));
    }
  }

  /** n digits make less than 2^(4 n). */
  lemma {:induction false} ValBelow(ds: seq<nat>)
    requires InBase(ds, 10)
    ensures Val(ds, 10) < Power(4 * |ds|)
  {
    if ds != [] {
      var k := |ds| - 1;
      ValBelow(ds[..k]);
      assert Power(4 * k + 4) == 2 * Power(4 * k + 3) == 4 * Power(4 * k + 2) == 8 * Power(4 * k + 1) ==
        16 * Power(4 * k);
    }
  }

  /** The first digit counts base to the number of the others. */
  lemma {:induction false} ValTop(x: nat, s: seq<nat>)
    ensures Val([x] + s, 256) == x * Power(8 * |s|) + Val(s, 256)
  {
    if s == [] {
      assert [x] + s == [] + [x];
      ValPush([], x, 256);
    } else {
      var init, d := s[..|s| - 1], s[|s| - 1];
      ValTop(x, init);
      assert [x] + s == [x] + init + [d];
      ValPush([x] + init, d, 256);
      PowSum(8 * |init|, 8);
      assert Power(8) == 256;
      Shifted(x, Power(8 * |init|), Val(init, 256), d);
    }
  }

  lemma Shifted(x: nat, p: nat, v: nat, d: nat)
    ensures (x * p + v) * 256 + d == x * (p * 256) + (v * 256 + d)
  {
  }

  lemma {:induction false} LeadingZero(s: seq<nat>, b: nat)
    ensures Val([0] + s, b) == Val(s, b)
  {
    if s == [] {
      assert [0] + s == [] + [0];
      ValPush([], 0, b);
    } else {
      var init, d := s[..|s| - 1], s[|s| - 1];
      LeadingZero(init, b);
      assert [0] + s == [0] + init + [d];
      ValPush([0] + init, d, b);
    }
  }

  // ---------------------------------------------------------------- halving

  /** What is carried into the place behind these digits. */
  function Carry(ds: seq<nat>): nat { if ds != [] && ds[|ds| - 1] % 2 == 1 then 5 else 0 }

  /** Long division by two. */
  function Halved(ds: seq<nat>): (r: seq<nat>)
    ensures |r| == |ds|
  {
    if ds == [] then [] else
      var init := ds[..|ds| - 1];
      Halved(init) + [ds[|ds| - 1] / 2 + Carry(init)]
  }

  lemma {:induction false} HalvedVal(ds: seq<nat>)
    requires InBase(ds, 10)
    ensures InBase(Halved(ds), 10)
    ensures 2 * Val(Halved(ds), 10) + Carry(ds) / 5 == Val(ds, 10)
  {
    if ds != [] {
      var init, d := ds[..|ds| - 1], ds[|ds| - 1];
      HalvedVal(init);
      ValPush(Halved(init), d / 2 + Carry(init), 10);
      assert ds == init + [d];
      ValPush(init, d, 10);
    }
  }

  /** The first digit is halved, and if it was one the second becomes at least five. */
  lemma {:induction false} HalvedFront(ds: seq<nat>)
    requires ds != []
    ensures Halved(ds)[0] == ds[0] / 2
    ensures |ds| > 1 && ds[0] == 1 ==> Halved(ds)[1] >= 5
  {
    if |ds| == 1 {
      assert Halved(ds[..0]) == [];
    } else {
      HalvedFront(ds[..|ds| - 1]);
    }
  }

  /** Long division, one digit further. */
  lemma HalvedNext(ds: seq<nat>, j: nat)
    requires j < |ds|
    ensures Halved(ds[..j + 1]) == Halved(ds[..j]) + [ds[j] / 2 + Carry(ds[..j])]
    ensures Carry(ds[..j + 1]) == if ds[j] % 2 == 1 then 5 else 0
    ensures j == 0 ==> Carry(ds[..j]) == 0
    ensures j == 1 && ds[0] == 1 ==> Carry(ds[..j]) == 5
  {
    var next := ds[..j + 1];
    assert next[..|next| - 1] == ds[..j] && next[|next| - 1] == ds[j];
  }

  /** Divide the digits from `cleared` on by two, in place; a digit that becomes a leading zero is
      passed over. */
  method Halve(digits: array<nat>, cleared: nat, n: nat) returns (cleared': nat)
    requires cleared < n <= digits.Length && digits[cleared] > 0
    modifies digits
    ensures forall k | 0 <= k < cleared || n <= k < digits.Length :: digits[k] == old(digits[k])
    ensures digits[cleared..n] == Halved(old(digits[cleared..n]))
    ensures cleared' == if old(digits[cleared]) == 1 then cleared + 1 else cleared
  {
    ghost var ds := digits[cleared..n];
    cleared' := cleared;
    var carry := 0;
    var i := cleared;
    ghost var j, done, half := 0, [], [];
    while i < n
      invariant i == cleared + j && 0 <= j <= |ds| && done == ds[..j] && half == Halved(done)
      invariant carry == Carry(done) && digits[cleared..i] == half
      invariant forall k | 0 <= k < cleared || i <= k < digits.Length :: digits[k] == old(digits[k])
      invariant cleared' == if j > 0 && ds[0] == 1 then cleared + 1 else cleared
    {
      HalvedNext(ds, j);
      var d := digits[i];
      assert d == ds[j];
      digits[i] := d / 2 + carry;
      carry := if d % 2 == 1 then 5 else 0;
      assert digits[cleared..i + 1] == half + [digits[i]];
      if i == cleared' && digits[i] == 0 {
        cleared' := cleared' + 1;
      }
      i, j := i + 1, j + 1;
      done, half := ds[..j], Halved(ds[..j]);
    }
    assert ds[..j] == ds;
  }

  /** What halving does to the number and its leading digit. */
  lemma HalveStep(ds: seq<nat>, k: nat)
    requires InBase(ds, 10) && ds != [] && ds[0] > 0 && k == if ds[0] == 1 then 1 else 0
    ensures InBase(Halved(ds)[k..], 10) && Val(Halved(ds)[k..], 10) == Val(ds, 10) / 2
    ensures ds[|ds| - 1] % 2 == Val(ds, 10) % 2
    ensures Halved(ds)[k..] != [] ==> Halved(ds)[k] > 0
  {
    HalvedVal(ds);
    HalvedFront(ds);
    var h, last := Halved(ds), ds[|ds| - 1];
    assert Carry(ds) / 5 == last % 2;
    Parity(Val(ds, 10), Val(h, 10), last % 2);
    if k == 1 {
      Behind(h);
    } else {
      assert h[0..] == h;
    }
  }

  lemma Parity(v: nat, h: nat, c: nat)
    requires 2 * h + c == v && c < 2
    ensures h == v / 2 && c == v % 2
  {
  }

  lemma Behind(h: seq<nat>)
    requires InBase(h, 10) && h != [] && h[0] == 0
    ensures InBase(h[1..], 10) && Val(h[1..], 10) == Val(h, 10)
  {
    assert h == [0] + h[1..];
    LeadingZero(h[1..], 10);
  }

  // ---------------------------------------------------------------- collecting the bits

  /** A number with bit b on top, or not. */
  function Plus(m: nat, bit: nat, b: nat): nat { if bit == 1 then m + Power(b) else m }

  /** Set bit k of an octet. */
  function SetBit(x: nat, bit: nat, k: nat): nat {
    if bit == 1 && BitOf(x, k) == 0 then x + Power(k) else x
  }

  function BitOf(x: nat, k: nat): nat { if k == 0 then x % 2 else BitOf(x / 2, k - 1) }

  lemma {:induction false} NoHighBit(x: nat, k: nat)
    requires x < Power(k)
    ensures BitOf(x, k) == 0
  {
    if k > 0 { NoHighBit(x / 2, k - 1); }
  }

  lemma SetHighBit(x: nat, bit: nat, k: nat)
    requires x < Power(k) && bit < 2
    ensures SetBit(x, bit, k) == Plus(x, bit, k) < Power(k + 1)
  {
    NoHighBit(x, k);
  }

  /** The bits collected so far: from at on the octets hold m < 2^(8 q + k), q full ones and k bits. */
  ghost predicate Collected(usg: seq<nat>, at: int, k: nat, m: nat) {
    && 0 <= at < |usg| && k < 8
    && InBase(usg, 256)
    && usg[at] < Power(k)
    && (forall i | 0 <= i < at :: usg[i] == 0)
    && Val(usg[at..], 256) == m
  }

  lemma RaiseBy(x: nat, p: nat, q: nat, v: nat, a: nat, b: nat, product: nat)
    requires a == x * q + v && b == (x + p) * q + v && product == q * p
    ensures b == a + product
  {
  }

  lemma RaisedTop(x: nat, p: nat, q: nat, rest: seq<nat>, product: nat)
    requires q == Power(8 * |rest|) && product == q * p
    ensures Val([x + p] + rest, 256) == Val([x] + rest, 256) + product
  {
    var v, a, b := Val(rest, 256), Val([x] + rest, 256), Val([x + p] + rest, 256);
    assert a == x * q + v by { ValTop(x, rest); }
    assert b == (x + p) * q + v by { ValTop(x + p, rest); }
    RaiseBy(x, p, q, v, a, b, product);
  }

  lemma RaiseTop(x: nat, y: nat, bit: nat, k: nat, b: nat, rest: seq<nat>)
    requires y == Plus(x, bit, k) && b == 8 * |rest| + k
    ensures Val([y] + rest, 256) == Plus(Val([x] + rest, 256), bit, b)
  {
    if bit == 1 {
      var p, q, product := Power(k), Power(8 * |rest|), Power(b);
      assert product == q * p by { PowSum(8 * |rest|, k); }
      RaisedTop(x, p, q, rest, product);
      assert y == x + p;
    }
  }

  /** One more bit adds bit * 2^(number of bits so far). */
  lemma CollectBit(usg: seq<nat>, at: int, k: nat, m: nat, bit: nat)
    requires Collected(usg, at, k, m) && bit < 2
    ensures var x := SetBit(usg[at], bit, k); var usg' := usg[at := x];
      && x < Power(k + 1) && InBase(usg', 256)
      && Val(usg'[at..], 256) == Plus(m, bit, 8 * (|usg| - 1 - at) + k)
  {
    var x, rest := SetBit(usg[at], bit, k), usg[at + 1..];
    SetHighBit(usg[at], bit, k);
    PowAtMost(k + 1);
    RaiseTop(usg[at], x, bit, k, 8 * (|usg| - 1 - at) + k, rest);
    assert usg[at..] == [usg[at]] + rest && usg[at := x][at..] == [x] + rest;
  }

  lemma PowAtMost(k: nat)
    requires k <= 8
    ensures Power(k) <= 256
  {
    assert Power(8) == 256;
    if k < 8 { PowUp(k, 8); }
  }

  lemma {:induction false} PowUp(k: nat, n: nat)
    requires k <= n
    ensures Power(k) <= Power(n)
  {
    if k < n { PowUp(k, n - 1); }
  }

  lemma {:induction false} OctetsBelow(s: seq<nat>)
    requires InBase(s, 256)
    ensures Val(s, 256) < Power(8 * |s|)
  {
    if s != [] {
      OctetsBelow(s[..|s| - 1]);
      PowSum(8 * (|s| - 1), 8);
      assert Power(8) == 256;
    }
  }

  /** The number so far: what is left of the digits, shifted by the bits, and the bits. */
  ghost predicate Divided(n: nat, v: nat, b: nat, m: nat) {
    n == v * Power(b) + m && m < Power(b)
  }

  lemma DividedMore(n: nat, v: nat, b: nat, m: nat)
    requires Divided(n, v, b, m)
    ensures Divided(n, v / 2, b + 1, Plus(m, v % 2, b))
  {
    var h, c := v / 2, v % 2;
    assert v == 2 * h + c;
    Halves(h, Power(b));
    assert v * Power(b) == h * Power(b + 1) + if c == 1 then Power(b) else 0;
  }

  lemma Halves(h: nat, p: nat)
    ensures 2 * h * p == h * (2 * p) && (2 * h + 1) * p == h * (2 * p) + p
  {
  }

  /** The octets never run out. */
  lemma RoomForBits(n: nat, v: nat, b: nat, m: nat, len: nat)
    requires Divided(n, v, b, m) && v > 0 && n < Power(4 * len)
    ensures b < 4 * len
  {
    AtLeast(v, Power(b));
    PowMonotone(b, 4 * len);
  }

  /** The octets with the highest bit set do not start with zero. */
  lemma FirstOctet(s: seq<nat>, b: nat)
    requires s != [] && InBase(s, 256) && 8 * (|s| - 1) < b && Val(s, 256) >= Power(b - 1)
    ensures s[0] > 0 && Digits(Val(s, 256), 256) == s
  {
    if s[0] == 0 {
      assert s == [0] + s[1..];
      LeadingZero(s[1..], 256);
      OctetsBelow(s[1..]);
      PowUp(8 * (|s| - 1), b - 1);
    }
    DigitsVal(s, 256);
  }

  // ---------------------------------------------------------------- the whole

  lemma MoreText(data: string, i: nat)
    requires i < |data| && AllDigits(data[..i]) && IsDigit(data[i])
    ensures AllDigits(data[..i + 1])
    ensures Val(TextDigits(data[..i + 1]), 10) == Val(TextDigits(data[..i]), 10) * 10 + DigitOf(data[i])
  {
    assert data[..i + 1] == data[..i] + [data[i]];
    assert TextDigits(data[..i + 1]) == TextDigits(data[..i]) + [DigitOf(data[i])];
    ValPush(TextDigits(data[..i]), DigitOf(data[i]), 10);
  }

  /** Convert everything to an array of digits, without leading zeros. */
  method ReadDigits(data: string) returns (ok: bool, digits: array<nat>, n: nat)
    ensures ok <==> AllDigits(data)
    ensures fresh(digits) && digits.Length == |data| && n <= |data|
    ensures ok ==> InBase(digits[..n], 10) && Val(digits[..n], 10) == Val(TextDigits(data), 10)
    ensures ok && n > 0 ==> digits[0] > 0
  {
    digits := new nat[|data|];
    n := 0;
    var i := 0;
    while i < |data|
      invariant n <= i <= |data| && AllDigits(data[..i])
      invariant InBase(digits[..n], 10) && (n > 0 ==> digits[0] > 0)
      invariant Val(digits[..n], 10) == Val(TextDigits(data[..i]), 10)
    {
      var ch := data[i];
      if !IsDigit(ch) {
        return false, digits, n;
      }
      MoreText(data, i);
      if ch != '0' || n > 0 {
        ghost var before := digits[..n];
        digits[n] := DigitOf(ch);
        n := n + 1;
        assert digits[..n] == before + [DigitOf(ch)];
        ValPush(before, DigitOf(ch), 10);
      } else {
        assert digits[..n] == [] && Val([], 10) == 0;
      }
      i := i + 1;
    }
    assert data[..i] == data;
    ok := true;
  }

  /** Where the collecting stands: b bits are out, the digits from cleared on stand for v, and the
      highest bit is set once nothing is left. */
  ghost predicate Midway(ds: seq<nat>, usg: seq<nat>, at: int, k: nat, number: nat, b: nat, m: nat) {
    && InBase(ds, 10) && (ds != [] ==> ds[0] > 0)
    && Collected(usg, at, k, m) && b == 8 * (|usg| - 1 - at) + k
    && Divided(number, Val(ds, 10), b, m)
    && number < Power(4 * |usg|)
    && (ds == [] && b > 0 ==> m >= Power(b - 1))
  }

  /** One bit goes out. */
  lemma BitOut(ds: seq<nat>, usg: seq<nat>, at: int, k: nat, number: nat, b: nat, m: nat)
    requires Midway(ds, usg, at, k, number, b, m) && ds != []
    ensures var c := if ds[0] == 1 then 1 else 0;
      var ds' := Halved(ds)[c..]; var bit := ds[|ds| - 1] % 2;
      var usg' := usg[at := SetBit(usg[at], bit, k)];
      var at', k' := if k == 7 then at - 1 else at, if k == 7 then 0 else k + 1;
      at' >= 0 && Midway(ds', usg', at', k', number, b + 1, Plus(m, bit, b)) && Val(ds', 10) < Val(ds, 10)
  {
    var c, bit := if ds[0] == 1 then 1 else 0, ds[|ds| - 1] % 2;
    var v := Val(ds, 10);
    HalveStep(ds, c);
    CollectBit(usg, at, k, m, bit);
    PositiveVal(ds);
    DividedMore(number, v, b, m);
    RoomForBits(number, v, b, m, |usg|);
    var ds', usg' := Halved(ds)[c..], usg[at := SetBit(usg[at], bit, k)];
    if ds' == [] {
      assert v / 2 == 0 && v == 1 && bit == 1;
    }
    if k == 7 {
      assert 8 * (|usg| - 1 - at) + 7 < 4 * |usg|;
      NextOctet(usg', at, Plus(m, bit, b));
    }
  }

  lemma {:induction false} PositiveVal(ds: seq<nat>)
    requires ds != [] && ds[0] > 0
    ensures Val(ds, 10) > 0
  {
    if |ds| > 1 { PositiveVal(ds[..|ds| - 1]); }
  }

  lemma NextOctet(usg: seq<nat>, at: int, m: nat)
    requires 0 < at < |usg| && InBase(usg, 256) && Val(usg[at..], 256) == m && forall i | 0 <= i < at :: usg[i] == 0
    ensures Collected(usg, at - 1, 0, m)
  {
    assert usg[at - 1..] == [0] + usg[at..];
    LeadingZero(usg[at..], 256);
  }

  /** *at_byte |= bit << at_bit, and on to the next bit: the write position never leaves the buffer. */
  method StoreBit(usg: array<nat>, atByte: int, atBit: int, bit: nat) returns (atByte': int, atBit': int)
    requires 0 <= atByte < usg.Length && 0 <= atBit < 8 && (atBit == 7 ==> atByte > 0)
    modifies usg
    ensures usg[..] == old(usg[..])[atByte := SetBit(old(usg[atByte]), bit, atBit)]
    ensures atByte' == (if atBit == 7 then atByte - 1 else atByte) && atBit' == if atBit == 7 then 0 else atBit + 1
  {
    usg[atByte] := SetBit(usg[atByte], bit, atBit);
    atByte', atBit' := atByte, atBit + 1;
    if atBit == 7 {
      atBit' := 0;
      atByte' := atByte' - 1;
      assert atByte' >= 0;
    }
  }

  /** One round: a bit goes out and the digits are halved. */
  method Round(digits: array<nat>, cleared: nat, n: nat, usg: array<nat>, atByte: int, atBit: int, ghost number: nat,
    ghost b: nat, ghost m: nat)
    returns (cleared': nat, atByte': int, atBit': int, ghost m': nat)
    requires digits != usg && cleared < n <= digits.Length && 0 <= atBit < 8
    requires Midway(digits[cleared..n], usg[..], atByte, atBit, number, b, m)
    modifies digits, usg
    ensures cleared <= cleared' <= n && 0 <= atBit' < 8
    ensures Midway(digits[cleared'..n], usg[..], atByte', atBit', number, b + 1, m')
    ensures Val(digits[cleared'..n], 10) < old(Val(digits[cleared..n], 10))
  {
    ghost var ds, was := digits[cleared..n], usg[..];
    BitOut(ds, was, atByte, atBit, number, b, m);
    var bit := digits[n - 1] % 2;
    m' := Plus(m, bit, b);
    atByte', atBit' := StoreBit(usg, atByte, atBit, bit);
    assert digits[cleared..n] == ds;
    cleared' := Halve(digits, cleared, n);
    assert digits[cleared'..n] == digits[cleared..n][cleared' - cleared..];
  }

  /** egg_decimal_decode: the minimal big-endian form, or nothing for text that is empty or no number. */
  method Decode(data: string) returns (r: Option<seq<nat>>)
    ensures r == Decoded(data)
  {
    var ok, digits, n := ReadDigits(data);
    if !ok {
      return None;
    }
    ghost var number := Val(TextDigits(data), 10);
    ValBelow(TextDigits(data));
    if n == 0 {
      assert digits[..0] == [];
      return if data == [] then None else Some([]);
    }
    var usg := new nat[|data|](_ => 0);
    var cleared, atByte, atBit := 0, |data| - 1, 0;
    ghost var b: nat, m: nat := 0, 0;
    BlankOctets(usg[..]);
    assert digits[cleared..n] == digits[..n];
    while cleared < n
      invariant 0 <= cleared <= n && 0 <= atBit < 8 && (cleared == n ==> b > 0)
      invariant Midway(digits[cleared..n], usg[..], atByte, atBit, number, b, m)
      decreases Val(digits[cleared..n], 10)
    {
      cleared, atByte, atBit, m := Round(digits, cleared, n, usg, atByte, atBit, number, b, m);
      b := b + 1;
    }
    if atBit == 0 {
      atByte := atByte + 1;
    }
    Finished(usg[..], atByte, atBit, number, b, m);
    return Some(usg[atByte..]);
  }

  lemma BlankOctets(usg: seq<nat>)
    requires usg != [] && forall i | 0 <= i < |usg| :: usg[i] == 0
    ensures Collected(usg, |usg| - 1, 0, 0)
  {
    assert usg[|usg| - 1..] == [] + [0];
    ValPush([], 0, 256);
  }

  /** Nothing is left: the octets from the highest bit on are the number. */
  lemma Finished(usg: seq<nat>, from: int, k: nat, number: nat, b: nat, m: nat)
    requires k < 8 && b > 0
    requires Midway([], usg, if k == 0 then from - 1 else from, k, number, b, m)
    ensures 0 <= from <= |usg| && usg[from..] == Digits(number, 256)
  {
    var at := if k == 0 then from - 1 else from;
    assert Val([], 10) == 0 && number == m;
    if k == 0 {
      assert usg[at] < Power(0) == 1;
      assert usg[at..] == [0] + usg[from..];
      LeadingZero(usg[from..], 256);
    }
    FirstOctet(usg[from..], b);
  }
}
