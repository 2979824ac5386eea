/** The growing buffer of egg/egg-buffer.c. */
module WireBuffer {
  import opened Wrappers
  import opened WireFormat

  // An allocator answers each request, the first one, the second one and so on, for a size: it may
  // refuse any of them.
  type Allocator = (nat, nat) -> bool

  const UINT32_LIMIT: nat := 0x1_0000_0000

  /** The size a buffer of a size grows to for a request. */
  function Grown(size: nat, need: nat): (r: nat)
    requires size <= need
    ensures need <= r <= 2 * need
    ensures 2 * size <= r
  {
    var twice := size * 2;
    if need > twice then twice + need else twice
  }

  /** What a new buffer is given. */
  function Room(reserve: nat): nat { if reserve == 0 then 64 else reserve }

  lemma TwoOctets(n: Uint16)
    ensures BigEndian(n, SHORT) == [n / 0x100 % 0x100, n % 0x100]
  {
    assert BigEndian(n / 0x100 / 0x100, 0) == [];
    assert BigEndian(n / 0x100, 1) == [n / 0x100 % 0x100];
  }

  lemma FourOctets(n: nat)
    ensures BigEndian(n, WORD) == [n / 0x100_0000 % 0x100, n / 0x1_0000 % 0x100, n / 0x100 % 0x100, n % 0x100]
  {
    assert BigEndian(n / 0x100_0000 / 0x100, 0) == [];
    assert BigEndian(n / 0x100_0000, 1) == [n / 0x100_0000 % 0x100];
    assert n / 0x1_0000 / 0x100 == n / 0x100_0000;
    assert BigEndian(n / 0x1_0000, 2) == [n / 0x100_0000 % 0x100, n / 0x1_0000 % 0x100];
    assert n / 0x100 / 0x100 == n / 0x1_0000;
    assert BigEndian(n / 0x100, 3) == [n / 0x100_0000 % 0x100, n / 0x1_0000 % 0x100, n / 0x100 % 0x100];
  }

  lemma DigitWraps(q: nat, r: nat)
    ensures (q * 0x100 + r) % 0x100 == r % 0x100
  {
  }

  /** The count of the strings of a vector is kept in 32 bits. */
  lemma CountWraps(n: nat)
    ensures BigEndian(n % UINT32_LIMIT, WORD) == BigEndian(n, WORD)
  {
    FourOctets(n);
    FourOctets(n % UINT32_LIMIT);
    var q, r := n / UINT32_LIMIT, n % UINT32_LIMIT;
    assert n / 0x100_0000 == q * 0x100 + r / 0x100_0000;
    assert n / 0x1_0000 == q * 0x1_0000 + r / 0x1_0000;
    assert n / 0x100 == q * 0x100_0000 + r / 0x100;
    assert n == q * UINT32_LIMIT + r;
    DigitWraps(q, r / 0x100_0000);
    DigitWraps(q * 0x100, r / 0x1_0000);
    DigitWraps(q * 0x1_0000, r / 0x100);
    DigitWraps(q * 0x100_0000, r);
  }

  predicate Added(texts: seq<Bytes>) { forall k | 0 <= k < |texts| :: |texts[k]| < TOO_LONG }

  lemma TextsFrom(texts: seq<Bytes>, i: nat)
    requires i < |texts|
    ensures EncodeTexts(texts[i..]) == EncodeArray(Some(texts[i])) + EncodeTexts(texts[i + 1..])
  {
    assert texts[i..][1..] == texts[i + 1..];
  }

  lemma Joined(a: Bytes, b: Bytes, c: Bytes)
    ensures (a + b) + c == a + (b + c)
  {
  }

  /** What is there now: what was there, and some or, when ok, all of the octets. */
  ghost predicate Grew(ok: bool, was: Bytes, now: Bytes, octets: Bytes) {
    (ok ==> now == was + octets) && was <= now <= was + octets
  }

  /** Some octets and then others. */
  lemma Both(ok: bool, was: Bytes, mid: Bytes, now: Bytes, a: Bytes, b: Bytes, whole: Bytes)
    requires mid == was + a && Grew(ok, mid, now, b) && whole == a + b
    ensures Grew(ok, was, now, whole)
  {
    assert (was + a) + b == was + whole;
  }

  lemma OnlyFirst(was: Bytes, now: Bytes, a: Bytes, b: Bytes, whole: Bytes)
    requires Grew(false, was, now, a) && whole == a + b
    ensures Grew(false, was, now, whole)
  {
    assert (was + a) + b == was + whole;
  }

  /** One more string of a vector: the octets of those before it, of it, and of those after it. */
  lemma OneMore(ok: bool, was: Bytes, mid: Bytes, now: Bytes, done: Bytes, next: Bytes, rest: Bytes)
    requires mid == was + done && Grew(ok, mid, now, next)
    ensures Grew(false, was, now, done + (next + rest))
    ensures ok ==> now == was + (done + next)
  {
    Both(ok, was, mid, now, done, next, done + next);
    assert (done + next) + rest == done + (next + rest);
    OnlyFirst(was, now, done + next, rest, done + (next + rest));
  }

  lemma JoinedOctets(whole: Bytes, a: Bytes, b: Bytes)
    requires |whole| == |a| + |b| && forall k | 0 <= k < |a| :: whole[k] == a[k]
    requires forall k | 0 <= k < |b| :: whole[|a| + k] == b[k]
    ensures whole == a + b
  {
  }

  lemma SameOctets(a: Bytes, b: Bytes)
    requires |a| == |b| && forall k | 0 <= k < |a| :: a[k] == b[k]
    ensures a == b
  {
  }

  class Buffer {
    // The C field allocated_len is buf.Length.
    var buf: array<Byte>
    var len: nat
    var failures: nat
    // A buffer without an allocator is static: its memory is owned elsewhere.
    var allocator: Option<Allocator>
    // How often the allocator was asked.
    var asked: nat
    // How many octets all reallocations so far had to copy.
    ghost var copied: nat

    ghost predicate Valid()
      reads this
    {
      len <= buf.Length && copied <= buf.Length
    }

    ghost function Contents(): Bytes
      reads this, buf
      requires Valid()
    {
      buf[..len]
    }

    /** Whether room for a number of octets is there or can be had. */
    ghost predicate Serves(need: nat)
      reads this
    {
      need < buf.Length || (allocator.Some? && allocator.value(asked, Grown(buf.Length, need)))
    }

    /** An allocator that never refuses. */
    ghost predicate Generous()
      reads this
    {
      allocator.Some? && forall k: nat, n: nat :: allocator.value(k, n)
    }

    constructor Static(octets: array<Byte>)
      ensures Valid() && buf == octets && Contents() == octets[..] && allocator == None && failures == 0
    {
      buf, len, failures, allocator, asked, copied := octets, octets.Length, 0, None, 0, 0;
      new;
      assert octets[..octets.Length] == octets[..];
    }

    /** An empty buffer; when the allocator refuses, one that stays empty. */
    constructor Full(reserve: nat, source: Allocator)
      ensures Valid() && fresh(buf) && Contents() == []
      ensures source(0, Room(reserve)) ==> buf.Length == Room(reserve) && allocator == Some(source) && failures == 0
      ensures !source(0, Room(reserve)) ==> buf.Length == 0 && allocator == None && failures == 1
    {
      if source(0, Room(reserve)) {
        buf := new Byte[Room(reserve)];
        failures, allocator := 0, Some(source);
      } else {
        buf := new Byte[0];
        failures, allocator := 1, None;
      }
      len, asked, copied := 0, 1, 0;
    }

    /** Makes room for a number of octets: the octets there are kept, and the memory asked for is at most twice what is
      * needed. */
    method Reserve(need: nat) returns (ok: bool)
      requires Valid()
      modifies this`buf, this`failures, this`asked, this`copied
      ensures Valid() && Contents() == old(Contents()) && (buf == old(buf) || fresh(buf))
      ensures ok == old(Serves(need)) && failures == old(failures) + (if ok then 0 else 1)
      ensures ok ==> need <= buf.Length
      ensures buf.Length == if ok && need >= old(buf.Length) then Grown(old(buf.Length), need) else old(buf.Length)
      ensures old(Generous()) ==> Generous()
    {
      if need < buf.Length { return true; }
      var size := Grown(buf.Length, need);
      if allocator.None? {
        failures := failures + 1;
        return false;
      }
      asked := asked + 1;
      if !allocator.value(asked - 1, size) {
        failures := failures + 1;
        return false;
      }
      Reallocate(size);
      return true;
    }

    /** The allocator moves the octets that are there to a new place. */
    method Reallocate(size: nat)
      requires Valid() && 2 * buf.Length <= size
      modifies this`buf, this`copied
      ensures Valid() && fresh(buf) && buf.Length == size && buf[..old(buf.Length)] == old(buf[..])
      ensures Contents() == old(Contents())
    {
      var next := new Byte[size];
      forall i | 0 <= i < buf.Length { next[i] := buf[i]; }
      assert next[..buf.Length] == buf[..];
      copied := copied + buf.Length;
      assert next[..len] == next[..buf.Length][..len];
      buf := next;
    }

    method Reset()
      requires Valid()
      modifies this`len, this`failures, buf
      ensures Valid() && Contents() == [] && failures == 0
      ensures forall i | 0 <= i < buf.Length :: buf[i] == 0
    {
      forall i | 0 <= i < buf.Length { buf[i] := 0; }
      len, failures := 0, 0;
    }

    /** What every add keeps, and what it adds. */
    twostate predicate Adds(ok: bool, octets: Bytes)
      reads this, buf
    {
      old(Valid()) && Valid() && (buf == old(buf) || fresh(buf)) && (old(Generous()) ==> Generous())
      && Grew(ok, old(Contents()), Contents(), octets)
      && (ok ==> failures == old(failures))
    }

    method Append(octets: Bytes) returns (ok: bool)
      requires Valid()
      modifies this`buf, this`failures, this`asked, this`copied, this`len, buf
      ensures Adds(ok, octets) && ok == old(Serves(len + |octets|))
      ensures !ok ==> failures == old(failures) + 1 && Contents() == old(Contents())
    {
      ok := Reserve(len + |octets|);
      if ok {
        ghost var was := Contents();
        var start := len;
        forall i | 0 <= i < |octets| { buf[start + i] := octets[i]; }
        len := len + |octets|;
        JoinedOctets(Contents(), was, octets);
      }
    }

    method AddByte(val: Byte) returns (ok: bool)
      requires Valid()
      modifies this`buf, this`failures, this`asked, this`copied, this`len, buf
      ensures Adds(ok, Encode(Octet(val))) && ok == old(Serves(len + 1))
      ensures !ok ==> failures == old(failures) + 1 && Contents() == old(Contents())
    {
      ok := Reserve(len + 1);
      if ok {
        ghost var was := Contents();
        buf[len] := val;
        len := len + 1;
        assert Contents() == was + [val];
      }
    }

    /** Octets in place of those from an offset on; octets that would not lie in the buffer are an error. */
    method SetUint16(offset: nat, val: Uint16) returns (ok: bool)
      requires Valid()
      modifies this`failures, buf
      ensures Valid() && ok == (offset + SHORT <= len) && failures == old(failures) + (if ok then 0 else 1)
      ensures Contents() == if ok then old(Contents()[..offset] + Encode16(val) + Contents()[offset + SHORT..])
        else old(Contents())
    {
      if len < SHORT || offset > len - SHORT {
        failures := failures + 1;
        return false;
      }
      ghost var was := Contents();
      buf[offset] := val / 0x100 % 0x100;
      buf[offset + 1] := val % 0x100;
      TwoOctets(val);
      assert Contents() == was[..offset] + [val / 0x100 % 0x100, val % 0x100] + was[offset + SHORT..];
      return true;
    }

    method SetUint32(offset: nat, val: Uint32) returns (ok: bool)
      requires Valid()
      modifies this`failures, buf
      ensures Valid() && ok == (offset + WORD <= len) && failures == old(failures) + (if ok then 0 else 1)
      ensures Contents() == if ok then old(Contents()[..offset] + Encode32(val) + Contents()[offset + WORD..])
        else old(Contents())
    {
      if len < WORD || offset > len - WORD {
        failures := failures + 1;
        return false;
      }
      ghost var was := Contents();
      var a, b, c, d := val / 0x100_0000 % 0x100, val / 0x1_0000 % 0x100, val / 0x100 % 0x100, val % 0x100;
      FourOctets(val);
      buf[offset], buf[offset + 1], buf[offset + 2], buf[offset + 3] := a, b, c, d;
      assert Contents() == was[..offset] + [a, b, c, d] + was[offset + WORD..];
      return true;
    }

    method AddUint16(val: Uint16) returns (ok: bool)
      requires Valid()
      modifies this`buf, this`failures, this`asked, this`copied, this`len, buf
      ensures Adds(ok, Encode(Short(val))) && ok == old(Serves(len + SHORT))
      ensures !ok ==> failures == old(failures) + 1 && Contents() == old(Contents())
    {
      ghost var was := Contents();
      ok := Reserve(len + SHORT);
      if ok {
        len := len + SHORT;
        assert Contents()[..|was|] == was;
        var done := SetUint16(len - SHORT, val);
        assert Contents() == was + Encode16(val);
      }
    }

    method AddUint32(val: Uint32) returns (ok: bool)
      requires Valid()
      modifies this`buf, this`failures, this`asked, this`copied, this`len, buf
      ensures Adds(ok, Encode(Word(val))) && ok == old(Serves(len + WORD))
      ensures !ok ==> failures == old(failures) + 1 && Contents() == old(Contents())
    {
      ghost var was := Contents();
      ok := Reserve(len + WORD);
      if ok {
        len := len + WORD;
        assert Contents()[..|was|] == was;
        var done := SetUint32(len - WORD, val);
        assert Contents() == was + Encode32(val);
      }
    }

    method AddUint64(val: Uint64) returns (ok: bool)
      requires Valid()
      modifies this`buf, this`failures, this`asked, this`copied, this`len, buf
      ensures Adds(ok, Encode(Long(val))) && (!ok ==> failures == old(failures) + 1)
      ensures old(Generous()) ==> ok
    {
      ghost var was := Contents();
      ghost var high, low := Encode32(val / 0x1_0000_0000), Encode32(val % 0x1_0000_0000);
      ok := AddUint32(val / 0x1_0000_0000);
      ghost var mid := Contents();
      if !ok {
        OnlyFirst(was, mid, high, low, Encode64(val));
        return;
      }
      ok := AddUint32(val % 0x1_0000_0000);
      Both(ok, was, mid, Contents(), high, low, Encode64(val));
    }

    /** Octets, or none at all: an array too long to be added is an error. */
    method AddByteArray(val: Option<Bytes>) returns (ok: bool)
      requires Valid()
      modifies this`buf, this`failures, this`asked, this`copied, this`len, buf
      ensures Adds(ok, Encode(Array(val))) && (!ok ==> failures == old(failures) + 1)
      ensures ok ==> Fits(Array(val))
      ensures old(Generous()) && Fits(Array(val)) ==> ok
    {
      if val.None? {
        ok := AddUint32(ABSENT);
        return;
      }
      if |val.value| >= TOO_LONG {
        failures := failures + 1;
        return false;
      }
      ok := AddCounted(val.value);
    }

    /** A count and the octets. */
    method AddCounted(octets: Bytes) returns (ok: bool)
      requires Valid() && |octets| < TOO_LONG
      modifies this`buf, this`failures, this`asked, this`copied, this`len, buf
      ensures Adds(ok, EncodeArray(Some(octets))) && (!ok ==> failures == old(failures) + 1)
      ensures old(Generous()) ==> ok
    {
      ghost var was := Contents();
      ghost var head, whole := Encode32(|octets|), EncodeArray(Some(octets));
      ok := AddUint32(|octets|);
      ghost var mid := Contents();
      if !ok {
        OnlyFirst(was, mid, head, octets, whole);
        return;
      }
      ok := Append(octets);
      Both(ok, was, mid, Contents(), head, octets, whole);
    }

    /** A string too long is refused, but is not counted as a failure. */
    method AddString(str: Option<Bytes>) returns (ok: bool)
      requires Valid()
      modifies this`buf, this`failures, this`asked, this`copied, this`len, buf
      ensures Adds(ok, EncodeArray(str))
      ensures !ok ==> failures == old(failures) + if str.Some? && |str.value| >= TOO_LONG then 0 else 1
      ensures ok ==> str.None? || |str.value| < TOO_LONG
      ensures old(Generous()) && (str.None? || |str.value| < TOO_LONG) ==> ok
    {
      if str.None? {
        ok := AddUint32(ABSENT);
        return;
      }
      if |str.value| >= TOO_LONG { return false; }
      ok := AddCounted(str.value);
    }

    /** A vector of strings: how many there are, and each. */
    method AddStringv(strv: Option<seq<Bytes>>) returns (ok: bool)
      requires Valid()
      modifies this`buf, this`failures, this`asked, this`copied, this`len, buf
      ensures strv.None? ==> !ok && Adds(false, []) && failures == old(failures)
      ensures strv.Some? ==> Adds(ok, Encode(Texts(strv.value)))
      ensures ok ==> Added(strv.value)
      ensures old(Generous()) && strv.Some? && Added(strv.value) ==> ok
    {
      if strv.None? { return false; }
      var texts := strv.value;
      var n := Count(texts);
      ghost var was := Contents();
      ghost var head, rest, whole := Encode32(n), EncodeTexts(texts), Encode(Texts(texts));
      ok := AddUint32(n);
      ghost var mid := Contents();
      if !ok {
        OnlyFirst(was, mid, head, rest, whole);
        return;
      }
      ok := AddStrings(texts);
      Both(ok, was, mid, Contents(), head, rest, whole);
    }

    /** The number of strings, in 32 bits. */
    method Count(texts: seq<Bytes>) returns (n: Uint32)
      ensures Encode32(n) == BigEndian(|texts|, WORD)
    {
      n := 0;
      var v := 0;
      while v < |texts|
        invariant v <= |texts| && n == v % UINT32_LIMIT
      {
        n, v := (n + 1) % UINT32_LIMIT, v + 1;
      }
      CountWraps(|texts|);
    }

    method AddStrings(texts: seq<Bytes>) returns (ok: bool)
      requires Valid()
      modifies this`buf, this`failures, this`asked, this`copied, this`len, buf
      ensures Adds(ok, EncodeTexts(texts))
      ensures ok ==> Added(texts)
      ensures old(Generous()) && Added(texts) ==> ok
    {
      var v := 0;
      ghost var was, whole, done := Contents(), EncodeTexts(texts), [];
      assert texts[0..] == texts;
      while v < |texts|
        invariant v <= |texts| && Valid() && (buf == old(buf) || fresh(buf)) && (old(Generous()) ==> Generous())
        invariant Contents() == was + done && whole == done + EncodeTexts(texts[v..]) && failures == old(failures)
        invariant forall k | 0 <= k < v :: |texts[k]| < TOO_LONG
      {
        ghost var mid, next, rest := Contents(), EncodeArray(Some(texts[v])), EncodeTexts(texts[v + 1..]);
        TextsFrom(texts, v);
        ok := AddString(Some(texts[v]));
        OneMore(ok, was, mid, Contents(), done, next, rest);
        if !ok { return; }
        Joined(done, next, rest);
        done, v := done + next, v + 1;
      }
      ok := true;
    }

    /** What every get keeps, and when it counts as a failure. */
    twostate predicate Looks(failed: bool)
      reads this, buf
    {
      old(Valid()) && Valid() && Contents() == old(Contents()) && failures == old(failures) + if failed then 1 else 0
    }

    method GetByte(offset: nat) returns (r: Option<(Byte, nat)>)
      requires Valid()
      modifies this`failures
      ensures r == GetOctet(Contents(), offset) && Looks(r.None?)
    {
      if len < 1 || offset > len - 1 {
        failures := failures + 1;
        return None;
      }
      r := Some((buf[offset], offset + 1));
    }

    method GetUint16(offset: nat) returns (r: Option<(Uint16, nat)>)
      requires Valid()
      modifies this`failures
      ensures r == Get16(Contents(), offset) && Looks(r.None?)
    {
      if len < SHORT || offset > len - SHORT {
        failures := failures + 1;
        return None;
      }
      var a: int, b: int := buf[offset], buf[offset + 1];
      TwoBack(Contents()[offset..offset + SHORT]);
      r := Some((a * 0x100 + b, offset + SHORT));
    }

    method GetUint32(offset: nat) returns (r: Option<(Uint32, nat)>)
      requires Valid()
      modifies this`failures
      ensures r == Get32(Contents(), offset) && Looks(r.None?)
    {
      if len < WORD || offset > len - WORD {
        failures := failures + 1;
        return None;
      }
      var a: int, b: int, c: int, d: int := buf[offset], buf[offset + 1], buf[offset + 2], buf[offset + 3];
      FourBack(Contents()[offset..offset + WORD]);
      r := Some((a * 0x100_0000 + b * 0x1_0000 + c * 0x100 + d, offset + WORD));
    }

    method GetUint64(offset: nat) returns (r: Option<(Uint64, nat)>)
      requires Valid()
      modifies this`failures
      ensures r == Get64(Contents(), offset) && Looks(r.None?)
    {
      var a := GetUint32(offset);
      if a.None? { return None; }
      var b := GetUint32(a.value.1);
      if b.None? { return None; }
      r := Some((Join(a.value.0, b.value.0), b.value.1));
    }

    method GetByteArray(offset: nat) returns (r: Option<(Option<Bytes>, nat)>)
      requires Valid()
      modifies this`failures
      ensures r == GetArray(Contents(), offset) && Looks(r.None?)
    {
      var head := GetUint32(offset);
      if head.None? { return None; }
      var (n, next) := head.value;
      if n == ABSENT { return Some((None, next)); }
      if n >= TOO_LONG || len < n || next > len - n {
        failures := failures + 1;
        return None;
      }
      SameOctets(Contents()[next..next + n], buf[next..next + n]);
      r := Some((Some(buf[next..next + n]), next + n));
    }

    /** A string with a zero octet in it is refused; only a missing length is counted as a failure. */
    method GetString(offset: nat) returns (r: Option<(Option<Bytes>, nat)>)
      requires Valid()
      modifies this`failures
      ensures r == GetText(Contents(), offset) && Looks(Get32(Contents(), offset).None?)
    {
      var head := GetUint32(offset);
      if head.None? { return None; }
      var (n, next) := head.value;
      if n == ABSENT { return Some((None, next)); }
      if n >= TOO_LONG || len < n || next > len - n { return None; }
      var str := buf[next..next + n];
      SameOctets(Contents()[next..next + n], str);
      if !NoZero(str) { return None; }
      r := Some((Some(str), next + n));
    }

    method GetStringv(offset: nat) returns (r: Option<(seq<Option<Bytes>>, nat)>)
      requires Valid()
      modifies this`failures
      ensures r == GetVector(Contents(), offset) && Valid() && Contents() == old(Contents())
    {
      var head := GetUint32(offset);
      if head.None? { return None; }
      r := GetStrings(head.value.0, head.value.1);
    }

    method GetStrings(n: nat, start: nat) returns (r: Option<(seq<Option<Bytes>>, nat)>)
      requires Valid()
      modifies this`failures
      ensures r == GetTexts(Contents(), start, n) && Valid() && Contents() == old(Contents())
    {
      var strv: seq<Option<Bytes>>, i, next := [], 0, start;
      ghost var d := Contents();
      NothingAhead(GetTexts(d, start, n));
      while i < n
        invariant i <= n && Valid() && Contents() == d
        invariant GetTexts(d, start, n) == Ahead(strv, GetTexts(d, next, n - i))
      {
        TextsStep(d, next, n - i, strv);
        var str := GetString(next);
        if str.None? { return None; }
        strv, i, next := strv + [str.value.0], i + 1, str.value.1;
      }
      assert strv + [] == strv;
      r := Some((strv, next));
    }

    // ---------------------------------------------------------------- items of any types

    /** The add for the type of an item. */
    method AddItem(item: Item) returns (ok: bool)
      requires Valid()
      modifies this`buf, this`failures, this`asked, this`copied, this`len, buf
      ensures Adds(ok, Encode(item))
      ensures old(Generous()) && Fits(item) ==> ok
    {
      match item
      case Octet(b) => ok := AddByte(b);
      case Short(n) => ok := AddUint16(n);
      case Word(n) => ok := AddUint32(n);
      case Long(n) => ok := AddUint64(n);
      case Array(bytes) => ok := AddByteArray(bytes);
      case Text(text) => ok := AddString(text);
      case Texts(texts) => ok := AddStringv(Some(texts));
    }

    /** Items of any types are added one after the other, until one is refused. */
    method AddItems(items: seq<Item>) returns (ok: bool)
      requires Valid()
      modifies this`buf, this`failures, this`asked, this`copied, this`len, buf
      ensures Adds(ok, EncodeAll(items))
      ensures old(Generous()) && AllFit(items) ==> ok
    {
      var k := 0;
      ghost var was, whole, done := Contents(), EncodeAll(items), [];
      assert items[0..] == items;
      while k < |items|
        invariant k <= |items| && Valid() && (buf == old(buf) || fresh(buf)) && (old(Generous()) ==> Generous())
        invariant Contents() == was + done && whole == done + EncodeAll(items[k..]) && failures == old(failures)
      {
        ghost var mid, next, rest := Contents(), Encode(items[k]), EncodeAll(items[k + 1..]);
        ItemsFrom(items, k);
        ok := AddItem(items[k]);
        OneMore(ok, was, mid, Contents(), done, next, rest);
        if !ok { return; }
        Joined(done, next, rest);
        done, k := done + next, k + 1;
      }
      ok := true;
    }

    /** The get for the type of an item, and whether it returns the item. */
    method GetItem(item: Item, offset: nat) returns (same: bool, next: nat)
      requires Valid()
      modifies this`failures
      ensures Valid() && Contents() == old(Contents())
      ensures forall n | Finds(Contents(), offset, item, n) :: same && next == n
      ensures same ==> Finds(Contents(), offset, item, next)
    {
      same, next := false, 0;
      match item
      case Octet(b) =>
        var r := GetByte(offset);
        if r.Some? { same, next := r.value.0 == b, r.value.1; }
      case Short(n) =>
        var r := GetUint16(offset);
        if r.Some? { same, next := r.value.0 == n, r.value.1; }
      case Word(n) =>
        var r := GetUint32(offset);
        if r.Some? { same, next := r.value.0 == n, r.value.1; }
      case Long(n) =>
        var r := GetUint64(offset);
        if r.Some? { same, next := r.value.0 == n, r.value.1; }
      case Array(bytes) =>
        var r := GetByteArray(offset);
        if r.Some? { same, next := r.value.0 == bytes, r.value.1; }
      case Text(text) =>
        var r := GetString(offset);
        if r.Some? { same, next := r.value.0 == text, r.value.1; }
      case Texts(texts) =>
        var r := GetStringv(offset);
        if r.Some? { same, next := r.value.0 == Present(texts), r.value.1; }
    }

    /** One get after the other, each from where the last one left off. */
    method GetItems(items: seq<Item>, start: nat, ghost end: nat) returns (all: bool, last: nat)
      requires Valid() && FindsAll(Contents(), start, items, end)
      modifies this`failures
      ensures Valid() && Contents() == old(Contents()) && all && last == end
    {
      ghost var d := Contents();
      var k := 0;
      all, last := true, start;
      assert items[0..] == items;
      while k < |items|
        invariant k <= |items| && Valid() && Contents() == d && all && FindsAll(d, last, items[k..], end)
      {
        ghost var n := FirstFound(d, last, items[k..], end);
        assert items[k..][1..] == items[k + 1..];
        all, last := GetItem(items[k], last);
        k := k + 1;
      }
    }

    /** Items of any types that are added, and then got again: each get returns its item, and the last one ends where
      * the buffer does. When the allocator never refuses, they are added. */
    method AddAndGet(items: seq<Item>) returns (ok: bool, all: bool, last: nat)
      requires Valid() && AllFit(items)
      modifies this`buf, this`failures, this`asked, this`copied, this`len, buf
      ensures Valid() && (old(Generous()) ==> ok)
      ensures ok ==> all && last == |Contents()| && Contents() == old(Contents()) + EncodeAll(items)
    {
      var start := len;
      ghost var was := Contents();
      ok := AddItems(items);
      all, last := false, start;
      if ok {
        ReadTail(Contents(), was, items);
        all, last := GetItems(items, start, |Contents()|);
      }
    }
  }

  /** Some strings in front of those that the rest of the loop finds. */
  function Ahead(strv: seq<Option<Bytes>>, r: Option<(seq<Option<Bytes>>, nat)>): Option<(seq<Option<Bytes>>, nat)> {
    if r.None? then None else Some((strv + r.value.0, r.value.1))
  }

  lemma TextsStep(d: Bytes, at: nat, n: nat, strv: seq<Option<Bytes>>)
    requires n > 0
    ensures GetText(d, at).None? ==> Ahead(strv, GetTexts(d, at, n)) == None
    ensures GetText(d, at).Some? ==> StepsTo(d, at, n, strv, GetText(d, at).value.0, GetText(d, at).value.1)
  {
    if GetText(d, at).Some? {
      var (text, next) := GetText(d, at).value;
      var rest := GetTexts(d, next, n - 1);
      if rest.Some? { assert strv + ([text] + rest.value.0) == strv + [text] + rest.value.0; }
    }
  }

  ghost predicate StepsTo(d: Bytes, at: nat, n: nat, strv: seq<Option<Bytes>>, text: Option<Bytes>, next: nat)
    requires n > 0
  {
    Ahead(strv, GetTexts(d, at, n)) == Ahead(strv + [text], GetTexts(d, next, n - 1))
  }

  lemma NothingAhead(r: Option<(seq<Option<Bytes>>, nat)>)
    ensures Ahead([], r) == r
  {
    if r.Some? { assert [] + r.value.0 == r.value.0; }
  }

  lemma TwoBack(b: Bytes)
    requires |b| == SHORT
    ensures Number(b) == b[0] as int * 0x100 + b[1]
  {
    assert b[..1][..0] == [];
    assert Number(b[..1]) == b[0];
  }

  lemma FourBack(b: Bytes)
    requires |b| == WORD
    ensures Number(b) == b[0] as int * 0x100_0000 + b[1] as int * 0x1_0000 + b[2] as int * 0x100 + b[3]
  {
    assert b[..3][..2] == b[..2];
    assert Number(b[..3]) == Number(b[..2]) * 0x100 + b[2];
    TwoBack(b[..2]);
  }

  // ---------------------------------------------------------------- items of any types

  lemma ItemsFrom(items: seq<Item>, k: nat)
    requires k < |items|
    ensures EncodeAll(items[k..]) == Encode(items[k]) + EncodeAll(items[k + 1..])
  {
    assert items[k..][1..] == items[k + 1..];
  }

  lemma FirstFound(d: Bytes, at: nat, items: seq<Item>, end: nat) returns (next: nat)
    requires items != [] && FindsAll(d, at, items, end)
    ensures Finds(d, at, items[0], next) && FindsAll(d, next, items[1..], end)
  {
    next :| Finds(d, at, items[0], next) && FindsAll(d, next, items[1..], end);
  }

  lemma StandsBehind(whole: Bytes, before: Bytes, after: Bytes)
    requires whole == before + after
    ensures StandsAt(whole, |before|, after) && |before| + |after| == |whole|
  {
  }

  /** Whatever items were added behind some octets, one get after the other returns them all, and the last ends where
    * the octets do. */
  lemma ReadTail(whole: Bytes, before: Bytes, items: seq<Item>)
    requires whole == before + EncodeAll(items) && AllFit(items)
    ensures FindsAll(whole, |before|, items, |whole|)
  {
    StandsBehind(whole, before, EncodeAll(items));
    var end := ReadBack(whole, |before|, items);
    assert end == |whole|;
  }
}
