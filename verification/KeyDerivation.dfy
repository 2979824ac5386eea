/** Key derivation over an uninterpreted hash or keyed hash: egg/egg-hkdf.c (RFC 5869) and the
    loops of egg/egg-symkey.c (RFC 8018). */
module KeyDerivation {

  type Bytes = seq<bv8>

  /** A hash with digests of n octets. */
  ghost predicate IsHash(hash: Bytes -> Bytes, n: nat) {
    n > 0 && forall x :: |hash(x)| == n
  }

  /** A keyed hash with digests of n octets. */
  ghost predicate IsMac(mac: (Bytes, Bytes) -> Bytes, n: nat) {
    n > 0 && forall k, x :: |mac(k, x)| == n
  }

  /** memcpy into a buffer. */
  method Copy(to: array<bv8>, at: nat, from: Bytes)
    requires at + |from| <= to.Length
    modifies to
    ensures to[..at] == old(to[..at]) && to[at..at + |from|] == from && to[at + |from|..] == old(to[at + |from|..])
  {
    forall k | 0 <= k < |from| {
      to[at + k] := from[k];
    }
  }

  /** memcpy over a whole buffer. */
  method Overwrite(to: array<bv8>, from: Bytes)
    requires |from| == to.Length
    modifies to
    ensures to[..] == from
  {
    Copy(to, 0, from);
    assert to[..] == to[0..0 + |from|];
  }

  /** As much of a block as there is room for goes behind what was written before. */
  method Fill(output: array<bv8>, at: nat, block: Bytes, ghost before: Bytes) returns (step: nat)
    requires at <= output.Length && output[..at] == before
    modifies output
    ensures step == if |block| < output.Length - at then |block| else output.Length - at
    ensures at + step <= output.Length && output[..at + step] <= before + block
    ensures step == |block| ==> output[..at + step] == before + block
    ensures at + step == output.Length ==> output[..] <= before + block
  {
    step := if |block| < output.Length - at then |block| else output.Length - at;
    Copy(output, at, block[..step]);
    assert output[..at + step] == output[..at] + output[at..at + step];
    assert output[..at + step] == (before + block)[..at + step];
    assert output[..output.Length] == output[..];
  }

  // ---------------------------------------------------------------- HKDF

  /** T(i) of section 2.3 of RFC 5869. */
  function HkdfBlock(mac: (Bytes, Bytes) -> Bytes, prk: Bytes, info: Bytes, i: nat): Bytes {
    if i == 0 then [] else mac(prk, HkdfBlock(mac, prk, info, i - 1) + info + [(i % 256) as bv8])
  }

  /** T(1) up to T(i), one behind the other. */
  function HkdfBlocks(mac: (Bytes, Bytes) -> Bytes, prk: Bytes, info: Bytes, i: nat): Bytes {
    if i == 0 then [] else HkdfBlocks(mac, prk, info, i - 1) + HkdfBlock(mac, prk, info, i)
  }

  lemma HkdfBlockSize(mac: (Bytes, Bytes) -> Bytes, n: nat, prk: Bytes, info: Bytes, i: nat)
    requires IsMac(mac, n) && i > 0
    ensures |HkdfBlock(mac, prk, info, i)| == n
  {
    var message := HkdfBlock(mac, prk, info, i - 1) + info + [(i % 256) as bv8];
    assert |mac(prk, message)| == n;
  }

  lemma {:induction false} HkdfSize(mac: (Bytes, Bytes) -> Bytes, n: nat, prk: Bytes, info: Bytes, i: nat)
    requires IsMac(mac, n)
    ensures |HkdfBlocks(mac, prk, info, i)| == i * n && (i > 0 ==> |HkdfBlock(mac, prk, info, i)| == n)
  {
    if i > 0 {
      HkdfSize(mac, n, prk, info, i - 1);
      OneMore(i - 1, n);
      HkdfBlockSize(mac, n, prk, info, i);
    }
  }

  lemma HkdfNext(mac: (Bytes, Bytes) -> Bytes, prk: Bytes, info: Bytes, i: nat, block: Bytes)
    requires i > 0 && block == mac(prk, HkdfBlock(mac, prk, info, i - 1) + info + [(i % 256) as bv8])
    ensures block == HkdfBlock(mac, prk, info, i)
    ensures HkdfBlocks(mac, prk, info, i) == HkdfBlocks(mac, prk, info, i - 1) + block
  {
  }

  lemma OneMore(i: nat, n: nat)
    ensures (i + 1) * n == i * n + n
  {
  }

  /** More blocks only add octets at the end. */
  lemma {:induction false} HkdfPrefix(mac: (Bytes, Bytes) -> Bytes, prk: Bytes, info: Bytes, i: nat, j: nat)
    requires i <= j
    ensures HkdfBlocks(mac, prk, info, i) <= HkdfBlocks(mac, prk, info, j)
  {
    if i < j { HkdfPrefix(mac, prk, info, i, j - 1); }
  }

  /** egg_hkdf_perform: the first octets of T(1) || T(2) || ... up to T(255), for any output that
      fits; salt defaults to zeros. */
  method Hkdf(mac: (Bytes, Bytes) -> Bytes, hashLen: nat, input: Bytes, salt: Bytes, hasSalt: bool, info: Bytes,
    output: array<bv8>) returns (ok: bool)
    requires IsMac(mac, hashLen)
    modifies output
    ensures ok <==> output.Length <= 255 * hashLen
    ensures !ok ==> output[..] == old(output[..])
    ensures ok ==> var prk := mac(if hasSalt then salt else Zeros(hashLen), input);
      output[..] <= HkdfBlocks(mac, prk, info, 255)
  {
    if output.Length > 255 * hashLen {
      return false;
    }
    var key := if hasSalt then salt else Zeros(hashLen);
    var prk := mac(key, input);
    Expand(mac, hashLen, prk, info, output);
    ok := true;
  }

  function Zeros(n: nat): Bytes { seq(n, _ => 0) }

  /** The block behind the one in the buffer. */
  method NextBlock(mac: (Bytes, Bytes) -> Bytes, prk: Bytes, info: Bytes, i: nat, buffer: Bytes) returns (block: Bytes)
    requires i > 0 && buffer == HkdfBlock(mac, prk, info, i - 1)
    ensures block == HkdfBlock(mac, prk, info, i)
    ensures HkdfBlocks(mac, prk, info, i) == HkdfBlocks(mac, prk, info, i - 1) + block
  {
    block := mac(prk, buffer + info + [(i % 256) as bv8]);
    HkdfNext(mac, prk, info, i, block);
  }

  /** The expand loop: every octet of the output is written. */
  method Expand(mac: (Bytes, Bytes) -> Bytes, hashLen: nat, prk: Bytes, info: Bytes, output: array<bv8>)
    requires IsMac(mac, hashLen) && output.Length <= 255 * hashLen
    modifies output
    ensures output[..] <= HkdfBlocks(mac, prk, info, 255)
  {
    HkdfSize(mac, hashLen, prk, info, 255);
    var nOutput, at, buffer := output.Length, 0, [];
    var i := 1;
    while i < 256
      invariant 1 <= i <= 256 && 0 <= at && 0 <= nOutput && at + nOutput == output.Length
      invariant buffer == HkdfBlock(mac, prk, info, i - 1)
      invariant output[..at] == HkdfBlocks(mac, prk, info, i - 1)
    {
      buffer := NextBlock(mac, prk, info, i, buffer);
      var step := Fill(output, at, buffer, HkdfBlocks(mac, prk, info, i - 1));
      nOutput := nOutput - step;
      at := at + step;
      if nOutput == 0 {
        HkdfPrefix(mac, prk, info, i, 255);
        return;
      }
      i := i + 1;
    }
    assert nOutput == 0;
  }

  // ---------------------------------------------------------------- PBKDF2

  function Xor(a: Bytes, b: Bytes): Bytes
    requires |a| == |b|
  {
    seq(|a|, k requires 0 <= k < |a| => a[k] ^ b[k])
  }

  /** INT(i) of section 5.2 of RFC 8018: four octets, most significant first. */
  function Int(i: nat): Bytes {
    [(i / 0x100_0000 % 256) as bv8, (i / 0x1_0000 % 256) as bv8, (i / 0x100 % 256) as bv8, (i % 256) as bv8]
  }

  lemma FourDigits(a: nat, b: nat, c: nat, d: nat)
    requires a < 256 && b < 256 && c < 256 && d < 256
    ensures var i := 0x100 * (0x100 * (0x100 * a + b) + c) + d;
      i / 0x100_0000 % 256 == a && i / 0x1_0000 % 256 == b && i / 0x100 % 256 == c && i % 256 == d
  {
  }

  /** The most significant octet of a number is the first. */
  lemma IntOctets(a: nat, b: nat, c: nat, d: nat)
    requires a < 256 && b < 256 && c < 256 && d < 256
    ensures Int(0x100 * (0x100 * (0x100 * a + b) + c) + d) == [a as bv8, b as bv8, c as bv8, d as bv8]
    ensures Int(1) == [0, 0, 0, 1]
  {
    FourDigits(a, b, c, d);
    FourDigits(0, 0, 0, 1);
  }

  /** U_u, from what the first one is computed of: the salt and the number of the block. */
  function Chain(mac: (Bytes, Bytes) -> Bytes, password: Bytes, first: Bytes, u: nat): Bytes
    requires u > 0
  {
    mac(password, if u == 1 then first else Chain(mac, password, first, u - 1))
  }

  /** U_1 ^ ... ^ U_c, on top of zeros. */
  function XorChain(mac: (Bytes, Bytes) -> Bytes, n: nat, password: Bytes, first: Bytes, c: nat): (r: Bytes)
    requires IsMac(mac, n)
    ensures |r| == n
  {
    if c == 0 then Zeros(n) else Xor(XorChain(mac, n, password, first, c - 1), Chain(mac, password, first, c))
  }

  /** The first l blocks, one behind the other. */
  function Blocks(mac: (Bytes, Bytes) -> Bytes, n: nat, password: Bytes, salt: Bytes, c: nat, l: nat): Bytes
    requires IsMac(mac, n)
  {
    if l == 0 then [] else Blocks(mac, n, password, salt, c, l - 1) + XorChain(mac, n, password, salt + Int(l), c)
  }

  /** T_i as RFC 8018 has it: without the zeros the loop starts from. */
  lemma XorFromFirst(mac: (Bytes, Bytes) -> Bytes, n: nat, password: Bytes, first: Bytes)
    requires IsMac(mac, n)
    ensures XorChain(mac, n, password, first, 1) == mac(password, first)
  {
    var u := Chain(mac, password, first, 1);
    assert XorChain(mac, n, password, first, 0) == Zeros(n);
    forall k | 0 <= k < n ensures Xor(Zeros(n), u)[k] == u[k] { }
  }

  /** t ^= u, in place. */
  method XorInto(t: array<bv8>, u: array<bv8>)
    requires t != u && t.Length == u.Length
    modifies t
    ensures t[..] == Xor(old(t[..]), u[..])
  {
    ghost var t0 := t[..];
    var k := 0;
    while k < t.Length
      invariant 0 <= k <= t.Length
      invariant forall j | 0 <= j < t.Length :: t[j] == if j < k then t0[j] ^ u[j] else t0[j]
    {
      t[k] := t[k] ^ u[k];
      k := k + 1;
    }
  }

  /** One block: T and U are overwritten. */
  method Pbkdf2Block(mac: (Bytes, Bytes) -> Bytes, n: nat, password: Bytes, first: Bytes, iterations: nat,
    t: array<bv8>, u: array<bv8>)
    requires IsMac(mac, n) && iterations > 0 && t != u && t.Length == u.Length == n
    modifies t, u
    ensures t[..] == XorChain(mac, n, password, first, iterations)
  {
    Overwrite(t, Zeros(n));
    var c := 1;
    while c <= iterations
      invariant 1 <= c <= iterations + 1
      invariant t[..] == XorChain(mac, n, password, first, c - 1)
      invariant c > 1 ==> u[..] == Chain(mac, password, first, c - 1)
    {
      var digest := mac(password, if c == 1 then first else u[..]);
      assert digest == Chain(mac, password, first, c);
      Overwrite(u, digest);
      XorInto(t, u);
      c := c + 1;
    }
  }

  /** generate_pbkdf2: T_1 || T_2 || ..., cut off at the end of the output. */
  method Pbkdf2(mac: (Bytes, Bytes) -> Bytes, n: nat, password: Bytes, salt: Bytes, iterations: nat, output: array<bv8>)
    returns (ok: bool, ghost l: nat)
    requires IsMac(mac, n) && output.Length < 0xFFFF_FFFF
    modifies output
    ensures ok <==> iterations > 0 && output.Length > 0
    ensures ok ==> output[..] <= Blocks(mac, n, password, salt, iterations, l)
    ensures ok ==> (l - 1) * n < output.Length <= l * n
  {
    l := 0;
    if iterations == 0 || output.Length == 0 {
      return false, l;
    }
    var t, u := new bv8[n], new bv8[n];
    var blocks := (output.Length - 1) / n + 1;
    LastBlock(output.Length, n, blocks);
    l := blocks;
    var i, at := 1, 0;
    while i <= blocks
      invariant 1 <= i <= blocks + 1 && 0 <= at <= output.Length
      invariant i <= blocks ==> at == (i - 1) * n && output[..at] == Blocks(mac, n, password, salt, iterations, i - 1)
      invariant i > blocks ==> output[..] <= Blocks(mac, n, password, salt, iterations, blocks)
    {
      Pbkdf2Block(mac, n, password, salt + Int(i), iterations, t, u);
      ghost var before := Blocks(mac, n, password, salt, iterations, i - 1);
      assert Blocks(mac, n, password, salt, iterations, i) == before + t[..];
      OneMore(i - 1, n);
      if i < blocks {
        BlockFits(i, n, blocks, output.Length);
      }
      var step := Fill(output, at, t[..], before);
      at := at + step;
      i := i + 1;
    }
    ok := true;
  }

  lemma LastBlock(len: nat, n: nat, l: nat)
    requires n > 0 && len > 0 && l == (len - 1) / n + 1
    ensures (l - 1) * n < len <= l * n
  {
    OneMore(l - 1, n);
  }

  lemma BlockFits(i: nat, n: nat, l: nat, len: nat)
    requires i < l && (l - 1) * n < len
    ensures i * n < len
  {
    assert (l - 1 - i) * n >= 0;
  }

  // ---------------------------------------------------------------- one hash for key and iv

  /** The hash applied count times. */
  function Repeat(hash: Bytes -> Bytes, x: Bytes, count: nat): Bytes {
    if count == 0 then x else hash(Repeat(hash, x, count - 1))
  }

  /** The digest of pass number p: each pass hashes the digest of the one before it as well. */
  function PassDigest(hash: Bytes -> Bytes, seed: Bytes, count: nat, p: nat): Bytes {
    Repeat(hash, (if p == 0 then [] else PassDigest(hash, seed, count, p - 1)) + seed, count)
  }

  /** The digests of the first p passes, one behind the other. */
  function Digests(hash: Bytes -> Bytes, seed: Bytes, count: nat, p: nat): Bytes {
    if p == 0 then [] else Digests(hash, seed, count, p - 1) + PassDigest(hash, seed, count, p - 1)
  }

  /** The rounds of one pass overwrite the digest. */
  method Rehash(hash: Bytes -> Bytes, n: nat, first: Bytes, iterations: nat, digest: array<bv8>)
    requires IsHash(hash, n) && iterations >= 1 && digest.Length == n
    modifies digest
    ensures digest[..] == Repeat(hash, first, iterations)
  {
    Overwrite(digest, hash(first));
    assert Repeat(hash, first, 1) == hash(first);
    var i := 1;
    while i < iterations
      invariant 1 <= i <= iterations && digest[..] == Repeat(hash, first, i)
    {
      Overwrite(digest, hash(digest[..]));
      i := i + 1;
    }
  }

  /** Octets of a digest from i on go where they are still needed. */
  method Take(digest: Bytes, i: nat, out: array?<bv8>, at: nat, needed: nat) returns (i': nat, at': nat, needed': nat)
    requires i <= |digest| && (out != null ==> at + needed == out.Length)
    modifies out
    ensures i <= i' <= |digest| && needed' == needed - (i' - i) && at' == at + (i' - i)
    ensures needed' == 0 || i' == |digest|
    ensures out != null ==> out[..at'] == old(out[..at]) + digest[i..i']
  {
    i', at', needed' := i, at, needed;
    while needed' > 0 && i' < |digest|
      invariant i <= i' <= |digest| && needed' == needed - (i' - i) && at' == at + (i' - i)
      invariant out != null ==> out[..at'] == old(out[..at]) + digest[i..i']
    {
      if out != null {
        out[at'] := digest[i'];
      }
      at', needed', i' := at' + 1, needed' - 1, i' + 1;
    }
  }

  /** What key and iv hold together is the beginning of the stream; a buffer that is not wanted
      still uses up its octets. */
  ghost predicate Filled(stream: Bytes, key: array?<bv8>, iv: array?<bv8>, atKey: nat, atIv: nat)
    reads if key != null then {key} else {}, if iv != null then {iv} else {}
  {
    && atKey + atIv == |stream|
    && (key != null ==> atKey <= key.Length && key[..atKey] == stream[..atKey])
    && (iv != null ==> atIv <= iv.Length && iv[..atIv] == stream[atKey..])
  }

  /** As far as the key and the iv are filled, they are the beginning of the stream. */
  ghost predicate Begins(stream: Bytes, key: array?<bv8>, iv: array?<bv8>, atKey: nat, atIv: nat)
    reads if key != null then {key} else {}, if iv != null then {iv} else {}
  {
    atKey + atIv <= |stream| && Filled(stream[..atKey + atIv], key, iv, atKey, atIv)
  }

  /** Hand out one digest: first to the key, then to the iv. */
  method Distribute(digest: Bytes, ghost stream: Bytes, key: array?<bv8>, iv: array?<bv8>, atKey: nat, moreKey: nat,
    atIv: nat, moreIv: nat)
    returns (i: nat, atKey': nat, moreKey': nat, atIv': nat, moreIv': nat)
    requires (key != null ==> key.Length == atKey + moreKey) && (iv != null ==> iv.Length == atIv + moreIv)
    requires (key != null ==> key != iv)
    requires Filled(stream, key, iv, atKey, atIv) && (moreKey > 0 ==> atIv == 0)
    modifies key, iv
    ensures i <= |digest| && (i == |digest| || moreKey' + moreIv' == 0)
    ensures atKey' + moreKey' == atKey + moreKey && atIv' + moreIv' == atIv + moreIv
    ensures (moreKey' > 0 ==> atIv' == 0) && moreKey' + moreIv' == moreKey + moreIv - i
    ensures Filled(stream + digest[..i], key, iv, atKey', atIv')
  {
    var j;
    j, atKey', moreKey' := Take(digest, 0, key, atKey, moreKey);
    i, atIv', moreIv' := Take(digest, j, iv, atIv, moreIv);
    HandedKey(stream, digest, i, j, atKey);
    HandedIv(stream, digest, i, j, atKey);
  }

  lemma HandedKey(stream: Bytes, digest: Bytes, i: nat, j: nat, atKey: nat)
    requires j <= i <= |digest| && atKey <= |stream| && (j > 0 ==> atKey == |stream|)
    ensures stream[..atKey] + digest[0..j] == (stream + digest[..i])[..atKey + j]
  {
    if j == 0 {
      assert digest[0..0] == [];
      assert (stream + digest[..i])[..atKey] == stream[..atKey];
    } else {
      assert (stream + digest[..i])[..|stream| + j] == stream + digest[..j];
    }
  }

  lemma HandedIv(stream: Bytes, digest: Bytes, i: nat, j: nat, atKey: nat)
    requires j <= i <= |digest| && atKey <= |stream| && (j > 0 ==> atKey == |stream|)
    ensures stream[atKey..] + digest[j..i] == (stream + digest[..i])[atKey + j..]
  {
    if j == 0 {
      assert (stream + digest[..i])[atKey..] == stream[atKey..] + digest[..i];
    } else {
      assert (stream + digest[..i])[|stream| + j..] == digest[..i][j..];
    }
  }

  lemma PassAfter(hash: Bytes -> Bytes, seed: Bytes, count: nat, p: nat, before: Bytes, first: Bytes)
    requires p > 0 ==> before == PassDigest(hash, seed, count, p - 1)
    requires first == if p > 0 then before + seed else seed
    ensures PassDigest(hash, seed, count, p) == Repeat(hash, first, count)
    ensures Digests(hash, seed, count, p + 1) == Digests(hash, seed, count, p) + PassDigest(hash, seed, count, p)
  {
    assert [] + seed == seed;
  }

  /** One pass: a new digest, handed out as far as it is needed. */
  method Pass(hash: Bytes -> Bytes, n: nat, seed: Bytes, iterations: nat, pass: nat, digest: array<bv8>,
              key: array?<bv8>, iv: array?<bv8>, atKey: nat, moreKey: nat, atIv: nat, moreIv: nat)
    returns (atKey': nat, moreKey': nat, atIv': nat, moreIv': nat, ghost stream': Bytes)
    requires IsHash(hash, n) && iterations >= 1 && digest.Length == n && digest != key && digest != iv
    requires (key != null ==> key.Length == atKey + moreKey) && (iv != null ==> iv.Length == atIv + moreIv)
    requires (key != null ==> key != iv)
    requires pass > 0 ==> digest[..] == PassDigest(hash, seed, iterations, pass - 1)
    requires Begins(Digests(hash, seed, iterations, pass), key, iv, atKey, atIv) && (moreKey > 0 ==> atIv == 0)
    requires atKey + atIv == |Digests(hash, seed, iterations, pass)|
    modifies digest, key, iv
    ensures digest[..] == PassDigest(hash, seed, iterations, pass)
    ensures stream' == Digests(hash, seed, iterations, pass + 1)
    ensures moreKey' + moreIv' == 0 || (moreKey' + moreIv' < moreKey + moreIv && atKey' + atIv' == |stream'|)
    ensures atKey' + moreKey' == atKey + moreKey && atIv' + moreIv' == atIv + moreIv && (moreKey' > 0 ==> atIv' == 0)
    ensures Begins(stream', key, iv, atKey', atIv')
  {
    ghost var stream, before := Digests(hash, seed, iterations, pass), digest[..];
    assert stream[..|stream|] == stream;
    var first := if pass > 0 then digest[..] + seed else seed;
    Rehash(hash, n, first, iterations, digest);
    PassAfter(hash, seed, iterations, pass, before, first);
    ghost var d := digest[..];
    stream' := stream + d;
    var i;
    i, atKey', moreKey', atIv', moreIv' := Distribute(digest[..], stream, key, iv, atKey, moreKey, atIv, moreIv);
    assert stream'[..atKey' + atIv'] == stream + d[..i];
    assert i == n ==> d[..i] == d;
  }

  /** Pass after pass until the key and the iv are complete. */
  method Passes(hash: Bytes -> Bytes, n: nat, seed: Bytes, iterations: nat, neededKey: nat, neededIv: nat,
    key: array?<bv8>, iv: array?<bv8>)
    returns (ghost stream: Bytes, ghost passes: nat)
    requires IsHash(hash, n) && iterations >= 1
    requires (key != null ==> key.Length == neededKey) && (iv != null ==> iv.Length == neededIv)
    requires (key != null ==> key != iv)
    modifies key, iv
    ensures stream == Digests(hash, seed, iterations, passes)
    ensures Begins(stream, key, iv, neededKey, neededIv)
  {
    stream, passes := [], 0;
    var digest := new bv8[n];
    var atKey: nat, atIv: nat, moreKey: nat, moreIv: nat, pass: nat := 0, 0, neededKey, neededIv, 0;
    var more := true;
    while more
      invariant passes == pass && atKey + moreKey == neededKey && atIv + moreIv == neededIv
      invariant (moreKey > 0 ==> atIv == 0)
      invariant pass > 0 ==> digest[..] == PassDigest(hash, seed, iterations, pass - 1)
      invariant stream == Digests(hash, seed, iterations, pass)
      invariant Begins(stream, key, iv, atKey, atIv)
      invariant if more then atKey + atIv == |stream| else moreKey == 0 && moreIv == 0
      decreases more, moreKey + moreIv, if pass == 0 then 1 else 0
    {
      atKey, moreKey, atIv, moreIv, stream := Pass(hash, n, seed, iterations, pass, digest, key, iv, atKey, moreKey,
        atIv, moreIv);
      pass, passes := pass + 1, passes + 1;
      more := moreKey != 0 || moreIv != 0;
    }
  }

  /** egg_symkey_generate_simple: key || iv is the beginning of the digests of the passes. */
  method GenerateSimple(hash: Bytes -> Bytes, n: nat, password: Bytes, salt: Bytes, iterations: nat,
                        neededKey: nat, neededIv: nat, key: array?<bv8>, iv: array?<bv8>)
    returns (ok: bool, ghost passes: nat)
    requires IsHash(hash, n)
    requires (key != null ==> key.Length == neededKey) && (iv != null ==> iv.Length == neededIv)
    requires (key != null ==> key != iv)
    modifies key, iv
    ensures ok <==> iterations >= 1
    ensures ok ==> Begins(Digests(hash, password + salt, iterations, passes), key, iv, neededKey, neededIv)
  {
    passes := 0;
    if iterations < 1 {
      return false, passes;
    }
    ghost var stream;
    stream, passes := Passes(hash, n, password + salt, iterations, neededKey, neededIv, key, iv);
    return true, passes;
  }
}
