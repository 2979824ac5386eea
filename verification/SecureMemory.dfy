/** The public half of egg/egg-secure-memory.c: a list of locked blocks and the
    allocate, reallocate and free operations over all of them. */
module SecureMemory {
  import opened Layout
  import opened Blocks

  /** A client's pointer: a word of some block. */
  datatype Pointer = Null | At(block: Block, word: nat)

  /** Every live allocation: its block, the word of its first guard, its bytes. */
  type Live = map<(Block, nat), Octets>

  /** live tells the truth about the allocations v of block b. */
  ghost predicate Shows(live: Live, b: Block, v: map<nat, Octets>) {
    && (forall p :: p in v ==> (b, p) in live && live[(b, p)] == v[p])
    && (forall p :: (b, p) in live ==> p in v)
  }

  /** The two differ in allocations of block b only. */
  ghost predicate SameBut(b: Block, live: Live, live': Live) {
    && (forall k | k in live && k.0 != b :: k in live' && live'[k] == live[k])
    && (forall k | k in live' && k.0 != b :: k in live)
  }

  lemma ShowsElsewhere(live: Live, live': Live, b: Block, x: Block, v: map<nat, Octets>)
    requires Shows(live, x, v) && x != b && SameBut(b, live, live')
    ensures Shows(live', x, v)
  {
    forall p | p in v ensures (x, p) in live' && live'[(x, p)] == v[p] {
      assert (x, p).0 != b;
    }
    forall p | (x, p) in live' ensures p in v {
      assert (x, p).0 != b;
    }
  }

  lemma ShowsPut(live: Live, b: Block, v: map<nat, Octets>, p: nat, d: Octets)
    requires Shows(live, b, v)
    ensures Shows(live[(b, p) := d], b, v[p := d]) && SameBut(b, live, live[(b, p) := d])
  {
  }

  lemma ShowsDrop(live: Live, b: Block, v: map<nat, Octets>, p: nat)
    requires Shows(live, b, v)
    ensures Shows(live - {(b, p)}, b, v - {p}) && SameBut(b, live, live - {(b, p)})
  {
  }

  /** The allocation k is now k', cut or lengthened to length bytes; no other one changed. */
  ghost predicate Carried(live: Live, live': Live, k: (Block, nat), k': (Block, nat), length: nat) {
    && k in live && (k' == k || k' !in live) && k' in live'
    && Resized(live[k], live'[k'], length)
    && live' == (live - {k})[k' := live'[k']]
  }

  lemma ShowsCarried(live: Live, b: Block, v: map<nat, Octets>, v': map<nat, Octets>, p: nat, q: nat, length: nat)
    returns (live': Live)
    requires Shows(live, b, v) && Reallocated(v, v', p, q, length)
    ensures Shows(live', b, v') && SameBut(b, live, live') && Carried(live, live', (b, p), (b, q), length)
  {
    ShowsDrop(live, b, v, p);
    ShowsPut(live - {(b, p)}, b, v - {p}, q, v'[q]);
    live' := (live - {(b, p)})[(b, q) := v'[q]];
  }

  const DEFAULT_BLOCK_SIZE: nat := 16384

  /** No request may be larger than 0xFFFFFFFF / 2. */
  const INSANE: nat := 0x7FFF_FFFF

  /** The bytes acquired for a request: at least the default size, in whole pages. */
  function Pages(length: nat, pageSize: nat): (size: nat)
    requires pageSize > 0
    ensures size >= length && size >= DEFAULT_BLOCK_SIZE
  {
    var size := if length < DEFAULT_BLOCK_SIZE then DEFAULT_BLOCK_SIZE else length;
    (size + pageSize - 1) / pageSize * pageSize
  }

  /** The words of a block made for a request: its pages, counted in words. */
  function FreshWords(length: nat, pageSize: nat): (words: nat)
    requires pageSize > 0
    ensures words >= 2048 && 8 * words + 8 > length
  {
    Pages(length, pageSize) / 8
  }

  ghost predicate AllDifferent(bs: seq<Block>) {
    forall i, j | 0 <= i < j < |bs| :: bs[i] != bs[j]
  }

  function Without(bs: seq<Block>, i: nat): seq<Block>
    requires i < |bs|
  {
    bs[..i] + bs[i + 1..]
  }

  lemma WithoutElements(bs: seq<Block>, i: nat)
    requires i < |bs| && AllDifferent(bs)
    ensures var bs' := Without(bs, i);
      && |bs'| == |bs| - 1 && AllDifferent(bs')
      && (forall k | 0 <= k < |bs'| :: bs'[k] == bs[if k < i then k else k + 1])
      && (forall b :: b in bs' <==> b in bs && b != bs[i])
  {
    assert bs == bs[..i] + [bs[i]] + bs[i + 1..];
  }

  ghost predicate Strangers(a: Block, b: Block)
    reads a`repr, b`repr
  {
    a.repr !! b.repr
  }

  ghost predicate Names(memory: Pointer, p: nat, live: Live) {
    memory.At? && memory.word == p + 1 && (memory.block, p) in live
  }

  /** What is returned is a new allocation of cleared bytes. */
  ghost predicate Granted(live: Live, live': Live, memory: Pointer, p: nat, length: nat) {
    && memory.At? && memory.word == p + 1
    && (memory.block, p) !in live
    && live' == live[(memory.block, p) := Zeros(length)]
  }

  lemma ShowsGranted(live: Live, b: Block, v: map<nat, Octets>, v': map<nat, Octets>, memory: Pointer, p: nat,
    length: nat)
    returns (live': Live)
    requires Shows(live, b, v) && memory.At? && memory.block == b
    requires if memory.word == 0 then v' == v else memory.word == p + 1 && p !in v && v' == v[p := Zeros(length)]
    ensures Shows(live', b, v') && SameBut(b, live, live')
    ensures if memory.word == 0 then live' == live else Granted(live, live', memory, p, length)
  {
    live' := live;
    if memory.word != 0 {
      ShowsPut(live, b, v, p, Zeros(length));
      live' := live[(b, p) := Zeros(length)];
    }
  }

  ghost predicate Moved(live: Live, live': Live, k: (Block, nat), alloc: Pointer, q: nat, length: nat) {
    alloc.At? && alloc.word == q + 1 && Carried(live, live', k, (alloc.block, q), length)
  }

  lemma TransferCarried(live: Live, k: (Block, nat), k': (Block, nat), length: nat)
    requires k in live && k' !in live && |live[k]| <= length
    ensures var live' := live[k' := Zeros(length)];
      Carried(live, live'[k' := Spliced(live'[k'], 0, live'[k])] - {k}, k, k', length)
  {
    assert Spliced(Zeros(length), 0, live[k]) == live[k] + Zeros(length - |live[k]|);
  }

  /** The blocks are sound, share nothing, and live tells the truth about each of them. */
  ghost predicate Sound(bs: set<Block>, live: Live, r: set<object>)
    reads r
  {
    && (forall b | b in bs :: b in r)
    && (forall b {:trigger b.repr} | b in bs :: b.repr <= r && b.Ready() && Shows(live, b, b.view))
    && (forall a, b {:trigger Strangers(a, b)} | a in bs && b in bs && a != b :: Strangers(a, b))
  }

  /** One block can be set aside: the others do not depend on it. */
  lemma SetAside(bs: set<Block>, b: Block, live: Live, r: set<object>)
    requires Sound(bs, live, r) && b in bs
    ensures b.repr <= r && b.Ready() && Shows(live, b, b.view)
    ensures Sound(bs - {b}, live, r - b.repr)
  {
    var r': set<object> := r - b.repr;
    forall x: Block | x in bs - {b} ensures x in r' && x.repr <= r' && x.Ready() && Shows(live, x, x.view) {
      assert Strangers(x, b) && x.repr <= r && x in x.repr;
    }
    forall x, y | x in bs - {b} && y in bs - {b} && x != y ensures Strangers(x, y) { }
  }

  /** A block is put back after it, and what live says of it, may have changed. */
  lemma PutBack(bs: set<Block>, b: Block, live: Live, live': Live, r: set<object>)
    requires Sound(bs, live, r) && b !in bs && SameBut(b, live, live')
    requires b.Ready() && b.repr !! r && Shows(live', b, b.view)
    ensures Sound(bs + {b}, live', r + b.repr)
  {
    forall x | x in bs ensures x.repr <= r && x.Ready() && Shows(live', x, x.view) {
      assert x.repr <= r;
      ShowsElsewhere(live, live', b, x, x.view);
    }
    forall x, y | x in bs + {b} && y in bs + {b} && x != y ensures Strangers(x, y) {
      assert x != b ==> x.repr <= r;
      assert y != b ==> y.repr <= r;
    }
  }

  class Manager {
    var blocks: seq<Block>
    ghost var repr: set<object>
    ghost var live: Live

    ghost function Members(): set<Block>
      reads this`blocks
    {
      set b | b in blocks
    }

    ghost predicate Valid()
      reads this, repr
    {
      && this !in repr
      && AllDifferent(blocks)
      && Sound(Members(), live, repr)
      && (forall k | k in live :: k.0 in blocks)
    }

    constructor ()
      ensures Valid() && blocks == [] && live == map[] && fresh(repr)
    {
      blocks, repr, live := [], {}, map[];
    }

    /** Block b alone may have changed; take in its objects and bring live up to date. */
    ghost method Book(b: Block, others: set<Block>, r: set<object>, live': Live)
      requires this !in r && this !in b.repr && AllDifferent(blocks) && Members() == others + {b} && b !in others
      requires Sound(others, live, r) && b.Ready() && b.repr !! r
      requires SameBut(b, live, live') && Shows(live', b, b.view)
      requires forall k | k in live :: k.0 in blocks
      modifies this`live, this`repr
      ensures Valid() && live == live' && repr == r + b.repr
    {
      PutBack(others, b, live, live', r);
      repr, live := r + b.repr, live';
    }

    lemma Outside(b: Block)
      requires Valid() && b in blocks
      ensures forall x | x in blocks && x != b :: x !in b.repr
    {
      forall x | x in blocks && x != b ensures x !in b.repr {
        assert Strangers(x, b) && x.repr <= repr && x.Ready();
      }
    }

    /** sec_alloc on one block of the list. */
    method Grant(b: Block, tag: string, length: nat, poolHas: bool) returns (memory: nat, ghost p: nat)
      requires Valid() && b in blocks && length > 0
      modifies this`repr, this`live, repr
      ensures Valid() && fresh(repr - old(repr))
      ensures memory == 0 ==> live == old(live) && (poolHas ==> !b.Roomy(SizeToWords(length) + 2))
      ensures memory == 0 ==> forall x {:trigger x.at} | x in blocks :: x.at == old(x.at)
      ensures memory != 0 ==>
        Granted(old(live), live, At(b, memory), p, length) && old(b.Roomy(SizeToWords(length) + 2))
      ensures memory != 0 ==> Placed(old(b.at), b.at, p, SizeToWords(length) + 2, length)
    {
      ghost var v, r, others := b.view, repr - b.repr, Members() - {b};
      SetAside(Members(), b, live, repr);
      Outside(b);
      memory, p := b.Alloc(tag, length, poolHas);
      ghost var live' := ShowsGranted(live, b, v, b.view, At(b, memory), p, length);
      Book(b, others, r, live');
    }

    /** sec_free on one block of the list. */
    method Revoke(b: Block, memory: nat, ghost p: nat)
      requires Valid() && b in blocks && memory == p + 1 && (b, p) in live
      modifies this`repr, this`live, repr
      ensures Valid() && live == old(live) - {(b, p)} && repr <= old(repr)
    {
      ghost var v, r, others := b.view, repr - b.repr, Members() - {b};
      SetAside(Members(), b, live, repr);
      b.Free(memory, p);
      ShowsDrop(live, b, v, p);
      Book(b, others, r, live - {(b, p)});
    }

    /** sec_realloc on one block of the list. */
    method Regrant(b: Block, tag: string, memory: nat, ghost p: nat, length: nat, poolHas: bool)
      returns (alloc: nat, ghost q: nat)
      requires Valid() && b in blocks && memory == p + 1 && (b, p) in live && length > 0
      modifies this`repr, this`live, repr
      ensures Valid() && fresh(repr - old(repr))
      ensures alloc == 0 ==> live == old(live) && length > |live[(b, p)]|
      ensures alloc != 0 ==> Moved(old(live), live, (b, p), At(b, alloc), q, length)
      ensures p in old(b.at) && (alloc == memory && q == p <==> SizeToWords(length) + 2 <= old(Reach(b.at, p)))
      ensures alloc != 0 ==> alloc == memory || old(b.Roomy(SizeToWords(length) + 2))
      ensures alloc == 0 && poolHas ==> !b.Roomy(SizeToWords(length) + 2) && !old(b.Roomy(SizeToWords(length) + 2))
      ensures forall x {:trigger x.at} | x in blocks && x != b :: x.at == old(x.at)
    {
      ghost var v, r, others := b.view, repr - b.repr, Members() - {b};
      SetAside(Members(), b, live, repr);
      Outside(b);
      alloc, q := b.Realloc(tag, memory, p, length, poolHas);
      assert forall x {:trigger x.at} | x in blocks && x != b :: x.at == old(x.at);
      ghost var live' := live;
      if alloc != 0 {
        live' := ShowsCarried(live, b, v, b.view, p, q, length);
      }
      Book(b, others, r, live');
    }

    /** A client stores bytes in its memory. */
    method Put(b: Block, memory: nat, ghost p: nat, off: nat, src: Octets)
      requires Valid() && b in blocks && memory == p + 1 && (b, p) in live && off + |src| <= |live[(b, p)]|
      modifies this`repr, this`live, repr
      ensures Valid() && live == old(live)[(b, p) := Spliced(old(live)[(b, p)], off, src)] && repr == old(repr)
    {
      ghost var v, r, others := b.view, repr - b.repr, Members() - {b};
      SetAside(Members(), b, live, repr);
      b.Write(memory, p, off, src);
      ghost var d := Spliced(v[p], off, src);
      ShowsPut(live, b, v, p, d);
      Book(b, others, r, live[(b, p) := d]);
    }

    // -------------------------------------------------------------- the list of blocks

    /** sec_block_create. Its two records and its pages may be refused. */
    method Create(length: nat, pageSize: nat, granted: bool) returns (block: Block?)
      requires Valid() && pageSize > 0
      modifies this`blocks, this`repr, this`live
      ensures Valid() && fresh(repr - old(repr)) && live == old(live)
      ensures block == null <==> !granted
      ensures block == null ==> blocks == old(blocks)
      ensures block != null ==> blocks == [block] + old(blocks) && block.view == map[]
      ensures block != null ==>
        block.Fits(0, FreshWords(length, pageSize)) && block.nWords == FreshWords(length, pageSize)
    {
      if !granted {
        return null;
      }
      ghost var others := Members();
      block := new Block(FreshWords(length, pageSize));
      assert block !in others;
      blocks := [block] + blocks;
      assert Members() == others + {block};
      Book(block, others, repr, live);
    }

    /** Take a block without allocations off the list. */
    method Unlist(block: Block)
      requires Valid() && block in blocks && forall p :: (block, p) !in live
      modifies this`blocks, this`repr
      ensures Valid() && block.Ready() && repr == old(repr) - block.repr && this !in block.repr
      ensures forall b :: b in blocks <==> b in old(blocks) && b != block
    {
      SetAside(Members(), block, live, repr);
      var i := 0;
      while i < |blocks|
        invariant i <= |blocks| && block in blocks[i..]
      {
        if blocks[i] == block {
          break;
        }
        i := i + 1;
      }
      WithoutElements(blocks, i);
      ghost var others := Members() - {block};
      blocks := Without(blocks, i);
      assert Members() == others;
      repr := repr - block.repr;
    }

    /** sec_block_destroy: none of its assertions fires. */
    method Destroy(block: Block)
      requires Valid() && block in blocks && block.nUsed == 0
      modifies this`blocks, this`repr, repr
      ensures Valid() && live == old(live) && repr <= old(repr)
      ensures forall b :: b in blocks <==> b in old(blocks) && b != block
    {
      UsedWhile(block);
      Unlist(block);
      var freed := block.Dismantle();
    }

    // -------------------------------------------------------------- public functionality

    /** Some block has an unused cell of at least n words. */
    ghost predicate Space(n: nat)
      reads this`blocks, Members()
    {
      exists b | b in blocks :: b.Roomy(n)
    }

    /** Try the blocks in order. */
    method SearchBlocks(tag: string, length: nat, plenty: bool) returns (memory: Pointer, ghost p: nat)
      requires Valid() && length > 0
      modifies this`repr, this`live, repr
      ensures Valid() && fresh(repr - old(repr))
      ensures memory == Null ==> live == old(live)
      ensures memory == Null && plenty ==> !old(Space(SizeToWords(length) + 2))
      ensures memory != Null ==> Granted(old(live), live, memory, p, length) && old(Space(SizeToWords(length) + 2))
    {
      var i := 0;
      while i < |blocks|
        invariant i <= |blocks| && Valid() && fresh(repr - old(repr)) && live == old(live) && blocks == old(blocks)
        invariant forall x {:trigger x.at} | x in blocks :: x.at == old(x.at)
        invariant plenty ==> forall j | 0 <= j < i :: !blocks[j].Roomy(SizeToWords(length) + 2)
      {
        var block := blocks[i];
        var word;
        var granted: bool := *;
        granted := granted || plenty;
        word, p := Grant(block, tag, length, granted);
        if word != 0 {
          return At(block, word), p;
        }
        i := i + 1;
      }
      return Null, 0;
    }

    /** One new block, and nothing in it, leads the list. */
    ghost predicate Leads(bs: seq<Block>)
      reads this
    {
      |blocks| == |bs| + 1 && blocks[1..] == bs && blocks[0] !in bs && forall q :: (blocks[0], q) !in live
    }

    /** After an allocation moved: its new block is listed, its old one exactly if it is still in use, and no other
      * block came or went. */
    ghost predicate Rehomed(bs: seq<Block>, memory: Pointer, alloc: Pointer)
      requires memory != Null && alloc != Null
      reads this
    {
      alloc.block in blocks && (memory.block in blocks <==> exists q :: (memory.block, q) in live)
      && (forall b | b in blocks :: b in bs || b == memory.block || b == alloc.block)
      && (forall b | b in bs :: b in blocks || b == memory.block || b == alloc.block)
    }

    /** What a request left of the new block that was made for it. */
    ghost predicate Spared(memory: Pointer, length: nat, pageSize: nat)
      requires memory != Null && pageSize > 0
      reads memory.block`at
    {
      var n, words := SizeToWords(length) + 2, FreshWords(length, pageSize);
      words > n + 4 ==> memory.block.Fits(n, words - n)
    }

    /** egg_secure_alloc_full without the fallback. With plenty the system refuses neither records nor pages: then
      * it succeeds exactly when some block has room or a new one is large enough. A new block stays on the list even
      * when it turns out to be too small. */
    method AllocFull(tag: string, length: nat, pageSize: nat, plenty: bool) returns (memory: Pointer, ghost p: nat)
      requires Valid() && pageSize > 0
      modifies this`blocks, this`repr, this`live, repr
      ensures Valid() && fresh(repr - old(repr))
      ensures length == 0 || length > 0x7FFF_FFFF ==> memory == Null && blocks == old(blocks)
      ensures memory == Null ==> live == old(live)
      ensures memory != Null ==> Granted(old(live), live, memory, p, length)
      ensures memory != Null ==>
        old(Space(SizeToWords(length) + 2)) || SizeToWords(length) + 2 <= FreshWords(length, pageSize)
      ensures plenty && 0 < length <= 0x7FFF_FFFF ==>
        (memory != Null <==>
          old(Space(SizeToWords(length) + 2)) || SizeToWords(length) + 2 <= FreshWords(length, pageSize))
      ensures memory != Null ==> blocks == old(blocks) || blocks == [memory.block] + old(blocks)
      ensures plenty && old(Space(SizeToWords(length) + 2)) ==> blocks == old(blocks)
      ensures memory == Null ==> blocks == old(blocks) || Leads(old(blocks))
      ensures plenty && 0 < length <= 0x7FFF_FFFF && memory == Null ==> Leads(old(blocks))
      ensures memory != Null && blocks != old(blocks) ==> Spared(memory, length, pageSize)
    {
      if length > INSANE || length == 0 {
        return Null, 0;
      }
      memory, p := SearchBlocks(tag, length, plenty);
      if memory == Null {
        memory, p := AllocNew(tag, length, pageSize, plenty);
      }
    }

    /** None of the blocks has space: make a new one. */
    method AllocNew(tag: string, length: nat, pageSize: nat, plenty: bool) returns (memory: Pointer, ghost p: nat)
      requires Valid() && pageSize > 0 && length > 0
      modifies this`blocks, this`repr, this`live, repr
      ensures Valid() && fresh(repr - old(repr))
      ensures memory == Null ==> live == old(live) && (blocks == old(blocks) || Leads(old(blocks)))
      ensures memory == Null && plenty ==> Leads(old(blocks)) && SizeToWords(length) + 2 > FreshWords(length, pageSize)
      ensures memory != Null ==>
        Granted(old(live), live, memory, p, length) && SizeToWords(length) + 2 <= FreshWords(length, pageSize)
      ensures memory != Null ==> blocks == [memory.block] + old(blocks)
      ensures memory != Null ==> Spared(memory, length, pageSize)
    {
      var granted, more: bool := *, *;
      var block := Create(length, pageSize, granted || plenty);
      if block == null {
        return Null, 0;
      }
      var word;
      NotRoomier(block);
      Untouched(block);
      Whole(block);
      ghost var at0, n := block.at, SizeToWords(length) + 2;
      assert blocks[1..] == old(blocks);
      word, p := Grant(block, tag, length, more || plenty);
      assert word == 0 && plenty ==> !block.Fits(0, SizeToWords(length) + 2);
      memory := if word == 0 then Null else At(block, word);
      if word != 0 {
        FirstPlaced(at0, block.at, block.nWords, p, n, length);
        assert block.nWords > n + 4 ==> Hosts(block.at, n, block.nWords - n);
      }
    }

    lemma Untouched(block: Block)
      requires Valid() && block in blocks && block.view == map[]
      ensures forall q :: (block, q) !in live
    {
      assert block.repr <= repr && Shows(live, block, block.view);
    }

    /** A block without allocations is one cell. */
    lemma Whole(block: Block)
      requires Valid() && block in blocks && block.view == map[]
      ensures block.at.Keys == {0} && block.at[0].nWords == block.nWords
    {
      assert block.repr <= repr && block.Valid();
      EmptyBlockIsOneCell(block.at, block.mem[..], block.nWords);
    }

    /** No cell of a block is larger than the block. */
    lemma NotRoomier(block: Block)
      requires Valid() && block in blocks
      ensures forall n: nat | block.Roomy(n) :: n <= block.nWords
    {
      assert block.repr <= repr && block.Ready();
    }

    /** Find out where a pointer belongs to. */
    method FindBlock(memory: Pointer, ghost p: nat) returns (block: Block)
      requires Valid() && Names(memory, p, live)
      ensures block == memory.block && block in blocks && p in block.view && block.view[p] == live[(block, p)]
    {
      ghost var home := memory.block;
      assert home in blocks && home.repr <= repr && p in home.view;
      home.Holds(p);
      var i := 0;
      while i < |blocks|
        invariant i <= |blocks| && home in blocks[i..]
      {
        if blocks[i] == memory.block && blocks[i].IsValidWord(memory.word) {
          break;
        }
        i := i + 1;
      }
      block := blocks[i];
    }

    /** egg_secure_free_full for memory that belongs here. */
    method FreeFull(memory: Pointer, ghost p: nat)
      requires Valid() && (memory == Null || Names(memory, p, live))
      modifies this`blocks, this`repr, this`live, repr
      ensures Valid() && repr <= old(repr)
      ensures memory == Null ==> live == old(live) && blocks == old(blocks)
      ensures memory != Null ==> live == old(live) - {(memory.block, p)}
      ensures memory != Null ==> (memory.block in blocks <==> exists q :: (memory.block, q) in live)
      ensures memory != Null ==> forall b | b != memory.block :: b in blocks <==> b in old(blocks)
    {
      if memory == Null {
        return;
      }
      var block := FindBlock(memory, p);
      Revoke(block, memory.word, p);
      UsedWhile(block);
      if block.nUsed == 0 {
        Destroy(block);
      }
    }

    lemma UsedWhile(block: Block)
      requires Valid() && block in blocks
      ensures block.nUsed == 0 <==> !exists q :: (block, q) in live
    {
      assert block.repr <= repr;
      block.CountsLive();
      if block.nUsed > 0 {
        var q :| q in block.view;
        assert (block, q) in live;
      }
    }

    /** memcpy from one allocation to a larger one, which may be in another block. */
    method Copy(alloc: Pointer, ghost q: nat, memory: Pointer, ghost p: nat, length: nat)
      requires Valid() && Names(alloc, q, live) && Names(memory, p, live)
      requires length == |live[(memory.block, p)]| <= |live[(alloc.block, q)]|
      modifies this`repr, this`live, repr
      ensures Valid() && repr == old(repr)
      ensures live == old(live)[(alloc.block, q) := Spliced(old(live)[(alloc.block, q)], 0,
        old(live)[(memory.block, p)])]
    {
      assert memory.block.repr <= repr && alloc.block.repr <= repr;
      var src := memory.block.Read(memory.word, p, length);
      assert src == live[(memory.block, p)];
      Put(alloc.block, alloc.word, q, 0, src);
    }

    /** No block could resize the allocation: take memory elsewhere, copy, free the old one. */
    method Transfer(tag: string, memory: Pointer, ghost p: nat, previous: nat, length: nat, pageSize: nat, plenty: bool)
      returns (alloc: Pointer, ghost q: nat)
      requires Valid() && Names(memory, p, live) && previous == |live[(memory.block, p)]| && previous < length
      requires pageSize > 0
      modifies this`blocks, this`repr, this`live, repr
      ensures Valid() && fresh(repr - old(repr))
      ensures alloc == Null ==> live == old(live)
      ensures alloc != memory
      ensures plenty && length <= 0x7FFF_FFFF ==>
        (alloc != Null <==>
          old(Space(SizeToWords(length) + 2)) || SizeToWords(length) + 2 <= FreshWords(length, pageSize))
      ensures alloc != Null ==> Moved(old(live), live, (memory.block, p), alloc, q, length)
      ensures if alloc == Null then blocks == old(blocks) || Leads(old(blocks)) else Rehomed(old(blocks), memory, alloc)
      ensures alloc == Null && plenty && length <= 0x7FFF_FFFF ==> Leads(old(blocks))
    {
      ghost var live0 := live;
      alloc, q := AllocFull(tag, length, pageSize, plenty);
      if alloc != Null {
        Copy(alloc, q, memory, p, previous);
        FreeFull(memory, p);
        TransferCarried(live0, (memory.block, p), (alloc.block, q), length);
      }
    }

    /** egg_secure_realloc_full for memory that belongs here. */
    method ReallocFull(tag: string, memory: Pointer, ghost p: nat, length: nat, pageSize: nat, plenty: bool)
      returns (alloc: Pointer, ghost q: nat)
      requires Valid() && (memory == Null || Names(memory, p, live)) && pageSize > 0
      modifies this`blocks, this`repr, this`live, repr
      ensures Valid() && fresh(repr - old(repr))
      ensures length > 0x7FFF_FFFF ==> alloc == Null && live == old(live)
      ensures memory == Null && length == 0 ==> alloc == Null && live == old(live)
      ensures memory != Null && length == 0 ==> alloc == Null && live == old(live) - {(memory.block, p)}
      ensures length > 0 && alloc == Null ==> live == old(live)
      ensures 0 < length <= 0x7FFF_FFFF && plenty ==>
        (alloc != Null <==>
          || (memory != Null && p in old(memory.block.at)
              && SizeToWords(length) + 2 <= old(Reach(memory.block.at, p)))
          || old(Space(SizeToWords(length) + 2))
          || SizeToWords(length) + 2 <= FreshWords(length, pageSize))
      ensures alloc != Null && memory == Null ==> Granted(old(live), live, alloc, q, length)
      ensures alloc != Null && memory != Null ==> Moved(old(live), live, (memory.block, p), alloc, q, length)
      ensures length > 0x7FFF_FFFF || (memory == Null && length == 0) ==> blocks == old(blocks)
      ensures length > 0 && alloc == Null ==> blocks == old(blocks) || Leads(old(blocks))
      ensures 0 < length <= 0x7FFF_FFFF && alloc == Null && plenty ==> Leads(old(blocks))
      ensures alloc != Null && memory == Null ==> blocks == old(blocks) || blocks == [alloc.block] + old(blocks)
      ensures alloc != Null && memory != Null ==> Rehomed(old(blocks), memory, alloc)
      ensures memory != Null ==> p in old(memory.block.at)
      ensures memory != Null && 0 < length <= 0x7FFF_FFFF ==>
        (alloc == memory && q == p <==> SizeToWords(length) + 2 <= old(Reach(memory.block.at, p)))
      ensures memory != Null && alloc == memory ==> blocks == old(blocks)
    {
      if memory != Null {
        Homed(memory, p);
      }
      if length > INSANE {
        return Null, 0;
      }
      if memory == Null {
        alloc, q := AllocFull(tag, length, pageSize, plenty);
        return;
      }
      if length == 0 {
        FreeFull(memory, p);
        return Null, 0;
      }
      var previous;
      alloc, q, previous := ReallocHere(tag, memory, p, length, plenty);
      if alloc == Null {
        alloc, q := Transfer(tag, memory, p, previous, length, pageSize, plenty);
      }
    }

    /** An allocation has a cell in its block. */
    lemma Homed(memory: Pointer, p: nat)
      requires Valid() && Names(memory, p, live)
      ensures p in memory.block.at
    {
      assert memory.block in blocks && memory.block.repr <= repr && p in memory.block.view;
    }

    /** Let the block that owns the memory resize it. The block stays in use: it is never destroyed here. */
    method ReallocHere(tag: string, memory: Pointer, ghost p: nat, length: nat, plenty: bool)
      returns (alloc: Pointer, ghost q: nat, previous: nat)
      requires Valid() && Names(memory, p, live) && length > 0
      modifies this`repr, this`live, repr
      ensures Valid() && fresh(repr - old(repr)) && previous == |old(live)[(memory.block, p)]|
      ensures alloc == Null ==> live == old(live) && length > previous
      ensures alloc != Null ==> Moved(old(live), live, (memory.block, p), alloc, q, length)
      ensures alloc != Null ==> alloc.block == memory.block && Rehomed(old(blocks), memory, alloc)
      ensures p in old(memory.block.at)
      ensures alloc == memory && q == p <==> SizeToWords(length) + 2 <= old(Reach(memory.block.at, p))
      ensures alloc != Null ==> alloc == memory || old(Space(SizeToWords(length) + 2))
      ensures alloc == Null && plenty ==> (Space(SizeToWords(length) + 2) <==> old(Space(SizeToWords(length) + 2)))
    {
      var block := FindBlock(memory, p);
      assert block.repr <= repr;
      previous := block.Allocated(memory.word, p);
      var granted: bool := *;
      var word;
      word, q := Regrant(block, tag, memory.word, p, length, granted || plenty);
      alloc := if word == 0 then Null else At(block, word);
      UsedWhile(block);
      assert (block, if word == 0 then p else q) in live;
      assert block.nUsed != 0;
    }

    /** Every byte of client data in any block lies inside a live allocation. */
    lemma ScrubbedEverywhere(block: Block, b: nat) returns (p: nat)
      requires Valid() && block in blocks && block.repr <= repr && b < block.mem.Length && block.mem[b].Client?
      ensures (block, p) in live && 8 * (p + 1) <= b < 8 * (p + 1) + |live[(block, p)]|
    {
      p := Scrubbed(block.at, block.mem[..], block.nWords, b);
      assert p in block.view;
    }
  }

  /** The new block holds its request exactly if rounding up to pages left room for two guard words. */
  lemma FreshBlockServes(length: nat, pageWords: nat)
    requires pageWords > 0
    ensures SizeToWords(length) + 2 <= FreshWords(length, 8 * pageWords) <==>
      length + 16 <= Pages(length, 8 * pageWords)
  {
    var size := if length < DEFAULT_BLOCK_SIZE then DEFAULT_BLOCK_SIZE else length;
    var n := (size + 8 * pageWords - 1) / (8 * pageWords);
    assert n * (8 * pageWords) == 8 * (n * pageWords);
  }

  /** When nothing is refused, a new block serves two requests that it holds together. */
  method BlocksForTwo(first: nat, second: nat, pageSize: nat) returns (served: bool, blocks: nat)
    requires pageSize > 0 && 0 < first <= INSANE && 0 < second <= INSANE
    ensures var n, words := SizeToWords(first) + 2, FreshWords(first, pageSize);
      n + 4 < words && n + SizeToWords(second) + 2 <= words ==> served && blocks == 1
  {
    var manager := new Manager();
    var a, b;
    ghost var p, q;
    a, p := manager.AllocFull("?", first, pageSize, true);
    ghost var n, k := SizeToWords(first) + 2, SizeToWords(second) + 2;
    assert a != Null && n + 4 < FreshWords(first, pageSize) && n + k <= FreshWords(first, pageSize) ==>
      a.block in manager.blocks && a.block.Fits(n, k) && manager.Space(k);
    b, q := manager.AllocFull("?", second, pageSize, true);
    served, blocks := a != Null && b != Null, |manager.blocks|;
  }

  /** A request of the default block size fails although nothing is refused, and leaves a block that nobody uses. */
  method DefaultSizeFails() returns (manager: Manager, memory: Pointer)
    ensures memory == Null && manager.live == map[] && |manager.blocks| == 1
  {
    manager := new Manager();
    ghost var p;
    memory, p := manager.AllocFull("?", 16384, 4096, true);
  }
}
