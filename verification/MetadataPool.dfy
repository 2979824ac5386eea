/** The pools the records of secure memory come from (egg/egg-secure-memory.c): fixed
    numbers of items whose first word links the unused ones into a stack. */
module MetadataPool {

  /** What the bytes of an item were last set to. */
  datatype Fill = Zeroed | Poisoned | Written

  class Item {
    var link: Item?
    var fill: Fill

    constructor ()
    {
      link, fill := null, Zeroed;
    }
  }

  ghost predicate Distinct(s: seq<Item>) {
    forall i, j | 0 <= i < j < |s| :: s[i] != s[j]
  }

  ghost function Elements(s: seq<Item>): set<Item> { set i | i in s }

  /** From head the links run through exactly these items. */
  ghost predicate IsStack(head: Item?, stack: seq<Item>)
    reads Elements(stack)`link
  {
    && Distinct(stack)
    && (head == if stack == [] then null else stack[0])
    && forall i {:trigger stack[i].link} | 0 <= i < |stack| ::
      stack[i].link == if i + 1 < |stack| then stack[i + 1] else null
  }

  method Push(head: Item?, ghost stack: seq<Item>, item: Item) returns (head': Item)
    requires IsStack(head, stack) && item !in stack
    modifies item`link
    ensures head' == item && IsStack(head', [item] + stack)
  {
    item.link := head;
    head' := item;
  }

  method Pop(head: Item, ghost stack: seq<Item>) returns (item: Item, head': Item?)
    requires IsStack(head, stack)
    ensures stack != [] && item == stack[0] && IsStack(head', stack[1..])
  {
    item := head;
    head' := item.link;
  }

  ghost function Objects(s: seq<Item>): set<object> { set i | i in s }

  class Pool {
    const items: seq<Item>
    var used: nat
    var unused: Item?
    ghost var stack: seq<Item>

    /** Every item is either on the stack or counted as used. */
    ghost predicate Valid()
      reads this, items
    {
      && Distinct(items)
      && (forall i | i in stack :: i in items)
      && IsStack(unused, stack)
      && used + |stack| == |items|
    }

    ghost function Footprint(): set<object> { {this} + Objects(items) }

    /** The items handed out. */
    ghost function Out(): set<Item>
      reads this`stack
    {
      set i | i in items && i !in stack
    }

    /** Map a new pool and fill it with unused items. */
    constructor (nItems: nat)
      ensures Valid() && used == 0 && |items| == |stack| == nItems && Out() == {}
      ensures fresh(Footprint())
    {
      var all: seq<Item> := [];
      while |all| < nItems
        invariant |all| <= nItems && Distinct(all) && forall i | i in all :: fresh(i)
      {
        var item := new Item();
        all := all + [item];
      }
      items, used, unused, stack := all, 0, null, [];
      new;
      assert forall k | 0 <= k < |items| :: items[k] in all;
      var k := 0;
      while k < nItems
        modifies this, items
        invariant k <= nItems == |items| && items == all && used == 0 && |stack| == k
        invariant forall i | i in items :: fresh(i)
        invariant IsStack(unused, stack) && forall i :: i in stack <==> i in items[..k]
      {
        unused := Push(unused, stack, items[k]);
        stack := [items[k]] + stack;
        k := k + 1;
      }
      assert items[..nItems] == items;
    }

    /** The counter counts the items handed out. */
    lemma UsedCounts()
      requires Valid()
      ensures used == |Out()|
    {
      Sizes(items);
      Sizes(stack);
      assert Out() == Elements(items) - Elements(stack);
      assert Elements(stack) <= Elements(items);
    }

    method Take() returns (item: Item)
      requires Valid() && unused != null
      modifies Footprint()
      ensures Valid() && used == old(used) + 1 && item in items && item.fill == Zeroed && item.link == null
      ensures item !in old(Out()) && Out() == old(Out()) + {item}
      ensures forall i | i in items && i != item :: unchanged(i)
    {
      used := used + 1;
      item, unused := Pop(unused, stack);
      assert stack == [item] + stack[1..] && item in stack;
      stack := stack[1..];
      item.link, item.fill := null, Zeroed;
    }

    method Return(item: Item)
      requires Valid() && item in Out() && used > 1
      modifies this, item
      ensures Valid() && used == old(used) - 1
      ensures Out() == old(Out()) - {item}
    {
      used := used - 1;
      item.fill := Poisoned;
      unused := Push(unused, stack, item);
      stack := [item] + stack;
    }
  }

  ghost predicate Strangers(a: Pool, b: Pool) {
    a.Footprint() !! b.Footprint()
  }

  /** home knows exactly the items of p that are handed out. */
  ghost predicate Homed(p: Pool, home: map<Item, Pool>)
    reads p`stack
  {
    && (forall i | i in p.Out() :: i in home && home[i] == p)
    && (forall i | i in home && home[i] == p :: i in p.Out())
  }

  /** The pools are sound and share nothing, none is idle, and home tells which pool every
      handed-out item is from. */
  ghost predicate Sound(ps: set<Pool>, home: map<Item, Pool>, r: set<object>)
    reads r
  {
    && (forall p | p in ps :: p in r)
    && (forall p {:trigger p.Footprint()} | p in ps :: p.Footprint() <= r && p.used > 0 && p.Valid() && Homed(p, home))
    && (forall a, b {:trigger Strangers(a, b)} | a in ps && b in ps && a != b :: Strangers(a, b))
  }

  /** The two differ in items of pool p only. */
  ghost predicate SameBut(p: Pool, home: map<Item, Pool>, home': map<Item, Pool>) {
    && (forall i | i in home && home[i] != p :: i in home' && home'[i] == home[i])
    && (forall i | i in home' && home'[i] != p :: i in home && home[i] == home'[i])
  }

  lemma SetAside(ps: set<Pool>, p: Pool, home: map<Item, Pool>, r: set<object>)
    requires Sound(ps, home, r) && p in ps
    ensures p.Footprint() <= r && p.used > 0 && p.Valid() && Homed(p, home)
    ensures Sound(ps - {p}, home, r - p.Footprint())
  {
    assert p.Footprint() <= r;
    var r': set<object> := r - p.Footprint();
    forall x: Pool | x in ps - {p} ensures x in r' && x.Footprint() <= r' && x.used > 0 && x.Valid() && Homed(x, home) {
      assert Strangers(x, p) && x.Footprint() <= r && x in x.Footprint();
    }
    forall x, y | x in ps - {p} && y in ps - {p} && x != y ensures Strangers(x, y) { }
  }

  lemma Rehome(ps: set<Pool>, p: Pool, home: map<Item, Pool>, home': map<Item, Pool>, r: set<object>)
    requires Sound(ps, home, r) && p !in ps && SameBut(p, home, home')
    ensures Sound(ps, home', r)
  {
    forall x | x in ps ensures x.Footprint() <= r && x.used > 0 && x.Valid() && Homed(x, home') {
      assert x.Footprint() <= r && Homed(x, home);
    }
  }

  lemma PutBack(ps: set<Pool>, p: Pool, home: map<Item, Pool>, home': map<Item, Pool>, r: set<object>)
    requires Sound(ps, home, r) && p !in ps && SameBut(p, home, home')
    requires p.Footprint() !! r && p.used > 0 && p.Valid() && Homed(p, home')
    ensures Sound(ps + {p}, home', r + p.Footprint())
  {
    Rehome(ps, p, home, home', r);
    forall x, y | x in ps + {p} && y in ps + {p} && x != y ensures Strangers(x, y) {
      assert x != p ==> x.Footprint() <= r;
      assert y != p ==> y.Footprint() <= r;
    }
  }

  class Records {
    var pools: seq<Pool>
    ghost var home: map<Item, Pool>
    ghost var repr: set<object>

    ghost function Members(): set<Pool>
      reads this`pools
    {
      set p | p in pools
    }

    ghost predicate Valid()
      reads this, repr
    {
      && this !in repr
      && (forall i, j | 0 <= i < j < |pools| :: pools[i] != pools[j])
      && Sound(Members(), home, repr)
      && (forall i | i in home :: home[i] in pools)
    }

    constructor ()
      ensures Valid() && home == map[] && pools == []
    {
      pools, home, repr := [], map[], {};
    }

    /** Clients write what they like into the items they hold. */
    method Write(item: Item, link: Item?)
      requires Valid() && item in home
      modifies item
      ensures Valid()
    {
      ghost var p := home[item];
      ghost var r: set<object> := repr - p.Footprint();
      SetAside(Members(), p, home, repr);
      item.link, item.fill := link, Written;
      PutBack(Members() - {p}, p, home, home, r);
      assert Members() - {p} + {p} == Members() && r + p.Footprint() == repr;
    }

    /** Pool p, set aside before, is back with its handed-out items. */
    ghost method Book(p: Pool, others: set<Pool>, r: set<object>, home': map<Item, Pool>)
      requires this !in r && this !in p.Footprint() && p !in others && Members() == others + {p}
      requires forall i, j | 0 <= i < j < |pools| :: pools[i] != pools[j]
      requires Sound(others, home, r) && p.Footprint() !! r && p.used > 0 && p.Valid()
      requires SameBut(p, home, home') && Homed(p, home')
      requires forall i | i in home :: home[i] in pools
      modifies this`home, this`repr
      ensures Valid() && home == home' && repr == r + p.Footprint()
    {
      PutBack(others, p, home, home', r);
      home, repr := home', r + p.Footprint();
    }

    /** The first pool with an unused item. */
    method FindUnused() returns (pool: Pool?)
      requires Valid()
      ensures pool == null ==> forall p | p in pools :: p.unused == null
      ensures pool != null ==> pool in pools && pool.unused != null
    {
      var k := 0;
      while k < |pools|
        invariant k <= |pools| && forall j | 0 <= j < k :: pools[j].unused == null
      {
        if pools[k].unused != null {
          return pools[k];
        }
        k := k + 1;
      }
      return null;
    }

    /** Items of a pool are at home there. */
    lemma HomesOf(pool: Pool)
      requires Valid() && pool in pools
      ensures forall i | i in pool.items && i in home :: home[i] == pool
    {
      forall i | i in pool.items && i in home ensures home[i] == pool {
        var p := home[i];
        assert p.Footprint() <= repr && Homed(p, home);
        assert i in p.Footprint() && i in pool.Footprint();
        assert p != pool ==> Strangers(p, pool);
      }
    }

    /** pool_alloc from a pool that has an unused item. */
    method TakeFrom(pool: Pool) returns (item: Item)
      requires Valid() && pool in pools && pool.unused != null
      modifies this`home, this`repr, repr
      ensures Valid() && item !in old(home) && home == old(home)[item := pool]
      ensures item.fill == Zeroed && item.link == null && repr == old(repr)
    {
      ghost var r: set<object> := repr - pool.Footprint();
      ghost var others := Members() - {pool};
      SetAside(Members(), pool, home, repr);
      HomesOf(pool);
      item := pool.Take();
      Book(pool, others, r, home[item := pool]);
    }

    /** pool_alloc. The system may refuse to map another pool; a new one has nItems items. */
    method Alloc(nItems: nat, granted: bool) returns (item: Item?)
      requires Valid() && nItems > 0
      modifies this, repr
      ensures Valid() && fresh(repr - old(repr))
      ensures item == null <==> !granted && old(forall p | p in pools :: p.unused == null)
      ensures item == null ==> home == old(home) && pools == old(pools)
      ensures item != null ==> item !in old(home) && item in home && home == old(home)[item := home[item]]
      ensures item != null ==> item.fill == Zeroed && item.link == null
      ensures pools == old(pools) || (old(forall p | p in pools :: p.unused == null)
        && exists p :: pools == [p] + old(pools))
    {
      var pool := FindUnused();
      if pool != null {
        item := TakeFrom(pool);
      } else if granted {
        item := TakeNew(nItems);
      } else {
        item := null;
      }
    }

    /** Map another pool and take its first item. */
    method TakeNew(nItems: nat) returns (item: Item)
      requires Valid() && nItems > 0
      modifies this
      ensures Valid() && fresh(repr - old(repr))
      ensures item !in old(home) && item in home && home == old(home)[item := home[item]]
      ensures item.fill == Zeroed && item.link == null
      ensures exists p :: pools == [p] + old(pools)
    {
      ghost var others := Members();
      var pool := new Pool(nItems);
      assert forall p | p in others :: p != pool;
      HomesInside();
      item := pool.Take();
      assert pool.Out() == {item} && item in pool.Footprint();
      pools := [pool] + pools;
      assert Members() == others + {pool};
      Book(pool, others, repr, home[item := pool]);
    }

    /** Only items of the pools are handed out. */
    lemma HomesInside()
      requires Sound(Members(), home, repr)
      requires forall i | i in home :: home[i] in pools
      ensures forall i | i in home :: i in repr
    {
      forall i | i in home ensures i in repr {
        assert home[i].Footprint() <= repr && Homed(home[i], home);
        assert i in home[i].Footprint();
      }
    }

    /** Each counter counts what is handed out of its pool: nothing is lost or counted twice. */
    lemma Conserved(pool: Pool)
      requires Valid() && pool in pools
      ensures pool.used == |set i | i in home && home[i] == pool|
      ensures pool.used + |pool.stack| == |pool.items|
    {
      assert pool.Footprint() <= repr && Homed(pool, home);
      pool.UsedCounts();
      assert pool.Out() == set i | i in home && home[i] == pool;
    }

    /** Find which pool an item belongs to. */
    method FindPool(item: Item) returns (k: nat)
      requires Valid() && item in home
      ensures k < |pools| && pools[k] == home[item]
    {
      assert home[item].Footprint() <= repr && Homed(home[item], home);
      k := 0;
      while k < |pools|
        invariant k <= |pools| && home[item] in pools[k..]
      {
        if item in pools[k].items {
          HomesOf(pools[k]);
          return;
        }
        k := k + 1;
      }
    }

    /** pool_free: the pool is unmapped exactly when its last item comes back. */
    method Free(item: Item)
      requires Valid() && item in home
      modifies this, repr
      ensures Valid() && home == old(home) - {item} && repr <= old(repr)
      ensures var p := old(home[item]); p in pools <==> exists i :: i in home && home[i] == p
      ensures forall p | p != old(home[item]) :: p in pools <==> p in old(pools)
    {
      var k := FindPool(item);
      assert pools[k].Footprint() <= repr;
      pools[k].UsedCounts();
      if pools[k].used == 1 {
        Unmap(item, k);
      } else {
        GiveBack(item, pools[k]);
      }
    }

    /** The last item of a pool comes back. */
    method Unmap(item: Item, k: nat)
      requires Valid() && item in home && k < |pools| && pools[k] == home[item] && |pools[k].Out()| == 1
      modifies this
      ensures Valid() && home == old(home) - {item} && repr <= old(repr)
      ensures forall i | i in home :: home[i] != old(home[item])
      ensures forall p :: p in pools <==> p in old(pools) && p != old(home[item])
    {
      ghost var pool := pools[k];
      ghost var others := Members() - {pool};
      SetAside(Members(), pool, home, repr);
      LastOut(pool, item);
      Rehome(others, pool, home, home - {item}, repr - pool.Footprint());
      Drop(k);
      assert Members() == others;
      home, repr := home - {item}, repr - pool.Footprint();
    }

    /** An item comes back to a pool that keeps others. */
    method GiveBack(item: Item, pool: Pool)
      requires Valid() && item in home && pool == home[item] && |pool.Out()| > 1 && pool.used > 1
      modifies this`home, this`repr, repr
      ensures Valid() && home == old(home) - {item} && repr == old(repr)
      ensures exists i :: i in home && home[i] == pool
    {
      ghost var r: set<object> := repr - pool.Footprint();
      ghost var others := Members() - {pool};
      SetAside(Members(), pool, home, repr);
      OthersOut(pool, item);
      pool.Return(item);
      Book(pool, others, r, home - {item});
    }

    /** Take pool number k off the list. */
    method Drop(k: nat)
      requires k < |pools| && forall i, j | 0 <= i < j < |pools| :: pools[i] != pools[j]
      modifies this`pools
      ensures forall i, j | 0 <= i < j < |pools| :: pools[i] != pools[j]
      ensures forall p :: p in pools <==> p in old(pools) && p != old(pools[k])
    {
      assert pools == pools[..k] + [pools[k]] + pools[k + 1..];
      pools := pools[..k] + pools[k + 1..];
    }

    lemma LastOut(pool: Pool, item: Item)
      requires Homed(pool, home) && |pool.Out()| == 1 && item in home && home[item] == pool
      ensures forall i | i in home && home[i] == pool :: i == item
    {
      forall i | i in home && home[i] == pool ensures i == item {
        assert {item} <= pool.Out() && |pool.Out() - {item}| == 0;
        assert i in pool.Out();
      }
    }

    lemma OthersOut(pool: Pool, item: Item)
      requires Homed(pool, home) && |pool.Out()| > 1 && item in home && home[item] == pool
      ensures exists i :: i in home && i != item && home[i] == pool
    {
      assert |pool.Out() - {item}| > 0;
      var i :| i in pool.Out() - {item};
      assert i in home && home[i] == pool;
    }
  }

  lemma {:induction false} Sizes(s: seq<Item>)
    requires Distinct(s)
    ensures |Elements(s)| == |s|
  {
    if s != [] {
      Sizes(s[1..]);
      assert Elements(s) == {s[0]} + Elements(s[1..]);
    }
  }
}
