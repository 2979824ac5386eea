/** ASN.1 definitions as egg/egg-asn1x.c stores them: a tree in preorder, where an entry says
    whether the next one is its child (DOWN) and whether it has a next sibling (RIGHT). */
module DefinitionTable {
  import opened Wrappers

  datatype Tree = Tree(item: nat, children: seq<Tree>)

  datatype Entry = Entry(item: nat, down: bool, right: bool)

  function Size(t: Tree): (n: nat)
    ensures n > 0
  {
    1 + SizeAll(t.children)
  }

  function SizeAll(ts: seq<Tree>): nat { if ts == [] then 0 else Size(ts[0]) + SizeAll(ts[1..]) }

  /** The entries of a tree that has a next sibling or not. */
  function Flat(t: Tree, right: bool): (es: seq<Entry>)
    ensures |es| == Size(t)
  {
    [Entry(t.item, t.children != [], right)] + FlatAll(t.children)
  }

  function FlatAll(ts: seq<Tree>): (es: seq<Entry>)
    ensures |es| == SizeAll(ts)
  {
    if ts == [] then [] else Flat(ts[0], |ts| > 1) + FlatAll(ts[1..])
  }

  /** The entries of t stand in the table from p on. */
  ghost predicate Stands(table: seq<Entry>, t: Tree, right: bool, p: nat) {
    p + Size(t) <= |table| && table[p..p + Size(t)] == Flat(t, right)
  }

  /** The entries of some siblings, the last one included, stand in the table from p on. */
  ghost predicate StandAll(table: seq<Entry>, ts: seq<Tree>, p: nat) {
    p + SizeAll(ts) <= |table| && table[p..p + SizeAll(ts)] == FlatAll(ts)
  }

  lemma StandsParts(table: seq<Entry>, t: Tree, right: bool, p: nat)
    requires Stands(table, t, right, p)
    ensures table[p] == Entry(t.item, t.children != [], right)
    ensures StandAll(table, t.children, p + 1)
  {
    assert table[p] == table[p..p + Size(t)][0];
    assert table[p + 1..p + Size(t)] == table[p..p + Size(t)][1..];
  }

  lemma StandAllParts(table: seq<Entry>, ts: seq<Tree>, p: nat)
    requires StandAll(table, ts, p) && ts != []
    ensures Stands(table, ts[0], |ts| > 1, p)
    ensures StandAll(table, ts[1..], p + Size(ts[0]))
  {
    var es, n := table[p..p + SizeAll(ts)], Size(ts[0]);
    assert table[p..p + n] == es[..n] && table[p + n..p + SizeAll(ts)] == es[n..];
  }

  // ---------------------------------------------------------------- next sibling

  function Change(e: Entry): int { (if e.down then 1 else 0) - (if e.right then 0 else 1) }

  /** How many levels more are open behind the entries than in front of them. */
  function Depth(es: seq<Entry>): int {
    if es == [] then 0 else Depth(es[..|es| - 1]) + Change(es[|es| - 1])
  }

  lemma {:induction false} DepthConcat(a: seq<Entry>, b: seq<Entry>)
    ensures Depth(a + b) == Depth(a) + Depth(b)
  {
    if b == [] {
      assert a + b == a;
    } else {
      DepthConcat(a, b[..|b| - 1]);
      assert (a + b)[..|a + b| - 1] == a + b[..|b| - 1];
    }
  }

  /** A tree closes its level at its end if nothing follows it, and not before. */
  lemma {:induction false} TreeDepth(t: Tree, right: bool)
    ensures Depth(Flat(t, right)) == if right then 0 else -1
    ensures forall k | 0 < k < Size(t) :: Depth(Flat(t, right)[..k]) >= 0
    decreases t, 0
  {
    var e, es := [Entry(t.item, t.children != [], right)], FlatAll(t.children);
    DepthConcat(e, es);
    assert Depth(e) == Change(e[0]) by { assert e[..0] == []; }
    if t.children == [] {
      assert es == [];
    } else {
      ForestDepth(t.children);
      forall k | 0 < k < Size(t) ensures Depth(Flat(t, right)[..k]) >= 0 {
        assert Flat(t, right)[..k] == e + es[..k - 1];
        DepthConcat(e, es[..k - 1]);
        assert k == 1 ==> es[..k - 1] == [];
      }
    }
  }

  /** Siblings close their level exactly at their end. */
  lemma {:induction false} ForestDepth(ts: seq<Tree>)
    requires ts != []
    ensures Depth(FlatAll(ts)) == -1
    ensures forall k | 0 < k < SizeAll(ts) :: Depth(FlatAll(ts)[..k]) >= 0
    decreases ts, 1
  {
    var a, b := Flat(ts[0], |ts| > 1), FlatAll(ts[1..]);
    TreeDepth(ts[0], |ts| > 1);
    DepthConcat(a, b);
    if |ts| == 1 {
      assert b == [] && a + b == a;
    } else {
      ForestDepth(ts[1..]);
      forall k | 0 < k < SizeAll(ts) ensures Depth(FlatAll(ts)[..k]) >= 0 {
        if k <= |a| {
          assert FlatAll(ts)[..k] == a[..k];
          assert k == |a| ==> a[..k] == a;
        } else {
          assert FlatAll(ts)[..k] == a + b[..k - |a|];
          DepthConcat(a, b[..k - |a|]);
        }
      }
    }
  }

  /** adef_first_child. */
  method FirstChild(table: seq<Entry>, p: nat, ghost t: Tree, ghost right: bool) returns (r: Option<nat>)
    requires Stands(table, t, right, p)
    ensures r == if t.children == [] then None else Some(p + 1)
    ensures t.children != [] ==> Stands(table, t.children[0], |t.children| > 1, p + 1)
  {
    StandsParts(table, t, right, p);
    if !table[p].down {
      return None;
    }
    StandAllParts(table, t.children, p + 1);
    return Some(p + 1);
  }

  /** adef_next_sibling: the entry behind all descendants. */
  method NextSibling(table: seq<Entry>, p: nat, ghost t: Tree, ghost right: bool) returns (r: Option<nat>)
    requires Stands(table, t, right, p)
    ensures r == if right then Some(p + Size(t)) else None
  {
    StandsParts(table, t, right, p);
    if !table[p].right {
      return None;
    }
    var def := p;
    if table[p].down {
      ghost var es := FlatAll(t.children);
      assert table[p + 1..p + Size(t)] == es;
      ForestDepth(t.children);
      assert es[..0] == [] && es[..|es|] == es;
      var depth := 1;
      while depth > 0
        invariant p <= def < p + Size(t)
        invariant depth == 1 + Depth(es[..def - p])
        invariant depth == 0 ==> def - p == |es|
        decreases |es| - (def - p)
      {
        def := def + 1;
        assert table[def] == es[def - p - 1];
        assert es[..def - p][..def - p - 1] == es[..def - p - 1];
        if table[def].down {
          depth := depth + 1;
        }
        if !table[def].right {
          depth := depth - 1;
        }
        if def - p < |es| { assert Depth(es[..def - p]) >= 0; }
      }
    }
    return Some(def + 1);
  }

  /** Where the subtrees of siblings start. */
  function Starts(ts: seq<Tree>, p: nat): (ps: seq<nat>)
    ensures |ps| == |ts|
  {
    if ts == [] then [] else [p] + Starts(ts[1..], p + Size(ts[0]))
  }

  /** First child and next siblings are exactly the children, in order. */
  method VisitChildren(table: seq<Entry>, p: nat, ghost t: Tree, ghost right: bool) returns (visited: seq<nat>)
    requires Stands(table, t, right, p)
    ensures visited == Starts(t.children, p + 1)
  {
    visited := [];
    StandsParts(table, t, right, p);
    var def := FirstChild(table, p, t, right);
    ghost var rest, q: nat := t.children, p + 1;
    while def.Some?
      invariant visited + Starts(rest, q) == Starts(t.children, p + 1)
      invariant StandAll(table, rest, q)
      invariant def == if rest == [] then None else Some(q)
      decreases |rest|
    {
      StandAllParts(table, rest, q);
      visited := visited + [def.value];
      def := NextSibling(table, def.value, rest[0], |rest| > 1);
      assert visited + Starts(rest[1..], q + Size(rest[0])) == visited[..|visited| - 1] + Starts(rest, q);
      rest, q := rest[1..], q + Size(rest[0]);
    }
  }

  // ---------------------------------------------------------------- rebuilding the tree

  type Parents = seq<Option<nat>>

  /** The parent of every entry of a tree whose first entry is number p. */
  function Owners(t: Tree, parent: Option<nat>, p: nat): (os: Parents)
    ensures |os| == Size(t)
  {
    [parent] + OwnersAll(t.children, Some(p), p + 1)
  }

  function OwnersAll(ts: seq<Tree>, parent: Option<nat>, p: nat): (os: Parents)
    ensures |os| == SizeAll(ts)
  {
    if ts == [] then [] else Owners(ts[0], parent, p) + OwnersAll(ts[1..], parent, p + Size(ts[0]))
  }

  ghost predicate Older(os: Parents) {
    forall k | 0 <= k < |os| :: os[k].Some? ==> os[k].value < k
  }

  /** Up from a, to the parent of the first ancestor that has a next sibling. */
  function Climb(table: seq<Entry>, os: Parents, a: Option<nat>): Option<nat>
    requires |os| <= |table| && Older(os) && (a.Some? ==> a.value < |os|)
    decreases if a.Some? then a.value + 1 else 0
  {
    if a.None? then None
    else if table[a.value].right then os[a.value]
    else Climb(table, os, os[a.value])
  }

  /** The parent of the entry behind entry k. */
  function Following(table: seq<Entry>, os: Parents, k: nat): Option<nat>
    requires k < |os| <= |table| && Older(os)
  {
    if table[k].down then Some(k) else if table[k].right then os[k] else Climb(table, os, os[k])
  }

  /** The parents of t's entries are as they should be, p being the number of the first. */
  ghost predicate OwnedBy(os: Parents, t: Tree, parent: Option<nat>, p: nat) {
    p + Size(t) <= |os| && os[p..p + Size(t)] == Owners(t, parent, p)
  }

  ghost predicate AllOwnedBy(os: Parents, ts: seq<Tree>, parent: Option<nat>, p: nat) {
    p + SizeAll(ts) <= |os| && os[p..p + SizeAll(ts)] == OwnersAll(ts, parent, p)
  }

  lemma OwnedParts(os: Parents, t: Tree, parent: Option<nat>, p: nat)
    requires OwnedBy(os, t, parent, p)
    ensures os[p] == parent && AllOwnedBy(os, t.children, Some(p), p + 1)
  {
    assert os[p] == os[p..p + Size(t)][0];
    assert os[p + 1..p + Size(t)] == os[p..p + Size(t)][1..];
  }

  lemma AllOwnedParts(os: Parents, ts: seq<Tree>, parent: Option<nat>, p: nat)
    requires AllOwnedBy(os, ts, parent, p) && ts != []
    ensures OwnedBy(os, ts[0], parent, p) && AllOwnedBy(os, ts[1..], parent, p + Size(ts[0]))
  {
    var es, n := os[p..p + SizeAll(ts)], Size(ts[0]);
    assert os[p..p + n] == es[..n] && os[p + n..p + SizeAll(ts)] == es[n..];
  }

  /** Behind the last entry of a tree comes its next sibling, or what follows its parent. */
  lemma {:induction false} BehindTree(table: seq<Entry>, os: Parents, t: Tree, right: bool, parent: Option<nat>, p: nat)
    requires |os| <= |table| && Older(os) && Stands(table, t, right, p) && OwnedBy(os, t, parent, p)
    ensures (parent.Some? ==> parent.value < |os|)
    ensures Following(table, os, p + Size(t) - 1) == if right then parent else Climb(table, os, parent)
    decreases t, 0
  {
    StandsParts(table, t, right, p);
    OwnedParts(os, t, parent, p);
    if t.children != [] {
      BehindForest(table, os, t.children, Some(p), p + 1);
    }
  }

  /** Behind the last sibling comes what follows the parent. */
  lemma {:induction false} BehindForest(table: seq<Entry>, os: Parents, ts: seq<Tree>, parent: Option<nat>, p: nat)
    requires |os| <= |table| && Older(os) && StandAll(table, ts, p) && AllOwnedBy(os, ts, parent, p) && ts != []
    ensures (parent.Some? ==> parent.value < |os|)
    ensures Following(table, os, p + SizeAll(ts) - 1) == Climb(table, os, parent)
    decreases ts, 1
  {
    StandAllParts(table, ts, p);
    AllOwnedParts(os, ts, parent, p);
    BehindTree(table, os, ts[0], |ts| > 1, parent, p);
    if |ts| > 1 {
      BehindForest(table, os, ts[1..], parent, p + Size(ts[0]));
    }
  }

  /** Inside a tree, the entry behind entry k has the parent the loop comes to. */
  lemma {:induction false} InsideTree(table: seq<Entry>, os: Parents, t: Tree, right: bool, parent: Option<nat>,
    p: nat, k: nat)
    requires |os| <= |table| && Older(os) && Stands(table, t, right, p) && OwnedBy(os, t, parent, p)
    requires p <= k < p + Size(t) - 1
    ensures Following(table, os, k) == os[k + 1]
    decreases t, 0
  {
    StandsParts(table, t, right, p);
    OwnedParts(os, t, parent, p);
    StandAllParts(table, t.children, p + 1);
    AllOwnedParts(os, t.children, Some(p), p + 1);
    OwnedParts(os, t.children[0], Some(p), p + 1);
    if k > p {
      InsideForest(table, os, t.children, Some(p), p + 1, k);
    }
  }

  lemma {:induction false} InsideForest(table: seq<Entry>, os: Parents, ts: seq<Tree>, parent: Option<nat>, p: nat,
    k: nat)
    requires |os| <= |table| && Older(os) && StandAll(table, ts, p) && AllOwnedBy(os, ts, parent, p)
    requires p <= k < p + SizeAll(ts) - 1
    ensures Following(table, os, k) == os[k + 1]
    decreases ts, 1
  {
    StandAllParts(table, ts, p);
    AllOwnedParts(os, ts, parent, p);
    var n := Size(ts[0]);
    if k < p + n - 1 {
      InsideTree(table, os, ts[0], |ts| > 1, parent, p, k);
    } else if k == p + n - 1 {
      BehindTree(table, os, ts[0], |ts| > 1, parent, p);
      AllOwnedParts(os, ts[1..], parent, p + n);
      OwnedParts(os, ts[1], parent, p + n);
    } else {
      InsideForest(table, os, ts[1..], parent, p + n, k);
    }
  }

  lemma {:induction false} OwnersOlder(t: Tree, parent: Option<nat>, p: nat)
    requires parent.Some? ==> parent.value < p
    ensures forall k | 0 <= k < Size(t) :: Owners(t, parent, p)[k].Some? ==> Owners(t, parent, p)[k].value < p + k
    decreases t, 0
  {
    AllOwnersOlder(t.children, Some(p), p + 1);
  }

  lemma {:induction false} AllOwnersOlder(ts: seq<Tree>, parent: Option<nat>, p: nat)
    requires parent.Some? ==> parent.value < p
    ensures forall k | 0 <= k < SizeAll(ts) :: OwnersAll(ts, parent, p)[k].Some? ==>
      OwnersAll(ts, parent, p)[k].value < p + k
    decreases ts, 1
  {
    if ts != [] {
      OwnersOlder(ts[0], parent, p);
      AllOwnersOlder(ts[1..], parent, p + Size(ts[0]));
    }
  }

  /** Every entry but the first has a parent. */
  lemma {:induction false} AllOwned(ts: seq<Tree>, parent: Option<nat>, p: nat)
    requires parent.Some?
    ensures forall k | 0 <= k < SizeAll(ts) :: OwnersAll(ts, parent, p)[k].Some?
  {
    if ts != [] {
      var a, b := Owners(ts[0], parent, p), OwnersAll(ts[1..], parent, p + Size(ts[0]));
      AllOwned(ts[0].children, Some(p), p + 1);
      AllOwned(ts[1..], parent, p + Size(ts[0]));
      assert a == [parent] + OwnersAll(ts[0].children, Some(p), p + 1);
      assert OwnersAll(ts, parent, p) == a + b;
    }
  }

  /** The entries from lo up to hi whose parent is i, in order. */
  function Kids(os: Parents, i: nat, lo: nat, hi: nat): (ks: seq<nat>)
    requires lo <= hi <= |os|
  {
    if lo == hi then [] else Kids(os, i, lo, hi - 1) + (if os[hi - 1] == Some(i) then [hi - 1] else [])
  }

  lemma {:induction false} KidsSplit(os: Parents, i: nat, lo: nat, mid: nat, hi: nat)
    requires lo <= mid <= hi <= |os|
    ensures Kids(os, i, lo, hi) == Kids(os, i, lo, mid) + Kids(os, i, mid, hi)
  {
    if mid < hi { KidsSplit(os, i, lo, mid, hi - 1); }
  }

  lemma {:induction false} NoKids(os: Parents, i: nat, lo: nat, hi: nat)
    requires lo <= hi <= |os| && forall k | lo <= k < hi :: os[k] != Some(i)
    ensures Kids(os, i, lo, hi) == []
  {
    if lo < hi { NoKids(os, i, lo, hi - 1); }
  }

  lemma {:induction false} KidsPrefix(os: Parents, o: Option<nat>, i: nat, hi: nat)
    requires hi <= |os|
    ensures Kids(os + [o], i, 0, hi) == Kids(os, i, 0, hi)
  {
    if hi > 0 { KidsPrefix(os, o, i, hi - 1); }
  }

  /** Of the entries of a tree only the first belongs to its parent. */
  lemma TreeKids(os: Parents, t: Tree, parent: nat, p: nat)
    requires OwnedBy(os, t, Some(parent), p) && parent < p
    ensures Kids(os, parent, p, p + Size(t)) == [p]
  {
    var e := p + Size(t);
    OwnedParts(os, t, Some(parent), p);
    OwnersInside(os, t.children, p, p + 1);
    KidsSplit(os, parent, p, p + 1, e);
    NoKids(os, parent, p + 1, e);
    assert Kids(os, parent, p, p + 1) == Kids(os, parent, p, p) + [p];
  }

  /** Inside a tree, parents are not in front of it; among siblings, only their first entries
      belong to the common parent. */
  lemma {:induction false} ForestKids(os: Parents, ts: seq<Tree>, parent: nat, p: nat)
    requires AllOwnedBy(os, ts, Some(parent), p) && parent < p
    ensures Kids(os, parent, p, p + SizeAll(ts)) == Starts(ts, p)
  {
    if ts != [] {
      var mid := p + Size(ts[0]);
      AllOwnedParts(os, ts, Some(parent), p);
      TreeKids(os, ts[0], parent, p);
      ForestKids(os, ts[1..], parent, mid);
      KidsSplit(os, parent, p, mid, mid + SizeAll(ts[1..]));
    }
  }

  /** Entries below entry q have parents from q on. */
  lemma {:induction false} OwnersInside(os: Parents, ts: seq<Tree>, q: nat, p: nat)
    requires AllOwnedBy(os, ts, Some(q), p) && q < p
    ensures forall k | p <= k < p + SizeAll(ts) :: os[k].Some? && q <= os[k].value < p + SizeAll(ts)
  {
    if ts != [] {
      AllOwnedParts(os, ts, Some(q), p);
      OwnedParts(os, ts[0], Some(q), p);
      OwnersInside(os, ts[0].children, p, p + 1);
      OwnersInside(os, ts[1..], q, p + Size(ts[0]));
    }
  }

  /** No entry from hi on has a parent between lo and hi. */
  ghost predicate Closed(os: Parents, lo: nat, hi: nat) {
    forall k | hi <= k < |os| && os[k].Some? :: os[k].value < lo || os[k].value >= hi
  }

  /** Node p and the nodes below it carry the items of t and are linked as its nodes. */
  ghost predicate Grown(items: seq<nat>, kids: seq<seq<nat>>, t: Tree, p: nat) {
    && p < |items| && p < |kids|
    && items[p] == t.item
    && kids[p] == Starts(t.children, p + 1)
    && AllGrown(items, kids, t.children, p + 1)
  }

  ghost predicate AllGrown(items: seq<nat>, kids: seq<seq<nat>>, ts: seq<Tree>, p: nat) {
    ts == [] || (Grown(items, kids, ts[0], p) && AllGrown(items, kids, ts[1..], p + Size(ts[0])))
  }

  /** What the loop has linked up to the end. */
  ghost predicate Linked(table: seq<Entry>, items: seq<nat>, kids: seq<seq<nat>>, os: Parents) {
    && |items| == |kids| == |os| <= |table| && Older(os)
    && (forall k | 0 <= k < |os| :: items[k] == table[k].item)
    && (forall k | 0 <= k < |os| :: kids[k] == Kids(os, k, 0, |os|))
  }

  lemma KidsOf(os: Parents, t: Tree, parent: Option<nat>, p: nat)
    requires Older(os) && OwnedBy(os, t, parent, p) && Closed(os, p, p + Size(t))
    ensures Kids(os, p, 0, |os|) == Starts(t.children, p + 1)
  {
    var e := p + Size(t);
    OwnedParts(os, t, parent, p);
    ForestKids(os, t.children, p, p + 1);
    KidsSplit(os, p, 0, p + 1, |os|);
    KidsSplit(os, p, p + 1, e, |os|);
    NoKids(os, p, 0, p + 1);
    NoKids(os, p, e, |os|);
  }

  lemma {:induction false} LinkedGrown(table: seq<Entry>, items: seq<nat>, kids: seq<seq<nat>>, os: Parents,
                                       t: Tree, right: bool, parent: Option<nat>, p: nat)
    requires Linked(table, items, kids, os) && Stands(table, t, right, p) && OwnedBy(os, t, parent, p)
    requires Closed(os, p, p + Size(t))
    ensures Grown(items, kids, t, p)
    decreases t, 0
  {
    StandsParts(table, t, right, p);
    OwnedParts(os, t, parent, p);
    KidsOf(os, t, parent, p);
    LinkedAllGrown(table, items, kids, os, t.children, p, p + 1);
  }

  lemma {:induction false} LinkedAllGrown(table: seq<Entry>, items: seq<nat>, kids: seq<seq<nat>>, os: Parents,
                                          ts: seq<Tree>, q: nat, p: nat)
    requires Linked(table, items, kids, os) && StandAll(table, ts, p) && AllOwnedBy(os, ts, Some(q), p)
    requires q < p && Closed(os, p, p + SizeAll(ts))
    ensures AllGrown(items, kids, ts, p)
    decreases ts, 1
  {
    if ts != [] {
      var n := Size(ts[0]);
      StandAllParts(table, ts, p);
      AllOwnedParts(os, ts, Some(q), p);
      SiblingsClosed(os, ts, q, p);
      LinkedGrown(table, items, kids, os, ts[0], |ts| > 1, Some(q), p);
      LinkedAllGrown(table, items, kids, os, ts[1..], q, p + n);
    }
  }

  lemma SiblingsClosed(os: Parents, ts: seq<Tree>, q: nat, p: nat)
    requires AllOwnedBy(os, ts, Some(q), p) && ts != [] && q < p && Closed(os, p, p + SizeAll(ts))
    ensures Closed(os, p, p + Size(ts[0])) && Closed(os, p + Size(ts[0]), p + SizeAll(ts))
  {
    var mid, end := p + Size(ts[0]), p + SizeAll(ts);
    AllOwnedParts(os, ts, Some(q), p);
    assert end == mid + SizeAll(ts[1..]);
    forall k | mid <= k < end && os[k].Some? ensures os[k].value < p || os[k].value >= mid {
      SiblingOwners(os, ts[1..], q, mid, k);
    }
    ClosedApart(os, p, mid, end);
  }

  lemma ClosedApart(os: Parents, p: nat, mid: nat, end: nat)
    requires p <= mid <= end <= |os| && Closed(os, p, end)
    requires forall k | mid <= k < end && os[k].Some? :: os[k].value < p || os[k].value >= mid
    ensures Closed(os, p, mid) && Closed(os, mid, end)
  {
  }

  /** Among siblings, an entry belongs to their parent or to an entry of theirs. */
  lemma {:induction false} SiblingOwners(os: Parents, ts: seq<Tree>, q: nat, p: nat, k: nat)
    requires AllOwnedBy(os, ts, Some(q), p) && q < p <= k < p + SizeAll(ts)
    ensures os[k].Some? && (os[k].value == q || os[k].value >= p)
  {
    AllOwnedParts(os, ts, Some(q), p);
    OwnedParts(os, ts[0], Some(q), p);
    if k == p {
    } else if k < p + Size(ts[0]) {
      OwnersInside(os, ts[0].children, p, p + 1);
    } else {
      SiblingOwners(os, ts[1..], q, p + Size(ts[0]), k);
    }
  }

  /** Behind entry k of a whole tree: the parent of entry k + 1, or nothing at the end. */
  lemma FollowingIs(es: seq<Entry>, os: Parents, t: Tree, right: bool, k: nat)
    requires es == Flat(t, right) && os == Owners(t, None, 0) && k < |os|
    ensures |os| == |es| && Older(os) && forall i | 0 < i < |os| :: os[i].Some?
    ensures os[0] == None && Following(es, os, k) == if k + 1 < |os| then os[k + 1] else None
  {
    OwnersOlder(t, None, 0);
    AllOwned(t.children, Some(0), 1);
    assert es[0..0 + Size(t)] == es && os[0..0 + Size(t)] == os;
    if k + 1 < |os| {
      InsideTree(es, os, t, right, None, 0, k);
    } else {
      BehindTree(es, os, t, right, None, 0);
    }
  }

  /** Climb from a node to the parent of its first ancestor with a next sibling. */
  method ClimbUp(table: seq<Entry>, base: nat, parents: Parents, node: nat, ghost es: seq<Entry>, ghost os: Parents)
    returns (parent: Option<nat>)
    requires base + |es| <= |table| && es == table[base..base + |es|] && |os| == |es| && Older(os)
    requires node < |parents| <= |os| && parents == os[..|parents|]
    ensures parent == Climb(es, os, os[node])
  {
    parent := parents[node];
    while parent.Some?
      invariant parent.Some? ==> parent.value < |parents|
      invariant Climb(es, os, os[node]) == Climb(es, os, parent)
      decreases if parent.Some? then parent.value + 1 else 0
    {
      var right := table[base + parent.value].right;
      assert right == es[parent.value].right && parents[parent.value] == os[parent.value];
      parent := parents[parent.value];
      if right {
        return;
      }
    }
  }

  /** The parent of the next node: the last one, its parent, or one further up. */
  method NextParent(table: seq<Entry>, base: nat, def: nat, parents: Parents, node: nat, ghost es: seq<Entry>,
    ghost os: Parents)
    returns (parent: Option<nat>)
    requires base + |es| <= |table| && es == table[base..base + |es|] && |os| == |es| && Older(os)
    requires node + 1 == |parents| <= |os| && parents == os[..|parents|] && def == base + node
    requires es[0].down && forall i | 0 < i < |os| :: os[i].Some?
    ensures parent == Following(es, os, node)
  {
    assert table[def] == es[node] && parents[node] == os[node];
    if table[def].down {
      parent := Some(node);
    } else if table[def].right {
      assert parents[node].Some?;
      parent := parents[node];
    } else {
      parent := ClimbUp(table, base, parents, node, es, os);
    }
  }

  /** The nodes made so far: parents, children in order, and items. */
  ghost predicate Made(es: seq<Entry>, os: Parents, parents: Parents, kids: seq<seq<nat>>, items: seq<nat>, n: nat) {
    && 0 < n <= |os| == |es|
    && |parents| == |kids| == |items| == n
    && parents == os[..n]
    && (forall i | 0 <= i < n :: kids[i] == Kids(parents, i, 0, n))
    && (forall i | 0 <= i < n :: items[i] == es[i].item)
  }

  lemma MadeMore(es: seq<Entry>, os: Parents, parents: Parents, kids: seq<seq<nat>>, items: seq<nat>, n: nat,
    parent: nat, item: nat)
    requires Made(es, os, parents, kids, items, n) && Older(os) && n < |os| && os[n] == Some(parent)
    requires item == es[n].item
    ensures parent < n
    ensures Made(es, os, parents + [Some(parent)], kids[parent := kids[parent] + [n]] + [[]], items + [item], n + 1)
  {
    assert Older(parents);
    AppendKids(parents, parent, kids);
    assert os[..n + 1] == parents + [Some(parent)];
  }

  /** The loop of egg_asn1x_create: one pass over the entries rebuilds exactly the tree they stand
      for, and stops at its end. Nodes are numbered as they are made. */
  method Create(table: seq<Entry>, base: nat, ghost t: Tree, ghost right: bool)
    returns (parents: Parents, kids: seq<seq<nat>>, items: seq<nat>)
    requires Stands(table, t, right, base)
    ensures parents == Owners(t, None, 0) && |items| == |kids| == Size(t)
    ensures Grown(items, kids, t, 0)
  {
    ghost var es, os := Flat(t, right), Owners(t, None, 0);
    FollowingIs(es, os, t, right, 0);
    assert forall k | 0 <= k < |es| :: es[k] == table[base + k];
    parents, kids, items := [None], [[]], [table[base].item];
    assert Kids(parents, 0, 0, 1) == Kids(parents, 0, 0, 0) == [];
    var def, node := base, 0;
    if table[def].down {
      while true
        invariant 0 <= node < |os| && def == base + node
        invariant Made(es, os, parents, kids, items, node + 1)
        decreases |os| - node
      {
        FollowingIs(es, os, t, right, node);
        var parent := NextParent(table, base, def, parents, node, es, os);
        if parent.None? {
          break;
        }
        def, node := def + 1, node + 1;
        MadeMore(es, os, parents, kids, items, node, parent.value, table[def].item);
        parents, items := parents + [parent], items + [table[def].item];
        kids := kids[parent.value := kids[parent.value] + [node]] + [[]];
      }
    }
    MadeAll(es, os, parents, kids, items, node + 1, t, right);
  }

  lemma MadeAll(es: seq<Entry>, os: Parents, parents: Parents, kids: seq<seq<nat>>, items: seq<nat>, n: nat, t: Tree,
    right: bool)
    requires es == Flat(t, right) && os == Owners(t, None, 0) && n == |os| && Made(es, os, parents, kids, items, n)
    ensures parents == os && Grown(items, kids, t, 0)
  {
    FollowingIs(es, os, t, right, 0);
    assert os[..n] == os && es[0..0 + Size(t)] == es && os[0..0 + Size(t)] == os;
    LinkedGrown(es, items, kids, os, t, right, None, 0);
  }

  lemma AppendKids(os: Parents, parent: nat, kids: seq<seq<nat>>)
    requires parent < |os| == |kids| && Older(os) && forall i | 0 <= i < |os| :: kids[i] == Kids(os, i, 0, |os|)
    ensures var os', kids' := os + [Some(parent)], kids[parent := kids[parent] + [|os|]] + [[]];
      forall i | 0 <= i <= |os| :: kids'[i] == Kids(os', i, 0, |os| + 1)
  {
    var os', kids' := os + [Some(parent)], kids[parent := kids[parent] + [|os|]] + [[]];
    forall i | 0 <= i <= |os| ensures kids'[i] == Kids(os', i, 0, |os| + 1) {
      KidsPrefix(os, Some(parent), i, |os|);
      if i == |os| { NoKids(os, i, 0, |os|); }
    }
  }
}
