/** One block of locked memory: the sec_* half of egg/egg-secure-memory.c. */
module Blocks {
  import opened Layout
  import opened Rings

  /** The amount of extra words an allocation may be given. */
  const WASTE: nat := 4

  /** The record of the cell at p says what the span says; while the cell at off is
      being moved between rings its request and tag are in flux. */
  ghost predicate Says(sp: Span, p: nat, off: int)
    reads sp.cell`words, sp.cell`nWords, sp.cell`requested, sp.cell`tagged
  {
    var c := sp.cell;
    && c.words == p
    && c.nWords == sp.nWords
    && (p != off ==> c.requested == sp.requested && (c.tagged <==> sp.Used()))
  }

  /** A cell is on exactly one ring, the one its request calls for; the cell at off is on none. */
  ghost predicate OnRing(sp: Span, p: nat, off: int, used: seq<Cell>, unused: seq<Cell>) {
    && (sp.cell in used <==> p != off && sp.Used())
    && (sp.cell in unused <==> p != off && !sp.Used())
  }

  /** No cell is off its ring. */
  const NONE: int := -1

  /** Records, rings and spans belong together. */
  ghost predicate Synced(at: Cells, used: seq<Cell>, unused: seq<Cell>, off: int)
    reads Records(at)`words, Records(at)`nWords, Records(at)`requested, Records(at)`tagged
  {
    && (forall p {:trigger Says(at[p], p, off)} | p in at :: Says(at[p], p, off))
    && (forall p {:trigger OnRing(at[p], p, off, used, unused)} | p in at :: OnRing(at[p], p, off, used, unused))
    && (forall c | c in used :: c in Records(at) && c.words in at && at[c.words].cell == c)
    && (forall c | c in unused :: c in Records(at) && c.words in at && at[c.words].cell == c)
  }

  /** The cell at off is linked to nothing. */
  ghost predicate Loose(at: Cells, off: int)
    reads Records(at)`next, Records(at)`prev
  {
    off >= 0 ==> off in at && at[off].cell.next == null && at[off].cell.prev == null
  }

  class Block {
    const mem: array<Octet>
    const nWords: nat
    var nUsed: nat
    var usedCells: Cell?
    var unusedCells: Cell?

    ghost var at: Cells
    ghost var used: seq<Cell>
    ghost var unused: seq<Cell>
    ghost var repr: set<object>
    ghost var view: map<nat, Octets>
    // The records that the metadata pool has handed out for this block and that were not given back.
    ghost var taken: set<Cell>

    /** The cells, their records and the two rings belong together. */
    ghost predicate Tied(off: int)
      reads this`at, this`used, this`unused, this`usedCells, this`unusedCells, Records(at)
    {
      && Tiles(at, nWords)
      && Synced(at, used, unused, off)
      && IsRing(usedCells, used)
      && IsRing(unusedCells, unused)
      && Loose(at, off)
    }

    ghost predicate Inv(off: int)
      reads this`at, this`used, this`unused, this`usedCells, this`unusedCells, mem, Records(at)
    {
      && mem.Length == 8 * nWords
      && Laid(at, mem[..], nWords)
      && Tied(off)
    }

    /** No record is given back while a cell has it, and none is forgotten. */
    ghost predicate Accounted()
      reads this`at, this`taken
    {
      taken == Records(at)
    }

    ghost predicate Valid()
      reads this`taken, this`at, this`used, this`unused, this`usedCells, this`unusedCells, this`nUsed, mem, Records(at)
    {
      && Inv(NONE)
      && Coalesced(at)
      && nUsed == |used|
      && Accounted()
    }

    /** pool_alloc: the record is none that this block has. */
    ghost method PoolAlloc(cell: Cell)
      requires cell !in taken
      modifies this`taken
      ensures taken == old(taken) + {cell}
    {
      taken := taken + {cell};
    }

    /** pool_free: the record is one that this block has. */
    ghost method PoolFree(cell: Cell)
      requires cell in taken
      modifies this`taken
      ensures taken == old(taken) - {cell}
    {
      taken := taken - {cell};
    }

    /** A valid block together with all objects it is made of. */
    ghost predicate Ready()
      reads this, repr
    {
      && this in repr && mem in repr && Records(at) <= repr
      && repr == {this, mem} + Records(at)
      && Valid() && view == View()
    }

    /** The live allocations and their bytes. */
    ghost function View(): map<nat, Octets>
      reads this`at, mem
      requires mem.Length == 8 * nWords && Laid(at, mem[..], nWords)
    {
      Contents(at, mem[..], nWords)
    }

    /** Note the objects and the contents the block has come to. */
    ghost method Stamp()
      requires Valid()
      modifies this`repr, this`view
      ensures Ready() && repr == {this, mem} + Records(at) && view == View() == old(View())
    {
      repr, view := {this, mem} + Records(at), View();
    }

    /** The block half of sec_block_create: one unused cell over the acquired, zeroed pages. */
    constructor (words: nat)
      requires words >= 3
      ensures Ready() && nWords == words && view == map[] && fresh(repr)
      ensures nUsed == 0 && Fits(0, words)
    {
      var cell := new Cell();
      mem := new Octet[8 * words](_ => Zero);
      nWords, nUsed, usedCells, unusedCells := words, 0, null, null;
      at, used, unused, taken := map[0 := Span(cell, words, 0)], [], [], {cell};
      new;
      FirstCell(cell);
      Stamp();
      assert repr == {this, mem, cell};
    }

    /** Describe the whole block as one unused cell. */
    method FirstCell(cell: Cell)
      requires nWords >= 3 && mem.Length == 8 * nWords && forall b | 0 <= b < mem.Length :: mem[b] == Zero
      requires usedCells == unusedCells == null && used == unused == [] && nUsed == 0
      requires at == map[0 := Span(cell, nWords, 0)]
      requires cell.next == null && cell.prev == null && !cell.tagged && taken == {cell}
      modifies this`unusedCells, this`unused, mem, cell
      ensures Valid() && View() == map[] && Records(at) == {cell} && at == old(at)
    {
      ghost var m0 := mem[..];
      cell.words, cell.nWords, cell.requested := 0, nWords, 0;
      WriteGuards(cell);
      NewBlockLaid(m0, mem[..], nWords, cell);
      unusedCells, unused := Enter(unusedCells, unused, cell);
      assert OnRing(at[0], 0, NONE, used, unused) && Says(at[0], 0, NONE);
    }

    // -------------------------------------------------------------- guard words

    predicate IsValidWord(w: int) { 0 <= w < nWords }

    /** *word, where word holds a pointer to a record. */
    method ReadPointer(w: nat, ghost c: Cell) returns (cell: Cell)
      requires Points(mem[..], w, c)
      ensures cell == c
    {
      assert mem[..][8 * w] == Guard(c, 0);
      cell := mem[8 * w].cell;
    }

    method WriteGuards(cell: Cell)
      requires cell.nWords >= 2 && 8 * (cell.words + cell.nWords) <= mem.Length
      modifies mem
      ensures Guarded(old(mem[..]), mem[..], cell, cell.words, cell.nWords)
    {
      forall k | 0 <= k < 8 {
        mem[8 * cell.words + k] := Guard(cell, k);
      }
      var last := cell.words + cell.nWords - 1;
      forall k | 0 <= k < 8 {
        mem[8 * last + k] := Guard(cell, k);
      }
    }

    /** memset (ptr + from, 0, to - from). */
    method ClearBytes(from: nat, to: nat)
      requires from <= to <= mem.Length
      modifies mem
      ensures Cleared(old(mem[..]), mem[..], from, to)
    {
      forall b | from <= b < to {
        mem[b] := Zero;
      }
    }

    method NeighbourBefore(cell: Cell, ghost off: int) returns (other: Cell?)
      requires Inv(off) && cell.words in at && at[cell.words].cell == cell
      ensures other == null <==> cell.words == 0
      ensures other != null ==>
        other in Records(at) && other.words in at && at[other.words].cell == other && End(at, other.words) == cell.words
    {
      var w: int := cell.words - 1;
      if !IsValidWord(w) {
        assert SpanOk(cell.words, at[cell.words], mem[..]);
        return null;
      }
      ghost var q := LeftNeighbour(at, nWords, cell.words);
      assert SpanOk(q, at[q], mem[..]) && Says(at[q], q, off);
      other := ReadPointer(w, at[q].cell);
    }

    method NeighbourAfter(cell: Cell, ghost off: int) returns (other: Cell?)
      requires Inv(off) && cell.words in at && at[cell.words].cell == cell
      ensures cell.nWords == at[cell.words].nWords
      ensures other == null <==> End(at, cell.words) == nWords
      ensures other != null ==>
        other in Records(at) && other.words in at && at[other.words].cell == other && other.words == End(at, cell.words)
    {
      assert Says(at[cell.words], cell.words, off);
      var w := cell.words + cell.nWords;
      if !IsValidWord(w) {
        return null;
      }
      assert Joined(at, nWords, cell.words);
      assert SpanOk(w, at[w], mem[..]) && Says(at[w], w, off);
      other := ReadPointer(w, at[w].cell);
    }

    // -------------------------------------------------------------- allocation

    /** First fit along the unused ring. */
    method FindUnused(n: nat) returns (cell: Cell?, ghost k: nat)
      requires Inv(NONE) && unusedCells != null
      ensures cell != null ==> k < |unused| && unused[k] == cell && cell.nWords >= n
      ensures cell != null ==> forall j | 0 <= j < k :: unused[j].nWords < n
      ensures cell == null ==> forall c | c in unused :: c.nWords < n
    {
      k := 0;
      var at := unusedCells;
      while at.nWords < n
        invariant k < |unused| && at == unused[k]
        invariant forall j | 0 <= j < k :: unused[j].nWords < n
        decreases |unused| - k
      {
        at := at.next;
        if at == unusedCells {
          assert k + 1 == |unused|;
          return null, k;
        }
        k := k + 1;
      }
      cell := at;
    }

    /** Write the guards of two adjacent cells, of n words at w and of k words at v. */
    method GuardBoth(left: Cell, right: Cell, ghost w: nat, ghost n: nat, ghost v: nat, ghost k: nat)
      requires left.words == w && left.nWords == n && right.words == v && right.nWords == k
      requires w + n == v && n >= 2 && k >= 2 && 8 * (v + k) <= mem.Length
      modifies mem
      ensures GuardedTwo(old(mem[..]), mem[..], left, w, n, right, v, k)
    {
      WriteGuards(right);
      WriteGuards(left);
    }

    method CarveFields(cell: Cell, n: nat, other: Cell, ghost p: nat)
      requires Tiles(at, nWords) && p in at && at[p].cell == cell && other !in Records(at) && n < at[p].nWords
      requires forall q {:trigger Says(at[q], q, NONE)} | q in at :: Says(at[q], q, NONE)
      modifies cell`words, cell`nWords, other`words, other`nWords
      ensures forall q {:trigger Says(at[q], q, NONE)} | q in at && q != p :: Says(at[q], q, NONE)
      ensures other.words == p && other.nWords == n && cell.words == p + n && cell.nWords == at[p].nWords - n
      ensures cell.requested == at[p].requested && (cell.tagged <==> at[p].Used())
    {
      assert Says(at[p], p, NONE) && cell in Records(at);
      other.nWords := n;
      other.words := cell.words;
      cell.nWords := cell.nWords - n;
      cell.words := cell.words + n;
      forall q | q in at && q != p ensures Says(at[q], q, NONE) {
        assert Apart(at, p, q) && at[q].cell in Records(at) && old(Says(at[q], q, NONE));
      }
    }

    /** The records: the first n words of an unused cell go to a new record, which is on no ring yet. */
    method Carve(cell: Cell, n: nat, other: Cell)
      requires Tied(NONE) && cell.words in at && at[cell.words].cell == cell && !at[cell.words].Used()
      requires 0 < n < at[cell.words].nWords
      requires other !in Records(at) && other.next == null && other.prev == null
      modifies this`at, cell`words, cell`nWords, other`words, other`nWords
      ensures var p := old(cell.words);
        && n <= old(at[p]).nWords
        && at == Cut(old(at), p, n, other)
        && other.words == p && other.nWords == n
        && cell.words == p + n && cell.nWords == old(at[p]).nWords - n
        && Tied(p)
      ensures Records(at) == old(Records(at)) + {other}
    {
      ghost var p, at0 := cell.words, at;
      CarveFields(cell, n, other, p);
      CutSynced(at0, nWords, p, n, other, used, unused);
      CutRecords(at0, nWords, p, n, other);
      CutTiles(at0, nWords, p, n, other);
      at := Cut(at, p, n, other);
    }

    /** Give the first n words of an unused cell to a new record, which is on no ring yet. */
    method Split(cell: Cell, n: nat, other: Cell)
      requires Inv(NONE) && cell.words in at && at[cell.words].cell == cell && !at[cell.words].Used()
      requires 3 <= n <= at[cell.words].nWords - 3
      requires other !in Records(at) && other.next == null && other.prev == null
      modifies this`at, mem, cell`words, cell`nWords, other`words, other`nWords
      ensures var p := old(cell.words);
        && n <= old(at[p]).nWords
        && at == Cut(old(at), p, n, other)
        && other.words == p
        && Inv(p) && View() == old(View())
      ensures Records(at) == old(Records(at)) + {other}
    {
      ghost var p, at0, m0 := cell.words, at, mem[..];
      assert SpanOk(p, at[p], m0);
      Carve(cell, n, other);
      assert mem[..] == m0;
      GuardBoth(other, cell, p, n, p + n, at0[p].nWords - n);
      CutContents(at0, m0, mem[..], nWords, p, n, other);
    }

    /** The rings alone: take a cell off the unused ring. */
    method UnlinkUnused(cell: Cell)
      requires IsRing(usedCells, used) && IsRing(unusedCells, unused) && cell in unused
      requires forall i, j | 0 <= i < |used| && 0 <= j < |unused| :: used[i] != unused[j]
      modifies this`unused, this`unusedCells, unused`next, unused`prev
      ensures IsRing(usedCells, used) && IsRing(unusedCells, unused)
      ensures cell.next == null && cell.prev == null
      ensures forall c :: c in unused <==> c in old(unused) && c != cell
      ensures used == old(used) && nUsed == old(nUsed)
    {
      unusedCells, unused := Leave(unusedCells, unused, cell);
    }

    /** Take a cell off the unused ring. */
    method Detach(cell: Cell)
      requires Inv(NONE) && cell.words in at && at[cell.words].cell == cell && !at[cell.words].Used()
      modifies this`unusedCells, this`unused, Records(at)`next, Records(at)`prev
      ensures Inv(cell.words) && used == old(used) && nUsed == old(nUsed)
    {
      assert Says(at[cell.words], cell.words, NONE) && OnRing(at[cell.words], cell.words, NONE, used, unused);
      RingsApart(at, used, unused, NONE);
      UnlinkUnused(cell);
      ReringSynced(at, nWords, used, old(unused), used, unused, cell.words);
    }

    /** The rings alone: put a loose cell on the used ring. */
    method LinkUsed(cell: Cell, ghost p: int)
      requires IsRing(usedCells, used) && IsRing(unusedCells, unused) && Loose(at, p)
      requires p >= 0 && p in at && at[p].cell == cell && cell !in used && cell !in unused
      requires forall i, j | 0 <= i < |used| && 0 <= j < |unused| :: used[i] != unused[j]
      modifies this`used, this`usedCells, cell`next, cell`prev, used`next, used`prev
      ensures IsRing(usedCells, used) && IsRing(unusedCells, unused)
      ensures |used| == |old(used)| + 1
      ensures forall c :: c in used <==> c in old(used) || c == cell
    {
      usedCells, used := Enter(usedCells, used, cell);
    }

    /** The record alone: note tag and request of the cell at p. */
    method NoteRequest(cell: Cell, tag: string, length: nat, ghost p: nat)
      requires Tiles(at, nWords) && p in at && at[p].cell == cell && length > 0
      requires forall q {:trigger Says(at[q], q, p)} | q in at :: Says(at[q], q, p)
      modifies cell`tag, cell`tagged, cell`requested
      ensures forall q {:trigger Says(at[q], q, p)} | q in at && q != p :: Says(at[q], q, p)
      ensures cell.words == p && cell.nWords == at[p].nWords && cell.requested == length && cell.tagged
    {
      assert Says(at[p], p, p);
      cell.tag, cell.tagged := tag, true;
      cell.requested := length;
      forall q | q in at && q != p ensures Says(at[q], q, p) {
        assert Apart(at, p, q) && old(Says(at[q], q, p));
      }
    }

    method EnterUsed(cell: Cell, tag: string, length: nat)
      requires Tied(cell.words) && at[cell.words].cell == cell && !at[cell.words].Used() && length > 0
      modifies this`at, this`used, this`usedCells
      modifies cell`tag, cell`tagged, cell`requested, Records(at)`next, Records(at)`prev
      ensures at == old(at)[cell.words := old(at)[cell.words].(requested := length)]
      ensures Tied(NONE) && |used| == |old(used)| + 1 && Records(at) == old(Records(at))
      ensures nUsed == old(nUsed)
    {
      ghost var p, at0 := cell.words, at;
      assert OnRing(at[p], p, p, used, unused);
      RingsApart(at, used, unused, p);
      NoteRequest(cell, tag, length, p);
      LinkUsed(cell, p);
      CommitSynced(at0, nWords, p, length, old(used), used, unused);
      at := at[p := at[p].(requested := length)];
      RequestTiles(at0, nWords, p, length);
      RequestRecords(at0, p, length);
    }

    /** Put a loose cell on the used ring under a request. */
    method Attach(cell: Cell, tag: string, length: nat)
      requires Inv(cell.words) && at[cell.words].cell == cell && !at[cell.words].Used()
      requires 0 < length <= 8 * (at[cell.words].nWords - 2)
      modifies this`at, this`used, this`usedCells
      modifies cell`tag, cell`tagged, cell`requested, Records(at)`next, Records(at)`prev
      ensures at == old(at)[cell.words := old(at)[cell.words].(requested := length)]
      ensures Inv(NONE)
      ensures cell.words in View() && |View()[cell.words]| == length
      ensures View() == old(View())[cell.words := View()[cell.words]]
      ensures |used| == |old(used)| + 1 && Records(at) == old(Records(at))
      ensures nUsed == old(nUsed) && cell.words == old(cell.words)
    {
      RequestContents(at, mem[..], nWords, cell.words, length);
      EnterUsed(cell, tag, length);
    }

    /** sec_clear on bytes the client holds. */
    method Blank(cell: Cell, from: nat, to: nat)
      requires Inv(NONE) && cell.words in at && at[cell.words].cell == cell
      requires from <= to <= at[cell.words].requested && at[cell.words].Used()
      modifies mem
      ensures Inv(NONE)
      ensures View() == old(View())[cell.words := Blanked(old(View())[cell.words], from, to)]
    {
      ghost var p, m0 := cell.words, mem[..];
      assert SpanOk(p, at[p], m0) && Says(at[p], p, NONE);
      ClearBytes(8 * (cell.words + 1) + from, 8 * (cell.words + 1) + to);
      RewriteContents(at, m0, mem[..], nWords, p, at[p].requested);
      assert at == at[p := at[p].(requested := at[p].requested)];
      assert Data(p, at[p], mem[..]) == Blanked(Data(p, at[p], m0), from, to);
    }

    /** The unused cell at p has room for n words. */
    ghost predicate Fits(p: nat, n: nat)
      reads this`at
    {
      Hosts(at, p, n)
    }

    ghost predicate Roomy(n: nat)
      reads this`at
    {
      Room(at, n)
    }

    /** The cell at p is the first on the unused ring with n words. */
    ghost predicate First(p: nat, n: nat)
      reads this`unused, unused`words, unused`nWords
    {
      exists k | 0 <= k < |unused| :: unused[k].words == p && forall j | 0 <= j < k :: unused[j].nWords < n
    }

    /** The search finds a cell whenever the block has one that fits. */
    method FindRoom(n: nat) returns (cell: Cell?)
      requires Inv(NONE)
      ensures cell == null <==> !Roomy(n)
      ensures cell != null ==> Fits(cell.words, n) && at[cell.words].cell == cell && First(cell.words, n)
      ensures cell != null ==> cell.nWords == at[cell.words].nWords
    {
      forall p | Fits(p, n) ensures at[p].cell in unused && at[p].cell.nWords >= n {
        assert Says(at[p], p, NONE) && OnRing(at[p], p, NONE, used, unused);
      }
      if unusedCells == null {
        assert unused == [];
        return null;
      }
      ghost var k;
      cell, k := FindUnused(n);
      if cell != null {
        assert at[cell.words].cell == cell;
        assert Says(at[cell.words], cell.words, NONE) && OnRing(at[cell.words], cell.words, NONE, used, unused);
        assert Fits(cell.words, n);
      }
    }

    /** The first n words of an unused cell, as a new loose cell. */
    method CutFront(cell: Cell, n: nat) returns (r: Cell)
      requires Inv(NONE) && Coalesced(at) && Accounted() && cell.words in at && at[cell.words].cell == cell
      requires !at[cell.words].Used() && 3 <= n && cell.nWords > n + WASTE
      modifies this`taken, this`at, mem, cell`words, cell`nWords
      ensures Accounted() && Inv(r.words) && r.words in old(at) && at[r.words].cell == r && r in Records(at) && fresh(r)
      ensures !old(at)[r.words].Used() && !at[r.words].Used() && at[r.words].nWords >= n && View() == old(View())
      ensures forall k | k > 0 :: Coalesced(at[r.words := at[r.words].(requested := k)])
      ensures Records(at) == old(Records(at)) + {r}
      ensures r.words == old(cell.words) && Parted(old(at), at, r.words, n, r)
    {
      ghost var p, at0 := cell.words, at;
      assert Says(at[p], p, NONE);
      r := new Cell();
      PoolAlloc(r);
      Split(cell, n, r);
      forall k | k > 0 ensures Coalesced(at[p := at[p].(requested := k)]) {
        CutTakeCoalesced(at0, nWords, p, n, r, k);
      }
    }

    /** A new loose cell of n words, cut off the front of cell, or cell itself when the
        rest would be too small. */
    method Reserve(cell: Cell, n: nat, poolHas: bool) returns (r: Cell?)
      requires Accounted()
      requires Inv(NONE) && Coalesced(at) && cell.words in at && at[cell.words].cell == cell
      requires Fits(cell.words, n) && n >= 3
      modifies this`taken, this`at, this`unusedCells, this`unused, mem
      modifies Records(at)`words, Records(at)`nWords, Records(at)`next, Records(at)`prev
      ensures Accounted()
      ensures r == null <==> old(cell.nWords) > n + WASTE && !poolHas
      ensures r == null ==> Inv(NONE) && at == old(at) && View() == old(View()) && unused == old(unused)
      ensures r != null ==> Inv(r.words) && r.words in old(at) && at[r.words].cell == r && r in Records(at)
      ensures r != null ==>
        !old(at)[r.words].Used() && !at[r.words].Used() && at[r.words].nWords >= n && View() == old(View())
      ensures r != null ==> forall k | k > 0 :: Coalesced(at[r.words := at[r.words].(requested := k)])
      ensures (forall c | c in Records(at) :: c in old(Records(at)) || fresh(c)) && nUsed == old(nUsed)
      ensures used == old(used)
      ensures r != null ==> r.words == old(cell.words) && Parted(old(at), at, r.words, n, r)
    {
      ghost var p := cell.words;
      assert Says(at[p], p, NONE) && cell in Records(at);
      if cell.nWords > n + WASTE {
        if !poolHas {
          return null;
        }
        r := CutFront(cell, n);
      } else {
        Detach(cell);
        r := cell;
        forall k | k > 0 ensures Coalesced(at[p := at[p].(requested := k)]) {
          TakeCoalesced(at, p, k);
        }
      }
    }

    /** Put a loose cell to use: note the request, link it as used, clear its bytes. */
    method Engage(cell: Cell, tag: string, length: nat)
      requires Inv(cell.words) && at[cell.words].cell == cell && !at[cell.words].Used()
      requires 0 < length <= 8 * (at[cell.words].nWords - 2)
      modifies this`at, this`used, this`usedCells, this`nUsed, mem
      modifies cell`tag, cell`tagged, cell`requested, Records(at)`next, Records(at)`prev
      ensures cell.words == old(cell.words) && Records(at) == old(Records(at)) && nUsed == old(nUsed) + 1
      ensures at == old(at)[cell.words := old(at)[cell.words].(requested := length)]
      ensures Inv(NONE) && |used| == |old(used)| + 1
      ensures View() == old(View())[cell.words := Zeros(length)]
    {
      assert at[cell.words].cell in Records(at);
      ghost var v0 := View();
      nUsed := nUsed + 1;
      Attach(cell, tag, length);
      AllBlank(v0, View(), cell.words, length);
      Blank(cell, 0, length);
    }

    /** Find a fitting cell and take it off the unused ring. */
    method Acquire(n: nat, poolHas: bool) returns (own: Cell?, ghost p: nat)
      requires Accounted()
      requires Inv(NONE) && Coalesced(at) && n >= 3
      modifies this`taken, this`at, this`unusedCells, this`unused, mem
      modifies Records(at)`words, Records(at)`nWords, Records(at)`next, Records(at)`prev
      ensures Accounted()
      ensures own == null <==> Refused(old(at), p, n, poolHas)
      ensures old(Roomy(n)) ==> old(First(p, n))
      ensures Inv(if own == null then NONE else p)
      ensures own == null ==> at == old(at)
      ensures own != null ==> Parted(old(at), at, p, n, own) && own.words == p && p in at && at[p].cell == own
      ensures own != null ==> forall k | k > 0 :: Coalesced(at[p := at[p].(requested := k)])
      ensures View() == old(View()) && (forall c | c in Records(at) :: c in old(Records(at)) || fresh(c))
      ensures nUsed == old(nUsed) && used == old(used)
    {
      var cell := FindRoom(n);
      if cell == null {
        return null, 0;
      }
      p := cell.words;
      assert old(First(p, n));
      own := Reserve(cell, n, poolHas);
    }

    /** A cell that was acquired becomes an allocation. */
    method Use(own: Cell, tag: string, length: nat)
      requires Inv(own.words) && at[own.words].cell == own && !at[own.words].Used() && Accounted() && nUsed == |used|
      requires 0 < length <= 8 * (at[own.words].nWords - 2)
      requires Coalesced(at[own.words := at[own.words].(requested := length)])
      modifies this`at, this`used, this`usedCells, this`nUsed, mem
      modifies own`tag, own`tagged, own`requested, Records(at)`next, Records(at)`prev
      ensures Valid() && own.words == old(own.words) && Records(at) == old(Records(at))
      ensures View() == old(View())[own.words := Zeros(length)]
      ensures at == old(at)[own.words := old(at)[own.words].(requested := length)]
    {
      Engage(own, tag, length);
    }

    method SecAlloc(tag: string, length: nat, poolHas: bool) returns (memory: nat, ghost p: nat)
      requires Valid() && length > 0
      modifies this, mem, Records(at)
      ensures Valid() && (forall c | c in Records(at) :: c in old(Records(at)) || fresh(c))
      ensures memory == 0 ==> at == old(at) && View() == old(View()) && (poolHas ==> !Roomy(SizeToWords(length) + 2))
      ensures memory != 0 ==> memory == p + 1 && p !in old(View()) && View() == old(View())[p := Zeros(length)]
      ensures memory == 0 <==> Refused(old(at), p, SizeToWords(length) + 2, poolHas)
      ensures old(Roomy(SizeToWords(length) + 2)) ==> old(First(p, SizeToWords(length) + 2))
      ensures memory != 0 ==> Placed(old(at), at, p, SizeToWords(length) + 2, length)
    {
      ghost var at0, n := at, SizeToWords(length) + 2;
      var own;
      own, p := Acquire(SizeToWords(length) + 2, poolHas);
      if own == null {
        return 0, p;
      }
      ghost var at1 := at[p := at[p].(requested := length)];
      PartedPlaced(at0, at, nWords, p, n, own, length);
      Use(own, tag, length);
      assert at == at1;
      memory := own.words + 1;
    }

    // -------------------------------------------------------------- release

    /** The rings alone: take a cell off the used ring. */
    method UnlinkUsed(cell: Cell)
      requires IsRing(usedCells, used) && IsRing(unusedCells, unused) && cell in used
      requires forall i, j | 0 <= i < |used| && 0 <= j < |unused| :: used[i] != unused[j]
      modifies this`used, this`usedCells, used`next, used`prev
      ensures IsRing(usedCells, used) && IsRing(unusedCells, unused)
      ensures |used| == |old(used)| - 1 && cell.next == null && cell.prev == null
      ensures forall c :: c in used <==> c in old(used) && c != cell
      ensures nUsed == old(nUsed)
    {
      usedCells, used := Leave(usedCells, used, cell);
    }

    /** Take a cell off the used ring and count it as unused. */
    method Retire(cell: Cell)
      requires nUsed > 0 && Tied(NONE) && cell.words in at && at[cell.words].cell == cell && at[cell.words].Used()
      modifies this`at, this`usedCells, this`used, this`nUsed, Records(at)`next, Records(at)`prev
      ensures at == old(at)[cell.words := old(at)[cell.words].(requested := 0)]
      ensures Tied(cell.words) && |used| == |old(used)| - 1 && Records(at) == old(Records(at))
      ensures nUsed == old(nUsed) - 1
    {
      ghost var p, at0 := cell.words, at;
      assert OnRing(at[p], p, NONE, used, unused);
      RingsApart(at, used, unused, NONE);
      nUsed := nUsed - 1;
      UnlinkUsed(cell);
      RetireSynced(at, nWords, p, old(used), used, unused);
      at := at[p := at[p].(requested := 0)];
      RequestTiles(at0, nWords, p, 0);
      RequestRecords(at0, p, 0);
    }

    /** Clear all bytes of an allocation: its request may now be given up. */
    method Wipe(cell: Cell, ghost p: nat)
      requires Inv(NONE) && p in at && at[p].cell == cell && at[p].Used()
      modifies mem
      ensures Inv(NONE)
      ensures var at' := at[p := at[p].(requested := 0)];
        Laid(at', mem[..], nWords) && Contents(at', mem[..], nWords) == old(View()) - {p}
    {
      assert Says(at[p], p, NONE) && SpanOk(p, at[p], mem[..]);
      BlankedAll(View(), p, cell.requested);
      Blank(cell, 0, cell.requested);
      ReleaseContents(at, mem[..], nWords, p);
    }

    /** The bytes of an allocation are cleared and it leaves the used ring; its record still
        carries the old request. */
    method Release(cell: Cell)
      requires nUsed > 0 && Inv(NONE) && cell.words in at && at[cell.words].cell == cell && at[cell.words].Used()
      modifies this`at, this`usedCells, this`used, this`nUsed, mem, Records(at)`next, Records(at)`prev
      ensures cell.words == old(cell.words) && at == old(at)[cell.words := old(at)[cell.words].(requested := 0)]
      ensures Inv(cell.words) && View() == old(View()) - {cell.words}
      ensures |used| == |old(used)| - 1 && Records(at) == old(Records(at))
      ensures nUsed == old(nUsed) - 1
    {
      Wipe(cell, cell.words);
      Retire(cell);
    }

    // -------------------------------------------------------------- merging

    method TakeOverFields(c: Cell, d: Cell, ghost p: nat, ghost q: nat, ghost off: int)
      requires Tiles(at, nWords) && p in at && q in at && p != q && {c, d} == {at[p].cell, at[q].cell}
      requires forall r {:trigger Says(at[r], r, off)} | r in at :: Says(at[r], r, off)
      modifies c`words, c`nWords
      ensures forall r {:trigger Says(at[r], r, off)} | r in at && r != p && r != q :: Says(at[r], r, off)
      ensures c.words == (if p < q then p else q) && c.nWords == at[p].nWords + at[q].nWords
    {
      assert Says(at[p], p, off) && Says(at[q], q, off) && Apart(at, p, q);
      c.nWords := c.nWords + d.nWords;
      if d.words < c.words {
        c.words := d.words;
      }
      forall r | r in at && r != p && r != q ensures Says(at[r], r, off) {
        assert Apart(at, r, p) && Apart(at, r, q) && old(Says(at[r], r, off));
      }
    }

    /** The records: c, which stays on its ring, takes over the words of the loose cell d. */
    method TakeOver(c: Cell, d: Cell, ghost p: nat)
      requires Tied(d.words) && p in at && End(at, p) in at && !at[End(at, p)].Used()
      requires c.words in at && at[c.words].cell == c && at[d.words].cell == d
      requires (c.words == p && d.words == End(at, p)) || (d.words == p && c.words == End(at, p) && !at[p].Used())
      modifies this`at, c`words, c`nWords
      ensures old(End(at, p)) in old(at) && at == Merge(old(at), p, old(End(at, p)), c)
      ensures Tied(NONE) && Records(at) == old(Records(at)) - {d}
      ensures c.words == p && c.nWords == old(at[p].nWords + at[End(at, p)].nWords)
    {
      ghost var at0, q: nat := at, End(at, p);
      assert Says(at[c.words], c.words, d.words) && Apart(at, p, q);
      TakeOverFields(c, d, p, q, d.words);
      MergeSynced(at0, nWords, p, c, d, used, unused);
      MergeRecords(at0, nWords, p, c, d);
      MergeTiles(at0, nWords, p, c);
      at := Merge(at, p, q, c);
    }

    /** The records and the guard words. */
    method TakeOverGuarded(c: Cell, d: Cell, ghost p: nat)
      requires Tied(d.words) && p in at && End(at, p) in at && !at[End(at, p)].Used()
      requires c.words in at && at[c.words].cell == c && at[d.words].cell == d
      requires (c.words == p && d.words == End(at, p)) || (d.words == p && c.words == End(at, p) && !at[p].Used())
      requires at[p].nWords >= 2 && mem.Length == 8 * nWords
      modifies this`at, mem, c`words, c`nWords
      ensures old(End(at, p)) in old(at) && at == Merge(old(at), p, old(End(at, p)), c)
      ensures Tied(NONE) && Records(at) == old(Records(at)) - {d} && c.words == p
      ensures Guarded(old(mem[..]), mem[..], c, p, old(at[p].nWords + at[End(at, p)].nWords))
    {
      TakeOver(c, d, p);
      assert Says(at[p], p, NONE);
      WriteGuards(c);
    }

    /** A neighbour c, on its ring, takes over the loose cell d; p is the left one of the two. */
    method Absorb(c: Cell, d: Cell, ghost p: nat)
      requires Accounted()
      requires Inv(d.words) && p in at && End(at, p) in at && !at[End(at, p)].Used()
      requires c.words in at && at[c.words].cell == c && at[d.words].cell == d
      requires (c.words == p && d.words == End(at, p)) || (d.words == p && c.words == End(at, p) && !at[p].Used())
      modifies this`taken, this`at, mem, c`words, c`nWords
      ensures Accounted()
      ensures old(End(at, p)) in old(at) && at == Merge(old(at), p, old(End(at, p)), c)
      ensures c.words == p && Inv(NONE) && View() == old(View()) && Records(at) == old(Records(at)) - {d}
      ensures used == old(used) && nUsed == old(nUsed)
    {
      ghost var at0, m0 := at, mem[..];
      assert SpanOk(p, at[p], m0);
      assert at[d.words].cell in Records(at);
      TakeOverGuarded(c, d, p);
      PoolFree(d);
      MergeContents(at0, m0, mem[..], nWords, p, c);
    }

    // -------------------------------------------------------------- back to the unused ring

    method NoteUnused(cell: Cell, ghost p: nat, ghost off: int)
      requires Tiles(at, nWords) && p in at && at[p].cell == cell
      requires forall q {:trigger Says(at[q], q, off)} | q in at :: Says(at[q], q, off)
      modifies cell`tagged, cell`requested
      ensures forall q {:trigger Says(at[q], q, off)} | q in at && q != p :: Says(at[q], q, off)
      ensures cell.words == p && cell.nWords == at[p].nWords && cell.requested == 0 && !cell.tagged
    {
      assert Says(at[p], p, off);
      cell.tagged := false;
      cell.requested := 0;
      forall q | q in at && q != p ensures Says(at[q], q, off) {
        assert Apart(at, p, q) && old(Says(at[q], q, off));
      }
    }

    /** Put a cell on the unused ring if it is not there already. */
    method LinkUnused(cell: Cell, ghost off: int)
      requires IsRing(usedCells, used) && IsRing(unusedCells, unused) && cell !in used
      requires if off < 0 then cell in unused else cell !in unused && cell.next == null && cell.prev == null
      requires forall i, j | 0 <= i < |used| && 0 <= j < |unused| :: used[i] != unused[j]
      modifies this`unused, this`unusedCells, cell`next, cell`prev, unused`next, unused`prev
      ensures IsRing(usedCells, used) && IsRing(unusedCells, unused)
      ensures forall c :: c in unused <==> c in old(unused) || c == cell
    {
      if off < 0 {
        ghost var k :| 0 <= k < |unused| && unused[k] == cell;
        assert unused[k].next == unused[After(k, |unused|)];
      }
      if cell.next == null {
        unusedCells, unused := Enter(unusedCells, unused, cell);
      }
    }

    method Park(cell: Cell, ghost off: int)
      requires Tied(off) && (off == NONE || off == cell.words)
      requires cell.words in at && at[cell.words].cell == cell && !at[cell.words].Used()
      modifies this`unused, this`unusedCells, cell`tagged, cell`requested, Records(at)`next, Records(at)`prev
      ensures Tied(NONE) && used == old(used) && nUsed == old(nUsed)
    {
      ghost var p := cell.words;
      assert OnRing(at[p], p, off, used, unused);
      RingsApart(at, used, unused, off);
      LinkUnused(cell, off);
      NoteUnused(cell, p, off);
      ParkSynced(at, nWords, p, used, old(unused), unused, off);
    }

    // -------------------------------------------------------------- sec_free

    /** Merge a loose, unused cell with an unused left neighbour. */
    method MergeBefore(cell: Cell, ghost at0: Cells) returns (r: Cell, ghost off: int)
      requires Accounted()
      requires Inv(cell.words) && at[cell.words].cell == cell && cell.words in at0 && Coalesced(at0)
      requires Tiles(at0, nWords)
      requires at == at0[cell.words := at0[cell.words].(requested := 0)]
      modifies this`taken, this`at, mem, Records(at)`words, Records(at)`nWords
      ensures Accounted()
      ensures (off == NONE || off == r.words) && Inv(off) && View() == old(View()) && Records(at) <= old(Records(at))
      ensures used == old(used) && nUsed == old(nUsed)
      ensures r.words in at && at[r.words].cell == r && OpenAt(at, r.words)
    {
      ghost var p := cell.words;
      var other := NeighbourBefore(cell, p);
      if other != null {
        ghost var b := other.words;
        assert Says(at[b], b, p);
        if other.requested == 0 {
          MergeLeftOpens(at0, nWords, b, other);
          Absorb(other, cell, b);
          return other, NONE;
        }
      }
      forall b | b in at0 && End(at0, b) == p ensures at0[b].Used() {
        assert other != null && b != p;
        assert b != other.words ==> Apart(at0, b, other.words);
      }
      ReleaseOpens(at0, p);
      return cell, p;
    }

    lemma UnusedIsLinked(cell: Cell)
      requires Tied(NONE) && cell.words in at && at[cell.words].cell == cell && !at[cell.words].Used()
      ensures cell.next != null
    {
      assert OnRing(at[cell.words], cell.words, NONE, used, unused);
      var k :| 0 <= k < |unused| && unused[k] == cell;
      assert unused[k].next == unused[After(k, |unused|)];
    }

    /** Take an unused cell off its ring if it is on it. */
    method Loosen(cell: Cell, ghost off: int)
      requires (off == NONE || off == cell.words) && Inv(off)
      requires cell.words in at && at[cell.words].cell == cell && !at[cell.words].Used()
      modifies this`unusedCells, this`unused, Records(at)`next, Records(at)`prev
      ensures Inv(cell.words) && used == old(used) && nUsed == old(nUsed)
    {
      if off == NONE { UnusedIsLinked(cell); }
      if cell.next != null {
        Detach(cell);
      }
    }

    /** An unused right neighbour takes over an unused cell, and stays on the unused ring. */
    method MergeAfter(cell: Cell, other: Cell, ghost off: int)
      requires Accounted() && (off == NONE || off == cell.words) && Inv(off)
      requires cell.words in at && at[cell.words].cell == cell && !at[cell.words].Used()
      requires other.words == End(at, cell.words) && other.words in at && at[other.words].cell == other
      requires !at[other.words].Used()
      modifies this`taken, this`at, this`unusedCells, this`unused, mem
      modifies Records(at)
      ensures Accounted() && Inv(NONE) && View() == old(View()) && taken <= old(taken)
      ensures old(End(at, cell.words)) in old(at) && other.words == old(cell.words)
      ensures at == Merge(old(at), old(cell.words), old(End(at, cell.words)), other)
    {
      ghost var q := cell.words;
      Loosen(cell, off);
      Absorb(other, cell, q);
      Park(other, NONE);
    }

    /** Merge an unused cell with an unused right neighbour and see that the result is on the unused ring. */
    method SettleRight(cell: Cell, ghost off: int)
      requires Accounted() && (off == NONE || off == cell.words) && Inv(off)
      requires cell.words in at && at[cell.words].cell == cell && OpenAt(at, cell.words)
      modifies this`taken, this`at, this`unusedCells, this`unused, mem, Records(at)
      ensures Inv(NONE) && Coalesced(at) && View() == old(View()) && Accounted() && taken <= old(taken)
    {
      ghost var q := cell.words;
      var other := NeighbourAfter(cell, off);
      if other != null {
        assert Says(at[other.words], other.words, off);
        if other.requested == 0 {
          MergeRightCloses(at, nWords, q, other);
          MergeAfter(cell, other, off);
          return;
        }
      }
      NothingRightCloses(at, q);
      Park(cell, off);
    }

    /** Merge a loose, unused cell with both neighbours and put the result on the unused ring. */
    method Settle(loose: Cell, ghost at0: Cells)
      requires Accounted()
      requires Inv(loose.words) && at[loose.words].cell == loose && loose.words in at0 && Coalesced(at0)
      requires Tiles(at0, nWords)
      requires at == at0[loose.words := at0[loose.words].(requested := 0)]
      modifies this`taken, this`at, this`unusedCells, this`unused, mem, Records(at)
      ensures Inv(NONE) && Coalesced(at) && View() == old(View()) && Accounted() && taken <= old(taken)
    {
      ghost var off;
      var cell;
      cell, off := MergeBefore(loose, at0);
      SettleRight(cell, off);
    }

    /** The record of a live allocation, found through the guard word in front of it. */
    method Lookup(memory: nat, ghost p: nat) returns (cell: Cell)
      requires Inv(NONE) && memory == p + 1 && p in View()
      ensures cell.words == p && p in at && at[p].cell == cell && at[p].Used()
      ensures cell.requested == at[p].requested == |View()[p]| && cell.nWords == at[p].nWords
    {
      assert SpanOk(p, at[p], mem[..]) && Says(at[p], p, NONE);
      cell := ReadPointer(memory - 1, at[p].cell);
    }

    method FreeCell(cell: Cell)
      requires Valid() && cell.words in at && at[cell.words].cell == cell && at[cell.words].Used()
      modifies this`taken, this`at, this`usedCells, this`used, this`unusedCells, this`unused, this`nUsed
      modifies mem, Records(at)
      ensures Valid() && View() == old(View()) - {old(cell.words)}
      ensures nUsed == old(nUsed) - 1 && Records(at) <= old(Records(at))
    {
      ghost var at0 := at;
      assert Says(at[cell.words], cell.words, NONE) && OnRing(at[cell.words], cell.words, NONE, used, unused);
      Release(cell);
      Settle(cell, at0);
    }

    method SecFree(memory: nat, ghost p: nat)
      requires Valid() && memory == p + 1 && p in View()
      modifies this, mem, Records(at)
      ensures Valid() && View() == old(View()) - {p}
      ensures nUsed == old(nUsed) - 1 && Records(at) <= old(Records(at))
    {
      var cell := Lookup(memory, p);
      FreeCell(cell);
    }

    // -------------------------------------------------------------- sec_realloc

    /** The record alone: another request for a used cell. */
    method Rerequest(cell: Cell, length: nat)
      requires Tied(NONE) && cell.words in at && at[cell.words].cell == cell && at[cell.words].Used() && length > 0
      modifies this`at, cell`requested
      ensures at == old(at)[cell.words := old(at)[cell.words].(requested := length)]
      ensures Tied(NONE) && Records(at) == old(Records(at)) && cell.requested == length
      ensures nUsed == old(nUsed) && used == old(used)
    {
      ghost var p, at0 := cell.words, at;
      assert Says(at[p], p, NONE);
      cell.requested := length;
      forall q | q in at0 && q != p ensures Says(at0[q], q, NONE) {
        assert Apart(at0, p, q) && old(Says(at[q], q, NONE));
      }
      RerequestSynced(at0, p, length, used, unused);
      RequestTiles(at0, nWords, p, length);
      RequestRecords(at0, p, length);
      at := at[p := at[p].(requested := length)];
    }

    method ClearTail(cell: Cell, length: nat, valid: nat, ghost p: nat, ghost sp: Span)
      requires cell.words == p && sp.requested == valid && 8 * (p + 1) + valid <= mem.Length
      modifies mem
      ensures Shrunk(p, sp, old(mem[..]), mem[..], length)
    {
      if length < valid {
        ClearBytes(8 * (cell.words + 1) + length, 8 * (cell.words + 1) + valid);
      }
    }

    /** A request changes inside its cell; what it gives up is cleared. */
    method Resize(cell: Cell, length: nat)
      requires Inv(NONE) && cell.words in at && at[cell.words].cell == cell && at[cell.words].Used()
      requires 0 < length <= 8 * (at[cell.words].nWords - 2)
      modifies this`at, mem, cell`requested
      ensures Inv(NONE) && cell.words == old(cell.words) && Records(at) == old(Records(at))
      ensures at == old(at)[cell.words := old(at)[cell.words].(requested := length)]
      ensures cell.words in View() && Resized(old(View())[cell.words], View()[cell.words], length)
      ensures View() == old(View())[cell.words := View()[cell.words]]
      ensures nUsed == old(nUsed) && used == old(used)
    {
      ghost var p, at0, m0 := cell.words, at, mem[..];
      var valid := cell.requested;
      assert Says(at[p], p, NONE) && SpanOk(p, at[p], mem[..]);
      Rerequest(cell, length);
      assert mem[..] == m0;
      ClearTail(cell, length, valid, p, at0[p]);
      assert Tied(NONE);
      ResizeContents(at0, m0, mem[..], nWords, p, length);
    }

    /** A used cell takes over its whole unused right neighbour. */
    method Eat(cell: Cell, other: Cell, ghost n: nat)
      requires Accounted()
      requires Inv(NONE) && Coalesced(at) && cell.words in at && at[cell.words].cell == cell && at[cell.words].Used()
      requires End(at, cell.words) in at && at[End(at, cell.words)].cell == other && !at[End(at, cell.words)].Used()
      requires other.words == End(at, cell.words)
      modifies this`taken, this`at, this`unusedCells, this`unused, mem
      modifies cell`words, cell`nWords, Records(at)`next, Records(at)`prev
      ensures Accounted()
      ensures Inv(NONE) && Coalesced(at) && View() == old(View()) && Records(at) <= old(Records(at))
      ensures cell.words == old(cell.words) && cell.words in at && at[cell.words].cell == cell
      ensures at[cell.words] == Span(cell, old(at[cell.words].nWords + at[End(at, cell.words)].nWords),
        old(at[cell.words].requested))
      ensures Closed(at, cell.words)
      ensures used == old(used) && nUsed == old(nUsed)
      ensures Reach(at, cell.words) == old(Reach(at, cell.words)) == at[cell.words].nWords
      ensures at[cell.words].nWords < n ==> (Room(at, n) <==> old(Room(at, n)))
    {
      ghost var at' := Merge(at, cell.words, End(at, cell.words), cell);
      EatHosts(at, nWords, cell.words, n);
      EatenOnce(at, nWords, cell.words);
      EatCoalesced(at, nWords, cell.words);
      Detach(other);
      Absorb(cell, other, cell.words);
      assert at == at';
    }

    method RobFields(cell: Cell, other: Cell, d: nat, ghost p: nat, ghost q: nat)
      requires Tiles(at, nWords) && p in at && q in at && p != q && at[p].cell == cell && at[q].cell == other
      requires d <= at[q].nWords
      requires forall r {:trigger Says(at[r], r, NONE)} | r in at :: Says(at[r], r, NONE)
      modifies cell`nWords, other`words, other`nWords
      ensures forall r {:trigger Says(at[r], r, NONE)} | r in at && r != p && r != q :: Says(at[r], r, NONE)
      ensures cell.words == p && cell.nWords == at[p].nWords + d
      ensures cell.requested == at[p].requested && (cell.tagged <==> at[p].Used())
      ensures other.words == q + d && other.nWords == at[q].nWords - d
      ensures other.requested == at[q].requested && (other.tagged <==> at[q].Used())
    {
      assert Says(at[p], p, NONE) && Says(at[q], q, NONE) && Apart(at, p, q);
      other.words := other.words + d;
      other.nWords := other.nWords - d;
      cell.nWords := cell.nWords + d;
      forall r | r in at && r != p && r != q ensures Says(at[r], r, NONE) {
        assert Apart(at, r, p) && Apart(at, r, q) && old(Says(at[r], r, NONE));
      }
    }

    /** The records: a used cell takes d words from its unused right neighbour. */
    method Rob(cell: Cell, other: Cell, d: nat)
      requires Tied(NONE) && cell.words in at && at[cell.words].cell == cell && at[cell.words].Used()
      requires End(at, cell.words) in at && at[End(at, cell.words)].cell == other && !at[End(at, cell.words)].Used()
      requires 0 < d < at[End(at, cell.words)].nWords
      modifies this`at, cell`nWords, other`words, other`nWords
      ensures Tied(NONE) && Records(at) == old(Records(at)) && cell.words == old(cell.words)
      ensures used == old(used) && nUsed == old(nUsed)
      ensures var p := cell.words;
        && old(End(at, p)) in old(at) && at == Steal(old(at), p, old(End(at, p)), d)
        && cell.nWords == old(at[p].nWords) + d
        && other.words == p + cell.nWords && other.nWords == old(at[End(at, p)].nWords) - d
    {
      ghost var p, at0 := cell.words, at;
      ghost var q: nat := End(at, p);
      RobFields(cell, other, d, p, q);
      StealSynced(at0, nWords, p, d, used, unused);
      StealRecords(at0, nWords, p, d);
      StealTiles(at0, nWords, p, d);
      at := Steal(at, p, q, d);
    }

    method StealWords(cell: Cell, other: Cell, d: nat, ghost p: nat, ghost q: nat)
      requires Inv(NONE) && p in at && at[p].cell == cell && cell.words == p && at[p].Used()
      requires q == End(at, p) && q in at && at[q].cell == other && !at[q].Used() && 0 < d <= at[q].nWords - 3
      modifies this`at, mem, cell`nWords, other`words, other`nWords
      ensures Inv(NONE) && View() == old(View()) && Records(at) == old(Records(at))
      ensures cell.words == p && at == Steal(old(at), p, q, d)
      ensures used == old(used) && nUsed == old(nUsed)
    {
      ghost var at0, m0, sp, sq := at, mem[..], at[p], at[q];
      assert SpanOk(p, sp, m0) && SpanOk(q, sq, m0);
      Rob(cell, other, d);
      assert mem[..] == m0;
      ghost var n1, v, n2 := cell.nWords, other.words, other.nWords;
      GuardBoth(cell, other, p, n1, v, n2);
      StealContents(at0, m0, mem[..], nWords, p, q, d, n1, v, n2);
    }

    /** A used cell takes d words from its unused right neighbour. */
    method StealFrom(cell: Cell, other: Cell, d: nat)
      requires Inv(NONE) && Coalesced(at) && cell.words in at && at[cell.words].cell == cell && at[cell.words].Used()
      requires End(at, cell.words) in at && at[End(at, cell.words)].cell == other && !at[End(at, cell.words)].Used()
      requires 0 < d <= at[End(at, cell.words)].nWords - 3
      modifies this`at, mem, cell`nWords, other`words, other`nWords
      ensures Inv(NONE) && Coalesced(at) && View() == old(View()) && Records(at) == old(Records(at))
      ensures cell.words == old(cell.words) && cell.words in at && at[cell.words].cell == cell
      ensures at[cell.words] == Span(cell, old(at[cell.words].nWords) + d, old(at[cell.words].requested))
      ensures used == old(used) && nUsed == old(nUsed)
      ensures Reach(at, cell.words) == old(Reach(at, cell.words))
    {
      StealCoalesced(at, nWords, cell.words, d);
      StealReach(at, nWords, cell.words, d);
      StealWords(cell, other, d, cell.words, End(at, cell.words));
    }

    /** One round of looking for words: eat an unused right neighbour or rob it. */
    method Feed(cell: Cell, n: nat) returns (fed: bool, ghost eaten: bool)
      requires Accounted()
      requires Inv(NONE) && Coalesced(at) && cell.words in at && at[cell.words].cell == cell && at[cell.words].Used()
      requires cell.nWords < n
      modifies this`taken, this`at, this`unusedCells, this`unused, mem
      modifies Records(at)`words, Records(at)`nWords, Records(at)`next, Records(at)`prev
      ensures Accounted()
      ensures Inv(NONE) && Coalesced(at) && View() == old(View()) && Records(at) <= old(Records(at))
      ensures cell.words == old(cell.words) && cell.words in at && at[cell.words].cell == cell
      ensures cell.nWords == at[cell.words].nWords && at[cell.words].requested == old(at[cell.words].requested)
      ensures used == old(used) && nUsed == old(nUsed)
      ensures !fed <==> old(Closed(at, cell.words))
      ensures if fed then cell.nWords > old(cell.nWords) else cell.nWords == old(cell.nWords)
      ensures eaten ==> fed && Closed(at, cell.words)
      ensures fed ==> cell.nWords == old(Grown(at, cell.words, n))
      ensures !fed ==> Closed(at, cell.words)
      ensures Reach(at, cell.words) == old(Reach(at, cell.words))
      ensures cell.nWords < n ==> (Room(at, n) <==> old(Room(at, n)))
    {
      ghost var p, q: nat := cell.words, End(at, cell.words);
      assert Says(at[p], p, NONE);
      var other := NeighbourAfter(cell, NONE);
      if other == null || other.requested != 0 {
        assert q in at ==> Says(at[q], q, NONE);
        return false, false;
      }
      assert cell in Records(at) && Says(at[q], q, NONE);
      if n - cell.nWords + WASTE >= other.nWords {
        Eat(cell, other, n);
        eaten := true;
      } else {
        StealFrom(cell, other, n - cell.nWords);
        eaten := false;
      }
      assert Says(at[p], p, NONE);
      fed := true;
    }

    /** Grow a cell to n words if its right neighbour allows; at most one neighbour is eaten whole. */
    method Expand(cell: Cell, n: nat) returns (ghost meals: nat)
      requires Accounted()
      requires Inv(NONE) && Coalesced(at) && cell.words in at && at[cell.words].cell == cell && at[cell.words].Used()
      modifies this`taken, this`at, this`unusedCells, this`unused, mem
      modifies Records(at)`words, Records(at)`nWords, Records(at)`next, Records(at)`prev
      ensures Accounted()
      ensures Inv(NONE) && Coalesced(at) && View() == old(View()) && Records(at) <= old(Records(at))
      ensures cell.words == old(cell.words) && cell.words in at && at[cell.words].cell == cell
      ensures cell.nWords == at[cell.words].nWords && at[cell.words].requested == old(at[cell.words].requested)
      ensures used == old(used) && nUsed == old(nUsed)
      ensures meals <= 1 && cell.nWords == old(Grown(at, cell.words, n))
      ensures cell.nWords >= n <==> n <= old(Reach(at, cell.words))
      ensures Reach(at, cell.words) == old(Reach(at, cell.words))
      ensures cell.nWords < n ==> (Room(at, n) <==> old(Room(at, n)))
    {
      meals := 0;
      assert Says(at[cell.words], cell.words, NONE);
      var hungry := true;
      while cell.nWords < n && hungry
        invariant Accounted()
        invariant Inv(NONE) && Coalesced(at) && View() == old(View()) && Records(at) <= old(Records(at))
        invariant cell.words == old(cell.words) && cell.words in at && at[cell.words].cell == cell
        invariant cell.nWords == at[cell.words].nWords && at[cell.words].requested == old(at[cell.words].requested)
        invariant used == old(used) && nUsed == old(nUsed)
        invariant meals <= 1 && (meals == 1 ==> cell.nWords >= n || Closed(at, cell.words))
        invariant !hungry ==> Closed(at, cell.words)
        invariant Reach(at, cell.words) == old(Reach(at, cell.words))
        invariant cell.nWords >= n ==> cell.nWords == old(Grown(at, cell.words, n))
        invariant cell.nWords < n ==> (Room(at, n) <==> old(Room(at, n)))
        decreases nWords - cell.nWords, hungry
      {
        ghost var eaten;
        hungry, eaten := Feed(cell, n);
        meals := if eaten then meals + 1 else meals;
      }
    }

    /** memcpy into memory a client holds. */
    method Store(memory: nat, ghost p: nat, off: nat, src: Octets)
      requires Valid() && memory == p + 1 && p in View() && off + |src| <= |View()[p]|
      modifies mem
      ensures Valid() && View() == old(View())[p := Spliced(old(View())[p], off, src)]
    {
      ghost var m0 := mem[..];
      assert SpanOk(p, at[p], m0);
      var start := 8 * memory + off;
      forall k | 0 <= k < |src| {
        mem[start + k] := src[k];
      }
      assert Stored(m0, mem[..], start, src);
      StoreContents(at, m0, mem[..], nWords, p, off, src);
    }

    /** memcpy out of memory a client holds. */
    method Fetch(memory: nat, ghost p: nat, length: nat) returns (src: Octets)
      requires Inv(NONE) && memory == p + 1 && p in View() && length <= |View()[p]|
      ensures src == View()[p][..length]
    {
      assert SpanOk(p, at[p], mem[..]);
      src := mem[8 * memory..8 * memory + length];
    }

    /** Give a used cell another request it has room for. */
    method Fit(cell: Cell, length: nat)
      requires Valid() && cell.words in at && at[cell.words].cell == cell && at[cell.words].Used()
      requires 0 < length <= 8 * (at[cell.words].nWords - 2)
      modifies this`at, mem, cell`requested
      ensures Valid() && cell.words == old(cell.words) && Records(at) == old(Records(at))
      ensures at == old(at)[cell.words := old(at)[cell.words].(requested := length)]
      ensures cell.words in old(View()) && cell.words in View()
      ensures View() == old(View())[cell.words := View()[cell.words]]
      ensures Resized(old(View())[cell.words], View()[cell.words], length)
      ensures |old(View())[cell.words]| == old(cell.requested)
      ensures Reallocated(old(View()), View(), cell.words, cell.words, length)
    {
      assert Says(at[cell.words], cell.words, NONE) && SpanOk(cell.words, at[cell.words], mem[..]);
      TakeCoalesced(at, cell.words, length);
      ghost var v0 := View();
      Resize(cell, length);
      FitIsReallocated(v0, View(), cell.words, length);
    }

    /** The cell itself grew far enough: raise the request and clear the new bytes. */
    method FinishGrowth(cell: Cell, tag: string, length: nat)
      requires Valid() && cell.words in at && at[cell.words].cell == cell && at[cell.words].Used()
      requires at[cell.words].requested <= length <= 8 * (at[cell.words].nWords - 2)
      modifies this`at, mem, cell`requested, cell`tag
      ensures Valid() && cell.words == old(cell.words) && Records(at) == old(Records(at))
      ensures Extended(old(View()), View(), cell.words, cell.words, length)
      ensures at == old(at)[cell.words := old(at)[cell.words].(requested := length)]
    {
      assert Says(at[cell.words], cell.words, NONE);
      ghost var v0 := View();
      cell.tag := tag;
      var valid := cell.requested;
      Fit(cell, length);
      Grew(v0, View(), cell.words, valid, length);
      Blank(cell, valid, length);
    }

    /** memcpy from one allocation to another, larger one. */
    method CopyOver(memory: nat, ghost p: nat, alloc: nat, ghost q: nat, valid: nat)
      requires Valid() && memory == p + 1 && p in View() && valid == |View()[p]|
      requires alloc == q + 1 && q in View() && valid <= |View()[q]|
      modifies mem
      ensures Valid() && View() == old(View())[q := Spliced(old(View())[q], 0, old(View())[p])]
    {
      var src := Fetch(memory, p, valid);
      assert src == View()[p];
      Store(alloc, q, 0, src);
    }

    /** Allocate elsewhere, copy, free the old memory. */
    method Move(tag: string, memory: nat, ghost p: nat, valid: nat, length: nat, poolHas: bool)
      returns (alloc: nat, ghost q: nat)
      requires Valid() && memory == p + 1 && p in View() && valid == |View()[p]| <= length && length > 0
      modifies this, mem, Records(at)
      ensures Valid() && (forall c | c in Records(at) :: c in old(Records(at)) || fresh(c))
      ensures alloc == 0 ==> View() == old(View()) && (poolHas ==> !Roomy(SizeToWords(length) + 2))
      ensures alloc != 0 ==> alloc == q + 1 && q != p && Extended(old(View()), View(), p, q, length)
      ensures alloc != 0 ==> old(Roomy(SizeToWords(length) + 2))
      ensures alloc == 0 && poolHas ==> !old(Roomy(SizeToWords(length) + 2))
    {
      ghost var v0 := View();
      alloc, q := SecAlloc(tag, length, poolHas);
      if alloc != 0 {
        ghost var v1 := View();
        CopyOver(memory, p, alloc, q, valid);
        ghost var v2 := View();
        SecFree(memory, p);
        MoveContents(v0, v1, v2, p, q, length);
      }
    }

    /** The cell has grown as far as it can: use it, or move. */
    method GrowOrMove(cell: Cell, tag: string, memory: nat, valid: nat, length: nat, poolHas: bool)
      returns (alloc: nat, ghost q: nat)
      requires Valid() && cell.words in at && at[cell.words].cell == cell && at[cell.words].Used()
      requires memory == cell.words + 1 && valid == at[cell.words].requested == |View()[cell.words]| <= length
      requires length > 0
      modifies this, mem, Records(at)
      ensures Valid() && (forall c | c in Records(at) :: c in old(Records(at)) || fresh(c))
      ensures alloc == 0 ==> View() == old(View()) && (poolHas ==> !Roomy(SizeToWords(length) + 2))
      ensures alloc != 0 ==> alloc == q + 1 && Extended(old(View()), View(), old(cell.words), q, length)
      ensures alloc == memory && q == old(cell.words) <==> SizeToWords(length) + 2 <= old(at[cell.words].nWords)
      ensures alloc == memory ==> Stays(old(at), at, q, SizeToWords(length) + 2)
      ensures alloc != memory && alloc != 0 ==> old(Roomy(SizeToWords(length) + 2))
      ensures alloc == 0 && poolHas ==> !old(Roomy(SizeToWords(length) + 2))
    {
      assert Says(at[cell.words], cell.words, NONE) && cell in Records(at);
      if cell.nWords >= SizeToWords(length) + 2 {
        q := cell.words;
        RequestStays(at, nWords, q, length, SizeToWords(length) + 2);
        FinishGrowth(cell, tag, length);
        alloc := memory;
      } else {
        alloc, q := Move(tag, memory, cell.words, valid, length, poolHas);
      }
    }

    /** sec_realloc once the request is known not to fit the cell. */
    method Enlarge(cell: Cell, tag: string, memory: nat, valid: nat, length: nat, poolHas: bool)
      returns (alloc: nat, ghost q: nat, ghost meals: nat)
      requires Valid() && cell.words in at && at[cell.words].cell == cell && at[cell.words].Used()
      requires memory == cell.words + 1 && valid == at[cell.words].requested == |View()[cell.words]| <= length
      requires length > 0
      modifies this, mem, Records(at)
      ensures Valid() && (forall c | c in Records(at) :: c in old(Records(at)) || fresh(c)) && meals <= 1
      ensures alloc == 0 ==> View() == old(View()) && (poolHas ==> !Roomy(SizeToWords(length) + 2))
      ensures alloc != 0 ==> alloc == q + 1 && Extended(old(View()), View(), old(cell.words), q, length)
      ensures alloc == memory && q == old(cell.words) <==> SizeToWords(length) + 2 <= old(Reach(at, cell.words))
      ensures alloc == memory ==> Stays(old(at), at, q, SizeToWords(length) + 2)
      ensures alloc != memory && alloc != 0 ==> old(Roomy(SizeToWords(length) + 2))
      ensures alloc == 0 && poolHas ==> !old(Roomy(SizeToWords(length) + 2))
    {
      meals := Expand(cell, SizeToWords(length) + 2);
      alloc, q := GrowOrMove(cell, tag, memory, valid, length, poolHas);
    }

    method SecRealloc(tag: string, memory: nat, ghost p: nat, length: nat, poolHas: bool)
      returns (alloc: nat, ghost q: nat, ghost meals: nat)
      requires Valid() && memory == p + 1 && p in View() && length > 0
      modifies this, mem, Records(at)
      ensures Valid() && (forall c | c in Records(at) :: c in old(Records(at)) || fresh(c)) && meals <= 1
      ensures alloc == 0 ==>
        View() == old(View()) && length > |View()[p]| && (poolHas ==> !Roomy(SizeToWords(length) + 2))
      ensures alloc != 0 ==> alloc == q + 1 && Reallocated(old(View()), View(), p, q, length)
      ensures alloc != 0 && SizeToWords(length) + 2 > old(at[p].nWords) ==> Extended(old(View()), View(), p, q, length)
      ensures alloc == memory && q == p <==> SizeToWords(length) + 2 <= old(Reach(at, p))
      ensures alloc == memory ==> Stays(old(at), at, p, SizeToWords(length) + 2)
      ensures alloc != memory && alloc != 0 ==> old(Roomy(SizeToWords(length) + 2))
      ensures alloc == 0 && poolHas ==> !old(Roomy(SizeToWords(length) + 2))
    {
      var cell := Lookup(memory, p);
      assert SpanOk(p, at[p], mem[..]) && cell in Records(at);
      if SizeToWords(length) + 2 <= cell.nWords {
        RequestStays(at, nWords, p, length, SizeToWords(length) + 2);
        Fit(cell, length);
        return memory, p, 0;
      }
      ghost var v0 := View();
      alloc, q, meals := Enlarge(cell, tag, memory, cell.requested, length, poolHas);
      if alloc != 0 { ExtendedIsReallocated(v0, View(), p, q, length); }
    }

    // -------------------------------------------------------------- the operations and their footprint

    method Alloc(tag: string, length: nat, poolHas: bool) returns (memory: nat, ghost p: nat)
      requires Ready() && length > 0
      modifies repr
      ensures Ready() && fresh(repr - old(repr))
      ensures memory == 0 ==> at == old(at) && view == old(view) && (poolHas ==> !Roomy(SizeToWords(length) + 2))
      ensures memory != 0 ==> memory == p + 1 && p !in old(view) && view == old(view)[p := Zeros(length)]
      ensures memory != 0 ==> old(Roomy(SizeToWords(length) + 2))
      ensures memory != 0 ==> Placed(old(at), at, p, SizeToWords(length) + 2, length)
    {
      memory, p := SecAlloc(tag, length, poolHas);
      Stamp();
    }

    method Free(memory: nat, ghost p: nat)
      requires Ready() && memory == p + 1 && p in view
      modifies repr
      ensures Ready() && repr <= old(repr)
      ensures view == old(view) - {p} && nUsed == old(nUsed) - 1
    {
      SecFree(memory, p);
      Stamp();
    }

    method Realloc(tag: string, memory: nat, ghost p: nat, length: nat, poolHas: bool)
      returns (alloc: nat, ghost q: nat)
      requires Ready() && memory == p + 1 && p in view && length > 0
      modifies repr
      ensures Ready() && fresh(repr - old(repr))
      ensures alloc == 0 ==> view == old(view) && length > |view[p]|
      ensures alloc != 0 ==> alloc == q + 1 && Reallocated(old(view), view, p, q, length)
      ensures alloc != 0 && SizeToWords(length) + 2 > old(at[p].nWords) ==> Extended(old(view), view, p, q, length)
      ensures alloc == memory && q == p <==> SizeToWords(length) + 2 <= old(Reach(at, p))
      ensures alloc != 0 ==> alloc == memory || old(Roomy(SizeToWords(length) + 2))
      ensures alloc == 0 && poolHas ==> !Roomy(SizeToWords(length) + 2) && !old(Roomy(SizeToWords(length) + 2))
    {
      ghost var meals;
      alloc, q, meals := SecRealloc(tag, memory, p, length, poolHas);
      Stamp();
    }

    /** sec_allocated. */
    method Allocated(memory: nat, ghost p: nat) returns (length: nat)
      requires Ready() && memory == p + 1 && p in view
      ensures length == |view[p]|
    {
      var cell := Lookup(memory, p);
      length := cell.requested;
    }

    /** A client reads its memory. */
    method Read(memory: nat, ghost p: nat, length: nat) returns (src: Octets)
      requires Ready() && memory == p + 1 && p in view && length <= |view[p]|
      ensures src == view[p][..length]
    {
      src := Fetch(memory, p, length);
    }

    /** Clients hold words of the block, and as long as they do the block counts as used. */
    lemma Holds(p: nat)
      requires Ready() && p in view
      ensures IsValidWord(p + 1) && nUsed > 0
    {
      assert SpanOk(p, at[p], mem[..]);
      CountsLive();
    }

    /** A client stores bytes in its memory. */
    method Write(memory: nat, ghost p: nat, off: nat, src: Octets)
      requires Ready() && memory == p + 1 && p in view && off + |src| <= |view[p]|
      modifies repr
      ensures Ready() && repr == old(repr)
      ensures view == old(view)[p := Spliced(old(view)[p], off, src)]
    {
      Store(memory, p, off, src);
      Stamp();
    }

    // -------------------------------------------------------------- consequences

    /** The counter of used cells counts the live allocations. */
    lemma CountsLive()
      requires Valid()
      ensures nUsed == |View()|
    {
      var ks := Starts(used);
      forall p | p in View() ensures p in ks {
        assert Says(at[p], p, NONE) && OnRing(at[p], p, NONE, used, unused);
        var k :| 0 <= k < |used| && used[k] == at[p].cell;
        assert ks[k] == p;
      }
      forall k | 0 <= k < |ks| ensures ks[k] in View() {
        assert used[k] in used && OnRing(at[ks[k]], ks[k], NONE, used, unused);
      }
      StartsDistinct(at, used, []);
      assert ks + Starts([]) == ks;
      DistinctSize(ks);
      assert View().Keys == Elements(ks);
      assert |View()| == |View().Keys|;
    }

    /** Release the records of a block without allocations: there is exactly one, for all its words. */
    method Dismantle() returns (freed: seq<Cell>)
      requires Valid() && nUsed == 0
      modifies this`taken, this`unused, this`unusedCells, Records(at)`next, Records(at)`prev
      ensures usedCells == null && unusedCells == null && taken == {}
      ensures |freed| == 1 && Records(at) == {freed[0]} && freed[0].words == 0 && freed[0].nWords == nWords
    {
      CountsLive();
      EmptyBlockIsOneCell(at, mem[..], nWords);
      ghost var c := at[0].cell;
      assert Says(at[0], 0, NONE) && OnRing(at[0], 0, NONE, used, unused);
      OnlyRecord(unused, c);
      freed := [];
      while unusedCells != null
        invariant IsRing(unusedCells, unused) && (if freed == [] then unused == [c] else unused == [] && freed == [c])
        invariant used == old(used) && usedCells == old(usedCells) && taken == if freed == [] then {c} else {}
        decreases |unused|
      {
        var cell := unusedCells;
        unusedCells, unused := Leave(unusedCells, unused, cell);
        PoolFree(cell);
        freed := freed + [cell];
      }
    }

    lemma LinksMirror(cell: Cell)
      requires Tied(NONE) && cell.words in at && at[cell.words].cell == cell
      ensures cell.next != null && cell.prev != null && cell.next.prev == cell && cell.prev.next == cell
    {
      assert OnRing(at[cell.words], cell.words, NONE, used, unused);
      if at[cell.words].Used() {
        RingMirror(usedCells, used, cell);
      } else {
        RingMirror(unusedCells, unused, cell);
      }
    }

    /** sec_validate walks every cell of the block and none of its assertions fires. */
    method SecValidate() returns (ghost checked: set<nat>)
      requires Valid()
      ensures checked == at.Keys
    {
      var word := 0;
      checked := {};
      while true
        invariant word < nWords && word in at
        invariant checked == set p | p in at && p < word
        decreases nWords - word
      {
        assert IsValidWord(word);
        assert SpanOk(word, at[word], mem[..]) && Says(at[word], word, NONE);
        var cell := ReadPointer(word, at[word].cell);
        assert Points(mem[..], cell.words, cell) && Points(mem[..], cell.words + cell.nWords - 1, cell);
        LinksMirror(cell);
        if cell.requested > 0 {
          assert cell.tagged && cell.next.prev == cell && cell.prev.next == cell;
          assert cell.requested <= (cell.nWords - 2) * 8;
        } else {
          assert !cell.tagged && cell.next.prev == cell && cell.prev.next == cell;
        }
        NextStart(at, nWords, word);
        checked := checked + {word};
        word := word + cell.nWords;
        if word == nWords {
          break;
        }
      }
    }

    /** egg_secure_records lists both rings, and the sizes account for the whole block. */
    method SecRecords() returns (records: seq<Record>, total: nat)
      requires Valid()
      ensures total == nWords
      ensures |records| == |unused| + |used|
      ensures forall k | 0 <= k < |records| ::
        records[k] == RecordOf(if k < |unused| then unused[k] else used[k - |unused|])
    {
      RingsAddUp();
      ghost var n := |unused|;
      records, total := RecordsForRing(unusedCells, unused, [], 0);
      ghost var first := records;
      records, total := RecordsForRing(usedCells, used, records, total);
      assert forall k | 0 <= k < n :: records[k] == first[k];
    }

    lemma RingsAddUp()
      requires Tied(NONE)
      ensures SumWords(unused) + SumWords(used) == nWords
    {
      var ks, ls := Starts(unused), Starts(used);
      forall c | c in unused + used ensures at[c.words].nWords == c.nWords {
        assert Says(at[c.words], c.words, NONE);
      }
      assert forall c | c in unused || c in used :: c in unused + used;
      RingStarts(at, nWords, unused);
      RingStarts(at, nWords, used);
      WordsBelowAppend(at, ks, ls, nWords);
      RingsApart(at, used, unused, NONE);
      forall p | p in at ensures p in ks + ls {
        assert OnRing(at[p], p, NONE, used, unused) && Says(at[p], p, NONE);
        var ring := if at[p].Used() then used else unused;
        var k :| 0 <= k < |ring| && ring[k] == at[p].cell;
        assert Starts(ring)[k] == p;
      }
      StartsDistinct(at, unused, used);
      WordsAddUp(at, nWords, ks + ls);
    }
  }

  /** With records at hand, a new block of `words` words serves two requests one behind the other exactly if both fit
    * into it and the first did not have to take the whole block. */
  method ServeTwo(words: nat, first: nat, second: nat) returns (a: nat, b: nat)
    requires words >= 3 && first > 0 && second > 0
    ensures a != 0 <==> SizeToWords(first) + 2 <= words
    ensures a != 0 ==> a == 1
    ensures a != 0 ==> (b != 0 <==>
      words > SizeToWords(first) + 6 && SizeToWords(first) + 2 + SizeToWords(second) + 2 <= words)
    ensures a != 0 && b != 0 ==> b == a + SizeToWords(first) + 2
  {
    var block := new Block(words);
    ghost var p, q, at0, n, k := 0, 0, block.at, SizeToWords(first) + 2, SizeToWords(second) + 2;
    EmptyBlockIsOneCell(at0, block.mem[..], words);
    assert Room(at0, n) <==> n <= words by { assert Hosts(at0, 0, n) <==> n <= words; }
    a, p := block.Alloc("", first, true);
    ghost var at1 := block.at;
    if a != 0 {
      FirstPlaced(at0, at1, words, p, n, first);
      assert Room(at1, k) <==> Hosts(at1, n, k);
    }
    b, q := block.Alloc("", second, true);
  }

  datatype Record = Record(requestLength: nat, blockLength: nat, tag: string)

  function RecordOf(cell: Cell): Record
    reads cell`requested, cell`nWords, cell`tag
  {
    Record(cell.requested, cell.nWords * 8, cell.tag)
  }

  ghost function SumWords(ring: seq<Cell>): nat
    reads ring`nWords
  {
    if ring == [] then 0 else ring[0].nWords + SumWords(ring[1..])
  }

  ghost function Starts(ring: seq<Cell>): (ks: seq<nat>)
    reads ring`words
    ensures |ks| == |ring| && forall k | 0 <= k < |ring| :: ks[k] == ring[k].words
  {
    if ring == [] then [] else [ring[0].words] + Starts(ring[1..])
  }

  lemma OnlyRecord(ring: seq<Cell>, c: Cell)
    requires Distinct(ring) && c in ring && forall x | x in ring :: x == c
    ensures ring == [c]
  {
    forall k | 0 <= k < |ring| ensures ring[k] == c {
      assert ring[k] in ring;
    }
    var n := |ring|;
    assert Distinct(ring) && ring[0] == ring[n - 1];
  }

  ghost function Elements(ks: seq<nat>): set<nat> { set k | k in ks }

  lemma {:induction false} DistinctSize(ks: seq<nat>)
    requires forall i, j | 0 <= i < j < |ks| :: ks[i] != ks[j]
    ensures |Elements(ks)| == |ks|
  {
    if ks != [] {
      DistinctSize(ks[1..]);
      assert Elements(ks) == {ks[0]} + Elements(ks[1..]);
    }
  }

  lemma StartsDistinct(at: Cells, a: seq<Cell>, b: seq<Cell>)
    requires forall c | c in a || c in b :: c.words in at && at[c.words].cell == c
    requires Distinct(a) && Distinct(b) && forall i, j | 0 <= i < |b| && 0 <= j < |a| :: b[i] != a[j]
    ensures var ks := Starts(a) + Starts(b); forall i, j | 0 <= i < j < |ks| :: ks[i] != ks[j]
  {
    var ks, cs := Starts(a) + Starts(b), a + b;
    forall i, j | 0 <= i < j < |ks| ensures ks[i] != ks[j] {
      assert cs[i] != cs[j] && ks[i] == cs[i].words && ks[j] == cs[j].words;
    }
  }

  lemma {:induction false} RingStarts(at: Cells, n: nat, ring: seq<Cell>)
    requires Tiles(at, n)
    requires forall c | c in ring :: c.words in at && at[c.words].nWords == c.nWords
    ensures forall k | k in Starts(ring) :: k in at
    ensures WordsBelow(at, Starts(ring), n) == SumWords(ring)
  {
    if ring != [] {
      RingStarts(at, n, ring[1..]);
    }
  }

  /** records_for_ring: one record for each cell of a ring, and the ring's words on top of the total. */
  method RecordsForRing(head: Cell?, ghost ring: seq<Cell>, before: seq<Record>, sum: nat)
    returns (records: seq<Record>, total: nat)
    requires IsRing(head, ring)
    ensures |records| == |before| + |ring| && total == sum + SumWords(ring)
    ensures forall k | 0 <= k < |records| ::
      records[k] == if k < |before| then before[k] else RecordOf(ring[k - |before|])
  {
    records, total := before, sum;
    var cell := head;
    ghost var k := 0;
    while cell != null
      invariant k <= |ring| && (if k < |ring| then cell == ring[k] else cell == null)
      invariant |records| == |before| + k && total + SumWords(ring[k..]) == sum + SumWords(ring)
      invariant forall i | 0 <= i < |records| ::
        records[i] == if i < |before| then before[i] else RecordOf(ring[i - |before|])
      decreases |ring| - k
    {
      assert ring[k..][1..] == ring[k + 1..];
      records := records + [RecordOf(cell)];
      total := total + cell.nWords;
      cell := cell.next;
      if cell == head {
        cell := null;
      }
      k := k + 1;
    }
  }

  /** The allocation at p now lives at q, with another length but the same bytes; nothing
      else changed, and no byte it gained is client data. */
  ghost predicate Reallocated(v: map<nat, Octets>, v': map<nat, Octets>, p: nat, q: nat, length: nat) {
    && p in v && (q == p || q !in v) && q in v'
    && Resized(v[p], v'[q], length)
    && v' == (v - {p})[q := v'[q]]
  }

  lemma AllBlank(v: map<nat, Octets>, v': map<nat, Octets>, p: nat, length: nat)
    requires p in v' && |v'[p]| == length && v' == v[p := v'[p]]
    ensures v'[p := Blanked(v'[p], 0, length)] == v[p := Zeros(length)]
  {
    assert Blanked(v'[p], 0, length) == Zeros(length);
    Overwrite(v, p, v'[p], Zeros(length));
  }

  /** The allocation at p now lives at q, longer, and every byte it gained is cleared; nothing else changed. */
  ghost predicate Extended(v: map<nat, Octets>, v': map<nat, Octets>, p: nat, q: nat, length: nat) {
    && p in v && |v[p]| <= length && (q == p || q !in v)
    && v' == (v - {p})[q := v[p] + Zeros(length - |v[p]|)]
  }

  lemma ExtendedIsReallocated(v: map<nat, Octets>, v': map<nat, Octets>, p: nat, q: nat, length: nat)
    requires Extended(v, v', p, q, length)
    ensures Reallocated(v, v', p, q, length)
  {
  }

  lemma FitIsReallocated(v: map<nat, Octets>, v': map<nat, Octets>, p: nat, length: nat)
    requires p in v && p in v' && v' == v[p := v'[p]] && Resized(v[p], v'[p], length)
    ensures Reallocated(v, v', p, p, length)
  {
  }

  lemma MoveContents(v0: map<nat, Octets>, v1: map<nat, Octets>, v2: map<nat, Octets>, p: nat, q: nat, length: nat)
    requires p in v0 && q !in v0 && |v0[p]| <= length
    requires v1 == v0[q := Zeros(length)]
    requires v2 == v1[q := Spliced(v1[q], 0, v1[p])]
    ensures Extended(v0, v2 - {p}, p, q, length)
  {
    var z, d := Zeros(length), v0[p];
    assert Spliced(z, 0, d) == d + Zeros(length - |d|);
  }

  lemma Grew(v0: map<nat, Octets>, v1: map<nat, Octets>, p: nat, valid: nat, length: nat)
    requires p in v0 && p in v1 && |v0[p]| == valid <= length && Resized(v0[p], v1[p], length) && v1 == v0[p := v1[p]]
    ensures Extended(v0, v1[p := Blanked(v1[p], valid, length)], p, p, length)
  {
    assert Blanked(v1[p], |v0[p]|, length) == v0[p] + Zeros(length - |v0[p]|);
  }

  lemma StealSynced(at: Cells, n: nat, p: nat, d: nat, used: seq<Cell>, unused: seq<Cell>)
    requires Tiles(at, n) && p in at && End(at, p) in at && 0 < d < at[End(at, p)].nWords && !at[End(at, p)].Used()
    requires forall r {:trigger Says(at[r], r, NONE)} | r in at && r != p && r != End(at, p) :: Says(at[r], r, NONE)
    requires var c := at[p].cell;
      c.words == p && c.nWords == at[p].nWords + d && c.requested == at[p].requested && (c.tagged <==> at[p].Used())
    requires var q: nat := End(at, p); var o := at[q].cell;
      o.words == q + d && o.nWords == at[q].nWords - d && o.requested == 0 && !o.tagged
    requires forall r {:trigger OnRing(at[r], r, NONE, used, unused)} | r in at :: OnRing(at[r], r, NONE, used, unused)
    requires forall x | x in used || x in unused ::
      x in Records(at) && ((x.words in at && at[x.words].cell == x) || x == at[End(at, p)].cell)
    ensures Synced(Steal(at, p, End(at, p), d), used, unused, NONE)
  {
    var q: nat := End(at, p);
    var at' := Steal(at, p, q, d);
    StealRecords(at, n, p, d);
    assert q + d in at ==> Apart(at, q, q + d);
    assert OnRing(at[p], p, NONE, used, unused) && OnRing(at[q], q, NONE, used, unused) && Apart(at, p, q);
    forall r | r in at' ensures Says(at'[r], r, NONE) && OnRing(at'[r], r, NONE, used, unused) {
      if r != p && r != q + d {
        assert Says(at[r], r, NONE) && OnRing(at[r], r, NONE, used, unused);
      }
    }
  }

  lemma RerequestSynced(at: Cells, p: nat, r: nat, used: seq<Cell>, unused: seq<Cell>)
    requires p in at && at[p].Used() && r > 0
    requires forall q {:trigger Says(at[q], q, NONE)} | q in at && q != p :: Says(at[q], q, NONE)
    requires forall q {:trigger OnRing(at[q], q, NONE, used, unused)} | q in at :: OnRing(at[q], q, NONE, used, unused)
    requires forall c | c in used || c in unused :: c in Records(at) && c.words in at && at[c.words].cell == c
    requires var c := at[p].cell; c.words == p && c.nWords == at[p].nWords && c.requested == r && c.tagged
    ensures Synced(at[p := at[p].(requested := r)], used, unused, NONE)
  {
    var at' := at[p := at[p].(requested := r)];
    RequestRecords(at, p, r);
    forall q | q in at' ensures Says(at'[q], q, NONE) && OnRing(at'[q], q, NONE, used, unused) {
      assert OnRing(at[q], q, NONE, used, unused);
      assert q != p ==> Says(at[q], q, NONE);
    }
  }

  lemma ParkSynced(at: Cells, n: nat, p: nat, used: seq<Cell>, unused: seq<Cell>, unused': seq<Cell>, off: int)
    requires Tiles(at, n) && p in at && !at[p].Used() && (off == NONE || off == p)
    requires forall q {:trigger Says(at[q], q, off)} | q in at && q != p :: Says(at[q], q, off)
    requires forall q {:trigger OnRing(at[q], q, off, used, unused)} | q in at :: OnRing(at[q], q, off, used, unused)
    requires forall c | c in used || c in unused :: c in Records(at) && c.words in at && at[c.words].cell == c
    requires forall c :: c in unused' <==> c in unused || c == at[p].cell
    requires var c := at[p].cell; c.words == p && c.nWords == at[p].nWords && c.requested == 0 && !c.tagged
    ensures Synced(at, used, unused', NONE)
  {
    forall q | q in at ensures Says(at[q], q, NONE) && OnRing(at[q], q, NONE, used, unused') {
      assert OnRing(at[q], q, off, used, unused);
      if q != p {
        assert Says(at[q], q, off) && Apart(at, p, q);
      }
    }
  }

  lemma MergeSynced(at: Cells, n: nat, p: nat, c: Cell, d: Cell, used: seq<Cell>, unused: seq<Cell>)
    requires Tiles(at, n) && p in at && End(at, p) in at
    requires var q: nat := End(at, p);
      && ((c == at[p].cell && d == at[q].cell && d.words == q)
        || (c == at[q].cell && d == at[p].cell && d.words == p && !at[p].Used()))
      && !at[q].Used()
      && c.words == p && c.nWords == at[p].nWords + at[q].nWords
      && c.requested == at[p].requested && (c.tagged <==> at[p].Used())
    requires forall r {:trigger Says(at[r], r, d.words)} | r in at && r != p && r != End(at, p) ::
      Says(at[r], r, d.words)
    requires forall r {:trigger OnRing(at[r], r, d.words, used, unused)} | r in at ::
      OnRing(at[r], r, d.words, used, unused)
    requires forall x | x in used || x in unused ::
      x in Records(at) && ((x.words in at && at[x.words].cell == x) || x == c)
    ensures Synced(Merge(at, p, End(at, p), c), used, unused, NONE)
  {
    var q: nat := End(at, p);
    var at' := Merge(at, p, q, c);
    MergeRecords(at, n, p, c, d);
    assert Apart(at, p, q);
    assert OnRing(at[p], p, d.words, used, unused) && OnRing(at[q], q, d.words, used, unused);
    forall r | r in at' ensures Says(at'[r], r, NONE) && OnRing(at'[r], r, NONE, used, unused) {
      if r != p {
        assert Says(at[r], r, d.words) && OnRing(at[r], r, d.words, used, unused);
      }
    }
    forall x | x in used || x in unused ensures x in Records(at') && x.words in at' && at'[x.words].cell == x {
      assert x != d;
    }
  }

  lemma RetireSynced(at: Cells, n: nat, p: nat, used: seq<Cell>, used': seq<Cell>, unused: seq<Cell>)
    requires Tiles(at, n) && p in at && Synced(at, used, unused, NONE) && at[p].Used()
    requires forall c :: c in used' <==> c in used && c != at[p].cell
    ensures Synced(at[p := at[p].(requested := 0)], used', unused, p)
  {
    var at' := at[p := at[p].(requested := 0)];
    RequestRecords(at, p, 0);
    forall q | q in at' ensures Says(at'[q], q, p) && OnRing(at'[q], q, p, used', unused) {
      assert Says(at[q], q, NONE) && OnRing(at[q], q, NONE, used, unused);
      assert q != p ==> Apart(at, p, q);
    }
  }

  lemma BlankedAll(v: map<nat, Octets>, p: nat, n: nat)
    requires p in v && |v[p]| == n
    ensures Blanked(v[p], 0, n) == seq(n, _ => Zero)
    ensures v[p := Blanked(v[p], 0, n)] - {p} == v - {p}
  {
  }

  lemma Overwrite<K, V>(m: map<K, V>, k: K, a: V, b: V)
    ensures m[k := a][k := b] == m[k := b]
  {
  }

  ghost function Blanked(d: Octets, from: nat, to: nat): Octets {
    seq(|d|, k requires 0 <= k < |d| => if from <= k < to then Zero else d[k])
  }

  function Zeros(n: nat): Octets { seq(n, _ => Zero) }

  lemma RingsApart(at: Cells, used: seq<Cell>, unused: seq<Cell>, off: int)
    requires Synced(at, used, unused, off)
    ensures forall i, j | 0 <= i < |used| && 0 <= j < |unused| :: used[i] != unused[j]
  {
    forall i, j | 0 <= i < |used| && 0 <= j < |unused| ensures used[i] != unused[j] {
      var c := used[i];
      assert OnRing(at[c.words], c.words, off, used, unused);
    }
  }

  lemma CommitSynced(at: Cells, n: nat, p: nat, r: nat, used: seq<Cell>, used': seq<Cell>, unused: seq<Cell>)
    requires Tiles(at, n) && p in at && r > 0 && !at[p].Used()
    requires forall q {:trigger Says(at[q], q, p)} | q in at && q != p :: Says(at[q], q, p)
    requires forall q {:trigger OnRing(at[q], q, p, used, unused)} | q in at :: OnRing(at[q], q, p, used, unused)
    requires forall c | c in used || c in unused :: c in Records(at) && c.words in at && at[c.words].cell == c
    requires forall c :: c in used' <==> c in used || c == at[p].cell
    requires var c := at[p].cell; c.words == p && c.nWords == at[p].nWords && c.requested == r && c.tagged
    ensures Synced(at[p := at[p].(requested := r)], used', unused, NONE)
  {
    var at' := at[p := at[p].(requested := r)];
    RequestRecords(at, p, r);
    forall q | q in at' ensures Says(at'[q], q, NONE) && OnRing(at'[q], q, NONE, used', unused) {
      assert OnRing(at[q], q, p, used, unused);
      if q != p {
        assert Says(at[q], q, p) && Apart(at, p, q);
      }
    }
  }

  /** Taking the cell at p off its ring. */
  lemma ReringSynced(at: Cells, n: nat, used: seq<Cell>, unused: seq<Cell>, used': seq<Cell>, unused': seq<Cell>,
    p: nat)
    requires Tiles(at, n) && p in at && Synced(at, used, unused, NONE)
    requires forall c :: c in used' <==> c in used && c != at[p].cell
    requires forall c :: c in unused' <==> c in unused && c != at[p].cell
    ensures Synced(at, used', unused', p)
  {
    forall q | q in at ensures Says(at[q], q, p) && OnRing(at[q], q, p, used', unused') {
      assert Says(at[q], q, NONE) && OnRing(at[q], q, NONE, used, unused);
      assert q != p ==> Apart(at, p, q);
    }
  }

  lemma CutSynced(at: Cells, n: nat, p: nat, k: nat, other: Cell, used: seq<Cell>, unused: seq<Cell>)
    requires Tiles(at, n) && p in at && 0 < k < at[p].nWords
    requires forall q {:trigger Says(at[q], q, NONE)} | q in at && q != p :: Says(at[q], q, NONE)
    requires forall q {:trigger OnRing(at[q], q, NONE, used, unused)} | q in at :: OnRing(at[q], q, NONE, used, unused)
    requires forall c | c in used || c in unused ::
      c in Records(at) && ((c.words in at && at[c.words].cell == c) || c == at[p].cell)
    requires other !in Records(at) && !at[p].Used()
    requires other.words == p && other.nWords == k
    requires var c := at[p].cell; c.words == p + k && c.nWords == at[p].nWords - k && c.requested == 0 && !c.tagged
    ensures Synced(Cut(at, p, k, other), used, unused, p)
  {
    CutRecords(at, n, p, k, other);
    var at' := Cut(at, p, k, other);
    assert p + k in at ==> Apart(at, p, p + k);
    forall q | q in at' ensures Says(at'[q], q, p) && OnRing(at'[q], q, p, used, unused) {
      assert OnRing(at[p], p, NONE, used, unused);
      if q != p && q != p + k {
        assert Says(at[q], q, NONE) && OnRing(at[q], q, NONE, used, unused);
      }
    }
  }
}
