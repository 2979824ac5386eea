/** The circular doubly linked rings the records live on
    (sec_insert_cell_ring and sec_remove_cell_ring). */
module Rings {
  import opened Layout

  ghost predicate Distinct(ring: seq<Cell>) {
    forall i, j | 0 <= i < j < |ring| :: ring[i] != ring[j]
  }

  ghost function After(i: int, n: int): int { if i + 1 < n then i + 1 else 0 }

  ghost function Before(i: int, n: int): int { if i == 0 then n - 1 else i - 1 }

  /** From head the next pointers run through exactly these records and come
      back to head, and the prev pointers run the other way round. */
  ghost predicate IsRing(head: Cell?, ring: seq<Cell>)
    reads ring`next, ring`prev
  {
    && (head == null <==> ring == [])
    && (ring != [] ==> head == ring[0])
    && Distinct(ring)
    && (forall i {:trigger ring[i].next} | 0 <= i < |ring| :: ring[i].next == ring[After(i, |ring|)])
    && (forall i {:trigger ring[i].prev} | 0 <= i < |ring| :: ring[i].prev == ring[Before(i, |ring|)])
  }

  /** The links of a cell on a ring and of its neighbours name each other. */
  lemma RingMirror(head: Cell?, ring: seq<Cell>, cell: Cell)
    requires IsRing(head, ring) && cell in ring
    ensures cell.next != null && cell.prev != null && cell.next.prev == cell && cell.prev.next == cell
  {
    var k :| 0 <= k < |ring| && ring[k] == cell;
    assert ring[k].next == ring[After(k, |ring|)] && ring[k].prev == ring[Before(k, |ring|)];
    assert ring[After(k, |ring|)].prev == ring[k] && ring[Before(k, |ring|)].next == ring[k];
  }

  /** Inserting puts the new record in front and turns the ring by one. */
  ghost function Inserted(ring: seq<Cell>, cell: Cell): seq<Cell> {
    if ring == [] then [cell] else [cell] + ring[1..] + [ring[0]]
  }

  ghost function Removed(ring: seq<Cell>, k: nat): seq<Cell>
    requires k < |ring|
  {
    ring[..k] + ring[k + 1..]
  }

  method Insert(head: Cell?, ghost ring: seq<Cell>, cell: Cell) returns (head': Cell)
    requires IsRing(head, ring) && cell !in ring
    requires cell.next == null && cell.prev == null
    modifies cell`next, cell`prev, ring`next, ring`prev
    ensures head' == cell && IsRing(head', Inserted(ring, cell))
  {
    if head != null {
      cell.next := head.next;
      cell.prev := head;
      cell.next.prev := cell;
      cell.prev.next := cell;
      ghost var ring' := Inserted(ring, cell);
      assert forall i | 0 < i < |ring| :: ring'[i] == ring[i];
      assert ring'[0] == cell && ring'[|ring|] == ring[0];
    } else {
      cell.next := cell;
      cell.prev := cell;
    }
    head' := cell;
    assert cell.next.prev == cell && cell.prev.next == cell;
  }

  /** Taking out element k only changes what its two neighbours see. */
  lemma RemovedNeighbours(ring: seq<Cell>, k: nat, i: nat)
    requires k < |ring| && i < |ring| - 1
    ensures var n, ring', j := |ring|, Removed(ring, k), if i < k then i else i + 1;
      && ring'[i] == ring[j]
      && ring'[After(i, n - 1)] == ring[if j == Before(k, n) then After(k, n) else After(j, n)]
      && ring'[Before(i, n - 1)] == ring[if j == After(k, n) then Before(k, n) else Before(j, n)]
  {
  }

  /** Tie the neighbours of a record together and clear its own links. */
  method Unlink(ghost ring: seq<Cell>, cell: Cell, ghost k: nat)
    requires ring != [] && IsRing(ring[0], ring) && k < |ring| && ring[k] == cell
    modifies ring`next, ring`prev
    ensures cell.next == null && cell.prev == null
    ensures forall j {:trigger ring[j].next} | 0 <= j < |ring| && j != k ::
      ring[j].next == ring[if j == Before(k, |ring|) then After(k, |ring|) else After(j, |ring|)]
    ensures forall j {:trigger ring[j].prev} | 0 <= j < |ring| && j != k ::
      ring[j].prev == ring[if j == After(k, |ring|) then Before(k, |ring|) else Before(j, |ring|)]
  {
    ghost var n := |ring|;
    assert cell.next == ring[After(k, n)] && cell.prev == ring[Before(k, n)];
    assert ring[After(k, n)].prev == cell && ring[Before(k, n)].next == cell;
    cell.next.prev := cell.prev;
    cell.prev.next := cell.next;
    cell.next, cell.prev := null, null;
  }

  method Remove(head: Cell?, ghost ring: seq<Cell>, cell: Cell, ghost k: nat) returns (head': Cell?)
    requires IsRing(head, ring) && k < |ring| && ring[k] == cell
    modifies ring`next, ring`prev
    ensures IsRing(head', Removed(ring, k))
    ensures cell.next == null && cell.prev == null
  {
    head' := head;
    ghost var n := |ring|;
    assert cell.next == ring[After(k, n)];
    if cell == head {
      head' := if cell.next == cell then null else cell.next;
    }
    Unlink(ring, cell, k);
    RemovedElements(ring, k);
    ghost var ring' := Removed(ring, k);
    forall i {:trigger ring'[i].next} | 0 <= i < n - 1 ensures ring'[i].next == ring'[After(i, n - 1)] {
      RemovedNeighbours(ring, k, i);
      assert ring'[i].next == ring[if i < k then i else i + 1].next;
    }
    forall i {:trigger ring'[i].prev} | 0 <= i < n - 1 ensures ring'[i].prev == ring'[Before(i, n - 1)] {
      RemovedNeighbours(ring, k, i);
      assert ring'[i].prev == ring[if i < k then i else i + 1].prev;
    }
  }

  lemma InsertedElements(ring: seq<Cell>, cell: Cell)
    ensures forall c :: c in Inserted(ring, cell) <==> c in ring || c == cell
    ensures |Inserted(ring, cell)| == |ring| + 1
  {
    if ring != [] { assert ring == [ring[0]] + ring[1..]; }
  }

  lemma RemovedElements(ring: seq<Cell>, k: nat)
    requires k < |ring| && Distinct(ring)
    ensures forall c :: c in Removed(ring, k) <==> c in ring && c != ring[k]
    ensures |Removed(ring, k)| == |ring| - 1 && Distinct(Removed(ring, k))
  {
    assert ring == ring[..k] + [ring[k]] + ring[k + 1..];
  }

  /** What a caller needs of an insertion: the same records and one more. */
  method Enter(head: Cell?, ghost ring: seq<Cell>, cell: Cell) returns (head': Cell, ghost ring': seq<Cell>)
    requires IsRing(head, ring) && cell !in ring
    requires cell.next == null && cell.prev == null
    modifies cell`next, cell`prev, ring`next, ring`prev
    ensures IsRing(head', ring') && |ring'| == |ring| + 1
    ensures forall c :: c in ring' <==> c in ring || c == cell
  {
    InsertedElements(ring, cell);
    ring' := Inserted(ring, cell);
    head' := Insert(head, ring, cell);
  }

  /** What a caller needs of a removal: the same records but one, which is linked to nothing. */
  method Leave(head: Cell?, ghost ring: seq<Cell>, cell: Cell) returns (head': Cell?, ghost ring': seq<Cell>)
    requires IsRing(head, ring) && cell in ring
    modifies ring`next, ring`prev
    ensures IsRing(head', ring') && |ring'| == |ring| - 1
    ensures forall c :: c in ring' <==> c in ring && c != cell
    ensures cell.next == null && cell.prev == null
  {
    ghost var k :| 0 <= k < |ring| && ring[k] == cell;
    RemovedElements(ring, k);
    ring' := Removed(ring, k);
    head' := Remove(head, ring, cell, k);
  }
}
