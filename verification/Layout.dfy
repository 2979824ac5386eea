/** The layout of one block of locked memory (egg/egg-secure-memory.c): cells in
    address order over an array of octets, as values. The heap model in Blocks.dfy
    keeps such a value in step with its records, rings and guard words. */
module Layout {
  import opened Wrappers

  // All memory is handed out in words of sizeof (void*) == 8 bytes.

  /** The out-of-band record of one cell. `words` is a word offset into the block. */
  class Cell {
    var words: nat
    var nWords: nat
    var requested: nat
    var tag: string
    var tagged: bool
    var next: Cell?
    var prev: Cell?

    /** A zero-filled record, as the metadata pool hands it out. */
    constructor ()
      ensures words == nWords == requested == 0
      ensures !tagged && next == null && prev == null
    {
      words, nWords, requested, tag, tagged, next, prev := 0, 0, 0, "", false, null, null;
    }
  }

  /** One byte of locked memory together with where it came from: cleared by the
      allocator, stored by a client, or byte `index` of a pointer to a record. */
  datatype Octet = Zero | Client(value: Byte) | Guard(cell: Cell, index: nat)

  type Octets = seq<Octet>

  /** What the block knows of the cell that starts at some word. */
  datatype Span = Span(cell: Cell, nWords: nat, requested: nat) {
    predicate Used() { requested > 0 }
  }

  /** The cells of a block by the word they start at. */
  type Cells = map<nat, Span>

  function SizeToWords(length: nat): (n: nat)
    ensures 8 * n >= length > 8 * (n - 1)
  {
    (if length % 8 != 0 then 1 else 0) + length / 8
  }

  // ---------------------------------------------------------------- the invariant

  /** The word behind the cell at p. */
  ghost function End(at: Cells, p: nat): nat
    requires p in at
  {
    p + at[p].nWords
  }

  /** The bytes of a whole cell, guards included. */
  ghost predicate Covers(p: nat, sp: Span, b: int) {
    8 * p <= b < 8 * (p + sp.nWords)
  }

  /** The bytes the client asked for: they start behind the first guard word. */
  ghost predicate Grants(p: nat, sp: Span, b: int) {
    8 * (p + 1) <= b < 8 * (p + 1) + sp.requested
  }

  /** The word at offset w holds a pointer to c. */
  ghost predicate Points(m: Octets, w: int, c: Cell) {
    && 0 <= w && 8 * w + 8 <= |m|
    && forall b | 8 * w <= b < 8 * w + 8 :: m[b] == Guard(c, b - 8 * w)
  }

  /** Both ends of the cell name its record, the request fits between them, and
      client data is found in the requested range only. */
  ghost predicate SpanOk(p: nat, sp: Span, m: Octets) {
    && sp.nWords >= 3
    && 8 * (p + sp.nWords) <= |m|
    && Points(m, p, sp.cell)
    && Points(m, p + sp.nWords - 1, sp.cell)
    && sp.requested <= 8 * (sp.nWords - 2)
    && forall b | 0 <= b < |m| :: Covers(p, sp, b) && m[b].Client? ==> Grants(p, sp, b)
  }

  /** The cell at p ends where the block ends or where another cell starts. */
  ghost predicate Joined(at: Cells, n: nat, p: nat)
    requires p in at
  {
    End(at, p) == n || End(at, p) in at
  }

  /** Distinct cells do not overlap and have distinct records. */
  ghost predicate Apart(at: Cells, p: nat, q: nat)
    requires p in at && q in at
  {
    at[p].cell != at[q].cell && (End(at, p) <= q || End(at, q) <= p)
  }

  /** The cells tile the n words of the block: no gap, no overlap. */
  ghost predicate Tiles(at: Cells, n: nat) {
    && 0 in at
    && (forall p | p in at :: 0 < at[p].nWords && End(at, p) <= n)
    && (forall p {:trigger Joined(at, n, p)} | p in at :: Joined(at, n, p))
    && (forall p, q {:trigger Apart(at, p, q)} | p in at && q in at && p != q :: Apart(at, p, q))
  }

  ghost predicate Laid(at: Cells, m: Octets, n: nat) {
    && |m| == 8 * n
    && Tiles(at, n)
    && forall p {:trigger SpanOk(p, at[p], m)} | p in at :: SpanOk(p, at[p], m)
  }

  /** A cell and the one right behind it are not both unused. */
  ghost predicate Settled(at: Cells, p: nat)
    requires p in at
  {
    End(at, p) in at ==> at[p].Used() || at[End(at, p)].Used()
  }

  ghost predicate Coalesced(at: Cells) {
    forall p {:trigger Settled(at, p)} | p in at :: Settled(at, p)
  }

  ghost function Records(at: Cells): set<Cell> {
    set p | p in at :: at[p].cell
  }

  // ---------------------------------------------------------------- octets

  ghost predicate InWord(w: int, b: int) { 8 * w <= b < 8 * w + 8 }

  /** sec_write_guards for a cell of n words at w turns m into m'. */
  ghost predicate Guarded(m: Octets, m': Octets, c: Cell, w: int, n: int) {
    && |m'| == |m|
    && Points(m', w, c) && Points(m', w + n - 1, c)
    && forall b | 0 <= b < |m| && !InWord(w, b) && !InWord(w + n - 1, b) :: m'[b] == m[b]
  }

  /** The guards of two disjoint cells are written. */
  ghost predicate GuardedTwo(m: Octets, m': Octets, c: Cell, w: int, n: int, d: Cell, v: int, k: int) {
    && |m'| == |m|
    && Points(m', w, c) && Points(m', w + n - 1, c)
    && Points(m', v, d) && Points(m', v + k - 1, d)
    && forall b | 0 <= b < |m| && !InWord(w, b) && !InWord(w + n - 1, b) && !InWord(v, b)
      && !InWord(v + k - 1, b) :: m'[b] == m[b]
  }

  /** memset (m + from, 0, to - from) turns m into m'. */
  ghost predicate Cleared(m: Octets, m': Octets, from: int, to: int) {
    && |m'| == |m|
    && (forall b | 0 <= b < |m| && from <= b < to :: m'[b] == Zero)
    && (forall b | 0 <= b < |m| && !(from <= b < to) :: m'[b] == m[b])
  }

  ghost predicate SameOn(p: nat, sp: Span, m: Octets, m': Octets) {
    |m| == |m'| && forall b | 0 <= b < |m| :: Covers(p, sp, b) ==> m[b] == m'[b]
  }

  lemma Untouched(p: nat, sp: Span, m: Octets, m': Octets)
    requires SpanOk(p, sp, m) && SameOn(p, sp, m, m')
    ensures SpanOk(p, sp, m')
  {
  }

  ghost predicate SameOutside(m: Octets, m': Octets, lo: int, hi: int) {
    |m| == |m'| && forall b | 0 <= b < |m| && !(8 * lo <= b < 8 * hi) :: m[b] == m'[b]
  }

  lemma Elsewhere(p: nat, sp: Span, m: Octets, m': Octets, lo: int, hi: int)
    requires SpanOk(p, sp, m) && SameOutside(m, m', lo, hi)
    requires p + sp.nWords <= lo || hi <= p
    ensures SpanOk(p, sp, m')
  {
    Untouched(p, sp, m, m');
  }

  lemma OthersKept(at: Cells, m: Octets, m': Octets, n: nat, p: nat, r: nat)
    requires Laid(at, m, n) && p in at && End(at, p) in at && r in at && r != p && r != End(at, p)
    requires SameOutside(m, m', p, End(at, End(at, p)))
    ensures SpanOk(r, at[r], m')
  {
    var q: nat := End(at, p);
    assert SpanOk(r, at[r], m) && Apart(at, p, r) && Apart(at, q, r);
    Elsewhere(r, at[r], m, m', p, End(at, q));
  }

  // ---------------------------------------------------------------- merging

  /** The cell at p takes over the one at q. */
  ghost function Merge(at: Cells, p: nat, q: nat, c: Cell): Cells
    requires p in at && q in at && p != q
  {
    map r | r in at && r != q :: if r == p then Span(c, at[p].nWords + at[q].nWords, at[p].requested) else at[r]
  }

  lemma MergeTiles(at: Cells, n: nat, p: nat, c: Cell)
    requires Tiles(at, n) && p in at && End(at, p) in at
    requires c == at[p].cell || c == at[End(at, p)].cell
    ensures Tiles(Merge(at, p, End(at, p), c), n)
  {
    var q: nat := End(at, p);
    var at' := Merge(at, p, q, c);
    assert Apart(at, p, q);
    forall r | r in at' ensures Joined(at', n, r) {
      assert Joined(at, n, r) && Joined(at, n, q);
      assert r != p ==> Apart(at, r, p);
    }
    forall r, s | r in at' && s in at' && r != s ensures Apart(at', r, s) {
      assert Apart(at, r, s);
      if r == p { assert Apart(at, q, s); }
      if s == p { assert Apart(at, r, q); }
    }
  }

  lemma MergeRecords(at: Cells, n: nat, p: nat, c: Cell, d: Cell)
    requires Tiles(at, n) && p in at && End(at, p) in at
    requires var q: nat := End(at, p); (c == at[p].cell && d == at[q].cell) || (c == at[q].cell && d == at[p].cell)
    ensures Records(Merge(at, p, End(at, p), c)) == Records(at) - {d}
  {
    var q: nat := End(at, p);
    var at' := Merge(at, p, q, c);
    assert Apart(at, p, q);
    forall x | x in Records(at) - {d} ensures x in Records(at') {
      var r :| r in at && at[r].cell == x;
      assert at'[if r == q then p else r].cell == x;
    }
    forall r | r in at' ensures at'[r].cell in Records(at) - {d} {
      assert at[p].cell in Records(at) && at[q].cell in Records(at) && at[r].cell in Records(at);
      assert r != p ==> Apart(at, r, p) && Apart(at, r, q);
    }
  }

  lemma MergedSpan(p: nat, sp: Span, sq: Span, c: Cell, m: Octets, m': Octets)
    requires SpanOk(p, sp, m) && SpanOk(p + sp.nWords, sq, m) && !sq.Used()
    requires Guarded(m, m', c, p, sp.nWords + sq.nWords)
    ensures SpanOk(p, Span(c, sp.nWords + sq.nWords, sp.requested), m')
  {
    var sp' := Span(c, sp.nWords + sq.nWords, sp.requested);
    forall b | 0 <= b < |m'| && Covers(p, sp', b) && m'[b].Client? ensures Grants(p, sp', b) {
      assert m'[b] == m[b];
      assert Covers(p, sp, b);
    }
  }

  /** A cell takes over its unused right neighbour; the record that survives may be
      either of the two. */
  lemma MergeLaid(at: Cells, m: Octets, m': Octets, n: nat, p: nat, c: Cell)
    requires Laid(at, m, n) && p in at && End(at, p) in at && !at[End(at, p)].Used()
    requires c == at[p].cell || c == at[End(at, p)].cell
    requires Guarded(m, m', c, p, at[p].nWords + at[End(at, p)].nWords)
    ensures Laid(Merge(at, p, End(at, p), c), m', n)
  {
    var q: nat := End(at, p);
    var at' := Merge(at, p, q, c);
    MergeTiles(at, n, p, c);
    assert SpanOk(p, at[p], m) && SpanOk(q, at[q], m);
    MergedSpan(p, at[p], at[q], c, m, m');
    assert SameOutside(m, m', p, q + at[q].nWords);
    forall r | r in at' ensures SpanOk(r, at'[r], m') {
      if r != p {
        OthersKept(at, m, m', n, p, r);
      }
    }
  }

  // ---------------------------------------------------------------- cutting

  /** The first k words of the cell at p go to the record `other`; `at[p].cell` keeps the rest. */
  ghost function Cut(at: Cells, p: nat, k: nat, other: Cell): Cells
    requires p in at && k <= at[p].nWords
  {
    at[p := Span(other, k, 0)][p + k := Span(at[p].cell, at[p].nWords - k, 0)]
  }

  ghost predicate CutGuards(m: Octets, m': Octets, p: nat, sp: Span, k: nat, other: Cell) {
    GuardedTwo(m, m', other, p, k, sp.cell, p + k, sp.nWords - k)
  }

  lemma CutTiles(at: Cells, n: nat, p: nat, k: nat, other: Cell)
    requires Tiles(at, n) && p in at && 0 < k < at[p].nWords
    requires other !in Records(at)
    ensures p + k !in at
    ensures Tiles(Cut(at, p, k, other), n)
  {
    assert p + k in at ==> Apart(at, p, p + k);
    var at' := Cut(at, p, k, other);
    forall r | r in at' ensures Joined(at', n, r) {
      assert Joined(at, n, p);
      assert r != p + k ==> Joined(at, n, r);
    }
    forall r, s | r in at' && s in at' && r != s ensures Apart(at', r, s) {
      assert r != p + k && r != p ==> Apart(at, r, p) && at[r].cell in Records(at);
      assert s != p + k && s != p ==> Apart(at, s, p) && at[s].cell in Records(at);
      assert r != p + k && s != p + k ==> Apart(at, r, s);
    }
  }

  lemma CutRecords(at: Cells, n: nat, p: nat, k: nat, other: Cell)
    requires Tiles(at, n) && p in at && 0 < k < at[p].nWords
    ensures Records(Cut(at, p, k, other)) == Records(at) + {other}
  {
    var at' := Cut(at, p, k, other);
    assert p + k in at ==> Apart(at, p, p + k);
    assert at'[p].cell == other && at'[p + k].cell == at[p].cell;
    forall c | c in Records(at) ensures c in Records(at') {
      var q :| q in at && at[q].cell == c;
      assert at'[if q == p then p + k else q].cell == c;
    }
  }

  lemma CutSpans(p: nat, sp: Span, k: nat, other: Cell, m: Octets, m': Octets)
    requires SpanOk(p, sp, m) && !sp.Used()
    requires 3 <= k <= sp.nWords - 3
    requires CutGuards(m, m', p, sp, k, other)
    ensures SpanOk(p, Span(other, k, 0), m')
    ensures SpanOk(p + k, Span(sp.cell, sp.nWords - k, 0), m')
  {
    forall b | 0 <= b < |m| && Covers(p, sp, b) ensures !m'[b].Client? {
      assert !m[b].Client?;
    }
  }

  lemma CutLaid(at: Cells, m: Octets, m': Octets, n: nat, p: nat, k: nat, other: Cell)
    requires Laid(at, m, n) && p in at && !at[p].Used()
    requires 3 <= k <= at[p].nWords - 3 && other !in Records(at)
    requires CutGuards(m, m', p, at[p], k, other)
    ensures p + k !in at
    ensures Laid(Cut(at, p, k, other), m', n)
  {
    CutTiles(at, n, p, k, other);
    assert SpanOk(p, at[p], m);
    CutSpans(p, at[p], k, other, m, m');
    assert SameOutside(m, m', p, End(at, p));
    var at' := Cut(at, p, k, other);
    forall r | r in at' ensures SpanOk(r, at'[r], m') {
      if r != p && r != p + k {
        assert SpanOk(r, at[r], m) && Apart(at, p, r);
        Elsewhere(r, at[r], m, m', p, End(at, p));
      }
    }
  }

  // ---------------------------------------------------------------- moving a border

  /** The cell at p takes d words from its right neighbour at q. */
  ghost function Steal(at: Cells, p: nat, q: nat, d: nat): Cells
    requires p in at && q in at && p != q && d <= at[q].nWords
  {
    (map r | r in at && r != q :: if r == p then Span(at[p].cell, at[p].nWords + d, at[p].requested)
      else at[r])[q + d := Span(at[q].cell, at[q].nWords - d, at[q].requested)]
  }

  ghost predicate StealGuards(m: Octets, m': Octets, p: nat, sp: Span, sq: Span, d: nat) {
    GuardedTwo(m, m', sp.cell, p, sp.nWords + d, sq.cell, p + sp.nWords + d, sq.nWords - d)
  }

  lemma StealTiles(at: Cells, n: nat, p: nat, d: nat)
    requires Tiles(at, n) && p in at && End(at, p) in at && 0 < d < at[End(at, p)].nWords
    ensures End(at, p) + d !in at
    ensures Tiles(Steal(at, p, End(at, p), d), n)
  {
    var q: nat := End(at, p);
    assert q + d in at ==> Apart(at, q, q + d);
    var at' := Steal(at, p, q, d);
    assert Apart(at, p, q);
    assert Joined(at, n, q);
    forall r | r in at' ensures Joined(at', n, r) {
      assert r != q + d ==> Joined(at, n, r);
      assert r != q + d && r != p ==> Apart(at, r, p);
    }
    StealApart(at, n, p, d);
  }

  lemma StealApart(at: Cells, n: nat, p: nat, d: nat)
    requires Tiles(at, n) && p in at && End(at, p) in at && 0 < d < at[End(at, p)].nWords
    ensures var at' := Steal(at, p, End(at, p), d);
      forall r, s | r in at' && s in at' && r != s :: Apart(at', r, s)
  {
    var q: nat := End(at, p);
    var at' := Steal(at, p, q, d);
    assert Apart(at, p, q);
    forall r, s | r in at' && s in at' && r != s ensures Apart(at', r, s) {
      if r in at && s in at {
        assert Apart(at, r, s) && (r != p ==> Apart(at, r, q)) && (s != p ==> Apart(at, s, q));
      } else {
        var u := if r in at then r else s;
        assert Apart(at, u, q);
      }
    }
  }

  lemma StealRecords(at: Cells, n: nat, p: nat, d: nat)
    requires Tiles(at, n) && p in at && End(at, p) in at && 0 < d < at[End(at, p)].nWords
    ensures Records(Steal(at, p, End(at, p), d)) == Records(at)
  {
    var q: nat := End(at, p);
    var at' := Steal(at, p, q, d);
    assert q + d in at ==> Apart(at, q, q + d);
    forall x | x in Records(at) ensures x in Records(at') {
      var r :| r in at && at[r].cell == x;
      assert at'[if r == q then q + d else r].cell == x;
    }
    forall r | r in at' ensures at'[r].cell in Records(at) {
      assert at[p].cell in Records(at) && at[q].cell in Records(at);
    }
  }

  lemma StealSpans(p: nat, sp: Span, sq: Span, d: nat, m: Octets, m': Octets)
    requires SpanOk(p, sp, m) && SpanOk(p + sp.nWords, sq, m) && !sq.Used() && d <= sq.nWords - 3
    requires StealGuards(m, m', p, sp, sq, d)
    ensures SpanOk(p, Span(sp.cell, sp.nWords + d, sp.requested), m')
    ensures SpanOk(p + sp.nWords + d, Span(sq.cell, sq.nWords - d, 0), m')
  {
    var q: nat := p + sp.nWords;
    forall b | 0 <= b < |m| && Covers(q, sq, b) ensures !m'[b].Client? {
      assert !m[b].Client?;
    }
    forall b | 0 <= b < |m| && Covers(p, sp, b) && m'[b].Client? ensures Grants(p, sp, b) {
      assert m'[b] == m[b];
    }
  }

  lemma StolenSpans(at: Cells, m: Octets, m': Octets, n: nat, p: nat, d: nat)
    requires Laid(at, m, n) && p in at && End(at, p) in at && d <= at[End(at, p)].nWords
    requires SameOutside(m, m', p, End(at, End(at, p)))
    requires var q: nat := End(at, p);
      && SpanOk(p, Span(at[p].cell, at[p].nWords + d, at[p].requested), m')
      && SpanOk(q + d, Span(at[q].cell, at[q].nWords - d, at[q].requested), m')
    ensures var at' := Steal(at, p, End(at, p), d);
      forall r {:trigger SpanOk(r, at'[r], m')} | r in at' :: SpanOk(r, at'[r], m')
  {
    var q: nat := End(at, p);
    var at' := Steal(at, p, q, d);
    forall r | r in at' ensures SpanOk(r, at'[r], m') {
      if r != p && r != q + d {
        OthersKept(at, m, m', n, p, r);
      }
    }
  }

  lemma StealLaid(at: Cells, m: Octets, m': Octets, n: nat, p: nat, d: nat)
    requires Laid(at, m, n) && p in at && End(at, p) in at && !at[End(at, p)].Used()
    requires 0 < d <= at[End(at, p)].nWords - 3
    requires StealGuards(m, m', p, at[p], at[End(at, p)], d)
    ensures End(at, p) + d !in at
    ensures Laid(Steal(at, p, End(at, p), d), m', n)
  {
    StealTiles(at, n, p, d);
    var q: nat := End(at, p);
    assert SpanOk(p, at[p], m) && SpanOk(q, at[q], m);
    StealSpans(p, at[p], at[q], d, m, m');
    assert SameOutside(m, m', p, End(at, q));
    StolenSpans(at, m, m', n, p, d);
  }

  // ---------------------------------------------------------------- the inside of a cell

  ghost predicate Inside(p: nat, sp: Span, b: int) {
    8 * (p + 1) <= b < 8 * (p + sp.nWords - 1)
  }

  /** Between the guards of one cell anything may be written and the request may
      change, as long as client data stays inside the new request. */
  ghost predicate Rewrites(p: nat, sp: Span, r: nat, m: Octets, m': Octets) {
    && |m'| == |m|
    && r <= 8 * (sp.nWords - 2)
    && (forall b | 0 <= b < |m| && !Inside(p, sp, b) :: m'[b] == m[b])
    && (forall b | 0 <= b < |m| && Inside(p, sp, b) && m'[b].Client? :: Grants(p, sp.(requested := r), b))
  }

  lemma RequestTiles(at: Cells, n: nat, p: nat, r: nat)
    requires Tiles(at, n) && p in at
    ensures Tiles(at[p := at[p].(requested := r)], n)
  {
    var at' := at[p := at[p].(requested := r)];
    forall q | q in at' ensures Joined(at', n, q) { assert Joined(at, n, q); }
    forall q, s | q in at' && s in at' && q != s ensures Apart(at', q, s) { assert Apart(at, q, s); }
  }

  lemma RequestRecords(at: Cells, p: nat, r: nat)
    requires p in at
    ensures Records(at[p := at[p].(requested := r)]) == Records(at)
  {
    var at' := at[p := at[p].(requested := r)];
    forall c | c in Records(at) ensures c in Records(at') {
      var q :| q in at && at[q].cell == c;
      assert at'[q].cell == c;
    }
  }

  lemma RewriteLaid(at: Cells, m: Octets, m': Octets, n: nat, p: nat, r: nat)
    requires Laid(at, m, n) && p in at && at[p].nWords >= 2 && Rewrites(p, at[p], r, m, m')
    ensures Laid(at[p := at[p].(requested := r)], m', n)
  {
    var at' := at[p := at[p].(requested := r)];
    RequestTiles(at, n, p, r);
    assert SpanOk(p, at[p], m);
    forall q | q in at' ensures SpanOk(q, at'[q], m') {
      assert SpanOk(q, at[q], m);
      if q != p {
        assert Apart(at, p, q);
        Untouched(q, at[q], m, m');
      } else {
        RewrittenSpan(p, at[p], r, m, m');
      }
    }
  }

  lemma RewrittenSpan(p: nat, sp: Span, r: nat, m: Octets, m': Octets)
    requires SpanOk(p, sp, m) && Rewrites(p, sp, r, m, m')
    ensures SpanOk(p, sp.(requested := r), m')
  {
    forall b | 0 <= b < |m'| && Covers(p, sp, b) && m'[b].Client? ensures Grants(p, sp.(requested := r), b) {
      assert Inside(p, sp, b);
    }
  }

  // ---------------------------------------------------------------- what clients see

  /** The bytes a client holds in the cell at p. */
  ghost function Data(p: nat, sp: Span, m: Octets): (d: Octets)
    requires SpanOk(p, sp, m)
  {
    m[8 * (p + 1)..8 * (p + 1) + sp.requested]
  }

  /** Every live allocation with its bytes, under the word its cell starts at. */
  ghost function Contents(at: Cells, m: Octets, n: nat): map<nat, Octets>
    requires Laid(at, m, n)
  {
    map p | p in at && at[p].Used() :: assert SpanOk(p, at[p], m); Data(p, at[p], m)
  }

  lemma SameData(p: nat, sp: Span, sp': Span, m: Octets, m': Octets)
    requires SpanOk(p, sp, m) && SpanOk(p, sp', m') && sp'.requested == sp.requested && |m| == |m'|
    requires forall b | 0 <= b < |m| :: Grants(p, sp, b) ==> m[b] == m'[b]
    ensures Data(p, sp, m) == Data(p, sp', m')
  {
    forall k | 0 <= k < sp.requested ensures Data(p, sp, m)[k] == Data(p, sp', m')[k] {
      assert Grants(p, sp, 8 * (p + 1) + k);
    }
  }

  /** Two layouts grant the same bytes. */
  ghost predicate SameGrants(at: Cells, at': Cells, m: Octets, m': Octets) {
    && |m| == |m'|
    && (forall p | p in at && at[p].Used() :: p in at' && at'[p].requested == at[p].requested)
    && (forall p | p in at' && at'[p].Used() :: p in at && at[p].Used())
    && (forall p, b | p in at && 0 <= b < |m| && Grants(p, at[p], b) :: m[b] == m'[b])
  }

  lemma SameContents(at: Cells, at': Cells, m: Octets, m': Octets, n: nat)
    requires Laid(at, m, n) && Laid(at', m', n) && SameGrants(at, at', m, m')
    ensures Contents(at, m, n) == Contents(at', m', n)
  {
    forall p | p in at && at[p].Used() ensures Contents(at, m, n)[p] == Contents(at', m', n)[p] {
      assert SpanOk(p, at[p], m) && SpanOk(p, at'[p], m');
      SameData(p, at[p], at'[p], m, m');
    }
  }

  lemma MergeContents(at: Cells, m: Octets, m': Octets, n: nat, p: nat, c: Cell)
    requires Laid(at, m, n) && p in at && End(at, p) in at && !at[End(at, p)].Used()
    requires c == at[p].cell || c == at[End(at, p)].cell
    requires Guarded(m, m', c, p, at[p].nWords + at[End(at, p)].nWords)
    ensures Laid(Merge(at, p, End(at, p), c), m', n)
    ensures Contents(Merge(at, p, End(at, p), c), m', n) == Contents(at, m, n)
  {
    MergeLaid(at, m, m', n, p, c);
    var q: nat := End(at, p);
    assert SpanOk(p, at[p], m) && SpanOk(q, at[q], m);
    GrantsKept(at, m, m', n, p);
    SameContents(at, Merge(at, p, q, c), m, m', n);
  }

  lemma CutContents(at: Cells, m: Octets, m': Octets, n: nat, p: nat, k: nat, other: Cell)
    requires Laid(at, m, n) && p in at && !at[p].Used()
    requires 3 <= k <= at[p].nWords - 3 && other !in Records(at)
    requires CutGuards(m, m', p, at[p], k, other)
    ensures p + k !in at
    ensures Laid(Cut(at, p, k, other), m', n)
    ensures Contents(Cut(at, p, k, other), m', n) == Contents(at, m, n)
  {
    CutLaid(at, m, m', n, p, k, other);
    forall r, b | r in at && 0 <= b < |m| && Grants(r, at[r], b) ensures m[b] == m'[b] {
      assert SpanOk(r, at[r], m);
      assert r != p;
      assert Apart(at, r, p);
    }
    SameContents(at, Cut(at, p, k, other), m, m', n);
  }

  lemma GrantsKept(at: Cells, m: Octets, m': Octets, n: nat, p: nat)
    requires Laid(at, m, n) && p in at && End(at, p) in at && !at[End(at, p)].Used()
    requires SameOutside(m, m', p, End(at, End(at, p)))
    requires forall b | 0 <= b < |m| && Grants(p, at[p], b) :: m[b] == m'[b]
    ensures forall r, b | r in at && 0 <= b < |m| && Grants(r, at[r], b) :: m[b] == m'[b]
  {
    var q: nat := End(at, p);
    forall r, b | r in at && 0 <= b < |m| && Grants(r, at[r], b) ensures m[b] == m'[b] {
      assert SpanOk(r, at[r], m);
      assert r != p && r != q ==> Apart(at, r, p) && Apart(at, r, q);
    }
  }

  /** n1 and n2 are the new sizes of the two cells, v the new start of the right one. */
  lemma StealContents(at: Cells, m: Octets, m': Octets, n: nat, p: nat, q: nat, d: nat, n1: nat, v: nat, n2: nat)
    requires Laid(at, m, n) && p in at && q == End(at, p) && q in at && !at[q].Used()
    requires 0 < d <= at[q].nWords - 3
    requires n1 == at[p].nWords + d && v == q + d && n2 == at[q].nWords - d
    requires GuardedTwo(m, m', at[p].cell, p, n1, at[q].cell, v, n2)
    ensures v !in at
    ensures Laid(Steal(at, p, q, d), m', n)
    ensures Contents(Steal(at, p, q, d), m', n) == Contents(at, m, n)
  {
    StealLaid(at, m, m', n, p, d);
    assert SpanOk(p, at[p], m) && SpanOk(q, at[q], m);
    GrantsKept(at, m, m', n, p);
    SameContents(at, Steal(at, p, q, d), m, m', n);
  }

  lemma RewriteContents(at: Cells, m: Octets, m': Octets, n: nat, p: nat, r: nat)
    requires Laid(at, m, n) && p in at && at[p].nWords >= 2 && Rewrites(p, at[p], r, m, m')
    ensures var at' := at[p := at[p].(requested := r)];
      && Laid(at', m', n) && SpanOk(p, at'[p], m')
      && Contents(at', m', n) == if r == 0 then Contents(at, m, n) - {p}
        else Contents(at, m, n)[p := Data(p, at'[p], m')]
  {
    RewriteLaid(at, m, m', n, p, r);
    var at' := at[p := at[p].(requested := r)];
    assert SpanOk(p, at'[p], m');
    forall q | q in at && q != p && at[q].Used() ensures Contents(at, m, n)[q] == Contents(at', m', n)[q] {
      assert SpanOk(q, at[q], m) && SpanOk(q, at'[q], m') && Apart(at, p, q);
      SameData(q, at[q], at'[q], m, m');
    }
  }

  /** An unused cell is requested as it is. */
  lemma RequestContents(at: Cells, m: Octets, n: nat, p: nat, r: nat)
    requires Laid(at, m, n) && p in at && !at[p].Used() && 0 < r <= 8 * (at[p].nWords - 2)
    ensures var at' := at[p := at[p].(requested := r)];
      && Laid(at', m, n) && p in Contents(at', m, n) && |Contents(at', m, n)[p]| == r
      && Contents(at', m, n) == Contents(at, m, n)[p := Contents(at', m, n)[p]]
  {
    assert SpanOk(p, at[p], m);
    RewriteContents(at, m, m, n, p, r);
  }

  /** A request whose bytes were cleared is given up. */
  lemma ReleaseContents(at: Cells, m: Octets, n: nat, p: nat)
    requires Laid(at, m, n) && p in at && at[p].Used()
    requires Contents(at, m, n)[p] == seq(at[p].requested, _ => Zero)
    ensures var at' := at[p := at[p].(requested := 0)];
      Laid(at', m, n) && Contents(at', m, n) == Contents(at, m, n) - {p}
  {
    assert SpanOk(p, at[p], m);
    forall b | 0 <= b < |m| && Inside(p, at[p], b) ensures !m[b].Client? {
      if Grants(p, at[p], b) {
        assert Contents(at, m, n)[p][b - 8 * (p + 1)] == m[b];
      } else {
        assert Covers(p, at[p], b);
      }
    }
    RewriteContents(at, m, m, n, p, 0);
  }

  /** What a request gives up is cleared. */
  ghost predicate Shrunk(p: nat, sp: Span, m: Octets, m': Octets, r: nat) {
    if r < sp.requested then Cleared(m, m', 8 * (p + 1) + r, 8 * (p + 1) + sp.requested) else m' == m
  }

  lemma ShrunkRewrites(p: nat, sp: Span, m: Octets, m': Octets, r: nat)
    requires SpanOk(p, sp, m) && 0 < r <= 8 * (sp.nWords - 2) && Shrunk(p, sp, m, m', r)
    ensures Rewrites(p, sp, r, m, m')
  {
    forall b | 0 <= b < |m| && Inside(p, sp, b) && m'[b].Client? ensures Grants(p, sp.(requested := r), b) {
      assert m'[b] == m[b] && Covers(p, sp, b);
    }
  }

  lemma ShrunkData(p: nat, sp: Span, m: Octets, m': Octets, r: nat)
    requires SpanOk(p, sp, m) && 0 < r <= 8 * (sp.nWords - 2) && Shrunk(p, sp, m, m', r)
    requires SpanOk(p, sp.(requested := r), m')
    ensures Resized(Data(p, sp, m), Data(p, sp.(requested := r), m'), r)
  {
    var d, d' := Data(p, sp, m), Data(p, sp.(requested := r), m');
    forall k | 0 <= k < r ensures if k < |d| then d'[k] == d[k] else !d'[k].Client? {
      var b := 8 * (p + 1) + k;
      assert d'[k] == m'[b] == m[b];
      assert Covers(p, sp, b);
    }
  }

  /** A request grows or shrinks inside its cell. */
  lemma ResizeContents(at: Cells, m: Octets, m': Octets, n: nat, p: nat, r: nat)
    requires Laid(at, m, n) && p in at && at[p].Used() && 0 < r <= 8 * (at[p].nWords - 2)
    requires Shrunk(p, at[p], m, m', r)
    ensures var at' := at[p := at[p].(requested := r)];
      && Laid(at', m', n) && p in Contents(at', m', n)
      && Resized(Contents(at, m, n)[p], Contents(at', m', n)[p], r)
      && Contents(at', m', n) == Contents(at, m, n)[p := Contents(at', m', n)[p]]
  {
    assert SpanOk(p, at[p], m);
    ShrunkRewrites(p, at[p], m, m', r);
    RewriteContents(at, m, m', n, p, r);
    ShrunkData(p, at[p], m, m', r);
  }

  /** d' is d cut or lengthened to r bytes, where no new byte is client data. */
  ghost predicate Resized(d: Octets, d': Octets, r: nat) {
    && |d'| == r
    && forall k | 0 <= k < r :: if k < |d| then d'[k] == d[k] else !d'[k].Client?
  }

  /** A client stores bytes into what it holds. */
  ghost predicate Stored(m: Octets, m': Octets, start: nat, src: Octets) {
    && |m'| == |m| && start + |src| <= |m|
    && (forall b | 0 <= b < |m| && start <= b < start + |src| :: m'[b] == src[b - start])
    && (forall b | 0 <= b < |m| && !(start <= b < start + |src|) :: m'[b] == m[b])
  }

  ghost function Spliced(d: Octets, off: nat, src: Octets): Octets
    requires off + |src| <= |d|
  {
    d[..off] + src + d[off + |src|..]
  }

  lemma StoreContents(at: Cells, m: Octets, m': Octets, n: nat, p: nat, off: nat, src: Octets)
    requires Laid(at, m, n) && p in at && at[p].Used() && off + |src| <= at[p].requested
    requires Stored(m, m', 8 * (p + 1) + off, src)
    ensures Laid(at, m', n) && p in Contents(at, m, n) && |Contents(at, m, n)[p]| == at[p].requested
    ensures var d := Contents(at, m, n)[p];
      Contents(at, m', n) == Contents(at, m, n)[p := Spliced(d, off, src)]
  {
    var sp := at[p];
    assert SpanOk(p, sp, m);
    assert at == at[p := sp.(requested := sp.requested)];
    forall b | 0 <= b < |m| && Inside(p, sp, b) && m'[b].Client? ensures Grants(p, sp, b) {
      assert Covers(p, sp, b);
    }
    RewriteContents(at, m, m', n, p, sp.requested);
    var d := Data(p, sp, m);
    assert Data(p, sp, m') == Spliced(d, off, src);
  }

  // ---------------------------------------------------------------- neighbours

  /** Walking from the start of the block finds the cell that covers a word. */
  lemma CellAt(at: Cells, n: nat, w: nat) returns (p: nat)
    requires Tiles(at, n) && w < n
    ensures p in at && p <= w < End(at, p)
  {
    p := 0;
    while End(at, p) <= w
      invariant p in at && p <= w
      decreases n - p
    {
      assert Joined(at, n, p);
      p := End(at, p);
    }
  }

  /** The cell that covers the word before a cell ends exactly where that cell starts. */
  lemma LeftNeighbour(at: Cells, n: nat, p: nat) returns (q: nat)
    requires Tiles(at, n) && p in at && p > 0
    ensures q in at && q < p && End(at, q) == p
  {
    q := CellAt(at, n, p - 1);
    assert Apart(at, p, q);
  }

  /** No cell starts inside another one. */
  lemma NextStart(at: Cells, n: nat, p: nat)
    requires Tiles(at, n) && p in at
    ensures (set q | q in at && q < End(at, p)) == (set q | q in at && q < p) + {p}
    ensures End(at, p) == n || (End(at, p) in at && End(at, p) < n)
    ensures End(at, p) == n ==> (set q | q in at && q < n) == at.Keys
  {
    assert Joined(at, n, p);
    forall q | q in at && q < End(at, p) && q != p ensures q < p {
      assert Apart(at, p, q);
    }
  }

  // ---------------------------------------------------------------- full coalescing

  lemma TakeCoalesced(at: Cells, p: nat, r: nat)
    requires Coalesced(at) && p in at && r > 0
    ensures Coalesced(at[p := at[p].(requested := r)])
  {
    var at' := at[p := at[p].(requested := r)];
    forall q | q in at' ensures Settled(at', q) {
      assert Settled(at, q);
    }
  }

  lemma CutTakeCoalesced(at: Cells, n: nat, p: nat, k: nat, other: Cell, r: nat)
    requires Tiles(at, n) && Coalesced(at) && p in at && !at[p].Used() && 0 < k < at[p].nWords && r > 0
    ensures Coalesced(Cut(at, p, k, other)[p := Span(other, k, r)])
  {
    var at' := Cut(at, p, k, other)[p := Span(other, k, r)];
    assert p + k in at ==> Apart(at, p, p + k);
    forall q | q in at' ensures Settled(at', q) {
      assert Settled(at, p);
      assert q != p + k ==> Settled(at, q);
      assert q != p + k && q != p ==> Apart(at, p, q);
    }
  }

  lemma StealCoalesced(at: Cells, n: nat, p: nat, d: nat)
    requires Tiles(at, n) && Coalesced(at) && p in at && End(at, p) in at && at[p].Used()
    requires 0 < d < at[End(at, p)].nWords
    ensures Coalesced(Steal(at, p, End(at, p), d))
  {
    var q: nat := End(at, p);
    var at' := Steal(at, p, q, d);
    assert q + d in at ==> Apart(at, q, q + d);
    forall r | r in at' ensures Settled(at', r) {
      assert Settled(at, q);
      assert r != q + d ==> Settled(at, r) && (r != p ==> Apart(at, r, p) && Apart(at, r, q));
    }
  }

  lemma EatCoalesced(at: Cells, n: nat, p: nat)
    requires Tiles(at, n) && Coalesced(at) && p in at && End(at, p) in at && at[p].Used()
    ensures Coalesced(Merge(at, p, End(at, p), at[p].cell))
  {
    var q: nat := End(at, p);
    var at' := Merge(at, p, q, at[p].cell);
    forall r | r in at' ensures Settled(at', r) {
      assert Settled(at, r) && (r != p ==> Apart(at, r, p) && Apart(at, r, q));
    }
  }

  /** Only the unused cell at q and its right neighbour may still have to be merged. */
  ghost predicate OpenAt(at: Cells, q: nat) {
    && q in at && !at[q].Used()
    && forall r {:trigger Settled(at, r)} | r in at && r != q :: Settled(at, r)
  }

  lemma ReleaseOpens(at: Cells, p: nat)
    requires Coalesced(at) && p in at
    requires forall b | b in at && End(at, b) == p :: at[b].Used()
    ensures OpenAt(at[p := at[p].(requested := 0)], p)
  {
    var at' := at[p := at[p].(requested := 0)];
    forall r | r in at' && r != p ensures Settled(at', r) { assert Settled(at, r); }
  }

  lemma MergeLeftOpens(at: Cells, n: nat, b: nat, c: Cell)
    requires Tiles(at, n) && Coalesced(at) && b in at && End(at, b) in at && !at[b].Used()
    ensures var p: nat := End(at, b); OpenAt(Merge(at[p := at[p].(requested := 0)], b, p, c), b)
  {
    var p: nat := End(at, b);
    var at' := Merge(at[p := at[p].(requested := 0)], b, p, c);
    forall r | r in at' && r != b ensures Settled(at', r) {
      assert Settled(at, r) && Apart(at, r, b) && Apart(at, r, p);
    }
  }

  lemma MergeRightCloses(at: Cells, n: nat, q: nat, c: Cell)
    requires Tiles(at, n) && OpenAt(at, q) && End(at, q) in at && !at[End(at, q)].Used()
    ensures Coalesced(Merge(at, q, End(at, q), c))
  {
    var e: nat := End(at, q);
    var at' := Merge(at, q, e, c);
    forall r | r in at' ensures Settled(at', r) {
      assert Settled(at, e) && (r != q ==> Settled(at, r) && Apart(at, r, q) && Apart(at, r, e));
    }
  }

  lemma NothingRightCloses(at: Cells, q: nat)
    requires OpenAt(at, q) && (End(at, q) in at ==> at[End(at, q)].Used())
    ensures Coalesced(at)
  {
    forall r | r in at ensures Settled(at, r) { }
  }

  /** No unused cell follows the one at p. */
  ghost predicate Closed(at: Cells, p: nat) {
    p in at && (End(at, p) in at ==> at[End(at, p)].Used())
  }

  /** The words that the cell at p can have where it is: its own and those of an unused cell right behind it. */
  ghost function Reach(at: Cells, p: nat): nat
    requires p in at
  {
    var q: nat := End(at, p);
    at[p].nWords + (if q in at && !at[q].Used() then at[q].nWords else 0)
  }

  /** Moving the border between the two leaves that as it was. */
  lemma StealReach(at: Cells, n: nat, p: nat, d: nat)
    requires Tiles(at, n) && p in at && End(at, p) in at && !at[End(at, p)].Used() && 0 < d < at[End(at, p)].nWords
    ensures Reach(Steal(at, p, End(at, p), d), p) == Reach(at, p)
  {
    assert Apart(at, p, End(at, p));
  }

  /** The unused cell at p has n words or more. */
  ghost predicate Hosts(at: Cells, p: nat, n: nat) {
    p in at && !at[p].Used() && at[p].nWords >= n
  }

  /** Some cell has room for a request of n words. */
  ghost predicate Room(at: Cells, n: nat) {
    exists p :: Hosts(at, p, n)
  }

  /** Eating a neighbour of fewer than n words takes no room from a request of n words. */
  lemma EatHosts(at: Cells, words: nat, p: nat, n: nat)
    requires Tiles(at, words) && Coalesced(at) && p in at && at[p].Used()
    requires End(at, p) in at && !at[End(at, p)].Used()
    ensures var at' := Merge(at, p, End(at, p), at[p].cell);
      && at'[p] == Span(at[p].cell, Reach(at, p), at[p].requested) && Reach(at', p) == Reach(at, p)
      && (Reach(at, p) < n ==> (Room(at', n) <==> Room(at, n)))
  {
    EatenOnce(at, words, p);
    var at' := Merge(at, p, End(at, p), at[p].cell);
    if Reach(at, p) < n {
      assert forall r :: Hosts(at', r, n) <==> Hosts(at, r, n);
    }
  }

  /** The words of the used cell at p when n of them are wanted: a cell that is large enough stays as it is, one that
    * is not takes the words it lacks from an unused cell behind it, or all of that when it would keep no more than
    * four. */
  ghost function Grown(at: Cells, p: nat, n: nat): nat
    requires p in at
  {
    if n <= at[p].nWords then at[p].nWords else if Reach(at, p) <= n + 4 then Reach(at, p) else n
  }

  /** A request of n words is refused if no cell has room for it, or if the one at p that was found would have to be
    * parted and there is no record. */
  ghost predicate Refused(at: Cells, p: nat, n: nat, poolHas: bool) {
    Room(at, n) ==> !poolHas && p in at && at[p].nWords > n + 4
  }

  /** A request of n words was given the unused cell at p: all of it or, if more than four words were left, its
    * first n words, and the others are one unused cell. No other cell changed. */
  ghost predicate Placed(at: Cells, at': Cells, p: nat, n: nat, length: nat) {
    && Hosts(at, p, n) && p in at'
    && at'[p].requested == length
    && n <= at'[p].nWords <= n + 4
    && (at[p].nWords <= n + 4 ==> at'[p].nWords == at[p].nWords && at'.Keys == at.Keys)
    && (at[p].nWords > n + 4 ==> at'[p].nWords == n && at'.Keys == at.Keys + {p + n})
    && (at[p].nWords > n + 4 ==> at'[p + n].nWords == at[p].nWords - n && !at'[p + n].Used())
    && forall q | q in at && q != p :: q in at' && at'[q] == at[q]
  }

  /** What the first request leaves of a block. */
  lemma FirstPlaced(at: Cells, at': Cells, words: nat, p: nat, n: nat, length: nat)
    requires at.Keys == {0} && at[0].nWords == words && Placed(at, at', p, n, length) && length > 0
    ensures p == 0
    ensures forall r: nat, k: nat :: Hosts(at', r, k) <==> r == n && words > n + 4 && k <= words - n
  {
  }

  /** The words set apart for a request. */
  ghost predicate Parted(at: Cells, at': Cells, p: nat, n: nat, other: Cell) {
    && Hosts(at, p, n)
    && at' == if at[p].nWords <= n + 4 then at else Cut(at, p, n, other)
  }

  lemma PartedPlaced(at: Cells, at': Cells, words: nat, p: nat, n: nat, other: Cell, length: nat)
    requires Tiles(at, words) && Parted(at, at', p, n, other) && n > 0
    ensures Hosts(at', p, n) && Placed(at, at'[p := at'[p].(requested := length)], p, n, length)
  {
    assert p + n in at && at[p].nWords > n ==> Apart(at, p, p + n);
  }

  /** The cell at p stays where it is and grows to have n words; words behind it that it does not take stay unused. */
  ghost predicate Stays(at: Cells, at': Cells, p: nat, n: nat) {
    && p in at && p in at'
    && at'[p].nWords == Grown(at, p, n)
    && Reach(at', p) == Reach(at, p)
  }

  lemma RequestStays(at: Cells, words: nat, p: nat, r: nat, n: nat)
    requires Tiles(at, words) && p in at && n <= at[p].nWords
    ensures Stays(at, at[p := at[p].(requested := r)], p, n)
  {
  }

  /** Behind an eaten neighbour there is never another one to eat. */
  lemma EatenOnce(at: Cells, n: nat, p: nat)
    requires Tiles(at, n) && Coalesced(at) && p in at && End(at, p) in at && !at[End(at, p)].Used()
    ensures Closed(Merge(at, p, End(at, p), at[p].cell), p)
  {
    assert Settled(at, End(at, p));
  }

  // ---------------------------------------------------------------- consequences

  /** Client data is only ever found inside the requested range of a live allocation. */
  lemma {:induction false} Scrubbed(at: Cells, m: Octets, n: nat, b: nat) returns (p: nat)
    requires Laid(at, m, n) && b < |m| && m[b].Client?
    ensures p in Contents(at, m, n) && 8 * (p + 1) <= b < 8 * (p + 1) + |Contents(at, m, n)[p]|
  {
    p := CellAt(at, n, b / 8);
    assert SpanOk(p, at[p], m);
    assert Covers(p, at[p], b);
  }

  /** A block with no live allocation is one unused cell that spans it. */
  lemma EmptyBlockIsOneCell(at: Cells, m: Octets, n: nat)
    requires Laid(at, m, n) && Coalesced(at) && Contents(at, m, n) == map[]
    ensures at.Keys == {0} && at[0].nWords == n && !at[0].Used()
  {
    assert forall p | p in at :: at[p].Used() ==> p in Contents(at, m, n);
    assert Settled(at, 0) && Joined(at, n, 0);
    forall p | p in at ensures p == 0 {
      assert p != 0 ==> Apart(at, 0, p);
    }
  }

  /** Live allocations never share a byte. */
  lemma AllocationsDisjoint(at: Cells, m: Octets, n: nat, p: nat, q: nat)
    requires Laid(at, m, n) && p in Contents(at, m, n) && q in Contents(at, m, n) && p < q
    ensures 8 * (p + 1) + |Contents(at, m, n)[p]| + 16 <= 8 * (q + 1)
  {
    assert Apart(at, p, q) && SpanOk(p, at[p], m) && SpanOk(q, at[q], m);
  }

  /** A block fresh from the system: one unused cell over zeroed words. */
  lemma NewBlockLaid(m: Octets, m': Octets, n: nat, c: Cell)
    requires |m| == 8 * n && n >= 3 && Guarded(m, m', c, 0, n)
    requires forall b | 0 <= b < |m| :: m[b] == Zero
    ensures var at := map[0 := Span(c, n, 0)];
      Laid(at, m', n) && Coalesced(at) && Records(at) == {c} && Contents(at, m', n) == map[]
  {
    var at: Cells := map[0 := Span(c, n, 0)];
    assert End(at, 0) == n;
    assert at[0].cell in Records(at);
    assert SpanOk(0, at[0], m');
  }

  // ---------------------------------------------------------------- sizes add up

  /** The words of the listed cells that start before w. */
  ghost function WordsBelow(at: Cells, ks: seq<nat>, w: nat): nat
    requires forall k | k in ks :: k in at
  {
    if ks == [] then 0
    else (if ks[0] < w then at[ks[0]].nWords else 0) + WordsBelow(at, ks[1..], w)
  }

  lemma {:induction false} WordsBelowStep(at: Cells, n: nat, ks: seq<nat>, p: nat)
    requires Tiles(at, n) && p in at && forall k | k in ks :: k in at
    requires forall i, j | 0 <= i < j < |ks| :: ks[i] != ks[j]
    ensures WordsBelow(at, ks, End(at, p)) == WordsBelow(at, ks, p) + (if p in ks then at[p].nWords else 0)
  {
    if ks != [] {
      WordsBelowStep(at, n, ks[1..], p);
      assert ks == [ks[0]] + ks[1..];
      assert ks[0] != p ==> Apart(at, ks[0], p);
    }
  }

  lemma {:induction false} WordsBelowZero(at: Cells, ks: seq<nat>)
    requires forall k | k in ks :: k in at
    ensures WordsBelow(at, ks, 0) == 0
  {
    if ks != [] { WordsBelowZero(at, ks[1..]); }
  }

  lemma {:induction false} WordsBelowAppend(at: Cells, ks: seq<nat>, ls: seq<nat>, w: nat)
    requires forall k | k in ks :: k in at
    requires forall k | k in ls :: k in at
    ensures WordsBelow(at, ks + ls, w) == WordsBelow(at, ks, w) + WordsBelow(at, ls, w)
  {
    if ks == [] {
      assert ks + ls == ls;
    } else {
      assert (ks + ls)[1..] == ks[1..] + ls;
      WordsBelowAppend(at, ks[1..], ls, w);
    }
  }

  /** However the cells are listed, their sizes add up to the size of the block. */
  lemma {:induction false} WordsAddUp(at: Cells, n: nat, ks: seq<nat>)
    requires Tiles(at, n) && forall k :: k in ks <==> k in at
    requires forall i, j | 0 <= i < j < |ks| :: ks[i] != ks[j]
    ensures WordsBelow(at, ks, n) == n
  {
    var p := 0;
    WordsBelowZero(at, ks);
    while p < n
      invariant p <= n && (p < n ==> p in at)
      invariant WordsBelow(at, ks, p) == p
    {
      WordsBelowStep(at, n, ks, p);
      assert Joined(at, n, p);
      p := End(at, p);
    }
  }
}
