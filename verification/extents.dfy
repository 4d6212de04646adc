/** The extent walker of the image loader: the on-disk chain of extent-table
    pages and the cursor that turns it into a stream of swap offsets
    (s2diskus/load.c:92-161 and 231-255). */
module Extents {
  import opened Types
  import opened LittleEndian
  import opened SwapDevice
  import opened Arith

  /** A run of swap offsets `[start, end)` holding consecutive image pages. */
  datatype Extent = Extent(start: int, end: int) {

    /** The walker enters an extent only when `start < end`. */
    predicate Live() {
      start < end
    }
  }

  /** `sizeof(struct extent)`: two 64-bit `loff_t` fields. */
  const ExtentBytes: nat := 16

  /** The all-zero slot that ends a table. */
  const Terminator: Extent := Extent(0, 0)

  /** A page size the extent table can use: a whole number of extents and
      at least one data slot besides the link slot. */
  predicate ValidPageSize(pageSize: nat) {
    pageSize >= 2 * ExtentBytes && pageSize % ExtentBytes == 0
  }

  /** `n = page_size / sizeof(struct extent) - 1`, the slot whose `start`
      holds the offset of the next table page. */
  function LinkSlot(pageSize: nat): (n: nat)
    requires ValidPageSize(pageSize)
    ensures 1 <= n && ExtentBytes * (n + 1) == pageSize
  {
    pageSize / ExtentBytes - 1
  }

  // ---------------------------------------------------------------------
  // On-disk layout of a table page
  // ---------------------------------------------------------------------

  /** One 16-byte slot: `start` then `end`, each a little-endian `loff_t`. */
  function DecodeSlot(b: seq<byte>): Extent
    requires |b| == ExtentBytes
  {
    Extent(DecodeInt64(b[..8]), DecodeInt64(b[8..]))
  }

  /** Slot `i` of a raw table page. */
  function DecodeExtent(page: seq<byte>, i: nat): Extent
    requires ExtentBytes * (i + 1) <= |page|
  {
    DecodeSlot(page[ExtentBytes * i..ExtentBytes * (i + 1)])
  }

  /** A table page viewed as an array of extents. */
  function DecodeTable(page: seq<byte>): (t: seq<Extent>)
    ensures |t| == |page| / ExtentBytes
    ensures forall i :: 0 <= i < |t| ==> t[i] == DecodeExtent(page, i)
  {
    seq(|page| / ExtentBytes, i requires 0 <= i < |page| / ExtentBytes => DecodeExtent(page, i))
  }

  predicate Storable(e: Extent) {
    IsInt64(e.start) && IsInt64(e.end)
  }

  function EncodeExtent(e: Extent): (b: seq<byte>)
    requires Storable(e)
    ensures |b| == ExtentBytes
  {
    EncodeInt64(e.start) + EncodeInt64(e.end)
  }

  /** The bytes of a table page holding the extents `t`. */
  function EncodeTable(t: seq<Extent>): (b: seq<byte>)
    requires forall i :: 0 <= i < |t| ==> Storable(t[i])
    ensures |b| == ExtentBytes * |t|
  {
    if |t| == 0 then [] else EncodeExtent(t[0]) + EncodeTable(t[1..])
  }

  lemma {:induction false} EncodeTableSlot(t: seq<Extent>, i: nat)
    requires forall j :: 0 <= j < |t| ==> Storable(t[j])
    requires i < |t|
    ensures EncodeTable(t)[ExtentBytes * i..ExtentBytes * (i + 1)] == EncodeExtent(t[i])
  {
    if i > 0 {
      EncodeTableSlot(t[1..], i - 1);
      assert EncodeTable(t) == EncodeExtent(t[0]) + EncodeTable(t[1..]);
    }
  }

  lemma SlotRoundTrip(e: Extent)
    requires Storable(e)
    ensures DecodeSlot(EncodeExtent(e)) == e
  {
    var b := EncodeExtent(e);
    assert b[..8] == EncodeInt64(e.start);
    assert b[8..] == EncodeInt64(e.end);
    Int64RoundTrip(e.start);
    Int64RoundTrip(e.end);
  }

  /** Decoding a table page recovers the extents it was written from. */
  lemma TableRoundTrip(t: seq<Extent>)
    requires forall i :: 0 <= i < |t| ==> Storable(t[i])
    ensures DecodeTable(EncodeTable(t)) == t
  {
    var page := EncodeTable(t);
    MulDiv(|t|, ExtentBytes);
    assert |page| / ExtentBytes == |t|;
    var d := DecodeTable(page);
    forall i | 0 <= i < |t|
      ensures d[i] == t[i]
    {
      MulMono(i + 1, |t|, ExtentBytes);
      EncodeTableSlot(t, i);
      SlotRoundTrip(t[i]);
    }
  }

  // ---------------------------------------------------------------------
  // The cursor of `struct swap_reader`
  // ---------------------------------------------------------------------

  /** The walker part of `struct swap_reader`: the table in memory, the
      index of `cur_extent` in it, `cur_offset` and `next_extents`. */
  datatype Cursor = Cursor(table: seq<Extent>, cur: nat, offset: int, next: int)

  /** What every cursor satisfies between calls: the table has `n + 1`
      slots, slot `n` is zeroed, and `cur_extent` points at slot `n` or
      beyond only after a failed reload, which also cleared `cur_offset`. */
  predicate CursorInv(pageSize: nat, c: Cursor) {
    && ValidPageSize(pageSize)
    && |c.table| == LinkSlot(pageSize) + 1
    && c.table[LinkSlot(pageSize)] == Terminator
    && c.cur <= LinkSlot(pageSize)
    && (c.cur < LinkSlot(pageSize) || c.offset == 0)
  }

  /** The in-memory table after a table page `t` has been taken in: the
      link slot moved into `next_extents` and zeroed, the cursor at the
      first extent. */
  function Relink(pageSize: nat, t: seq<Extent>): (c: Cursor)
    requires ValidPageSize(pageSize) && |t| == LinkSlot(pageSize) + 1
    ensures CursorInv(pageSize, c)
    ensures c.next == t[LinkSlot(pageSize)].start
    ensures c.cur == 0 && c.offset == t[0].start
    ensures forall i :: 0 <= i < LinkSlot(pageSize) ==> c.table[i] == t[i]
    ensures t[LinkSlot(pageSize)] == Terminator ==> c.table == t
  {
    var n := LinkSlot(pageSize);
    var t' := t[n := Terminator];
    assert t[n] == Terminator ==> t' == t;
    Cursor(t', 0, t'[0].start, t[n].start)
  }

  /** `load_extents_page` (s2diskus/load.c:144-161).  A failed read leaves
      the cursor untouched.  Because `read_page` skips offset 0, reaching
      the end of the chain is not an error: the stale table in memory is
      taken in again and the cursor restarts at its first extent. */
  function LoadExtentsPage(swap: Swap, pageSize: nat, c: Cursor): (res: (Status, Cursor))
    requires ValidPageSize(pageSize) && |c.table| == LinkSlot(pageSize) + 1
    ensures res.0 == Ok || res.0 == Eio
    ensures res.0 == Eio <==> c.next != 0 && (c.next !in swap || |swap[c.next]| < pageSize)
    ensures res.0 == Eio ==> res.1 == c
    ensures res.0 == Ok ==> CursorInv(pageSize, res.1) && res.1.cur == 0 && res.1.offset == res.1.table[0].start
    ensures res.0 == Ok && c.next != 0 ==>
              var page := swap[c.next][..pageSize];
              && res.1.next == DecodeExtent(page, LinkSlot(pageSize)).start
              && forall i :: 0 <= i < LinkSlot(pageSize) ==> res.1.table[i] == DecodeExtent(page, i)
    ensures c.next == 0 && c.table[LinkSlot(pageSize)] == Terminator ==>
              res == (Ok, Cursor(c.table, 0, c.table[0].start, 0))
  {
    match ReadPage(swap, pageSize, c.next)
    case IoError => (Eio, c)
    case Skipped => (Ok, Relink(pageSize, c.table))
    case Loaded(page) => (Ok, Relink(pageSize, DecodeTable(page)))
  }

  /** `find_next_image_page` (s2diskus/load.c:234-255): one page further in
      the current extent, else the next slot if it is live, else the next
      table page; only a failed reload clears `cur_offset`. */
  function FindNextImagePage(swap: Swap, pageSize: nat, c: Cursor): (c': Cursor)
    requires CursorInv(pageSize, c) && c.cur < LinkSlot(pageSize)
    ensures CursorInv(pageSize, c')
    ensures c.offset + pageSize < c.table[c.cur].end ==> c' == c.(offset := c.offset + pageSize)
    ensures c.offset + pageSize >= c.table[c.cur].end && c.table[c.cur + 1].Live() ==>
              c' == c.(cur := c.cur + 1, offset := c.table[c.cur + 1].start)
    ensures c.offset + pageSize >= c.table[c.cur].end && !c.table[c.cur + 1].Live() ==>
              if c.next != 0 && (c.next !in swap || |swap[c.next]| < pageSize)
              then c' == c.(cur := c.cur + 1, offset := 0)
              else c'.cur == 0 && c'.offset == c'.table[0].start
  {
    var o := c.offset + pageSize;
    if o < c.table[c.cur].end then
      c.(offset := o)
    else if c.table[c.cur + 1].Live() then
      c.(cur := c.cur + 1, offset := c.table[c.cur + 1].start)
    else
      var (err, c2) := LoadExtentsPage(swap, pageSize, c.(cur := c.cur + 1, offset := o));
      if err != Ok then c2.(offset := 0) else c2
  }

  // ---------------------------------------------------------------------
  // Reference enumeration of the pages a chain describes
  // ---------------------------------------------------------------------

  /** The page offsets `o, o + pageSize, ...` below `end`. */
  function ExtentPages(o: int, end: int, pageSize: nat): (ps: seq<int>)
    requires pageSize > 0
    ensures o < end ==> |ps| > 0 && ps[0] == o
    decreases end - o
  {
    if o < end then [o] + ExtentPages(o + pageSize, end, pageSize) else []
  }

  /** The pages of the live slots `i, i + 1, ...` of a table, up to the
      first slot that is not live. */
  function SlotPages(t: seq<Extent>, i: nat, pageSize: nat): seq<int>
    requires pageSize > 0
    decreases |t| - i
  {
    if i < |t| && t[i].Live() then
      ExtentPages(t[i].start, t[i].end, pageSize) + SlotPages(t, i + 1, pageSize)
    else []
  }

  /** The pages of a chain of tables, in table order. */
  function ChainPages(tables: seq<seq<Extent>>, pageSize: nat): seq<int>
    requires pageSize > 0
  {
    if tables == [] then [] else SlotPages(tables[0], 0, pageSize) + ChainPages(tables[1..], pageSize)
  }

  /** A table as it sits in memory after `load_extents_page`: link slot
      zeroed, first extent live, every live extent above offset 0. */
  predicate TableOk(pageSize: nat, t: seq<Extent>)
    requires ValidPageSize(pageSize)
  {
    && |t| == LinkSlot(pageSize) + 1
    && t[LinkSlot(pageSize)] == Terminator
    && t[0].Live()
    && forall i :: 0 <= i < |t| && t[i].Live() ==> t[i].start > 0
  }

  /** `tables` (each with its link slot zeroed) is the chain stored on
      `swap` from the table page at `link` onwards, ending with a zero link. */
  predicate IsChain(swap: Swap, pageSize: nat, link: int, tables: seq<seq<Extent>>)
    requires ValidPageSize(pageSize)
    decreases |tables|
  {
    if tables == [] then link == 0
    else
      && link != 0 && link in swap && |swap[link]| >= pageSize
      && var raw := DecodeTable(swap[link][..pageSize]);
      && tables[0] == raw[LinkSlot(pageSize) := Terminator]
      && TableOk(pageSize, tables[0])
      && IsChain(swap, pageSize, raw[LinkSlot(pageSize)].start, tables[1..])
  }

  /** A cursor inside a live extent of a well-formed chain, with `rest`
      the tables still to come. */
  predicate Walking(swap: Swap, pageSize: nat, c: Cursor, rest: seq<seq<Extent>>) {
    && CursorInv(pageSize, c)
    && c.cur < LinkSlot(pageSize)
    && 0 < c.offset < c.table[c.cur].end
    && (forall i :: 0 <= i < |c.table| && c.table[i].Live() ==> c.table[i].start > 0)
    && IsChain(swap, pageSize, c.next, rest)
  }

  /** The offsets a walking cursor has yet to yield, the current one first. */
  function Ahead(pageSize: nat, c: Cursor, rest: seq<seq<Extent>>): seq<int>
    requires CursorInv(pageSize, c) && c.cur < LinkSlot(pageSize)
  {
    ExtentPages(c.offset, c.table[c.cur].end, pageSize)
      + SlotPages(c.table, c.cur + 1, pageSize)
      + ChainPages(rest, pageSize)
  }

  /** The offsets a cursor yields in `k` steps, stopping early at offset 0
      (where the page reader refuses to go on). */
  function Visit(swap: Swap, pageSize: nat, c: Cursor, k: nat): (vs: seq<int>)
    requires CursorInv(pageSize, c)
    ensures |vs| <= k
    decreases k
  {
    if k == 0 || c.offset == 0 then []
    else [c.offset] + Visit(swap, pageSize, FindNextImagePage(swap, pageSize, c), k - 1)
  }

  lemma ExtentPagesPositive(o: int, end: int, pageSize: nat)
    requires pageSize > 0 && o > 0
    ensures forall i :: 0 <= i < |ExtentPages(o, end, pageSize)| ==> ExtentPages(o, end, pageSize)[i] >= o
    decreases end - o
  {
    if o < end {
      ExtentPagesPositive(o + pageSize, end, pageSize);
    }
  }

  lemma StepWithinExtent(swap: Swap, pageSize: nat, c: Cursor, rest: seq<seq<Extent>>)
    requires Walking(swap, pageSize, c, rest)
    requires c.offset + pageSize < c.table[c.cur].end
    ensures Walking(swap, pageSize, FindNextImagePage(swap, pageSize, c), rest)
    ensures Ahead(pageSize, FindNextImagePage(swap, pageSize, c), rest) == Ahead(pageSize, c, rest)[1..]
  {
    var o := c.offset + pageSize;
    var c' := c.(offset := o);
    assert FindNextImagePage(swap, pageSize, c) == c';
    var tail := SlotPages(c.table, c.cur + 1, pageSize) + ChainPages(rest, pageSize);
    var later := ExtentPages(o, c.table[c.cur].end, pageSize);
    assert ExtentPages(c.offset, c.table[c.cur].end, pageSize) == [c.offset] + later;
    assert Ahead(pageSize, c, rest) == [c.offset] + later + tail;
    assert Ahead(pageSize, c', rest) == later + tail;
    assert Walking(swap, pageSize, c', rest);
  }

  lemma StepToNextSlot(swap: Swap, pageSize: nat, c: Cursor, rest: seq<seq<Extent>>)
    requires Walking(swap, pageSize, c, rest)
    requires c.offset + pageSize >= c.table[c.cur].end && c.table[c.cur + 1].Live()
    ensures Walking(swap, pageSize, FindNextImagePage(swap, pageSize, c), rest)
    ensures Ahead(pageSize, FindNextImagePage(swap, pageSize, c), rest) == Ahead(pageSize, c, rest)[1..]
  {
    var o := c.offset + pageSize;
    var e := c.table[c.cur + 1];
    var c' := c.(cur := c.cur + 1, offset := e.start);
    assert FindNextImagePage(swap, pageSize, c) == c';
    var chain := ChainPages(rest, pageSize);
    var slots := SlotPages(c.table, c.cur + 1, pageSize);
    assert ExtentPages(c.offset, c.table[c.cur].end, pageSize) == [c.offset] + ExtentPages(o, c.table[c.cur].end, pageSize);
    assert ExtentPages(o, c.table[c.cur].end, pageSize) == [];
    assert Ahead(pageSize, c, rest) == [c.offset] + (slots + chain);
    assert slots == ExtentPages(e.start, e.end, pageSize) + SlotPages(c.table, c.cur + 2, pageSize);
    assert Ahead(pageSize, c', rest) == slots + chain;
    assert Walking(swap, pageSize, c', rest);
  }

  lemma StepToNextTable(swap: Swap, pageSize: nat, c: Cursor, rest: seq<seq<Extent>>)
    requires Walking(swap, pageSize, c, rest)
    requires c.offset + pageSize >= c.table[c.cur].end && !c.table[c.cur + 1].Live()
    requires |Ahead(pageSize, c, rest)| >= 2
    ensures rest != []
    ensures Walking(swap, pageSize, FindNextImagePage(swap, pageSize, c), rest[1..])
    ensures Ahead(pageSize, FindNextImagePage(swap, pageSize, c), rest[1..]) == Ahead(pageSize, c, rest)[1..]
  {
    var n := LinkSlot(pageSize);
    var o := c.offset + pageSize;
    var here := ExtentPages(c.offset, c.table[c.cur].end, pageSize);
    assert here == [c.offset] + ExtentPages(o, c.table[c.cur].end, pageSize);
    assert ExtentPages(o, c.table[c.cur].end, pageSize) == [];
    assert SlotPages(c.table, c.cur + 1, pageSize) == [];
    assert Ahead(pageSize, c, rest) == [c.offset] + ChainPages(rest, pageSize);
    assert rest != [];
    var c' := FindNextImagePage(swap, pageSize, c);
    var raw := DecodeTable(swap[c.next][..pageSize]);
    assert c'.table == rest[0] by {
      forall i | 0 <= i < n
        ensures c'.table[i] == rest[0][i]
      {
      }
    }
    assert c'.next == raw[n].start;
    assert ChainPages(rest, pageSize)
        == SlotPages(rest[0], 0, pageSize) + ChainPages(rest[1..], pageSize);
    assert SlotPages(rest[0], 0, pageSize)
        == ExtentPages(rest[0][0].start, rest[0][0].end, pageSize) + SlotPages(rest[0], 1, pageSize);
  }

  /** The first offset still ahead is the cursor's own. */
  lemma AheadStartsAtCursor(swap: Swap, pageSize: nat, c: Cursor, rest: seq<seq<Extent>>)
    requires Walking(swap, pageSize, c, rest)
    ensures |Ahead(pageSize, c, rest)| >= 1 && Ahead(pageSize, c, rest)[0] == c.offset
    ensures CursorInv(pageSize, c) && c.cur < LinkSlot(pageSize) && c.offset != 0
  {
    var here := ExtentPages(c.offset, c.table[c.cur].end, pageSize);
    assert Ahead(pageSize, c, rest) == here + (SlotPages(c.table, c.cur + 1, pageSize) + ChainPages(rest, pageSize));
  }

  /** The walker yields, step by step, exactly the offsets still ahead. */
  lemma VisitStep(swap: Swap, pageSize: nat, c: Cursor, k: nat, ahead: seq<int>, ahead': seq<int>)
    requires CursorInv(pageSize, c) && c.cur < LinkSlot(pageSize) && c.offset != 0
    requires 1 <= k <= |ahead| && |ahead| >= 1 && ahead[0] == c.offset && ahead' == ahead[1..]
    requires Visit(swap, pageSize, FindNextImagePage(swap, pageSize, c), k - 1) == ahead'[..k - 1]
    ensures Visit(swap, pageSize, c, k) == ahead[..k]
  {
    assert ahead[..k] == [ahead[0]] + ahead'[..k - 1];
  }

  /** One step of a walking cursor: it keeps walking, over the same tables
      or the next ones, and the offsets ahead lose their first. */
  lemma StepAhead(swap: Swap, pageSize: nat, c: Cursor, rest: seq<seq<Extent>>) returns (rest': seq<seq<Extent>>)
    requires Walking(swap, pageSize, c, rest)
    requires |Ahead(pageSize, c, rest)| >= 2
    ensures Walking(swap, pageSize, FindNextImagePage(swap, pageSize, c), rest')
    ensures Ahead(pageSize, FindNextImagePage(swap, pageSize, c), rest') == Ahead(pageSize, c, rest)[1..]
  {
    if c.offset + pageSize < c.table[c.cur].end {
      StepWithinExtent(swap, pageSize, c, rest);
      rest' := rest;
    } else if c.table[c.cur + 1].Live() {
      StepToNextSlot(swap, pageSize, c, rest);
      rest' := rest;
    } else {
      StepToNextTable(swap, pageSize, c, rest);
      rest' := rest[1..];
    }
  }

  /** The walker yields, step by step, exactly the offsets still ahead. */
  lemma {:induction false} VisitFollowsAhead(swap: Swap, pageSize: nat, c: Cursor, rest: seq<seq<Extent>>, k: nat)
    requires Walking(swap, pageSize, c, rest)
    requires k <= |Ahead(pageSize, c, rest)|
    ensures Visit(swap, pageSize, c, k) == Ahead(pageSize, c, rest)[..k]
    decreases k
  {
    if k == 1 {
      VisitOne(swap, pageSize, c, rest);
    } else if k > 1 {
      var rest' := StepAhead(swap, pageSize, c, rest);
      VisitFollowsAhead(swap, pageSize, FindNextImagePage(swap, pageSize, c), rest', k - 1);
      VisitMore(swap, pageSize, c, rest, rest', k);
    }
  }

  /** The first step of a walk yields the first offset ahead. */
  lemma VisitOne(swap: Swap, pageSize: nat, c: Cursor, rest: seq<seq<Extent>>)
    requires Walking(swap, pageSize, c, rest)
    ensures |Ahead(pageSize, c, rest)| >= 1
    ensures Visit(swap, pageSize, c, 1) == Ahead(pageSize, c, rest)[..1]
  {
    var ahead := Ahead(pageSize, c, rest);
    AheadStartsAtCursor(swap, pageSize, c, rest);
    var c' := FindNextImagePage(swap, pageSize, c);
    assert Visit(swap, pageSize, c', 0) == ahead[1..][..0];
    VisitStep(swap, pageSize, c, 1, ahead, ahead[1..]);
  }

  /** The inductive step of `VisitFollowsAhead`. */
  lemma VisitMore(swap: Swap, pageSize: nat, c: Cursor, rest: seq<seq<Extent>>, rest': seq<seq<Extent>>, k: nat)
    requires Walking(swap, pageSize, c, rest)
    requires 2 <= k <= |Ahead(pageSize, c, rest)|
    requires Walking(swap, pageSize, FindNextImagePage(swap, pageSize, c), rest')
    requires Ahead(pageSize, FindNextImagePage(swap, pageSize, c), rest') == Ahead(pageSize, c, rest)[1..]
    requires Visit(swap, pageSize, FindNextImagePage(swap, pageSize, c), k - 1)
             == Ahead(pageSize, FindNextImagePage(swap, pageSize, c), rest')[..k - 1]
    ensures Visit(swap, pageSize, c, k) == Ahead(pageSize, c, rest)[..k]
  {
    var ahead := Ahead(pageSize, c, rest);
    AheadStartsAtCursor(swap, pageSize, c, rest);
    VisitStep(swap, pageSize, c, k, ahead, ahead[1..]);
  }

  /** The cursor `init_swap_reader` builds for a chain that starts at
      `start`, before the first table is read. */
  function Unloaded(pageSize: nat, start: int): (c: Cursor)
    requires ValidPageSize(pageSize)
    ensures |c.table| == LinkSlot(pageSize) + 1
  {
    Cursor(seq(LinkSlot(pageSize) + 1, _ => Terminator), 0, 0, start)
  }

  /** Loading the first table of a well-formed chain starts a walk over the
      whole chain: the cursor then yields every page offset of every
      extent, extent by extent and table by table, in that order. */
  lemma WalkCoversChain(swap: Swap, pageSize: nat, start: int, tables: seq<seq<Extent>>)
    requires ValidPageSize(pageSize)
    requires tables != [] && IsChain(swap, pageSize, start, tables)
    ensures LoadExtentsPage(swap, pageSize, Unloaded(pageSize, start)).0 == Ok
    ensures var c := LoadExtentsPage(swap, pageSize, Unloaded(pageSize, start)).1;
            Visit(swap, pageSize, c, |ChainPages(tables, pageSize)|) == ChainPages(tables, pageSize)
  {
    var n := LinkSlot(pageSize);
    var c := LoadExtentsPage(swap, pageSize, Unloaded(pageSize, start)).1;
    assert c.table == tables[0] by {
      forall i | 0 <= i < n
        ensures c.table[i] == tables[0][i]
      {
      }
    }
    assert Walking(swap, pageSize, c, tables[1..]);
    assert Ahead(pageSize, c, tables[1..]) == ChainPages(tables, pageSize);
    VisitFollowsAhead(swap, pageSize, c, tables[1..], |ChainPages(tables, pageSize)|);
  }

  /** Past the last page of the last table the walker does not stop: it
      takes in the stale table again and restarts at its first extent. */
  lemma EndOfChainRestarts(swap: Swap, pageSize: nat, c: Cursor)
    requires Walking(swap, pageSize, c, [])
    requires Ahead(pageSize, c, []) == [c.offset]
    ensures FindNextImagePage(swap, pageSize, c) == c.(cur := 0, offset := c.table[0].start)
  {
    var o := c.offset + pageSize;
    assert ExtentPages(c.offset, c.table[c.cur].end, pageSize)
        == [c.offset] + ExtentPages(o, c.table[c.cur].end, pageSize);
    assert ExtentPages(o, c.table[c.cur].end, pageSize) == [] && SlotPages(c.table, c.cur + 1, pageSize) == [];
    assert !(o < c.table[c.cur].end);
    assert !c.table[c.cur + 1].Live();
  }
}
