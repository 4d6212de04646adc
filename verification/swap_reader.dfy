/** The page reader of the image loader: `struct swap_reader`, its
    initialisation and `load_and_decrypt_page` (s2diskus/load.c:120-132,
    189-229, 261-301). */
module SwapReader {
  import opened Types
  import opened Arith
  import opened SwapDevice
  import opened Extents

  /** The sizes fixed at start-up and the layers `read_or_verify` switched
      on: `do_decompress`, `do_decrypt` and `verify_checksum`. */
  datatype Config = Config(pageSize: nat, bufferSize: nat, decompress: bool, decrypt: bool, checksum: bool) {

    /** Page size usable by the extent table, and a work buffer of a whole
        positive number of pages. */
    predicate Valid() {
      ValidPageSize(pageSize) && bufferSize >= pageSize && bufferSize % pageSize == 0
    }
  }

  /** The session stream cipher, advanced one page at a time: from a cipher
      state and an encrypted page it gives the plain page and the next
      state.  The output is as long as the input, as `gcry_cipher_decrypt`
      and `aes_gcm_dec_128_update` write exactly `page_size` bytes. */
  type Decryptor = f: (nat, seq<byte>) -> (seq<byte>, nat)
    | forall s: nat, b: seq<byte> :: |f(s, b).0| == |b|
    witness (s: nat, b: seq<byte>) => (b, s)

  /** A block codec given its input and the capacity of the work buffer:
      `None` when it rejects the block, otherwise at most `capacity` decoded
      bytes (the bound `LZ4_decompress_safe` and `isal_inflate_stateless`
      are given). */
  type Inflater = f: (seq<byte>, nat) -> Option<seq<byte>>
    | forall b: seq<byte>, capacity: nat :: f(b, capacity).Some? ==> |f(b, capacity).value| <= capacity
    witness (b: seq<byte>, capacity: nat) => None

  /** The collaborators of one restore: the swap device, the cipher and the
      codec. */
  datatype Env = Env(swap: Swap, decrypt: Decryptor, inflate: Inflater)

  /** `struct swap_reader`: the walker cursor, `total_size`, the cipher
      state, the work buffer `buffer`, and the bytes fed so far into the
      MD5 context `ctx`. */
  datatype Reader = Reader(cursor: Cursor, total: int, cipher: nat, buffer: seq<byte>, digested: seq<byte>)

  predicate ReaderInv(cfg: Config, r: Reader) {
    cfg.Valid() && CursorInv(cfg.pageSize, r.cursor) && |r.buffer| == cfg.bufferSize
  }

  /** `init_swap_reader` (s2diskus/load.c:189-229): offset 0 is refused,
      otherwise the first table page is loaded, `total_size` is the image
      size and the checksum starts empty.  `buffer` is what the freshly
      allocated work buffer holds and `cipher` the state key recovery left. */
  function InitSwapReader(cfg: Config, env: Env, start: int, imageSize: int, cipher: nat, buffer: seq<byte>): (res: (Status, Reader))
    requires cfg.Valid() && |buffer| == cfg.bufferSize
    ensures start == 0 ==> res.0 == Einval
    ensures start != 0 ==> (res.0 == Ok <==> start in env.swap && |env.swap[start]| >= cfg.pageSize)
    ensures res.0 == Ok ==> && ReaderInv(cfg, res.1)
                            && res.1.total == imageSize && res.1.digested == [] && res.1.cipher == cipher
                            && res.1.cursor == LoadExtentsPage(env.swap, cfg.pageSize, Unloaded(cfg.pageSize, start)).1
  {
    var empty := Reader(Unloaded(cfg.pageSize, start), imageSize, cipher, buffer, []);
    if start == 0 then (Einval, empty)
    else
      var (err, c) := LoadExtentsPage(env.swap, cfg.pageSize, empty.cursor);
      if err != Ok then (err, empty) else (Ok, empty.(cursor := c))
  }

  /** `load_and_decrypt_page` (s2diskus/load.c:261-301).  A cleared cursor
      is refused with -EINVAL; a failed read leaves the reader as it was;
      a successful one yields the (decrypted) page, charges one page to
      `total_size` and advances the cursor and the cipher once. */
  function LoadAndDecryptPage(cfg: Config, env: Env, r: Reader): (res: (Status, seq<byte>, Reader))
    requires ReaderInv(cfg, r)
    ensures ReaderInv(cfg, res.2)
    ensures res.0 == Ok || res.0 == Eio || res.0 == Einval
    ensures res.0 == Einval <==> r.cursor.offset == 0
    ensures res.0 == Eio <==> r.cursor.offset != 0 && (r.cursor.offset !in env.swap || |env.swap[r.cursor.offset]| < cfg.pageSize)
    ensures res.0 != Ok ==> res.2 == r
    ensures res.0 == Ok ==>
              && |res.1| == cfg.pageSize
              && res.2.total == r.total - cfg.pageSize
              && res.2.cursor == FindNextImagePage(env.swap, cfg.pageSize, r.cursor)
              && res.2.buffer == r.buffer && res.2.digested == r.digested
              && var raw := env.swap[r.cursor.offset][..cfg.pageSize];
                 if cfg.decrypt then (res.1, res.2.cipher) == env.decrypt(r.cipher, raw)
                 else res.1 == raw && res.2.cipher == r.cipher
  {
    if r.cursor.offset == 0 then (Einval, [], r)
    else
      match ReadPage(env.swap, cfg.pageSize, r.cursor.offset)
      case Loaded(raw) =>
        var (page, state) := if cfg.decrypt then env.decrypt(r.cipher, raw) else (raw, r.cipher);
        (Ok, page, r.(total := r.total - cfg.pageSize,
                      cursor := FindNextImagePage(env.swap, cfg.pageSize, r.cursor),
                      cipher := state))
      case _ => (Eio, [], r)
  }

  /** Up to `k` pages read one after the other, stopping at the first
      failure: whether all `k` were read, the pages, and the reader after
      the last successful read. */
  function ReadPages(cfg: Config, env: Env, r: Reader, k: nat): (res: (bool, seq<seq<byte>>, Reader))
    requires ReaderInv(cfg, r)
    ensures ReaderInv(cfg, res.2)
    ensures |res.1| <= k && (res.0 <==> |res.1| == k)
    ensures forall i :: 0 <= i < |res.1| ==> |res.1[i]| == cfg.pageSize
    ensures res.2.buffer == r.buffer && res.2.digested == r.digested
    decreases k
  {
    if k == 0 then (true, [], r)
    else
      var step := LoadAndDecryptPage(cfg, env, r);
      if step.0 != Ok then (false, [], r)
      else
        var more := ReadPages(cfg, env, step.2, k - 1);
        MulStep(|more.1|, cfg.pageSize);
        (more.0, [step.1] + more.1, more.2)
  }

  /** Every page read is charged to `total_size`. */
  lemma {:induction false} ReadPagesTotal(cfg: Config, env: Env, r: Reader, k: nat)
    requires ReaderInv(cfg, r)
    ensures ReadPages(cfg, env, r, k).2.total == r.total - |ReadPages(cfg, env, r, k).1| * cfg.pageSize
    decreases k
  {
    if k > 0 {
      var step := LoadAndDecryptPage(cfg, env, r);
      if step.0 == Ok {
        ReadPagesTotal(cfg, env, step.2, k - 1);
        ReadPagesTotalStep(cfg, env, r, k, step.2);
      } else {
        ReadPagesStops(cfg, env, r, k);
      }
    }
  }

  /** The inductive step of `ReadPagesTotal`. */
  lemma ReadPagesTotalStep(cfg: Config, env: Env, r: Reader, k: nat, next: Reader)
    requires ReaderInv(cfg, r) && k > 0
    requires LoadAndDecryptPage(cfg, env, r).0 == Ok && next == LoadAndDecryptPage(cfg, env, r).2
    requires ReadPages(cfg, env, next, k - 1).2.total == next.total - |ReadPages(cfg, env, next, k - 1).1| * cfg.pageSize
    ensures ReadPages(cfg, env, r, k).2.total == r.total - |ReadPages(cfg, env, r, k).1| * cfg.pageSize
  {
    var step := LoadAndDecryptPage(cfg, env, r);
    var more := ReadPages(cfg, env, next, k - 1);
    ReadPagesCons(cfg, env, r, k);
    ChargeStep(r.total, step.2.total, more.2.total, |more.1|, cfg.pageSize);
  }

  /** A read whose first page fails reads nothing and leaves the reader. */
  lemma ReadPagesStops(cfg: Config, env: Env, r: Reader, k: nat)
    requires ReaderInv(cfg, r) && k > 0
    requires LoadAndDecryptPage(cfg, env, r).0 != Ok
    ensures ReadPages(cfg, env, r, k) == (false, [], r)
  {
  }

  /** One page charged before `m` more is `m + 1` pages charged. */
  lemma ChargeStep(before: int, mid: int, after: int, m: nat, pageSize: nat)
    requires mid == before - pageSize && after == mid - m * pageSize
    ensures after == before - (m + 1) * pageSize
  {
    MulStep(m, pageSize);
  }

  /** Where `a + b` pages read, the first `a` do, and so do the `b` after
      them. */
  lemma ReadPagesRest(cfg: Config, env: Env, r: Reader, a: nat, b: nat)
    requires ReaderInv(cfg, r) && ReadPages(cfg, env, r, a + b).0
    ensures ReadPages(cfg, env, r, a).0 && ReadPages(cfg, env, ReadPages(cfg, env, r, a).2, b).0
  {
    ReadPagesSplit(cfg, env, r, a, b);
  }

  /** Two readers at the same place in the image, whatever their buffers
      hold. */
  predicate SamePosition(a: Reader, b: Reader) {
    a.cursor == b.cursor && a.total == b.total && a.cipher == b.cipher
  }

  /** Reading pages depends on the position only, not on the work buffer
      or the checksum input. */
  lemma {:induction false} ReadPagesIgnoresBuffers(cfg: Config, env: Env, a: Reader, b: Reader, k: nat)
    requires ReaderInv(cfg, a) && ReaderInv(cfg, b) && SamePosition(a, b)
    ensures var x := ReadPages(cfg, env, a, k);
            var y := ReadPages(cfg, env, b, k);
            x.0 == y.0 && x.1 == y.1 && SamePosition(x.2, y.2)
    decreases k
  {
    if k > 0 {
      var sa := LoadAndDecryptPage(cfg, env, a);
      var sb := LoadAndDecryptPage(cfg, env, b);
      LoadIgnoresBuffers(cfg, env, a, b);
      if sa.0 == Ok {
        ReadPagesIgnoresBuffers(cfg, env, sa.2, sb.2, k - 1);
        ReadPagesCons(cfg, env, a, k);
        ReadPagesCons(cfg, env, b, k);
      } else {
        assert ReadPages(cfg, env, a, k) == (false, [], a);
        assert ReadPages(cfg, env, b, k) == (false, [], b);
      }
    }
  }

  /** One page load depends on the position only. */
  lemma LoadIgnoresBuffers(cfg: Config, env: Env, a: Reader, b: Reader)
    requires ReaderInv(cfg, a) && ReaderInv(cfg, b) && SamePosition(a, b)
    ensures var sa := LoadAndDecryptPage(cfg, env, a);
            var sb := LoadAndDecryptPage(cfg, env, b);
            sa.0 == sb.0 && sa.1 == sb.1 && SamePosition(sa.2, sb.2)
  {
  }

  /** The result of reading `a` pages and then `b` more from where the
      first read stopped. */
  function ReadThenRead(cfg: Config, env: Env, r: Reader, a: nat, b: nat): (bool, seq<seq<byte>>, Reader)
    requires ReaderInv(cfg, r)
  {
    var first := ReadPages(cfg, env, r, a);
    var second := ReadPages(cfg, env, first.2, b);
    if first.0 then (second.0, first.1 + second.1, second.2) else first
  }

  /** A read of `k` pages whose first page loads is that page in front of
      the read of `k - 1` pages after it. */
  lemma ReadPagesCons(cfg: Config, env: Env, r: Reader, k: nat)
    requires ReaderInv(cfg, r) && k > 0
    requires LoadAndDecryptPage(cfg, env, r).0 == Ok
    ensures var step := LoadAndDecryptPage(cfg, env, r);
            var more := ReadPages(cfg, env, step.2, k - 1);
            ReadPages(cfg, env, r, k) == (more.0, [step.1] + more.1, more.2)
  {
  }

  /** One page in front of a split read moves to the front of its pages. */
  lemma ReadThenReadCons(cfg: Config, env: Env, r: Reader, a: nat, b: nat)
    requires ReaderInv(cfg, r) && a > 0
    requires LoadAndDecryptPage(cfg, env, r).0 == Ok
    ensures var step := LoadAndDecryptPage(cfg, env, r);
            var rest := ReadThenRead(cfg, env, step.2, a - 1, b);
            ReadThenRead(cfg, env, r, a, b) == (rest.0, [step.1] + rest.1, rest.2)
  {
    var step := LoadAndDecryptPage(cfg, env, r);
    var first' := ReadPages(cfg, env, step.2, a - 1);
    var second := ReadPages(cfg, env, first'.2, b);
    if first'.0 {
      assert [step.1] + (first'.1 + second.1) == ([step.1] + first'.1) + second.1;
    }
  }

  /** The inductive step of `ReadPagesSplit`: a successful first page in
      front of a split read. */
  lemma ReadPagesSplitStep(cfg: Config, env: Env, r: Reader, a: nat, b: nat)
    requires ReaderInv(cfg, r) && a > 0
    requires LoadAndDecryptPage(cfg, env, r).0 == Ok
    requires var next := LoadAndDecryptPage(cfg, env, r).2;
             ReadPages(cfg, env, next, a - 1 + b) == ReadThenRead(cfg, env, next, a - 1, b)
    ensures ReadPages(cfg, env, r, a + b) == ReadThenRead(cfg, env, r, a, b)
  {
    var step := LoadAndDecryptPage(cfg, env, r);
    ReadThenReadCons(cfg, env, r, a, b);
    ReadPagesCons(cfg, env, r, a + b);
  }

  /** Nothing read first leaves the whole read to the second part. */
  lemma ReadPagesSplitZero(cfg: Config, env: Env, r: Reader, b: nat)
    requires ReaderInv(cfg, r)
    ensures ReadPages(cfg, env, r, b) == ReadThenRead(cfg, env, r, 0, b)
  {
    var second := ReadPages(cfg, env, r, b);
    assert ReadPages(cfg, env, r, 0) == (true, [], r);
    assert [] + second.1 == second.1;
  }

  /** A failed first page fails a split read the same way. */
  lemma ReadPagesSplitFail(cfg: Config, env: Env, r: Reader, a: nat, b: nat)
    requires ReaderInv(cfg, r) && a > 0
    requires LoadAndDecryptPage(cfg, env, r).0 != Ok
    ensures ReadPages(cfg, env, r, a + b) == ReadThenRead(cfg, env, r, a, b)
  {
    assert ReadPages(cfg, env, r, a + b) == (false, [], r);
    assert ReadPages(cfg, env, r, a) == (false, [], r);
  }

  /** Reading `a + b` pages is reading `a` pages and then `b` more. */
  lemma {:induction false} ReadPagesSplit(cfg: Config, env: Env, r: Reader, a: nat, b: nat)
    requires ReaderInv(cfg, r)
    ensures ReadPages(cfg, env, r, a + b) == ReadThenRead(cfg, env, r, a, b)
    decreases a
  {
    if a == 0 {
      ReadPagesSplitZero(cfg, env, r, b);
    } else if LoadAndDecryptPage(cfg, env, r).0 == Ok {
      ReadPagesSplit(cfg, env, LoadAndDecryptPage(cfg, env, r).2, a - 1, b);
      ReadPagesSplitStep(cfg, env, r, a, b);
    } else {
      ReadPagesSplitFail(cfg, env, r, a, b);
    }
  }

  /** The plain pages a sequence of encrypted pages decrypts to, starting
      from cipher state `s`. */
  function DecryptStream(f: Decryptor, s: nat, raws: seq<seq<byte>>): (ps: seq<seq<byte>>)
    ensures |ps| == |raws|
    decreases |raws|
  {
    if raws == [] then [] else [f(s, raws[0]).0] + DecryptStream(f, f(s, raws[0]).1, raws[1..])
  }

  /** The first page of every offset in `offsets`, as the device holds it. */
  function RawPages(swap: Swap, pageSize: nat, offsets: seq<int>): (raws: seq<seq<byte>>)
    requires forall i :: 0 <= i < |offsets| ==> offsets[i] in swap && |swap[offsets[i]]| >= pageSize
    ensures |raws| == |offsets|
    ensures forall i :: 0 <= i < |raws| ==> raws[i] == swap[offsets[i]][..pageSize]
  {
    seq(|offsets|, i requires 0 <= i < |offsets| => swap[offsets[i]][..pageSize])
  }

  /** Every offset holds a full page on the device. */
  predicate AllReadable(swap: Swap, pageSize: nat, offsets: seq<int>) {
    forall i :: 0 <= i < |offsets| ==> offsets[i] in swap && |swap[offsets[i]]| >= pageSize
  }

  /** The pages `ReadPages` is expected to produce from the raw pages at
      the walker's offsets. */
  function Plain(cfg: Config, env: Env, s: nat, raws: seq<seq<byte>>): seq<seq<byte>> {
    if cfg.decrypt then DecryptStream(env.decrypt, s, raws) else raws
  }

  /** What `ReadPagesFollowWalk` promises for `k` pages from `r`. */
  predicate FollowsWalk(cfg: Config, env: Env, r: Reader, k: nat)
    requires ReaderInv(cfg, r)
  {
    var vs := Visit(env.swap, cfg.pageSize, r.cursor, k);
    var got := ReadPages(cfg, env, r, k);
    && (got.0 <==> |vs| == k && AllReadable(env.swap, cfg.pageSize, vs))
    && (got.0 ==> got.1 == Plain(cfg, env, r.cipher, RawPages(env.swap, cfg.pageSize, vs)))
  }

  lemma FollowsWalkStep(cfg: Config, env: Env, r: Reader, k: nat)
    requires ReaderInv(cfg, r) && k > 0 && r.cursor.offset != 0
    requires LoadAndDecryptPage(cfg, env, r).0 == Ok
    requires FollowsWalk(cfg, env, LoadAndDecryptPage(cfg, env, r).2, k - 1)
    ensures FollowsWalk(cfg, env, r, k)
  {
    var step := LoadAndDecryptPage(cfg, env, r);
    var o := r.cursor.offset;
    var vs := Visit(env.swap, cfg.pageSize, r.cursor, k);
    var vs1 := Visit(env.swap, cfg.pageSize, step.2.cursor, k - 1);
    assert vs == [o] + vs1;
    ReadPagesCons(cfg, env, r, k);
    AllReadableCons(env.swap, cfg.pageSize, o, vs1);
    if ReadPages(cfg, env, r, k).0 {
      PlainCons(cfg, env, r, vs1);
    }
  }

  /** A readable offset in front changes nothing about readability. */
  lemma AllReadableCons(swap: Swap, pageSize: nat, o: int, vs: seq<int>)
    requires o in swap && |swap[o]| >= pageSize
    ensures AllReadable(swap, pageSize, [o] + vs) <==> AllReadable(swap, pageSize, vs)
  {
    var vs' := [o] + vs;
    forall j | 0 <= j < |vs|
      ensures vs[j] == vs'[j + 1]
    {
    }
  }

  /** The page `r` loads is the first of the plain pages at its offset and
      the offsets after. */
  lemma PlainCons(cfg: Config, env: Env, r: Reader, vs: seq<int>)
    requires ReaderInv(cfg, r) && r.cursor.offset != 0
    requires LoadAndDecryptPage(cfg, env, r).0 == Ok
    requires AllReadable(env.swap, cfg.pageSize, vs)
    ensures var step := LoadAndDecryptPage(cfg, env, r);
            var o := r.cursor.offset;
            && AllReadable(env.swap, cfg.pageSize, [o] + vs)
            && Plain(cfg, env, r.cipher, RawPages(env.swap, cfg.pageSize, [o] + vs))
               == [step.1] + Plain(cfg, env, step.2.cipher, RawPages(env.swap, cfg.pageSize, vs))
  {
    var o := r.cursor.offset;
    AllReadableCons(env.swap, cfg.pageSize, o, vs);
    var raws := RawPages(env.swap, cfg.pageSize, [o] + vs);
    var raws1 := RawPages(env.swap, cfg.pageSize, vs);
    assert raws == [raws[0]] + raws1;
  }

  /** No pages asked for, or the walk already over. */
  lemma FollowsWalkEnd(cfg: Config, env: Env, r: Reader, k: nat)
    requires ReaderInv(cfg, r) && (k == 0 || r.cursor.offset == 0)
    ensures FollowsWalk(cfg, env, r, k)
  {
    var vs := Visit(env.swap, cfg.pageSize, r.cursor, k);
    if k == 0 {
      assert vs == [] && ReadPages(cfg, env, r, k) == (true, [], r);
    } else {
      assert vs == [] && ReadPages(cfg, env, r, k) == (false, [], r);
    }
  }

  /** A first page that cannot be read fails the read and is an offset
      the device does not hold in full. */
  lemma FollowsWalkFail(cfg: Config, env: Env, r: Reader, k: nat)
    requires ReaderInv(cfg, r) && k > 0 && r.cursor.offset != 0
    requires LoadAndDecryptPage(cfg, env, r).0 != Ok
    ensures FollowsWalk(cfg, env, r, k)
  {
    var vs := Visit(env.swap, cfg.pageSize, r.cursor, k);
    assert ReadPages(cfg, env, r, k) == (false, [], r);
    assert vs[0] == r.cursor.offset;
  }

  /** `k` pages are read exactly when the walker yields `k` offsets that
      all hold a full page; the pages are then those of the device at the
      walker's offsets, in order, decrypted as one stream when the cipher
      is on. */
  lemma {:induction false} ReadPagesFollowWalk(cfg: Config, env: Env, r: Reader, k: nat)
    requires ReaderInv(cfg, r)
    ensures FollowsWalk(cfg, env, r, k)
    decreases k
  {
    if k == 0 || r.cursor.offset == 0 {
      FollowsWalkEnd(cfg, env, r, k);
    } else {
      var step := LoadAndDecryptPage(cfg, env, r);
      if step.0 == Ok {
        ReadPagesFollowWalk(cfg, env, step.2, k - 1);
        FollowsWalkStep(cfg, env, r, k);
      } else {
        FollowsWalkFail(cfg, env, r, k);
      }
    }
  }
}
