/** The block loader `load_buffer` (s2diskus/load.c:308-384): one work
    buffer's worth of image data, read page by page when the image is
    uncompressed, or one size-prefixed compressed block decoded by the codec,
    folded into the checksum when that is on. */
module BufferLoader {
  import opened Types
  import opened Arith
  import opened LittleEndian
  import opened Extents
  import opened SwapReader
  import opened PageFill

  /** `sizeof(size_t)`: the length prefix of a compressed block. */
  const BlockHeader: nat := 8

  /** The pages, one after the other. */
  function Flatten(pages: seq<seq<byte>>): (b: seq<byte>)
    decreases |pages|
  {
    if pages == [] then [] else pages[0] + Flatten(pages[1..])
  }

  lemma {:induction false} FlattenLength(pages: seq<seq<byte>>, pageSize: nat)
    requires forall i :: 0 <= i < |pages| ==> |pages[i]| == pageSize
    ensures |Flatten(pages)| == |pages| * pageSize
    decreases |pages|
  {
    if pages != [] {
      FlattenLength(pages[1..], pageSize);
      MulStep(|pages| - 1, pageSize);
    }
  }

  lemma {:induction false} FlattenAppend(a: seq<seq<byte>>, b: seq<seq<byte>>)
    ensures Flatten(a + b) == Flatten(a) + Flatten(b)
    decreases |a|
  {
    if a == [] {
      assert a + b == b;
    } else {
      FlattenAppend(a[1..], b);
      assert (a + b)[1..] == a[1..] + b;
    }
  }

  /** Page `i` of flattened equal-sized pages is the `i`-th page-sized slice. */
  lemma {:induction false} FlattenSlice(pages: seq<seq<byte>>, pageSize: nat, i: nat)
    requires forall j :: 0 <= j < |pages| ==> |pages[j]| == pageSize
    requires i < |pages|
    ensures (i + 1) * pageSize <= |Flatten(pages)|
    ensures Flatten(pages)[i * pageSize..(i + 1) * pageSize] == pages[i]
    decreases i
  {
    FlattenLength(pages, pageSize);
    assert |pages| >= i + 1;
    MulMono(i + 1, |pages|, pageSize);
    if i > 0 {
      FlattenSlice(pages[1..], pageSize, i - 1);
      MulStep(i - 1, pageSize);
      MulStep(i, pageSize);
      assert Flatten(pages) == pages[0] + Flatten(pages[1..]);
    }
  }


  /** The work buffer after `data` was stored at its start. */
  function Overlay(buffer: seq<byte>, data: seq<byte>): (b: seq<byte>)
    requires |data| <= |buffer|
    ensures |b| == |buffer| && b[..|data|] == data && b[|data|..] == buffer[|data|..]
  {
    data + buffer[|data|..]
  }

  // ---------------------------------------------------------------------
  // Compressed images
  // ---------------------------------------------------------------------

  /** The loop that completes a compressed block (s2diskus/load.c:326-332):
      further pages while fewer than `target` bytes have been read. */
  function BlockLoop(cfg: Config, env: Env, r: Reader, size: nat, target: nat): (res: (bool, seq<seq<byte>>, Reader))
    requires ReaderInv(cfg, r)
    decreases target - size
  {
    if size < target then
      var step := LoadAndDecryptPage(cfg, env, r);
      if step.0 != Ok then (false, [], step.2)
      else
        var more := BlockLoop(cfg, env, step.2, size + cfg.pageSize, target);
        (more.0, [step.1] + more.1, more.2)
    else (true, [], r)
  }

  /** The bound of the block loop, `block->size + sizeof(size_t)`, as the
      `size_t` sum computes it: modulo 2^64. */
  function BlockTarget(blockSize: nat): (t: nat)
    ensures t < Two64 && t <= blockSize + BlockHeader
    ensures blockSize + BlockHeader < Two64 ==> t == blockSize + BlockHeader
    ensures Two64 <= blockSize + BlockHeader < Two64 + BlockHeader ==> t == blockSize + BlockHeader - Two64
  {
    (blockSize + BlockHeader) % Two64
  }

  /** The pages the block loop leaves read, the first included: the least
      `k >= 1` with `k` pages covering the loop bound (see `BlockPagesCover`). */
  function BlockPages(pageSize: nat, blockSize: nat): (k: nat)
    requires pageSize > 0
    ensures k >= 1
  {
    PagesFor(pageSize, BlockTarget(blockSize))
  }

  /** The least `k >= 1` with `k` pages covering `target` bytes. */
  function PagesFor(pageSize: nat, target: nat): (k: nat)
    requires pageSize > 0
    ensures k >= 1 && k * pageSize >= target
  {
    if target <= pageSize then 1 else CeilDiv(target, pageSize)
  }

  /** `BlockPages` is the least `k >= 1` whose pages cover the loop bound.
      Unless the bound wraps, that is the least number of pages holding
      `blockSize` payload bytes behind the `size_t` prefix; when it wraps,
      the first page is all. */
  lemma BlockPagesCover(pageSize: nat, blockSize: nat)
    requires pageSize > 0
    ensures var k := BlockPages(pageSize, blockSize);
            && k * pageSize >= BlockTarget(blockSize)
            && (k == 1 || (k - 1) * pageSize < BlockTarget(blockSize))
            && (blockSize + BlockHeader < Two64 ==>
                  k * pageSize >= blockSize + BlockHeader && (k - 1) * pageSize < blockSize + BlockHeader)
            && (blockSize < Two64 <= blockSize + BlockHeader && pageSize >= BlockHeader ==> k == 1)
  {
  }

  /** Where `done` read pages, `size` bytes, stand against the page count
      of a block of `target` bytes. */
  lemma BlockCount(ps: nat, done: nat, size: nat, target: nat)
    requires ps > 0 && done >= 1 && target > 0
    requires size == done * ps && size < target + ps
    ensures done <= CeilDiv(target, ps)
    ensures size < target <==> done < CeilDiv(target, ps)
    ensures size + ps == (done + 1) * ps
  {
    var k := CeilDiv(target, ps);
    MulStep(done - 1, ps);
    MulStep(done, ps);
    MulMono(k, done - 1, ps);
    MulMono(k, done, ps);
    MulMono(done, k - 1, ps);
  }

  /** After the first page, the block loop reads exactly the remaining
      `BlockPages - 1` pages of the block. */
  lemma {:induction false} BlockLoopReadsBlock(cfg: Config, env: Env, r: Reader, done: nat, size: nat, target: nat)
    requires ReaderInv(cfg, r) && done >= 1 && target > 0
    requires size == done * cfg.pageSize && size < target + cfg.pageSize
    ensures && done <= CeilDiv(target, cfg.pageSize)
            && BlockLoop(cfg, env, r, size, target) == ReadPages(cfg, env, r, CeilDiv(target, cfg.pageSize) - done)
    decreases target - size
  {
    var ps := cfg.pageSize;
    var k := CeilDiv(target, ps);
    BlockCount(ps, done, size, target);
    var loop := BlockLoop(cfg, env, r, size, target);
    if size < target {
      var step := LoadAndDecryptPage(cfg, env, r);
      if step.0 == Ok {
        BlockLoopReadsBlock(cfg, env, step.2, done + 1, size + ps, target);
        var more := BlockLoop(cfg, env, step.2, size + ps, target);
        assert loop == (more.0, [step.1] + more.1, more.2);
        ReadPagesCons(cfg, env, r, k - done);
      } else {
        assert loop == (false, [], r);
        assert ReadPages(cfg, env, r, k - done) == (false, [], r);
      }
    } else {
      assert loop == (true, [], r);
      assert ReadPages(cfg, env, r, 0) == (true, [], r);
    }
  }

  /** A compressed block, given its first page, stays inside a compressed
      buffer of whole pages that can hold its payload and prefix. */
  lemma BlockFitsBuffer(pageSize: nat, blockSize: nat, compressBufSize: nat)
    requires pageSize > 0 && compressBufSize % pageSize == 0
    requires blockSize + BlockHeader <= compressBufSize
    ensures BlockPages(pageSize, blockSize) * pageSize <= compressBufSize
  {
    var k := BlockPages(pageSize, blockSize);
    BlockPagesCover(pageSize, blockSize);
    var q := compressBufSize / pageSize;
    assert compressBufSize == q * pageSize;
    assert q >= 1 by {
      MulMono(q, 0, pageSize);
    }
    assert k - 1 < q by {
      MulMono(q, k - 1, pageSize);
    }
    MulMono(k, q, pageSize);
  }

  /** The payload length a compressed block declares in its first page. */
  function DeclaredSize(first: seq<byte>): nat
    requires |first| >= BlockHeader
  {
    Decode(first[..BlockHeader])
  }

  /** A first page whose prefix is all 0xFF declares 2^64 - 1 payload
      bytes.  The `size_t` sum then wraps to 7, which the first page
      already covers, so the block loop reads no further page. */
  lemma WrappedPrefixReadsOnePage(pageSize: nat, first: seq<byte>)
    requires ValidPageSize(pageSize) && |first| == pageSize
    requires forall i :: 0 <= i < BlockHeader ==> first[i] == 0xFF
    ensures DeclaredSize(first) == Two64 - 1
    ensures BlockTarget(DeclaredSize(first)) == 7
    ensures BlockPages(pageSize, DeclaredSize(first)) == 1
  {
    DecodeAllOnes(first[..BlockHeader]);
    Pow256Of8();
    BlockPagesCover(pageSize, DeclaredSize(first));
  }

  // ---------------------------------------------------------------------
  // load_buffer
  // ---------------------------------------------------------------------

  /** `load_buffer`: the number of bytes now at the start of the work
      buffer (0 on any failure) and the reader afterwards. */
  function LoadBuffer(cfg: Config, env: Env, r: Reader): (res: (nat, Reader))
    requires ReaderInv(cfg, r)
    ensures ReaderInv(cfg, res.1)
    ensures res.0 <= cfg.bufferSize
    ensures !cfg.decompress ==> res.0 % cfg.pageSize == 0
    ensures res.1.digested == (if cfg.checksum then r.digested + res.1.buffer[..res.0] else r.digested)
  {
    if cfg.decompress then LoadBlock(cfg, env, r) else LoadPages(cfg, env, r)
  }

  /** The uncompressed branch: `FillCount` pages copied to the start of the
      work buffer, or 0 if a page could not be read. */
  function LoadPages(cfg: Config, env: Env, r: Reader): (res: (nat, Reader))
    requires ReaderInv(cfg, r)
    ensures ReaderInv(cfg, res.1)
    ensures res.0 <= cfg.bufferSize && res.0 % cfg.pageSize == 0
    ensures var got := ReadPages(cfg, env, r, FillCount(cfg.pageSize, cfg.bufferSize, r.total));
            && res.1.cursor == got.2.cursor && res.1.total == got.2.total && res.1.cipher == got.2.cipher
            && (res.0 > 0 ==> got.0)
            && (got.0 ==> && res.0 == |Flatten(got.1)|
                          && res.1.buffer[..res.0] == Flatten(got.1)
                          && res.1.buffer[res.0..] == r.buffer[res.0..])
    ensures res.1.digested == (if cfg.checksum then r.digested + res.1.buffer[..res.0] else r.digested)
  {
    var loop := FillLoop(cfg, env, r, 0);
    FillLoopReadsFillCount(cfg, env, r, 0);
    var count := FillCount(cfg.pageSize, cfg.bufferSize, r.total);
    FlattenLength(loop.1, cfg.pageSize);
    var data := Flatten(loop.1);
    if !loop.0 then (0, loop.2)
    else
      assert |data| == count * cfg.pageSize;
      MulDiv(count, cfg.pageSize);
      var r' := loop.2.(buffer := Overlay(r.buffer, data));
      (|data|, r'.(digested := if cfg.checksum then r.digested + data else r.digested))
  }

  /** The block loop as written, after the first page, reads the pages of
      a block of the declared size, bounded as the `size_t` sum is. */
  lemma BlockLoopReadsBlockPages(cfg: Config, env: Env, r: Reader)
    requires ReaderInv(cfg, r)
    requires LoadAndDecryptPage(cfg, env, r).0 == Ok
    ensures var first := LoadAndDecryptPage(cfg, env, r);
            var rest := BlockLoop(cfg, env, first.2, cfg.pageSize, BlockTarget(DeclaredSize(first.1)));
            ReadPages(cfg, env, r, BlockPages(cfg.pageSize, DeclaredSize(first.1)))
              == (rest.0, [first.1] + rest.1, rest.2)
  {
    var first := LoadAndDecryptPage(cfg, env, r);
    var size := DeclaredSize(first.1);
    BlockLoopReadsRest(cfg, env, first.2, BlockTarget(size));
    ReadPagesCons(cfg, env, r, BlockPages(cfg.pageSize, size));
  }

  /** The block loop, started after the first page towards `target`, reads
      the other pages of a block of `PagesFor(target)` pages. */
  lemma BlockLoopReadsRest(cfg: Config, env: Env, r: Reader, target: nat)
    requires ReaderInv(cfg, r)
    ensures BlockLoop(cfg, env, r, cfg.pageSize, target) == ReadPages(cfg, env, r, PagesFor(cfg.pageSize, target) - 1)
  {
    var ps := cfg.pageSize;
    if target > ps {
      assert 1 * ps == ps;
      BlockLoopReadsBlock(cfg, env, r, 1, ps, target);
    }
  }

  /** What the codec is given of a block read in full: the `blockSize`
      payload bytes behind the prefix, cut short at the end of the pages
      read (which happens only when the loop bound wrapped). */
  function Payload(block: seq<byte>, blockSize: nat): (p: seq<byte>)
    requires |block| >= BlockHeader
    ensures BlockHeader + |p| <= |block| && |p| <= blockSize && p == block[BlockHeader..BlockHeader + |p|]
    ensures |block| >= BlockHeader + blockSize ==> |p| == blockSize
    ensures |block| < BlockHeader + blockSize ==> |p| == |block| - BlockHeader
  {
    if |block| >= BlockHeader + blockSize then block[BlockHeader..BlockHeader + blockSize]
    else block[BlockHeader..]
  }

  /** The codec step of the compressed branch, given the pages of the block
      as they were read: a short read leaves the work buffer alone,
      otherwise the payload behind the `size_t` prefix goes to the codec
      with the work buffer as output. */
  function Unpack(cfg: Config, env: Env, r: Reader, got: (bool, seq<seq<byte>>, Reader), size: nat): (res: (nat, Reader))
    requires ReaderInv(cfg, r) && ReaderInv(cfg, got.2)
    requires got.0 ==> |got.1| == BlockPages(cfg.pageSize, size)
    requires forall i :: 0 <= i < |got.1| ==> |got.1[i]| == cfg.pageSize
    ensures ReaderInv(cfg, res.1)
    ensures res.0 <= cfg.bufferSize
    ensures res.1.cursor == got.2.cursor && res.1.total == got.2.total && res.1.cipher == got.2.cipher
    ensures !got.0 ==> res.0 == 0 && res.1.buffer == r.buffer
    ensures got.0 ==>
              && |Flatten(got.1)| >= BlockHeader
              && (size + BlockHeader < Two64 ==> |Flatten(got.1)| >= BlockHeader + size)
              && (size + BlockHeader >= Two64 && size < Two64 ==> |got.1| == 1)
              && match env.inflate(Payload(Flatten(got.1), size), cfg.bufferSize)
                 case None => res.0 == 0 && res.1.buffer == r.buffer
                 case Some(out) => res.0 == |out| && res.1.buffer[..res.0] == out
                                   && res.1.buffer[res.0..] == r.buffer[res.0..]
    ensures res.1.digested == (if cfg.checksum then r.digested + res.1.buffer[..res.0] else r.digested)
  {
    var kept := r.(cursor := got.2.cursor, total := got.2.total, cipher := got.2.cipher);
    if !got.0 then (0, kept)
    else
      FlattenLength(got.1, cfg.pageSize);
      var block := Flatten(got.1);
      MulMono(1, |got.1|, cfg.pageSize);
      BlockPagesCover(cfg.pageSize, size);
      match env.inflate(Payload(block, size), cfg.bufferSize)
      case None => (0, kept)
      case Some(out) =>
        var r' := kept.(buffer := Overlay(r.buffer, out));
        (|out|, r'.(digested := if cfg.checksum then r.digested + out else r.digested))
  }

  /** The compressed branch (s2diskus/load.c:315-363): the first page gives
      the block's declared size, the block loop reads the rest of it, and
      the result is what `Unpack` makes of the block's pages. */
  function LoadBlock(cfg: Config, env: Env, r: Reader): (res: (nat, Reader))
    requires ReaderInv(cfg, r)
    ensures ReaderInv(cfg, res.1)
    ensures res.0 <= cfg.bufferSize
    ensures var first := LoadAndDecryptPage(cfg, env, r);
            first.0 != Ok ==> res.0 == 0 && res.1 == r
    ensures var first := LoadAndDecryptPage(cfg, env, r);
            first.0 == Ok ==>
              var size := DeclaredSize(first.1);
              res == Unpack(cfg, env, r, ReadPages(cfg, env, r, BlockPages(cfg.pageSize, size)), size)
    ensures res.1.digested == (if cfg.checksum then r.digested + res.1.buffer[..res.0] else r.digested)
  {
    var first := LoadAndDecryptPage(cfg, env, r);
    if first.0 != Ok then (0, r)
    else
      var size := DeclaredSize(first.1);
      var rest := BlockLoop(cfg, env, first.2, cfg.pageSize, BlockTarget(size));
      var got := ReadPages(cfg, env, r, BlockPages(cfg.pageSize, size));
      BlockLoopReadsBlockPages(cfg, env, r);
      assert got == (rest.0, [first.1] + rest.1, rest.2);
      Unpack(cfg, env, r, got, size)
  }
}
