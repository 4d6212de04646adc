/** When `load_image` (s2diskus/load.c:391-443) succeeds on an
    uncompressed image: with enough `total_size` for the pages to be
    written, an image that reads to its end and a device that takes every
    page, the loop does all its steps and writes the image's first pages
    in order. */
module CleanLoad {
  import opened Types
  import opened Arith
  import opened SwapReader
  import opened BufferLoader
  import opened PageFill
  import opened LoadImage

  /** The pages of the image still to come while `total_size` is positive:
      `ceil(total_size / page_size)`. */
  function ImagePages(cfg: Config, r: Reader): (k: nat)
    requires cfg.Valid()
    ensures r.total > 0 ==> k >= 1 && k * cfg.pageSize >= r.total
  {
    if r.total <= 0 then 0 else CeilDiv(r.total, cfg.pageSize)
  }

  /** The conditions of a clean uncompressed run from `r0`: `total_size`
      covers the pages to be written, every page of the image can be read,
      and the device takes each page it is given in full. */
  predicate Feasible(cfg: Config, env: Env, job: Job, r0: Reader)
    requires ReaderInv(cfg, r0)
  {
    && Steps(job.nrPages) * cfg.pageSize <= r0.total
    && ReadPages(cfg, env, r0, ImagePages(cfg, r0)).0
    && (!job.verifyOnly ==> Accepted(job.sink, ReadPages(cfg, env, r0, Steps(job.nrPages)).1, cfg.pageSize))
  }

  /** What the refill `m` pages into the image needs: `total_size` is
      still positive there, and the pages a full buffer asks for can be
      read. */
  predicate RefillOk(cfg: Config, env: Env, r0: Reader, m: nat)
    requires ReaderInv(cfg, r0)
  {
    var rp := ReadPages(cfg, env, r0, m);
    rp.0 ==> rp.2.total > 0 && ReadPages(cfg, env, rp.2, FillCount(cfg.pageSize, cfg.bufferSize, rp.2.total)).0
  }

  /** `Feasible` in the form the loop proofs use: the first `max(nr_pages,
      1)` pages can be read and are each taken in full, and every refill
      before the last page finds what it asks for. */
  predicate Clean(cfg: Config, env: Env, job: Job, r0: Reader)
    requires ReaderInv(cfg, r0)
  {
    var target := ReadPages(cfg, env, r0, Steps(job.nrPages));
    && target.0
    && (!job.verifyOnly ==> Accepted(job.sink, target.1, cfg.pageSize))
    && forall m :: 0 <= m < Steps(job.nrPages) ==> RefillOk(cfg, env, r0, m)
  }

  /** A clean run at page `n`: `stream` was read from `r0`, its first `n`
      pages were handed on and the rest wait in the buffer from `pos` on. */
  predicate OnTrack(cfg: Config, env: Env, job: Job, r0: Reader, stream: seq<seq<byte>>, left: nat, r: Reader,
                    bufSize: int, pos: nat, n: nat, written: seq<seq<byte>>)
    requires ReaderInv(cfg, r0)
  {
    && n <= |stream|
    && ReadTo(cfg, env, r0, stream, r)
    && Buffered(cfg.pageSize, stream, left, r.buffer, bufSize, pos, stream[..n])
    && (!job.verifyOnly ==> written == stream[..n])
  }

  /** The stream read so far agrees with the pages the run is to write:
      the device takes its page `n`, and at the last step the pages handed
      on are the whole target. */
  lemma StreamMeetsTarget(cfg: Config, env: Env, job: Job, r0: Reader, stream: seq<seq<byte>>, n: nat)
    requires ReaderInv(cfg, r0) && Clean(cfg, env, job, r0)
    requires ReadPages(cfg, env, r0, |stream|).0 && ReadPages(cfg, env, r0, |stream|).1 == stream
    requires n < |stream| && n < Steps(job.nrPages)
    ensures !job.verifyOnly ==> job.sink(n, stream[n]) >= cfg.pageSize
    ensures n + 1 == Steps(job.nrPages) ==> stream[..n + 1] == ReadPages(cfg, env, r0, Steps(job.nrPages)).1
  {
    var nSteps := Steps(job.nrPages);
    var target := ReadPages(cfg, env, r0, nSteps).1;
    if |stream| <= nSteps {
      ReadPagesPrefix(cfg, env, r0, |stream|, nSteps);
      PrefixAgree(stream, target, n);
    } else {
      ReadPagesPrefix(cfg, env, r0, nSteps, |stream|);
      PrefixAgree(target, stream, n);
    }
  }

  /** Two sequences of which one is a prefix of the other agree up to the
      shorter one's length. */
  lemma PrefixAgree<T>(a: seq<T>, b: seq<T>, n: nat)
    requires |a| <= |b| && a == b[..|a|] && n < |a|
    ensures a[n] == b[n]
    ensures n + 1 == |a| ==> a == b[..n + 1]
    ensures n + 1 == |b| ==> b[..n + 1] == a[..n + 1]
  {
  }

  /** On a clean run the refill at page `n` succeeds and brings in the
      next pages of the image. */
  lemma RefillSucceeds(cfg: Config, env: Env, job: Job, r0: Reader, stream: seq<seq<byte>>, left: nat, r: Reader,
                       bufSize: int, pos: nat, n: nat, written: seq<seq<byte>>)
    requires ReaderInv(cfg, r0) && ReaderInv(cfg, r) && n < Steps(job.nrPages) && bufSize <= 0
    requires !cfg.decompress && Clean(cfg, env, job, r0)
    requires OnTrack(cfg, env, job, r0, stream, left, r, bufSize, pos, n, written)
    ensures var load := LoadBuffer(cfg, env, r);
            var got := ReadPages(cfg, env, r, FillCount(cfg.pageSize, cfg.bufferSize, r.total));
            && load.0 > 0
            && OnTrack(cfg, env, job, r0, stream + got.1, |got.1|, load.1, load.0, 0, n, written)
  {
    var ps := cfg.pageSize;
    MulMono(1, left, ps);
    assert |stream| == n;
    assert RefillOk(cfg, env, r0, n);
    var rp := ReadPages(cfg, env, r0, n);
    var cnt := FillCount(ps, cfg.bufferSize, r.total);
    ReadPagesIgnoresBuffers(cfg, env, rp.2, r, cnt);
    var got := ReadPages(cfg, env, r, cnt);
    var load := LoadBuffer(cfg, env, r);
    assert load == LoadPages(cfg, env, r);
    FlattenLength(got.1, ps);
    MulMono(1, cnt, ps);
    StreamRefill(cfg, env, r0, stream, r);
    assert (stream + got.1)[..n] == stream;
  }

  /** A refill `n` pages into a run whose `total_size` covers `nSteps`
      pages reads at least one page, and no more than the image has left. */
  lemma RefillCount(ps: nat, room: nat, total0: int, total: int, n: nat, nSteps: nat)
    requires ps > 0 && room >= ps && room % ps == 0
    requires nSteps * ps <= total0 && n < nSteps && total == total0 - n * ps
    ensures total0 > 0 && total > 0
    ensures 1 <= FillCount(ps, room, total) <= CeilDiv(total0, ps) - n
  {
    MulMono(n + 1, nSteps, ps);
    MulStep(n, ps);
    assert total >= ps;
    var all := CeilDiv(total0, ps);
    CeilAbove(total0, ps, nSteps);
    MulSub(all, n, ps);
    assert total <= (all - n) * ps;
    CeilBelow(total, ps, all - n);
    FillCountClosedForm(ps, room, total);
    assert FillCount(ps, room, total) <= CeilDiv(total, ps);
  }

  /** Where `total_size` covers `nSteps` pages and the image reads to its
      end, every refill before page `nSteps` finds what it asks for. */
  lemma RefillOkAt(cfg: Config, env: Env, r0: Reader, m: nat, nSteps: nat)
    requires ReaderInv(cfg, r0) && m < nSteps && nSteps * cfg.pageSize <= r0.total
    requires ReadPages(cfg, env, r0, ImagePages(cfg, r0)).0
    ensures RefillOk(cfg, env, r0, m)
  {
    var ps := cfg.pageSize;
    var rp := ReadPages(cfg, env, r0, m);
    if rp.0 {
      ReadPagesTotal(cfg, env, r0, m);
      RefillCount(ps, cfg.bufferSize, r0.total, rp.2.total, m, nSteps);
      var all := ImagePages(cfg, r0);
      assert all == CeilDiv(r0.total, ps);
      RefillReadsAt(cfg, env, r0, m, all, FillCount(ps, cfg.bufferSize, rp.2.total));
    }
  }

  /** Where the image reads to its end, so do the `cnt` pages after the
      first `m`, as long as they stay within it. */
  lemma RefillReadsAt(cfg: Config, env: Env, r0: Reader, m: nat, all: nat, cnt: nat)
    requires ReaderInv(cfg, r0) && m + cnt <= all && ReadPages(cfg, env, r0, all).0
    ensures ReadPages(cfg, env, ReadPages(cfg, env, r0, m).2, cnt).0
  {
    ReadPagesPrefix(cfg, env, r0, m + cnt, all);
    ReadPagesRest(cfg, env, r0, m, cnt);
  }

  /** A run that ended with success, having written `target` unless it
      only verified. */
  predicate Delivered(o: Outcome, job: Job, target: seq<seq<byte>>) {
    o.status == Ok && (!job.verifyOnly ==> o.written == target)
  }

  /** A clean run succeeds and writes the image's pages, from the top of
      the loop. */
  lemma {:induction false} LoopSucceeds(cfg: Config, env: Env, job: Job, r0: Reader, stream: seq<seq<byte>>,
                                         left: nat, r: Reader, bufSize: int, pos: nat, n: nat,
                                         written: seq<seq<byte>>, ticks: seq<nat>)
    requires ReaderInv(cfg, r0) && ReaderInv(cfg, r) && n < Steps(job.nrPages)
    requires pos % cfg.pageSize == 0 && (bufSize > 0 ==> pos + bufSize <= cfg.bufferSize)
    requires !cfg.decompress && Clean(cfg, env, job, r0)
    requires OnTrack(cfg, env, job, r0, stream, left, r, bufSize, pos, n, written)
    ensures Delivered(WriteLoop(cfg, env, job, r, bufSize, pos, n, written, ticks), job,
                      ReadPages(cfg, env, r0, Steps(job.nrPages)).1)
    decreases Steps(job.nrPages) - n, 1
  {
    var o := WriteLoop(cfg, env, job, r, bufSize, pos, n, written, ticks);
    if bufSize <= 0 {
      RefillSucceeds(cfg, env, job, r0, stream, left, r, bufSize, pos, n, written);
      var load := LoadBuffer(cfg, env, r);
      var got := ReadPages(cfg, env, r, FillCount(cfg.pageSize, cfg.bufferSize, r.total));
      assert o == WritePage(cfg, env, job, load.1, load.0, 0, n, written, ticks);
      PageSucceeds(cfg, env, job, r0, stream + got.1, |got.1|, load.1, load.0, 0, n, written, ticks);
    } else {
      assert o == WritePage(cfg, env, job, r, bufSize, pos, n, written, ticks);
      PageSucceeds(cfg, env, job, r0, stream, left, r, bufSize, pos, n, written, ticks);
    }
  }

  /** The same, from the write of one page. */
  lemma {:induction false} PageSucceeds(cfg: Config, env: Env, job: Job, r0: Reader, stream: seq<seq<byte>>,
                                         left: nat, r: Reader, bufSize: int, pos: nat, n: nat,
                                         written: seq<seq<byte>>, ticks: seq<nat>)
    requires ReaderInv(cfg, r0) && ReaderInv(cfg, r) && n < Steps(job.nrPages)
    requires pos % cfg.pageSize == 0 && bufSize > 0 && pos + bufSize <= cfg.bufferSize
    requires !cfg.decompress && Clean(cfg, env, job, r0)
    requires OnTrack(cfg, env, job, r0, stream, left, r, bufSize, pos, n, written)
    ensures Delivered(WritePage(cfg, env, job, r, bufSize, pos, n, written, ticks), job,
                      ReadPages(cfg, env, r0, Steps(job.nrPages)).1)
    decreases Steps(job.nrPages) - n, 0
  {
    PageOnTrack(cfg, env, job, r0, stream, left, r, bufSize, pos, n, written);
    if n + 1 < job.nrPages {
      LoopSucceeds(cfg, env, job, r0, stream, left - 1, r, bufSize - cfg.pageSize, pos + cfg.pageSize, n + 1,
                   if job.verifyOnly then written else written + [r.buffer[pos..pos + cfg.pageSize]],
                   Report(ticks, n, ProgressStep(job.nrPages)));
    }
    PageWritten(cfg, env, job, r, bufSize, pos, n, written, ticks, ReadPages(cfg, env, r0, Steps(job.nrPages)).1);
  }

  /** The page at `pos` of a clean run is taken by the device, and after
      it the run is on track again, or at its end with the target
      written. */
  lemma PageOnTrack(cfg: Config, env: Env, job: Job, r0: Reader, stream: seq<seq<byte>>, left: nat, r: Reader,
                    bufSize: int, pos: nat, n: nat, written: seq<seq<byte>>)
    requires ReaderInv(cfg, r0) && n < Steps(job.nrPages) && bufSize > 0 && pos % cfg.pageSize == 0
    requires Clean(cfg, env, job, r0)
    requires OnTrack(cfg, env, job, r0, stream, left, r, bufSize, pos, n, written)
    ensures left >= 1 && pos + cfg.pageSize <= |r.buffer| && (pos + cfg.pageSize) % cfg.pageSize == 0
    ensures !job.verifyOnly ==> job.sink(n, r.buffer[pos..pos + cfg.pageSize]) >= cfg.pageSize
    ensures OnTrack(cfg, env, job, r0, stream, left - 1, r, bufSize - cfg.pageSize, pos + cfg.pageSize, n + 1,
                    if job.verifyOnly then written else written + [r.buffer[pos..pos + cfg.pageSize]])
    ensures n + 1 == Steps(job.nrPages) && !job.verifyOnly ==>
              written + [r.buffer[pos..pos + cfg.pageSize]] == ReadPages(cfg, env, r0, Steps(job.nrPages)).1
  {
    ModAdd(pos, cfg.pageSize);
    TrackPage(cfg, env, job, r0, stream, left, r, bufSize, pos, n, written);
    StreamMeetsTarget(cfg, env, job, r0, stream, n);
  }

  /** A page the device takes in full leads to success with `target`
      written, if the rest of the run does. */
  lemma PageWritten(cfg: Config, env: Env, job: Job, r: Reader, bufSize: int, pos: nat, n: nat,
                    written: seq<seq<byte>>, ticks: seq<nat>, target: seq<seq<byte>>)
    requires ReaderInv(cfg, r) && n < Steps(job.nrPages)
    requires pos % cfg.pageSize == 0 && bufSize > 0 && pos + bufSize <= cfg.bufferSize
    requires pos + cfg.pageSize <= |r.buffer| && (pos + cfg.pageSize) % cfg.pageSize == 0
    requires !job.verifyOnly ==> job.sink(n, r.buffer[pos..pos + cfg.pageSize]) >= cfg.pageSize
    requires n + 1 < job.nrPages ==>
               Delivered(WriteLoop(cfg, env, job, r, bufSize - cfg.pageSize, pos + cfg.pageSize, n + 1,
                                   if job.verifyOnly then written else written + [r.buffer[pos..pos + cfg.pageSize]],
                                   Report(ticks, n, ProgressStep(job.nrPages))),
                         job, target)
    requires n + 1 >= job.nrPages && !job.verifyOnly ==> written + [r.buffer[pos..pos + cfg.pageSize]] == target
    ensures Delivered(WritePage(cfg, env, job, r, bufSize, pos, n, written, ticks), job, target)
  {
    WritePageAccepted(cfg, env, job, r, bufSize, pos, n, written, ticks);
  }

  /** Writing the page at `pos` keeps a clean run on track: the page is
      the next one of the stream. */
  lemma TrackPage(cfg: Config, env: Env, job: Job, r0: Reader, stream: seq<seq<byte>>, left: nat, r: Reader,
                  bufSize: int, pos: nat, n: nat, written: seq<seq<byte>>)
    requires ReaderInv(cfg, r0) && bufSize > 0
    requires OnTrack(cfg, env, job, r0, stream, left, r, bufSize, pos, n, written)
    ensures left >= 1 && n < |stream| && pos + cfg.pageSize <= |r.buffer|
    ensures r.buffer[pos..pos + cfg.pageSize] == stream[n]
    ensures !job.verifyOnly ==> written + [r.buffer[pos..pos + cfg.pageSize]] == stream[..n + 1]
    ensures OnTrack(cfg, env, job, r0, stream, left - 1, r, bufSize - cfg.pageSize, pos + cfg.pageSize, n + 1,
                    if job.verifyOnly then written else written + [r.buffer[pos..pos + cfg.pageSize]])
  {
    var ps := cfg.pageSize;
    StreamPage(ps, stream, left, r.buffer, bufSize, pos, stream[..n]);
    var page := r.buffer[pos..pos + ps];
    assert stream[..n] + [page] == stream[..n + 1];
    assert page == stream[n] by {
      assert (stream[..n] + [page])[n] == page;
    }
  }

  /** A page the device takes in full is recorded, and the run either goes
      round again or ends with success. */
  lemma WritePageAccepted(cfg: Config, env: Env, job: Job, r: Reader, bufSize: int, pos: nat, n: nat,
                          written: seq<seq<byte>>, ticks: seq<nat>)
    requires ReaderInv(cfg, r) && n < Steps(job.nrPages)
    requires pos % cfg.pageSize == 0 && bufSize > 0 && pos + bufSize <= cfg.bufferSize
    requires pos + cfg.pageSize <= |r.buffer| && (pos + cfg.pageSize) % cfg.pageSize == 0
    requires !job.verifyOnly ==> job.sink(n, r.buffer[pos..pos + cfg.pageSize]) >= cfg.pageSize
    ensures var written' := if job.verifyOnly then written else written + [r.buffer[pos..pos + cfg.pageSize]];
            var ticks' := Report(ticks, n, ProgressStep(job.nrPages));
            var o := WritePage(cfg, env, job, r, bufSize, pos, n, written, ticks);
            && (n + 1 < job.nrPages ==>
                  o == WriteLoop(cfg, env, job, r, bufSize - cfg.pageSize, pos + cfg.pageSize, n + 1, written', ticks'))
            && (n + 1 >= job.nrPages ==> o == Outcome(Ok, written', ticks', n + 1, r))
  {
    WritePageStep(cfg, env, job, r, bufSize, pos, n, written, ticks);
  }

  /** An uncompressed load from a reader whose image can be read to its end,
      onto a device that takes every page, succeeds: it does all
      `max(nr_pages, 1)` steps and writes the first pages of the image, in
      order. */
  lemma LoadSucceeds(cfg: Config, env: Env, job: Job, r: Reader)
    requires ReaderInv(cfg, r) && !cfg.decompress && Feasible(cfg, env, job, r)
    ensures var o := Load(cfg, env, job, r);
            && o.status == Ok && o.done == Steps(job.nrPages)
            && (!job.verifyOnly ==> o.written == ReadPages(cfg, env, r, Steps(job.nrPages)).1)
  {
    FeasibleIsClean(cfg, env, job, r);
    assert ReadTo(cfg, env, r, [], r);
    assert Buffered(cfg.pageSize, [], 0, r.buffer, 0, 0, []);
    assert OnTrack(cfg, env, job, r, [], 0, r, 0, 0, 0, []);
    LoopSucceeds(cfg, env, job, r, [], 0, r, 0, 0, 0, [], []);
  }

  /** The hypotheses of `LoadSucceeds` in the loop proofs' form. */
  lemma FeasibleIsClean(cfg: Config, env: Env, job: Job, r0: Reader)
    requires ReaderInv(cfg, r0) && Feasible(cfg, env, job, r0)
    ensures Clean(cfg, env, job, r0)
  {
    var ps := cfg.pageSize;
    var nSteps := Steps(job.nrPages);
    MulMono(1, nSteps, ps);
    CeilAbove(r0.total, ps, nSteps);
    ReadPagesPrefix(cfg, env, r0, nSteps, ImagePages(cfg, r0));
    forall m | 0 <= m < nSteps
      ensures RefillOk(cfg, env, r0, m)
    {
      RefillOkAt(cfg, env, r0, m, nSteps);
    }
  }
}
