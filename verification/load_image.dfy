/** The page loop `load_image` (s2diskus/load.c:391-443): image pages are
    taken one at a time from the work buffer, refilled by `load_buffer`
    whenever it runs dry, and written to the snapshot device (or only
    counted, when verifying), with a progress report every hundredth. */
module LoadImage {
  import opened Types
  import opened Arith
  import opened SwapReader
  import opened BufferLoader
  import opened PageFill

  /** `write(dev, buf, page_size)` for the page with the given index: the
      count it returns, negative on an error.  The device is outside the
      model, so any answer is possible. */
  type Sink = (nat, seq<byte>) -> int

  /** What the caller asks for: where pages go, how many, and whether they
      are only to be verified. */
  datatype Job = Job(sink: Sink, nrPages: nat, verifyOnly: bool)

  /** The result: the error code, the pages handed to the device and
      accepted, the progress values reported, how many pages were done, and
      the reader afterwards. */
  datatype Outcome = Outcome(status: Status, written: seq<seq<byte>>, ticks: seq<nat>, done: nat, reader: Reader)

  /** The loop is a do-while: one page even when `nr_pages` is 0. */
  function Steps(nrPages: nat): (k: nat)
    ensures k >= 1 && k >= nrPages && (nrPages > 0 ==> k == nrPages)
    ensures nrPages == 0 ==> k == 1
  {
    if nrPages == 0 then 1 else nrPages
  }

  /** The progress interval `m`: a hundredth of the pages, at least 1. */
  function ProgressStep(nrPages: nat): (m: nat)
    ensures m >= 1
    ensures m * 100 <= nrPages || (m == 1 && nrPages < 100)
    ensures nrPages < (m + 1) * 100
  {
    if nrPages / 100 == 0 then 1 else nrPages / 100
  }

  /** The progress values `0, 1, …, k - 1`. */
  function Upto(k: nat): (s: seq<nat>)
    ensures |s| == k && forall i :: 0 <= i < k ==> s[i] == i
  {
    seq(k, i => i)
  }

  /** The top of the loop body: refill the buffer when it is used up, and
      fail with EIO if that yields nothing. */
  function WriteLoop(cfg: Config, env: Env, job: Job, r: Reader, bufSize: int, pos: nat, n: nat,
                     written: seq<seq<byte>>, ticks: seq<nat>): (o: Outcome)
    requires ReaderInv(cfg, r) && n < Steps(job.nrPages)
    requires pos % cfg.pageSize == 0 && (bufSize > 0 ==> pos + bufSize <= cfg.bufferSize)
    ensures ReaderInv(cfg, o.reader)
    ensures o.status == Ok || o.status == Eio
    ensures n <= o.done <= Steps(job.nrPages)
    ensures o.status == Ok <==> o.done == Steps(job.nrPages)
    ensures job.verifyOnly ==> o.written == written
    ensures !job.verifyOnly ==> |o.written| == |written| + (o.done - n) && o.written[..|written|] == written
    decreases Steps(job.nrPages) - n, 1
  {
    if bufSize <= 0 then
      var load := LoadBuffer(cfg, env, r);
      if load.0 == 0 then Outcome(Eio, written, ticks, n, load.1)
      else WritePage(cfg, env, job, load.1, load.0, 0, n, written, ticks)
    else WritePage(cfg, env, job, r, bufSize, pos, n, written, ticks)
  }

  /** The first step of the loop decides the outcome: a refill that
      yields nothing stops the run with EIO and nothing more written, a
      short write does the same, and otherwise the first page recorded is
      the one at the head of the (refilled) buffer. */
  lemma LoopFirstStep(cfg: Config, env: Env, job: Job, r: Reader, bufSize: int, pos: nat, n: nat,
                      written: seq<seq<byte>>, ticks: seq<nat>)
    requires ReaderInv(cfg, r) && n < Steps(job.nrPages)
    requires pos % cfg.pageSize == 0 && (bufSize > 0 ==> pos + bufSize <= cfg.bufferSize)
    ensures var o := WriteLoop(cfg, env, job, r, bufSize, pos, n, written, ticks);
            var load := LoadBuffer(cfg, env, r);
            && (bufSize <= 0 && load.0 == 0 ==> o.status == Eio && o.done == n && o.reader == load.1)
            && (bufSize <= 0 && !job.verifyOnly && o.done > n ==> o.written[|written|] == load.1.buffer[..cfg.pageSize])
            && (bufSize > 0 && pos + cfg.pageSize <= |r.buffer| && !job.verifyOnly ==>
                  && (job.sink(n, r.buffer[pos..pos + cfg.pageSize]) < cfg.pageSize ==>
                        o.status == Eio && o.done == n && o.reader == r)
                  && (o.done > n ==> o.written[|written|] == r.buffer[pos..pos + cfg.pageSize]))
  {
  }

  /** The rest of the loop body: hand the page at `pos` to the device (a
      verify-only run counts it as written), fail with EIO on a short or
      failed write, report progress every `m` pages, and go round again
      while `n < nr_pages`. */
  function WritePage(cfg: Config, env: Env, job: Job, r: Reader, bufSize: int, pos: nat, n: nat,
                     written: seq<seq<byte>>, ticks: seq<nat>): (o: Outcome)
    requires ReaderInv(cfg, r) && n < Steps(job.nrPages)
    requires pos % cfg.pageSize == 0 && bufSize > 0 && pos + bufSize <= cfg.bufferSize
    ensures ReaderInv(cfg, o.reader)
    ensures o.status == Ok || o.status == Eio
    ensures n <= o.done <= Steps(job.nrPages)
    ensures o.status == Ok <==> o.done == Steps(job.nrPages)
    ensures job.verifyOnly ==> o.written == written
    ensures !job.verifyOnly ==> |o.written| == |written| + (o.done - n) && o.written[..|written|] == written
    ensures pos + cfg.pageSize <= |r.buffer| && !job.verifyOnly ==>
              && (job.sink(n, r.buffer[pos..pos + cfg.pageSize]) < cfg.pageSize ==>
                    o.status == Eio && o.done == n && o.reader == r)
              && (o.done > n ==> o.written[|written|] == r.buffer[pos..pos + cfg.pageSize])
    decreases Steps(job.nrPages) - n, 0
  {
    var ps := cfg.pageSize;
    var m := ProgressStep(job.nrPages);
    ModGap(pos, cfg.bufferSize, ps);
    var page := r.buffer[pos..pos + ps];
    var ret := if job.verifyOnly then ps else job.sink(n, page);
    if ret < ps then Outcome(Eio, written, ticks, n, r)
    else
      var written' := if job.verifyOnly then written else written + [page];
      var ticks' := Report(ticks, n, m);
      if n + 1 < job.nrPages then
        ModAdd(pos, ps);
        WriteLoop(cfg, env, job, r, bufSize - ps, pos + ps, n + 1, written', ticks')
      else Outcome(Ok, written', ticks', n + 1, r)
  }

  /** One page write unfolded: a short write stops with EIO, a full one is
      recorded and either ends the run or goes round again. */
  lemma WritePageStep(cfg: Config, env: Env, job: Job, r: Reader, bufSize: int, pos: nat, n: nat,
                      written: seq<seq<byte>>, ticks: seq<nat>)
    requires ReaderInv(cfg, r) && n < Steps(job.nrPages)
    requires pos % cfg.pageSize == 0 && bufSize > 0 && pos + bufSize <= cfg.bufferSize
    requires pos + cfg.pageSize <= |r.buffer| && (pos + cfg.pageSize) % cfg.pageSize == 0
    ensures var ps := cfg.pageSize;
            var page := r.buffer[pos..pos + ps];
            var o := WritePage(cfg, env, job, r, bufSize, pos, n, written, ticks);
            var written' := if job.verifyOnly then written else written + [page];
            var ticks' := Report(ticks, n, ProgressStep(job.nrPages));
            if !job.verifyOnly && job.sink(n, page) < ps then o == Outcome(Eio, written, ticks, n, r)
            else if n + 1 < job.nrPages then o == WriteLoop(cfg, env, job, r, bufSize - ps, pos + ps, n + 1, written', ticks')
            else o == Outcome(Ok, written', ticks', n + 1, r)
  {
  }

  /** The progress reports after page `n`: one more, the value `n / m`,
      when `n` is a multiple of `m`. */
  function Report(ticks: seq<nat>, n: nat, m: nat): (t: seq<nat>)
    requires m >= 1
  {
    if n % m == 0 then ticks + [n / m] else ticks
  }

  /** A report falls due exactly when `n` starts a new interval of `m`. */
  lemma TickStep(n: nat, m: nat)
    requires m >= 1
    ensures n % m == 0 ==> CeilDiv(n + 1, m) == CeilDiv(n, m) + 1 && n / m == CeilDiv(n, m)
    ensures n % m != 0 ==> CeilDiv(n + 1, m) == CeilDiv(n, m)
  {
    if n % m == 0 {
      TickDue(n, m);
    } else {
      TickNotDue(n, m);
    }
  }

  lemma TickDue(n: nat, m: nat)
    requires m >= 1 && n % m == 0
    ensures CeilDiv(n + 1, m) == CeilDiv(n, m) + 1 && n / m == CeilDiv(n, m)
  {
    var q := n / m;
    assert n == q * m;
    DivUnique(n + m - 1, m, q, m - 1);
    DivUnique(n + 1 + m - 1, m, q + 1, 0);
  }

  lemma TickNotDue(n: nat, m: nat)
    requires m >= 1 && n % m != 0
    ensures CeilDiv(n + 1, m) == CeilDiv(n, m)
  {
    var q := n / m;
    var s := n % m;
    assert n == q * m + s;
    DivUnique(n + m - 1, m, q + 1, s - 1);
    DivUnique(n + 1 + m - 1, m, q + 1, s);
  }

  /** Progress reports, from the top of the loop: if the values `0, 1, …`
      up to page `n` were reported, those up to the last page done are. */
  lemma {:induction false} LoopReports(cfg: Config, env: Env, job: Job, r: Reader, bufSize: int, pos: nat, n: nat,
                                        written: seq<seq<byte>>, ticks: seq<nat>)
    requires ReaderInv(cfg, r) && n < Steps(job.nrPages)
    requires pos % cfg.pageSize == 0 && (bufSize > 0 ==> pos + bufSize <= cfg.bufferSize)
    requires ticks == Upto(CeilDiv(n, ProgressStep(job.nrPages)))
    ensures var o := WriteLoop(cfg, env, job, r, bufSize, pos, n, written, ticks);
            o.ticks == Upto(CeilDiv(o.done, ProgressStep(job.nrPages)))
    decreases Steps(job.nrPages) - n, 1
  {
    var o := WriteLoop(cfg, env, job, r, bufSize, pos, n, written, ticks);
    if bufSize <= 0 {
      var load := LoadBuffer(cfg, env, r);
      if load.0 > 0 {
        assert o == WritePage(cfg, env, job, load.1, load.0, 0, n, written, ticks);
        PageReports(cfg, env, job, load.1, load.0, 0, n, written, ticks);
      } else {
        assert o == Outcome(Eio, written, ticks, n, load.1);
      }
    } else {
      assert o == WritePage(cfg, env, job, r, bufSize, pos, n, written, ticks);
      PageReports(cfg, env, job, r, bufSize, pos, n, written, ticks);
    }
  }

  /** The same, from the write of one page. */
  lemma {:induction false} PageReports(cfg: Config, env: Env, job: Job, r: Reader, bufSize: int, pos: nat, n: nat,
                                        written: seq<seq<byte>>, ticks: seq<nat>)
    requires ReaderInv(cfg, r) && n < Steps(job.nrPages)
    requires pos % cfg.pageSize == 0 && bufSize > 0 && pos + bufSize <= cfg.bufferSize
    requires ticks == Upto(CeilDiv(n, ProgressStep(job.nrPages)))
    ensures var o := WritePage(cfg, env, job, r, bufSize, pos, n, written, ticks);
            o.ticks == Upto(CeilDiv(o.done, ProgressStep(job.nrPages)))
    decreases Steps(job.nrPages) - n, 0
  {
    var ps := cfg.pageSize;
    var m := ProgressStep(job.nrPages);
    ModGap(pos, cfg.bufferSize, ps);
    ModAdd(pos, ps);
    var page := r.buffer[pos..pos + ps];
    WritePageStep(cfg, env, job, r, bufSize, pos, n, written, ticks);
    if job.verifyOnly || job.sink(n, page) >= ps {
      var written' := if job.verifyOnly then written else written + [page];
      TickStep(n, m);
      var ticks' := Report(ticks, n, m);
      assert ticks' == Upto(CeilDiv(n + 1, m));
      if n + 1 < job.nrPages {
        LoopReports(cfg, env, job, r, bufSize - ps, pos + ps, n + 1, written', ticks');
      }
    }
  }

  /** Each page was accepted in full by the write call with its index. */
  predicate Accepted(sink: Sink, pages: seq<seq<byte>>, pageSize: nat) {
    forall i :: 0 <= i < |pages| ==> sink(i, pages[i]) >= pageSize
  }

  /** Every page recorded as written was accepted in full by the write
      call with its index, from the top of the loop. */
  lemma {:induction false} LoopAccepted(cfg: Config, env: Env, job: Job, r: Reader, bufSize: int, pos: nat, n: nat,
                                         written: seq<seq<byte>>, ticks: seq<nat>)
    requires ReaderInv(cfg, r) && n < Steps(job.nrPages)
    requires pos % cfg.pageSize == 0 && (bufSize > 0 ==> pos + bufSize <= cfg.bufferSize)
    requires !job.verifyOnly ==> |written| == n
    requires Accepted(job.sink, written, cfg.pageSize)
    ensures var o := WriteLoop(cfg, env, job, r, bufSize, pos, n, written, ticks);
            Accepted(job.sink, o.written, cfg.pageSize)
    decreases Steps(job.nrPages) - n, 1
  {
    var o := WriteLoop(cfg, env, job, r, bufSize, pos, n, written, ticks);
    if bufSize <= 0 {
      var load := LoadBuffer(cfg, env, r);
      if load.0 > 0 {
        assert o == WritePage(cfg, env, job, load.1, load.0, 0, n, written, ticks);
        PageAccepted(cfg, env, job, load.1, load.0, 0, n, written, ticks);
      } else {
        assert o.written == written;
      }
    } else {
      assert o == WritePage(cfg, env, job, r, bufSize, pos, n, written, ticks);
      PageAccepted(cfg, env, job, r, bufSize, pos, n, written, ticks);
    }
  }

  /** The same, from the write of one page. */
  lemma {:induction false} PageAccepted(cfg: Config, env: Env, job: Job, r: Reader, bufSize: int, pos: nat, n: nat,
                                         written: seq<seq<byte>>, ticks: seq<nat>)
    requires ReaderInv(cfg, r) && n < Steps(job.nrPages)
    requires pos % cfg.pageSize == 0 && bufSize > 0 && pos + bufSize <= cfg.bufferSize
    requires !job.verifyOnly ==> |written| == n
    requires Accepted(job.sink, written, cfg.pageSize)
    ensures var o := WritePage(cfg, env, job, r, bufSize, pos, n, written, ticks);
            Accepted(job.sink, o.written, cfg.pageSize)
    decreases Steps(job.nrPages) - n, 0
  {
    var ps := cfg.pageSize;
    ModGap(pos, cfg.bufferSize, ps);
    ModAdd(pos, ps);
    var page := r.buffer[pos..pos + ps];
    WritePageStep(cfg, env, job, r, bufSize, pos, n, written, ticks);
    if job.verifyOnly || job.sink(n, page) >= ps {
      var written' := if job.verifyOnly then written else written + [page];
      if !job.verifyOnly {
        AcceptedSnoc(job.sink, written, page, ps);
      }
      var ticks' := Report(ticks, n, ProgressStep(job.nrPages));
      if n + 1 < job.nrPages {
        LoopAccepted(cfg, env, job, r, bufSize - ps, pos + ps, n + 1, written', ticks');
      }
    }
  }

  /** A page accepted by the write call with the next index extends an
      accepted run. */
  lemma AcceptedSnoc(sink: Sink, pages: seq<seq<byte>>, page: seq<byte>, pageSize: nat)
    requires Accepted(sink, pages, pageSize) && sink(|pages|, page) >= pageSize
    ensures Accepted(sink, pages + [page], pageSize)
  {
    var pages' := pages + [page];
    forall i | 0 <= i < |pages'|
      ensures sink(i, pages'[i]) >= pageSize
    {
      if i < |pages| {
        assert pages'[i] == pages[i];
      }
    }
  }

  /** `load_image`: write (or verify) the image's pages, starting with an
      empty work buffer. */
  function Load(cfg: Config, env: Env, job: Job, r: Reader): (o: Outcome)
    requires ReaderInv(cfg, r)
    ensures ReaderInv(cfg, o.reader)
    ensures o.status == Ok || o.status == Eio
    ensures o.done <= Steps(job.nrPages)
    ensures o.status == Ok <==> o.done == Steps(job.nrPages)
    ensures job.verifyOnly ==> o.written == []
    ensures !job.verifyOnly ==> |o.written| == o.done
    ensures Accepted(job.sink, o.written, cfg.pageSize)
    ensures o.ticks == Upto(CeilDiv(o.done, ProgressStep(job.nrPages)))
  {
    assert [] == Upto(CeilDiv(0, ProgressStep(job.nrPages)));
    LoopReports(cfg, env, job, r, 0, 0, 0, [], []);
    LoopAccepted(cfg, env, job, r, 0, 0, 0, [], []);
    WriteLoop(cfg, env, job, r, 0, 0, 0, [], [])
  }

  // ---------------------------------------------------------------------
  // Uncompressed images: the written pages are the image's pages in order
  // ---------------------------------------------------------------------

  /** The first `a` pages of a successful read of `k` pages are the read of
      `a` pages. */
  lemma ReadPagesPrefix(cfg: Config, env: Env, r: Reader, a: nat, k: nat)
    requires ReaderInv(cfg, r) && a <= k && ReadPages(cfg, env, r, k).0
    ensures ReadPages(cfg, env, r, a).0
    ensures ReadPages(cfg, env, r, a).1 == ReadPages(cfg, env, r, k).1[..a]
  {
    ReadPagesSplit(cfg, env, r, a, k - a);
    assert a + (k - a) == k;
  }

  /** The pages `stream` are the first pages read from `r0`, and `r`
      stands right after them. */
  predicate ReadTo(cfg: Config, env: Env, r0: Reader, stream: seq<seq<byte>>, r: Reader)
    requires ReaderInv(cfg, r0)
  {
    var rp := ReadPages(cfg, env, r0, |stream|);
    rp.0 && rp.1 == stream && SamePosition(rp.2, r)
  }

  /** The buffer of an uncompressed run: the pages written so far, then
      the `left` pages that sit in the buffer from `pos` on, make up
      `stream`. */
  predicate Buffered(pageSize: nat, stream: seq<seq<byte>>, left: nat, buffer: seq<byte>, bufSize: int, pos: nat,
                     written: seq<seq<byte>>)
  {
    && (forall i :: 0 <= i < |stream| ==> |stream[i]| == pageSize)
    && bufSize == left * pageSize
    && |written| + left == |stream|
    && written == stream[..|written|]
    && pos + bufSize <= |buffer|
    && buffer[pos..pos + bufSize] == Flatten(stream[|written|..])
  }

  /** `pages` are the first pages read from `r0`. */
  predicate Streamed(cfg: Config, env: Env, r0: Reader, pages: seq<seq<byte>>)
    requires ReaderInv(cfg, r0)
  {
    ReadPages(cfg, env, r0, |pages|).0 && ReadPages(cfg, env, r0, |pages|).1 == pages
  }

  /** Where an uncompressed run stops, what it wrote is the start of the
      image's page stream. */
  lemma StreamStop(cfg: Config, env: Env, r0: Reader, stream: seq<seq<byte>>, r: Reader, written: seq<seq<byte>>)
    requires ReaderInv(cfg, r0) && ReadTo(cfg, env, r0, stream, r)
    requires |written| <= |stream| && written == stream[..|written|]
    ensures Streamed(cfg, env, r0, written)
  {
    ReadPagesPrefix(cfg, env, r0, |written|, |stream|);
  }

  /** Reading on from where the stream stopped extends the stream. */
  lemma ReadToExtend(cfg: Config, env: Env, r0: Reader, stream: seq<seq<byte>>, r: Reader, k: nat)
    requires ReaderInv(cfg, r0) && ReaderInv(cfg, r) && ReadTo(cfg, env, r0, stream, r)
    requires ReadPages(cfg, env, r, k).0
    ensures ReadTo(cfg, env, r0, stream + ReadPages(cfg, env, r, k).1, ReadPages(cfg, env, r, k).2)
  {
    var rp := ReadPages(cfg, env, r0, |stream|);
    var got := ReadPages(cfg, env, r, k);
    ReadPagesIgnoresBuffers(cfg, env, r, rp.2, k);
    var more := ReadPages(cfg, env, rp.2, k);
    ReadPagesSplit(cfg, env, r0, |stream|, k);
    assert ReadThenRead(cfg, env, r0, |stream|, k) == (more.0, rp.1 + more.1, more.2);
    assert |stream + got.1| == |stream| + k;
  }

  /** Two runs of whole pages make one. */
  lemma SizedAppend(pageSize: nat, a: seq<seq<byte>>, b: seq<seq<byte>>)
    requires forall i :: 0 <= i < |a| ==> |a[i]| == pageSize
    requires forall i :: 0 <= i < |b| ==> |b[i]| == pageSize
    ensures forall i :: 0 <= i < |a + b| ==> |(a + b)[i]| == pageSize
  {
    forall i | 0 <= i < |a + b|
      ensures |(a + b)[i]| == pageSize
    {
      if i >= |a| {
        assert (a + b)[i] == b[i - |a|];
      }
    }
  }

  /** A refill of an uncompressed buffer brings in the next pages of the
      stream. */
  lemma StreamRefill(cfg: Config, env: Env, r0: Reader, stream: seq<seq<byte>>, r: Reader)
    requires ReaderInv(cfg, r0) && ReaderInv(cfg, r)
    requires ReadTo(cfg, env, r0, stream, r)
    requires LoadPages(cfg, env, r).0 > 0
    ensures var load := LoadPages(cfg, env, r);
            var got := ReadPages(cfg, env, r, FillCount(cfg.pageSize, cfg.bufferSize, r.total));
            && ReadTo(cfg, env, r0, stream + got.1, load.1)
            && Buffered(cfg.pageSize, stream + got.1, |got.1|, load.1.buffer, load.0, 0, stream)
  {
    var ps := cfg.pageSize;
    var load := LoadPages(cfg, env, r);
    var cnt := FillCount(ps, cfg.bufferSize, r.total);
    var got := ReadPages(cfg, env, r, cnt);
    assert got.0 && |got.1| == cnt;
    FlattenLength(got.1, ps);
    assert load.0 == cnt * ps;
    var all := stream + got.1;
    ReadToExtend(cfg, env, r0, stream, r, cnt);
    assert SamePosition(got.2, load.1);
    assert ReadTo(cfg, env, r0, all, load.1);
    assert stream == ReadPages(cfg, env, r0, |stream|).1;
    SizedAppend(ps, stream, got.1);
    assert all[..|stream|] == stream;
    assert all[|stream|..] == got.1;
    assert load.1.buffer[0..load.0] == Flatten(all[|stream|..]);
  }

  /** Writing the page at `pos` moves one page from the buffer to the
      written pages. */
  lemma StreamPage(pageSize: nat, stream: seq<seq<byte>>, left: nat, buffer: seq<byte>, bufSize: int, pos: nat,
                   written: seq<seq<byte>>)
    requires pageSize > 0 && bufSize > 0
    requires Buffered(pageSize, stream, left, buffer, bufSize, pos, written)
    ensures left >= 1 && pos + pageSize <= |buffer|
    ensures Buffered(pageSize, stream, left - 1, buffer, bufSize - pageSize, pos + pageSize,
                     written + [buffer[pos..pos + pageSize]])
  {
    MulStep(left - 1, pageSize);
    var held := stream[|written|..];
    assert |held| == left;
    assert Flatten(held) == held[0] + Flatten(held[1..]);
    assert |held[0]| == pageSize;
    var window := buffer[pos..pos + bufSize];
    assert buffer[pos..pos + pageSize] == window[..pageSize] == held[0];
    assert buffer[pos + pageSize..pos + bufSize] == window[pageSize..] == Flatten(held[1..]);
    var written' := written + [held[0]];
    assert written' == stream[..|written'|];
    assert held[1..] == stream[|written'|..];
  }

  /** In an uncompressed run that writes, the pages handed to the device
      are the image's pages in stream order, from the top of the loop. */
  lemma {:induction false} LoopWritesStream(cfg: Config, env: Env, job: Job, r0: Reader, stream: seq<seq<byte>>,
                                             left: nat, r: Reader, bufSize: int, pos: nat, n: nat,
                                             written: seq<seq<byte>>, ticks: seq<nat>)
    requires ReaderInv(cfg, r0) && ReaderInv(cfg, r) && n < Steps(job.nrPages)
    requires pos % cfg.pageSize == 0 && (bufSize > 0 ==> pos + bufSize <= cfg.bufferSize)
    requires !cfg.decompress && !job.verifyOnly
    requires ReadTo(cfg, env, r0, stream, r)
    requires Buffered(cfg.pageSize, stream, left, r.buffer, bufSize, pos, written)
    ensures var o := WriteLoop(cfg, env, job, r, bufSize, pos, n, written, ticks);
            Streamed(cfg, env, r0, o.written)
    decreases Steps(job.nrPages) - n, 1
  {
    var o := WriteLoop(cfg, env, job, r, bufSize, pos, n, written, ticks);
    if bufSize <= 0 {
      MulMono(1, left, cfg.pageSize);
      assert left == 0 && written == stream;
      var load := LoadBuffer(cfg, env, r);
      assert load == LoadPages(cfg, env, r);
      if load.0 == 0 {
        assert o.written == written;
        StreamStop(cfg, env, r0, stream, r, written);
      } else {
        StreamRefill(cfg, env, r0, stream, r);
        var got := ReadPages(cfg, env, r, FillCount(cfg.pageSize, cfg.bufferSize, r.total));
        assert o == WritePage(cfg, env, job, load.1, load.0, 0, n, written, ticks);
        PageWritesStream(cfg, env, job, r0, stream + got.1, |got.1|, load.1, load.0, 0, n, written, ticks);
      }
    } else {
      assert o == WritePage(cfg, env, job, r, bufSize, pos, n, written, ticks);
      PageWritesStream(cfg, env, job, r0, stream, left, r, bufSize, pos, n, written, ticks);
    }
  }

  /** The same, from the write of one page. */
  lemma {:induction false} PageWritesStream(cfg: Config, env: Env, job: Job, r0: Reader, stream: seq<seq<byte>>,
                                             left: nat, r: Reader, bufSize: int, pos: nat, n: nat,
                                             written: seq<seq<byte>>, ticks: seq<nat>)
    requires ReaderInv(cfg, r0) && ReaderInv(cfg, r) && n < Steps(job.nrPages)
    requires pos % cfg.pageSize == 0 && bufSize > 0 && pos + bufSize <= cfg.bufferSize
    requires !cfg.decompress && !job.verifyOnly
    requires ReadTo(cfg, env, r0, stream, r)
    requires Buffered(cfg.pageSize, stream, left, r.buffer, bufSize, pos, written)
    ensures var o := WritePage(cfg, env, job, r, bufSize, pos, n, written, ticks);
            Streamed(cfg, env, r0, o.written)
    decreases Steps(job.nrPages) - n, 0
  {
    var ps := cfg.pageSize;
    StreamPage(ps, stream, left, r.buffer, bufSize, pos, written);
    var page := r.buffer[pos..pos + ps];
    var o := WritePage(cfg, env, job, r, bufSize, pos, n, written, ticks);
    if job.sink(n, page) < ps || n + 1 >= job.nrPages {
      PageEndsStream(cfg, env, job, r0, stream, r, bufSize, pos, n, written, ticks);
    } else {
      var ticks' := Report(ticks, n, ProgressStep(job.nrPages));
      ModAdd(pos, ps);
      WritePageStep(cfg, env, job, r, bufSize, pos, n, written, ticks);
      LoopWritesStream(cfg, env, job, r0, stream, left - 1, r, bufSize - ps, pos + ps, n + 1, written + [page], ticks');
    }
  }

  /** A short write, or the last page, ends an uncompressed run with a
      prefix of the stream written. */
  lemma PageEndsStream(cfg: Config, env: Env, job: Job, r0: Reader, stream: seq<seq<byte>>, r: Reader,
                       bufSize: int, pos: nat, n: nat, written: seq<seq<byte>>, ticks: seq<nat>)
    requires ReaderInv(cfg, r0) && ReaderInv(cfg, r) && n < Steps(job.nrPages)
    requires pos % cfg.pageSize == 0 && bufSize > 0 && pos + bufSize <= cfg.bufferSize
    requires !job.verifyOnly && ReadTo(cfg, env, r0, stream, r)
    requires pos + cfg.pageSize <= |r.buffer| && |written| < |stream|
    requires written + [r.buffer[pos..pos + cfg.pageSize]] == stream[..|written| + 1]
    requires job.sink(n, r.buffer[pos..pos + cfg.pageSize]) < cfg.pageSize || n + 1 >= job.nrPages
    ensures Streamed(cfg, env, r0, WritePage(cfg, env, job, r, bufSize, pos, n, written, ticks).written)
  {
    var page := r.buffer[pos..pos + cfg.pageSize];
    var o := WritePage(cfg, env, job, r, bufSize, pos, n, written, ticks);
    if job.sink(n, page) < cfg.pageSize {
      assert o.written == written;
      assert written == stream[..|written|] by {
        assert (written + [page])[..|written|] == written;
      }
      StreamStop(cfg, env, r0, stream, r, written);
    } else {
      assert o.written == written + [page];
      StreamStop(cfg, env, r0, stream, r, written + [page]);
    }
  }

  /** An uncompressed image written to the device arrives as the image's
      page stream: the `k` pages written are the first `k` pages read. */
  lemma LoadWritesStream(cfg: Config, env: Env, job: Job, r: Reader)
    requires ReaderInv(cfg, r) && !cfg.decompress && !job.verifyOnly
    ensures var o := Load(cfg, env, job, r);
            ReadPages(cfg, env, r, |o.written|).0 && ReadPages(cfg, env, r, |o.written|).1 == o.written
  {
    assert ReadTo(cfg, env, r, [], r);
    assert Buffered(cfg.pageSize, [], 0, r.buffer, 0, 0, []);
    LoopWritesStream(cfg, env, job, r, [], 0, r, 0, 0, 0, [], []);
  }
}
