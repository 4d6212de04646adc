/** The uncompressed branch of `load_buffer` (s2diskus/load.c:366-377):
    pages are read one by one into the work buffer while it has room and
    the image has bytes left. */
module PageFill {
  import opened Types
  import opened Arith
  import opened SwapReader

  /** The uncompressed loop as written (s2diskus/load.c:369-377): read pages
      while `size < buffer_size` and `total_size > 0`; a failed page ends
      it.  Returns whether it ended normally, the pages read, the reader. */
  function FillLoop(cfg: Config, env: Env, r: Reader, size: nat): (res: (bool, seq<seq<byte>>, Reader))
    requires ReaderInv(cfg, r)
    decreases cfg.bufferSize - size
  {
    if size < cfg.bufferSize && r.total > 0 then
      var step := LoadAndDecryptPage(cfg, env, r);
      if step.0 != Ok then (false, [], step.2)
      else
        var more := FillLoop(cfg, env, step.2, size + cfg.pageSize);
        (more.0, [step.1] + more.1, more.2)
    else (true, [], r)
  }

  /** How many pages the uncompressed loop reads, when none fails, with
      `room` bytes of the buffer still free and `total` bytes of the image
      still to come. */
  function FillCount(pageSize: nat, room: nat, total: int): (k: nat)
    requires pageSize > 0 && room % pageSize == 0
    ensures k * pageSize <= room
    ensures k == 0 <==> room == 0 || total <= 0
    decreases room
  {
    if room > 0 && total > 0 then
      ModGap(0, room, pageSize);
      MulDiv(1, pageSize);
      ModSub(room, pageSize, pageSize);
      var k := FillCount(pageSize, room - pageSize, total - pageSize);
      MulStep(k, pageSize);
      k + 1
    else 0
  }

  /** The count in closed form: nothing when the image is exhausted, else
      as many pages as fit in the room, but no more than the rest of the
      image needs. */
  lemma {:induction false} FillCountClosedForm(pageSize: nat, room: nat, total: int)
    requires pageSize > 0 && room % pageSize == 0
    ensures FillCount(pageSize, room, total)
            == if total <= 0 then 0
               else var fit := room / pageSize;
                    var need := CeilDiv(total, pageSize);
                    if need < fit then need else fit
    decreases room
  {
    if room > 0 && total > 0 {
      ModGap(0, room, pageSize);
      MulDiv(1, pageSize);
      ModSub(room, pageSize, pageSize);
      FillCountClosedForm(pageSize, room - pageSize, total - pageSize);
      DivStep(room, pageSize);
      if total > pageSize {
        CeilStep(total, pageSize);
      } else {
        DivUnique(total + pageSize - 1, pageSize, 1, total - 1);
      }
    }
  }

  /** The loop as written reads exactly `FillCount` pages (fewer only when
      a read fails), namely the next pages of the stream. */
  lemma {:induction false} FillLoopReadsFillCount(cfg: Config, env: Env, r: Reader, size: nat)
    requires ReaderInv(cfg, r) && size <= cfg.bufferSize && size % cfg.pageSize == 0
    ensures (cfg.bufferSize - size) % cfg.pageSize == 0
    ensures FillLoop(cfg, env, r, size)
            == ReadPages(cfg, env, r, FillCount(cfg.pageSize, cfg.bufferSize - size, r.total))
    decreases cfg.bufferSize - size
  {
    ModSub(cfg.bufferSize, size, cfg.pageSize);
    if size < cfg.bufferSize && r.total > 0 {
      var step := LoadAndDecryptPage(cfg, env, r);
      if step.0 == Ok {
        ModGap(size, cfg.bufferSize, cfg.pageSize);
        ModAdd(size, cfg.pageSize);
        FillLoopReadsFillCount(cfg, env, step.2, size + cfg.pageSize);
        assert cfg.bufferSize - size - cfg.pageSize == cfg.bufferSize - (size + cfg.pageSize);
        assert FillLoop(cfg, env, r, size) == ReadPages(cfg, env, r, FillCount(cfg.pageSize, cfg.bufferSize - size, r.total));
      } else {
        assert FillLoop(cfg, env, r, size) == ReadPages(cfg, env, r, FillCount(cfg.pageSize, cfg.bufferSize - size, r.total));
      }
    } else {
      assert FillLoop(cfg, env, r, size) == ReadPages(cfg, env, r, FillCount(cfg.pageSize, cfg.bufferSize - size, r.total));
    }
  }
}
