/** The resume partition as the loader sees it through `lseek` and `read`. */
module SwapDevice {
  import opened Types

  /** The swap device: the offsets at which a seek lands, each mapped to the
      bytes a read from there returns (fewer than a page is a short read). */
  type Swap = map<int, seq<byte>>

  /** What `read_page` leaves behind: a skipped read (offset 0), a full
      page, or an I/O error. */
  datatype PageRead = Skipped | Loaded(data: seq<byte>) | IoError {

    /** The value `read_page` returns. */
    function Result(): Status {
      if IoError? then Eio else Ok
    }
  }

  /** `read_page` (s2diskus/load.c:76-90).  Offset 0 is a successful no-op
      that leaves the destination buffer as it was; any other offset must
      be reachable by a seek and must yield a full page. */
  function ReadPage(swap: Swap, pageSize: nat, offset: int): (r: PageRead)
    ensures r.Skipped? <==> offset == 0
    ensures r.IoError? <==> offset != 0 && (offset !in swap || |swap[offset]| < pageSize)
    ensures r.Loaded? ==> |r.data| == pageSize && r.data == swap[offset][..pageSize]
  {
    if offset == 0 then Skipped
    else if offset in swap && |swap[offset]| >= pageSize then Loaded(swap[offset][..pageSize])
    else IoError
  }
}
