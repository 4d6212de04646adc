/** `read_or_verify` (s2diskus/load.c:661-813): reads the image header,
    switches the codec, cipher and checksum layers on as the header flags
    and the build allow, loads the image, and judges the result by the
    ISA-L authentication tag and the MD5 checksum. */
module Restore {
  import opened Types
  import opened SwapDevice
  import opened Extents
  import opened SwapReader
  import opened LoadImage

  /** The block codec the loader was built with (`CONFIG_COMPRESS`). */
  datatype Codec = NoCodec | Lzo | Igzip | Lz4

  /** The cipher the loader was built with (`CONFIG_ENCRYPT`). */
  datatype CipherKind = NoCipher | Gcrypt | Isal

  /** One compile-time configuration of the loader; `verity` stands for
      `CONFIG_VERITY`. */
  datatype Build = Build(codec: Codec, cipher: CipherKind, verity: bool)

  /** The configuration the repository's generated `config.h` selects:
      neither `CONFIG_COMPRESS` nor `CONFIG_ENCRYPT` nor `CONFIG_VERITY`. */
  const Shipped := Build(NoCodec, NoCipher, false)

  /** The fields of `struct image_header_info` that the loader consults:
      the checksum, compression and encryption flags, the first extent
      table, the image size in bytes, the page count, the MD5 digest and
      the GCM tag.  The binary layout is not part of this model. */
  datatype Header = Header(checksumFlag: bool, compressed: bool, encrypted: bool,
                           mapStart: int, imageDataSize: int, pages: nat,
                           checksum: seq<byte>, tag: seq<byte>)

  /** The library calls `read_or_verify` and key recovery make, taken as
      given values: whether `lzo_init` succeeds; what `restore_key` returns
      and the cipher state it leaves; the same for `gcry_cipher_setiv` in
      test mode; the tag `aes_gcm_dec_128_finalize` derives from a cipher
      state; the MD5 digest of the bytes fed in; and how a page read into
      the header structure is understood. */
  datatype Platform = Platform(build: Build, lzoReady: bool,
                               restoreKey: Header -> (int, nat), resetIv: (int, nat),
                               gcmTag: nat -> seq<byte>, md5: seq<byte> -> seq<byte>,
                               parse: seq<byte> -> Header)

  /** The arguments of one call: the caller's header structure, the swap
      offset of the header page, and the `verify` and `test` switches. */
  datatype Request = Request(header: Header, start: int, verify: bool, test: bool) {

    /** `test_mode`: the image is read and checked but nothing is written. */
    predicate TestMode() {
      verify || test
    }
  }

  /** What one call leaves behind: its return value, the pages handed to
      the snapshot device, and whether the swap reader's buffers were
      allocated and freed. */
  datatype Restored = Restored(error: int, written: seq<seq<byte>>, readerSetUp: bool, readerFreed: bool)

  /** The header `read_page` leaves in the caller's structure
      (s2diskus/load.c:669-671): nothing on an I/O error, the caller's own
      structure when the offset is 0, the page read otherwise. */
  function HeaderOf(p: Platform, swap: Swap, pageSize: nat, req: Request): (h: Option<Header>)
    ensures h.None? <==> req.start != 0 && (req.start !in swap || |swap[req.start]| < pageSize)
    ensures req.start == 0 ==> h == Some(req.header)
    ensures h.Some? && req.start != 0 ==> h.value == p.parse(swap[req.start][..pageSize])
  {
    match ReadPage(swap, pageSize, req.start)
    case IoError => None
    case Skipped => Some(req.header)
    case Loaded(page) => Some(p.parse(page))
  }

  /** Whether a compressed image meets a build that cannot decode it. */
  predicate CodecRefuses(p: Platform, h: Header) {
    h.compressed && (p.build.codec == NoCodec || (p.build.codec == Lzo && !p.lzoReady))
  }

  /** The call that prepares the cipher in a libgcrypt build: resetting the
      IV in test mode, recovering the key otherwise. */
  function GcryptKey(p: Platform, h: Header, testMode: bool): (int, nat) {
    if testMode then p.resetIv else p.restoreKey(h)
  }

  /** Whether an encrypted image meets a build that cannot decrypt it. */
  predicate CipherRefuses(p: Platform, h: Header, testMode: bool) {
    h.encrypted && (p.build.cipher == NoCipher || (p.build.cipher == Gcrypt && GcryptKey(p, h, testMode).0 != 0))
  }

  /** The outcome of the flag checks before the swap reader exists. */
  datatype Gate = Refused(error: int) | Admitted(decompress: bool, decrypt: bool, cipher: nat)

  /** The compression and encryption checks (s2diskus/load.c:683-725).  The
      codec is checked first; a libgcrypt failure is returned as
      libgcrypt's own error value.  An image that is not encrypted starts
      from the zero cipher state. */
  function Admit(p: Platform, h: Header, testMode: bool): (g: Gate)
    ensures g.Refused? <==> CodecRefuses(p, h) || CipherRefuses(p, h, testMode)
    ensures g.Refused? ==> g.error != 0
    ensures g.Admitted? ==> g.decompress == h.compressed && g.decrypt == h.encrypted
    ensures h.compressed && p.build.codec == NoCodec ==> g == Refused(Einval.Code())
    ensures h.compressed && p.build.codec == Lzo && !p.lzoReady ==> g == Refused(Efault.Code())
    ensures !CodecRefuses(p, h) && h.encrypted && p.build.cipher == NoCipher ==> g == Refused(Einval.Code())
    ensures !CodecRefuses(p, h) && h.encrypted && p.build.cipher == Gcrypt ==>
              g == if GcryptKey(p, h, testMode).0 != 0 then Refused(GcryptKey(p, h, testMode).0)
                   else Admitted(h.compressed, true, GcryptKey(p, h, testMode).1)
  {
    if h.compressed && p.build.codec == NoCodec then Refused(Einval.Code())
    else if h.compressed && p.build.codec == Lzo && !p.lzoReady then Refused(Efault.Code())
    else if !h.encrypted then Admitted(h.compressed, false, 0)
    else match p.build.cipher
      case NoCipher => Refused(Einval.Code())
      case Gcrypt =>
        var (status, state) := GcryptKey(p, h, testMode);
        if status != 0 then Refused(status) else Admitted(h.compressed, true, state)
      case Isal => Admitted(h.compressed, true, p.restoreKey(h).1)
  }

  /** `verify_checksum`: a checksum build checks the digest when the header
      asks for it or the caller verifies (s2diskus/load.c:672-679). */
  predicate ChecksumOn(b: Build, h: Header, req: Request) {
    b.verity && (h.checksumFlag || req.verify)
  }

  /** The verdict after `load_image` (s2diskus/load.c:734-759), with the
      ISA-L tag compared only when the load succeeded.  The compare as
      written replaces the load's error whatever it was; see
      `ConcludeAsWritten`.  `loaded` is the load's return value, `tagOk`
      and `sumOk` whether the tag and the digest match the header. */
  function Conclude(b: Build, loaded: int, tagOk: bool, sumOk: bool, checksumOn: bool): (error: int)
    ensures error == 0 <==> loaded == 0 && (b.cipher == Isal ==> tagOk) && (b.verity && checksumOn ==> sumOk)
    ensures loaded != 0 ==> error == loaded
    ensures loaded == 0 && b.cipher == Isal && !tagOk ==> error == Einval.Code()
    ensures loaded == 0 && !(b.verity && checksumOn && !sumOk) && b.cipher != Isal ==> error == 0
    ensures loaded == 0 && b.verity && checksumOn && !sumOk ==> error == Einval.Code()
  {
    var afterTag := if b.cipher == Isal && loaded == 0 then (if tagOk then 0 else Einval.Code()) else loaded;
    if b.verity && afterTag == 0 && checksumOn && !sumOk then Einval.Code() else afterTag
  }

  /** The verdict as s2diskus/load.c:735-758 computes it: in an ISA-L build
      the tag compare overwrites the load's error, so a load that failed
      after the last page was decrypted reports success. */
  function ConcludeAsWritten(b: Build, loaded: int, tagOk: bool, sumOk: bool, checksumOn: bool): (error: int)
    ensures b.cipher == Isal ==> (error == 0 <==> tagOk && (b.verity && checksumOn ==> sumOk))
    ensures b.cipher != Isal ==> error == Conclude(b, loaded, tagOk, sumOk, checksumOn)
  {
    var afterTag := if b.cipher == Isal then (if tagOk then 0 else Einval.Code()) else loaded;
    if b.verity && afterTag == 0 && checksumOn && !sumOk then Einval.Code() else afterTag
  }

  /** The two verdicts differ only when the load failed. */
  lemma AsWrittenAgreesAfterSuccessfulLoad(b: Build, tagOk: bool, sumOk: bool, checksumOn: bool)
    ensures ConcludeAsWritten(b, 0, tagOk, sumOk, checksumOn) == Conclude(b, 0, tagOk, sumOk, checksumOn)
  {
  }

  /** The input that shows the overwritten error: an ISA-L build whose last
      page write failed (`load_image` gave -EIO) after the whole stream was
      decrypted, so the tag matches. */
  lemma TagCompareMasksLoadFailure()
    ensures ConcludeAsWritten(Build(NoCodec, Isal, false), Eio.Code(), true, true, false) == 0
    ensures Conclude(Build(NoCodec, Isal, false), Eio.Code(), true, true, false) == Eio.Code()
  {
  }

  /** The reader configuration of an admitted image. */
  function ReaderConfig(p: Platform, h: Header, req: Request, g: Gate, pageSize: nat, bufferSize: nat): (cfg: Config)
    requires g.Admitted?
    ensures cfg.pageSize == pageSize && cfg.bufferSize == bufferSize
    ensures cfg.decompress == g.decompress && cfg.decrypt == g.decrypt && cfg.checksum == ChecksumOn(p.build, h, req)
  {
    Config(pageSize, bufferSize, g.decompress, g.decrypt, ChecksumOn(p.build, h, req))
  }

  /** `load_image` on an initialised reader and the verdict on it
      (s2diskus/load.c:734-759): the pages written are those the load
      wrote, and the call succeeds exactly when the load did and the tag
      and the digest, where checked, match the header. */
  function Finish(p: Platform, env: Env, sink: Sink, cfg: Config, h: Header, r: Reader,
                  testMode: bool, checksumOn: bool): (res: Restored)
    requires ReaderInv(cfg, r)
    ensures res.readerSetUp && res.readerFreed
    ensures var o := Load(cfg, env, Job(sink, h.pages, testMode), r);
            && res.written == o.written
            && (res.error == 0 <==> o.status == Ok && (p.build.cipher == Isal ==> p.gcmTag(o.reader.cipher) == h.tag)
                                    && (p.build.verity && checksumOn ==> p.md5(o.reader.digested) == h.checksum))
            && (o.status != Ok ==> res.error == Eio.Code())
            && ((o.status == Ok && p.build.cipher != Isal && p.build.verity && checksumOn
                 && p.md5(o.reader.digested) != h.checksum) ==> res.error == Einval.Code())
  {
    var o := Load(cfg, env, Job(sink, h.pages, testMode), r);
    var loaded := o.status.Code();
    assert loaded == 0 <==> o.status == Ok;
    var error := Conclude(p.build, loaded, p.gcmTag(o.reader.cipher) == h.tag,
                          p.md5(o.reader.digested) == h.checksum, checksumOn);
    Restored(error, o.written, true, true)
  }

  /** `Finish` returns the verdict s2diskus/load.c:735-758 computes as
      written, except in an ISA-L build whose load failed: there the code
      as written reports the tag compare instead of the load's error. */
  lemma FinishAgreesWithSource(p: Platform, env: Env, sink: Sink, cfg: Config, h: Header, r: Reader,
                               testMode: bool, checksumOn: bool)
    requires ReaderInv(cfg, r)
    ensures var o := Load(cfg, env, Job(sink, h.pages, testMode), r);
            var asWritten := ConcludeAsWritten(p.build, o.status.Code(), p.gcmTag(o.reader.cipher) == h.tag,
                                               p.md5(o.reader.digested) == h.checksum, checksumOn);
            (p.build.cipher != Isal || o.status == Ok) ==>
              Finish(p, env, sink, cfg, h, r, testMode, checksumOn).error == asWritten
  {
    var o := Load(cfg, env, Job(sink, h.pages, testMode), r);
    if o.status == Ok {
      AsWrittenAgreesAfterSuccessfulLoad(p.build, p.gcmTag(o.reader.cipher) == h.tag,
                                         p.md5(o.reader.digested) == h.checksum, checksumOn);
    }
  }

  /** What `Finish` hands to the device: nothing in test mode, otherwise
      pages each accepted in full by the write call, and, without a codec,
      exactly the pages the reader delivers, in order. */
  lemma FinishWrites(p: Platform, env: Env, sink: Sink, cfg: Config, h: Header, r: Reader,
                     testMode: bool, checksumOn: bool)
    requires ReaderInv(cfg, r)
    ensures var res := Finish(p, env, sink, cfg, h, r, testMode, checksumOn);
            && (testMode ==> res.written == [])
            && Accepted(sink, res.written, cfg.pageSize)
            && (!cfg.decompress && !testMode ==>
                  ReadPages(cfg, env, r, |res.written|).0 && ReadPages(cfg, env, r, |res.written|).1 == res.written)
  {
    var job := Job(sink, h.pages, testMode);
    var o := Load(cfg, env, job, r);
    assert Finish(p, env, sink, cfg, h, r, testMode, checksumOn).written == o.written;
    if !cfg.decompress && !testMode {
      LoadWritesStream(cfg, env, job, r);
    }
  }

  /** From `init_swap_reader` on (s2diskus/load.c:727-762).  `buffer` is
      what the freshly allocated work buffer holds.  The reader's buffers
      are allocated unless the map offset is 0, and every path that
      allocates them frees them again, on success and on failure. */
  function Session(p: Platform, env: Env, sink: Sink, cfg: Config, h: Header, cipher: nat,
                   buffer: seq<byte>, testMode: bool, checksumOn: bool): (res: Restored)
    requires cfg.Valid() && |buffer| == cfg.bufferSize
    ensures res.readerSetUp <==> h.mapStart != 0
    ensures res.readerFreed == res.readerSetUp
    ensures var init := InitSwapReader(cfg, env, h.mapStart, h.imageDataSize, cipher, buffer);
            && (init.0 != Ok ==> res.error == init.0.Code() && res.error != 0 && res.written == [])
            && (init.0 == Ok ==> res == Finish(p, env, sink, cfg, h, init.1, testMode, checksumOn))
  {
    var init := InitSwapReader(cfg, env, h.mapStart, h.imageDataSize, cipher, buffer);
    if init.0 != Ok then Restored(init.0.Code(), [], h.mapStart != 0, h.mapStart != 0)
    else Finish(p, env, sink, cfg, h, init.1, testMode, checksumOn)
  }

  /** `read_or_verify` (s2diskus/load.c:661-813).  `pageSize`,
      `bufferSize` and `buffer` are the loader's page size, work buffer
      size and the work buffer's initial contents. */
  function ReadOrVerify(p: Platform, env: Env, sink: Sink, pageSize: nat, bufferSize: nat,
                        buffer: seq<byte>, req: Request): (res: Restored)
    requires ValidPageSize(pageSize) && bufferSize >= pageSize && bufferSize % pageSize == 0
    requires |buffer| == bufferSize
    ensures res.readerFreed == res.readerSetUp
    ensures HeaderOf(p, env.swap, pageSize, req).None? ==> res == Restored(Eio.Code(), [], false, false)
    ensures HeaderOf(p, env.swap, pageSize, req).Some? ==>
              var h := HeaderOf(p, env.swap, pageSize, req).value;
              var g := Admit(p, h, req.TestMode());
              && (g.Refused? ==> res == Restored(g.error, [], false, false))
              && (g.Admitted? ==> (res.readerSetUp <==> h.mapStart != 0))
    ensures res.error == 0 ==> res.readerSetUp
  {
    match HeaderOf(p, env.swap, pageSize, req)
    case None => Restored(Eio.Code(), [], false, false)
    case Some(h) =>
      var g := Admit(p, h, req.TestMode());
      if g.Refused? then Restored(g.error, [], false, false)
      else
        var cfg := ReaderConfig(p, h, req, g, pageSize, bufferSize);
        Session(p, env, sink, cfg, h, g.cipher, buffer, req.TestMode(), ChecksumOn(p.build, h, req))
  }

  /** The header, gate and reader of an admitted call, as `ReadOrVerify`
      builds them. */
  function Prepared(p: Platform, env: Env, pageSize: nat, bufferSize: nat, buffer: seq<byte>,
                    req: Request): (a: Option<(Header, Config, (Status, Reader))>)
    requires ValidPageSize(pageSize) && bufferSize >= pageSize && bufferSize % pageSize == 0
    requires |buffer| == bufferSize
    ensures a.Some? ==> a.value.1.Valid() && (a.value.2.0 == Ok ==> ReaderInv(a.value.1, a.value.2.1))
  {
    match HeaderOf(p, env.swap, pageSize, req)
    case None => None
    case Some(h) =>
      var g := Admit(p, h, req.TestMode());
      if g.Refused? then None
      else
        var cfg := ReaderConfig(p, h, req, g, pageSize, bufferSize);
        Some((h, cfg, InitSwapReader(cfg, env, h.mapStart, h.imageDataSize, g.cipher, buffer)))
  }

  /** When the whole call succeeds: the header was read, the image passed
      the flag checks, the reader was set up, every page was loaded and
      written, and the tag and the digest, where checked, match. */
  lemma ReadOrVerifySucceeds(p: Platform, env: Env, sink: Sink, pageSize: nat, bufferSize: nat,
                             buffer: seq<byte>, req: Request)
    requires ValidPageSize(pageSize) && bufferSize >= pageSize && bufferSize % pageSize == 0
    requires |buffer| == bufferSize
    ensures var res := ReadOrVerify(p, env, sink, pageSize, bufferSize, buffer, req);
            var a := Prepared(p, env, pageSize, bufferSize, buffer, req);
            res.error == 0 <==>
              && a.Some? && a.value.2.0 == Ok
              && var o := Load(a.value.1, env, Job(sink, a.value.0.pages, req.TestMode()), a.value.2.1);
                 && o.status == Ok
                 && (p.build.cipher == Isal ==> p.gcmTag(o.reader.cipher) == a.value.0.tag)
                 && (ChecksumOn(p.build, a.value.0, req) ==> p.md5(o.reader.digested) == a.value.0.checksum)
  {
    var res := ReadOrVerify(p, env, sink, pageSize, bufferSize, buffer, req);
    match HeaderOf(p, env.swap, pageSize, req)
    case None =>
    case Some(h) =>
      var g := Admit(p, h, req.TestMode());
      if g.Admitted? {
        var cfg := ReaderConfig(p, h, req, g, pageSize, bufferSize);
        assert res == Session(p, env, sink, cfg, h, g.cipher, buffer, req.TestMode(), ChecksumOn(p.build, h, req));
      }
  }

  /** What the whole call hands to the snapshot device: nothing in test
      mode, and otherwise pages the write call accepted in full; without a
      codec, exactly the pages the reader delivers, in order. */
  lemma ReadOrVerifyWrites(p: Platform, env: Env, sink: Sink, pageSize: nat, bufferSize: nat,
                           buffer: seq<byte>, req: Request)
    requires ValidPageSize(pageSize) && bufferSize >= pageSize && bufferSize % pageSize == 0
    requires |buffer| == bufferSize
    ensures var res := ReadOrVerify(p, env, sink, pageSize, bufferSize, buffer, req);
            var a := Prepared(p, env, pageSize, bufferSize, buffer, req);
            && (req.TestMode() ==> res.written == [])
            && Accepted(sink, res.written, pageSize)
            && (res.written != [] ==> a.Some? && a.value.2.0 == Ok)
            && (a.Some? && a.value.2.0 == Ok && !a.value.1.decompress && !req.TestMode() ==>
                  ReadPages(a.value.1, env, a.value.2.1, |res.written|).0
                  && ReadPages(a.value.1, env, a.value.2.1, |res.written|).1 == res.written)
  {
    var res := ReadOrVerify(p, env, sink, pageSize, bufferSize, buffer, req);
    match HeaderOf(p, env.swap, pageSize, req)
    case None =>
    case Some(h) =>
      var g := Admit(p, h, req.TestMode());
      if g.Admitted? {
        var cfg := ReaderConfig(p, h, req, g, pageSize, bufferSize);
        var init := InitSwapReader(cfg, env, h.mapStart, h.imageDataSize, g.cipher, buffer);
        assert res == Session(p, env, sink, cfg, h, g.cipher, buffer, req.TestMode(), ChecksumOn(p.build, h, req));
        if init.0 == Ok {
          FinishWrites(p, env, sink, cfg, h, init.1, req.TestMode(), ChecksumOn(p.build, h, req));
        }
      }
  }

  /** The shipped build refuses compressed and encrypted images with
      -EINVAL before the reader exists, and otherwise returns 0, -EIO or
      -EINVAL. */
  lemma ShippedBuildVerdicts(p: Platform, env: Env, sink: Sink, pageSize: nat, bufferSize: nat,
                             buffer: seq<byte>, req: Request)
    requires ValidPageSize(pageSize) && bufferSize >= pageSize && bufferSize % pageSize == 0
    requires |buffer| == bufferSize && p.build == Shipped
    ensures var res := ReadOrVerify(p, env, sink, pageSize, bufferSize, buffer, req);
            var h := HeaderOf(p, env.swap, pageSize, req);
            && (h.Some? && (h.value.compressed || h.value.encrypted) ==> res == Restored(Einval.Code(), [], false, false))
            && res.error in {0, Eio.Code(), Einval.Code()}
  {
    var res := ReadOrVerify(p, env, sink, pageSize, bufferSize, buffer, req);
    match HeaderOf(p, env.swap, pageSize, req)
    case None =>
    case Some(h) =>
      var g := Admit(p, h, req.TestMode());
      if g.Admitted? {
        var cfg := ReaderConfig(p, h, req, g, pageSize, bufferSize);
        var init := InitSwapReader(cfg, env, h.mapStart, h.imageDataSize, g.cipher, buffer);
        assert res == Session(p, env, sink, cfg, h, g.cipher, buffer, req.TestMode(), ChecksumOn(p.build, h, req));
        if init.0 == Ok {
          var o := Load(cfg, env, Job(sink, h.pages, req.TestMode()), init.1);
          assert res == Finish(p, env, sink, cfg, h, init.1, req.TestMode(), ChecksumOn(p.build, h, req));
          assert res.error == Conclude(p.build, o.status.Code(), p.gcmTag(o.reader.cipher) == h.tag,
                                       p.md5(o.reader.digested) == h.checksum, ChecksumOn(p.build, h, req));
        }
      }
  }
}
