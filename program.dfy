/**
 * The rest of `main` (io.c:387-460): map the page-aligned window around a
 * validated request and carry the request out on the mapping.
 *
 * Physical memory before the run is `mem`; the mapping is an array filled
 * from it, and its final contents, `window`, are what the run leaves in
 * physical memory from the window's base on. Whether `open` and `mmap`
 * succeed is decided by `os`; what `read` and `write` on the user's file
 * return is given as `FileIo`.
 */
module Program {
  import opened Bytes
  import opened Wrappers
  import opened PageWindow
  import opened Access
  import opened Request

  /** `main` refuses to map the page starting at this address. */
  const TOP_PAGE: nat := 0xFFFF_F000

  datatype FileIo = FileIo(
    written: int,                 // what write() into the destination file returns
    readBack: Option<seq<Byte>>)   // what read() from the source file gives; None: it fails

  /** `read()` never returns more bytes than it was asked for. */
  predicate ReadFits(io: FileIo, len: nat) {
    io.readBack.Some? ==> |io.readBack.value| <= len
  }

  datatype Outcome =
    | TopPage                     // "Sorry, cannot map the top 4K page"
    | WrapsTop                    // "Aligned addr+len exceeds top of address space"
    | DeviceOpenFailed            // open("/dev/mem") failed
    | DeviceMapFailed             // mmap() failed
    | FileFailed                  // read() or write() returned a negative count
    | ShortTransfer(done: nat)    // "Only wrote / read %d of %d bytes"
    | Shown(rows: seq<Row>)       // memread_memory's rows
    | Stored                      // write_memory done
    | Saved(data: seq<Byte>)       // the bytes written to the file
    | Loaded                      // the whole file copied into memory

  predicate Reads(m: Mode) {
    m.ReadOut? || m.ReadToFile?
  }

  /** The window `main` maps for a request, and whether it maps it at all. */
  function MainWindow(os: Os, req: MemoryRequest, k: nat): (r: Result<Window, Outcome>)
    requires ValidPageShift(k)
    ensures r.Ok? ==> r.value == ComputeWindow(req.addr, req.len, k)
                      && r.value.base != TOP_PAGE && !Wraps(r.value)
                      && req.addr + req.len < TWO_64
                      && r.value.offset + req.len == r.value.length
    ensures r.Err? ==> r.error in {TopPage, WrapsTop, DeviceOpenFailed, DeviceMapFailed}
    ensures var w := ComputeWindow(req.addr, req.len, k);
      && (r == Err(TopPage) <==> w.base == TOP_PAGE)
      && (r == Err(WrapsTop) <==> w.base != TOP_PAGE && Wraps(w))
      && (r == Err(DeviceOpenFailed) <==>
            w.base != TOP_PAGE && !Wraps(w) && !os.openOk(Reads(req.mode)))
      && (r.Ok? <==> w.base != TOP_PAGE && !Wraps(w) && os.openOk(Reads(req.mode))
                     && os.mapOk(w.base, w.length, Reads(req.mode)))
  {
    var w := ComputeWindow(req.addr, req.len, k);
    WindowGeometry(req.addr, req.len, k);
    WrapsIff(req.addr, req.len, k);
    if w.base == TOP_PAGE then Err(TopPage)
    else if Wraps(w) then Err(WrapsTop)
    else if !os.openOk(Reads(req.mode)) then Err(DeviceOpenFailed)
    else if !os.mapOk(w.base, w.length, Reads(req.mode)) then Err(DeviceMapFailed)
    else Ok(w)
  }

  /** What a run does: its outcome, and the window's bytes afterwards. */
  function Run(os: Os, mem: nat -> Byte, k: nat, req: MemoryRequest, io: FileIo): (Outcome, seq<Byte>)
    requires ValidPageShift(k) && Valid(req) && ReadFits(io, req.len)
  {
    match MainWindow(os, req, k)
    case Err(e) => (e, [])
    case Ok(w) =>
      var before := PhysBytes(mem, w.base, w.length);
      var off := w.offset;
      match req.mode
      case ReadOut =>
        (Shown(Rows(req.addr, before[off..off + req.len], req.iosize)), before)
      case WriteValue(v) =>
        (Stored, Fill(before, off, req.len, req.iosize, v))
      case ReadToFile(_) =>
        if io.written < 0 then (FileFailed, before)
        else if io.written != req.len then (ShortTransfer(io.written), before)
        else (Saved(before[off..off + req.len]), before)
      case WriteFromFile(_) =>
        match io.readBack
        case None => (FileFailed, before)
        case Some(data) =>
          var after := before[..off] + data + before[off + |data|..];
          (if |data| != req.len then ShortTransfer(|data|) else Loaded, after)
  }

  /** The top page is refused whatever else the request says. */
  lemma TopPageRefused(os: Os, mem: nat -> Byte, k: nat, req: MemoryRequest, io: FileIo)
    requires ValidPageShift(k) && Valid(req) && ReadFits(io, req.len)
    requires ComputeWindow(req.addr, req.len, k).base == TOP_PAGE
    ensures Run(os, mem, k, req, io) == (TopPage, [])
  {}

  /** Only `main` refuses the top page: the same request through `mem_read`
      maps and copies whenever the device opens and maps. */
  lemma TopPageOnlyRefusedByMain(os: Os, mem: nat -> Byte, k: nat, req: MemoryRequest,
                                 io: FileIo)
    requires ValidPageShift(k) && Valid(req) && ReadFits(io, req.len)
    requires ComputeWindow(req.addr, req.len, k).base == TOP_PAGE
    requires os.openOk(Reads(req.mode))
    requires os.mapOk(TOP_PAGE, ComputeWindow(req.addr, req.len, k).length, Reads(req.mode))
    ensures Run(os, mem, k, req, io).0 == TopPage
    ensures MemReadStatus(os, k, req.addr, true, req.len, Reads(req.mode)) == Copied(os.closeOk)
  {
    TopPageRefused(os, mem, k, req, io);
    var w := ComputeWindow(req.addr, req.len, k);
    assert !Wraps(w) by {
      WindowGeometry(req.addr, req.len, k);
      WrapsIff(req.addr, req.len, k);
      PageSizeBound(k);
    }
    assert req.addr != 0 by {
      WindowGeometry(req.addr, req.len, k);
    }
  }

  /** A window whose end passes 2^64 - 1 is refused. */
  lemma WrappingRequestRefused(os: Os, mem: nat -> Byte, k: nat, req: MemoryRequest, io: FileIo)
    requires ValidPageShift(k) && Valid(req) && ReadFits(io, req.len)
    requires req.addr + req.len > TWO_64 - 1
    ensures Run(os, mem, k, req, io).0 == WrapsTop
  {
    var w := ComputeWindow(req.addr, req.len, k);
    assert Wraps(w) && w.base != TOP_PAGE by {
      WrapsIff(req.addr, req.len, k);
      WindowGeometry(req.addr, req.len, k);
      PageSizeBound(k);
      assert w.length < TWO_64 / 2 + 0x8000_0000;
    }
    assert MainWindow(os, req, k) == Err(WrapsTop);
  }

  /** Reads leave physical memory as it was. */
  lemma ReadsLeaveMemory(os: Os, mem: nat -> Byte, k: nat, req: MemoryRequest, io: FileIo)
    requires ValidPageShift(k) && Valid(req) && ReadFits(io, req.len) && Reads(req.mode)
    requires MainWindow(os, req, k).Ok?
    ensures var w := MainWindow(os, req, k).value;
            Run(os, mem, k, req, io).1 == PhysBytes(mem, w.base, w.length)
  {}

  /** The bytes a read shows are the requested ones. */
  lemma ShownBytes(os: Os, mem: nat -> Byte, k: nat, req: MemoryRequest)
    requires ValidPageShift(k) && Valid(req) && MainWindow(os, req, k).Ok?
    ensures var w := MainWindow(os, req, k).value;
      PhysBytes(mem, w.base, w.length)[w.offset..w.offset + req.len]
      == PhysBytes(mem, req.addr, req.len)
  {
    WindowGeometry(req.addr, req.len, k);
  }

  /** Rows start 16 bytes apart from the requested address, with no wrap. */
  lemma RowAddresses(phys: U64, s: seq<Byte>, w: nat)
    requires IsWidth(w) && |s| % w == 0 && phys + |s| < TWO_64
    ensures forall r :: 0 <= r < |Rows(phys, s, w)| ==> Rows(phys, s, w)[r].addr == phys + 16 * r
  {
    RowsCount(phys, s, w);
    forall r | 0 <= r < |Rows(phys, s, w)|
      ensures Rows(phys, s, w)[r].addr == phys + 16 * r
    {
      RowsAddress(phys, s, w, r);
      RowStartFits(phys, |s|, r);
    }
  }

  /** The start of row r of an n-byte range ending below 2^64 does not wrap. */
  lemma RowStartFits(phys: nat, n: nat, r: nat)
    requires r < (n + 15) / 16 && phys + n < TWO_64
    ensures (phys + 16 * r) % TWO_64 == phys + 16 * r
  {
    var q := (n + 15) / 16;
    MulMonotonic(16, r, q - 1);
    assert 16 * r < n;
    DivModUnique(phys + 16 * r, TWO_64, 0, phys + 16 * r);
  }

  /** A shown read lists the words at the requested address, 16 bytes a row,
      each row labelled with its address. */
  lemma ShownWordsAreMemory(os: Os, mem: nat -> Byte, k: nat, req: MemoryRequest, io: FileIo)
    requires ValidPageShift(k) && Valid(req) && ReadFits(io, req.len) && req.mode == ReadOut
    requires MainWindow(os, req, k).Ok?
    ensures var rows := Run(os, mem, k, req, io).0.rows;
      && RowValues(rows) == Words(PhysBytes(mem, req.addr, req.len), req.iosize)
      && |rows| == (req.len + 15) / 16
      && forall r :: 0 <= r < |rows| ==> rows[r].addr == req.addr + 16 * r
  {
    var s := PhysBytes(mem, req.addr, req.len);
    ShownBytes(os, mem, k, req);
    assert Run(os, mem, k, req, io).0.rows == Rows(req.addr, s, req.iosize);
    RowsFlatten(req.addr, s, req.iosize);
    RowsCount(req.addr, s, req.iosize);
    RowAddresses(req.addr, s, req.iosize);
  }

  /** A value write leaves every word of the range holding the value cut to
      the access width, and every byte outside the range as it was. */
  lemma WriteStoresValue(os: Os, mem: nat -> Byte, k: nat, req: MemoryRequest, io: FileIo)
    requires ValidPageShift(k) && Valid(req) && ReadFits(io, req.len) && req.mode.WriteValue?
    requires MainWindow(os, req, k).Ok?
    ensures var w := MainWindow(os, req, k).value;
      var after := Run(os, mem, k, req, io).1;
      && |after| == w.length
      && Words(after[w.offset..w.offset + req.len], req.iosize)
         == seq(req.len / req.iosize, _ => req.mode.value % Pow2(8 * req.iosize))
      && (forall i :: 0 <= i < w.length && !(w.offset <= i < w.offset + req.len) ==>
            after[i] == mem(w.base + i))
  {
    var w := MainWindow(os, req, k).value;
    var before := PhysBytes(mem, w.base, w.length);
    var v := req.mode.value;
    FillReadsBack(before, w.offset, req.len, req.iosize, v);
    forall i | 0 <= i < w.length && !(w.offset <= i < w.offset + req.len)
      ensures Fill(before, w.offset, req.len, req.iosize, v)[i] == mem(w.base + i)
    {
      FillBytes(before, w.offset, req.len, req.iosize, v, i);
    }
  }

  /** The mapping `main` works on: the window's bytes of physical memory. */
  method Map(mem: nat -> Byte, w: Window) returns (mapping: array<Byte>)
    ensures fresh(mapping) && mapping[..] == PhysBytes(mem, w.base, w.length)
  {
    mapping := new Byte[w.length](i requires 0 <= i < w.length => mem(w.base + i));
  }

  /** `read(ffd, real_io + offset, req_len)`: the file's bytes land at the
      offset; a short read has already changed what it read. */
  method CopyIn(mapping: array<Byte>, off: nat, data: seq<Byte>)
    requires off + |data| <= mapping.Length
    modifies mapping
    ensures mapping[..] == old(mapping[..])[..off] + data + old(mapping[..])[off + |data|..]
  {
    forall i | 0 <= i < |data| {
      mapping[off + i] := data[i];
    }
  }

  /** io.c:387-460 for a validated request. */
  method Transfer(os: Os, mem: nat -> Byte, k: nat, req: MemoryRequest, io: FileIo)
    returns (out: Outcome, window: seq<Byte>)
    requires ValidPageShift(k) && Valid(req) && ReadFits(io, req.len)
    ensures (out, window) == Run(os, mem, k, req, io)
  {
    var mw := MainWindow(os, req, k);
    if mw.Err? {
      return mw.error, [];
    }
    var w := mw.value;
    var mapping := Map(mem, w);
    ghost var before := mapping[..];
    var off := w.offset;
    match req.mode {
      case ReadOut =>
        var rows := MemreadMemory(req.addr, mapping, off, req.len, req.iosize);
        out := Shown(rows);
      case WriteValue(v) =>
        ghost var stores := WriteMemory(mapping, off, req.len, req.iosize, v);
        out := Stored;
      case ReadToFile(_) =>
        var n := io.written;
        if n < 0 {
          out := FileFailed;
        } else if n != req.len {
          out := ShortTransfer(n);
        } else {
          out := Saved(mapping[off..off + req.len]);
        }
      case WriteFromFile(_) =>
        if io.readBack.None? {
          out := FileFailed;
        } else {
          var data := io.readBack.value;
          CopyIn(mapping, off, data);
          out := if |data| != req.len then ShortTransfer(|data|) else Loaded;
        }
    }
    window := mapping[..];
  }
}
