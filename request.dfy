/**
 * The request checks `main` makes after parsing its command line
 * (io.c:291-366), as a pure validator over the already-parsed numbers.
 *
 * Command line: `io [-v] [-1|-2|-4] [-r|-w] [-l <len>] [-f <file>]
 * [-i <iommu base>] <addr> [<value>]`. `Args` holds what the option loop
 * produced; `rest` are the positional arguments after `<addr>`, already
 * read as numbers. What the file system answers (whether the file opens,
 * its size by `lseek`) is given as `FileFacts`.
 */
module Request {
  import opened Bytes
  import opened Wrappers

  datatype Args = Args(
    iosize: nat,              // -1, -2 or -4; 1 by default
    memread: bool,            // -r / -w; read by default
    iommuRead: bool,          // -i given
    iommuBase: U64,
    reqLen: Length,           // -l; 0 when not given
    filename: Option<string>, // -f
    addr: U64,
    rest: seq<U64>)

  datatype FileFacts = FileFacts(
    opens: bool,              // open() of the file succeeds
    size: Option<Length>)     // both lseek() calls succeed, giving the size

  datatype Mode =
    | ReadOut                    // show memory as rows of words
    | WriteValue(value: U64)     // store one value over the whole range
    | ReadToFile(name: string)   // copy memory into a file
    | WriteFromFile(name: string) // copy a file into memory

  datatype MemoryRequest = MemoryRequest(addr: U64, len: Length, iosize: nat, mode: Mode)

  datatype Command =
    | IommuRead(base: U64, va: U64, len: Length, iosize: nat)
    | MemoryAccess(req: MemoryRequest)

  /** The messages `main` exits with (status 1) before touching memory. */
  datatype Error =
    | FilenameAndValue   // "Filename AND value given"
    | NoValueForWrite    // "No value given for WRITE"
    | ValueTooLarge      // "<value> too large"
    | NoSizeForFileRead  // "No size given for file memread"
    | TooManyArguments   // "Too many arguments"
    | FileOpenFailed     // "Failed to open source/destination file"
    | FileSeekFailed     // "Failed to seek on"
    | BadAddrAlignment   // "Badly aligned <addr> for access size"
    | BadSizeAlignment   // "Badly aligned <size> for access size"

  /** `(iosize == 1 && (v & 0xffffff00)) || (iosize == 2 && (v & 0xffff0000))`:
      bits 8-31, or 16-31, of the value are not all clear. Bits from 32 up
      are not looked at. */
  predicate ValueTooWide(iosize: nat, v: U64) {
    (iosize == 1 && (v / 0x100) % 0x100_0000 != 0)
    || (iosize == 2 && (v / 0x1_0000) % 0x1_0000 != 0)
  }

  /** `(iosize == 2 && (x & 1)) || (iosize == 4 && (x & 3))`. */
  predicate Misaligned(iosize: nat, x: nat) {
    (iosize == 2 && x % 2 != 0) || (iosize == 4 && x % 4 != 0)
  }

  /** What the rest of `main` relies on: a width, a non-empty length, and
      an address and a length that are multiples of the width. */
  predicate Valid(r: MemoryRequest) {
    IsWidth(r.iosize) && r.len > 0 && r.addr % r.iosize == 0 && r.len % r.iosize == 0
  }

  /** io.c:291-366. `used` plays `optind`, counted from the first argument
      after `<addr>`. */
  function Validate(a: Args, files: FileFacts): Result<Command, Error>
    requires IsWidth(a.iosize)
  {
    if a.memread && a.iommuRead then
      Ok(IommuRead(a.iommuBase, a.addr, a.reqLen, a.iosize))
    else
      var used := 0;
      var memread := if a.filename.None? && used < |a.rest| then false else a.memread;
      if a.filename.Some? && used > |a.rest| then Err(FilenameAndValue)
      else if a.filename.None? && !memread && used == |a.rest| then Err(NoValueForWrite)
      else
        var value: U64 := if a.filename.None? && !memread then a.rest[used] else 0;
        if a.filename.None? && !memread && ValueTooWide(a.iosize, value) then Err(ValueTooLarge)
        else
          var used := if a.filename.None? && !memread then used + 1 else used;
          if a.filename.Some? && memread && a.reqLen == 0 then Err(NoSizeForFileRead)
          else if used < |a.rest| then Err(TooManyArguments)
          else if a.filename.Some? && !files.opens then Err(FileOpenFailed)
          else if a.filename.Some? && a.reqLen == 0 && files.size.None? then Err(FileSeekFailed)
          else
            var len0 := if a.filename.Some? && a.reqLen == 0 then files.size.value else a.reqLen;
            var len := if len0 == 0 then a.iosize else len0;
            if Misaligned(a.iosize, a.addr) then Err(BadAddrAlignment)
            else if Misaligned(a.iosize, len) then Err(BadSizeAlignment)
            else
              var mode :=
                match a.filename
                case Some(name) => if memread then ReadToFile(name) else WriteFromFile(name)
                case None => if memread then ReadOut else WriteValue(value);
              Ok(MemoryAccess(MemoryRequest(a.addr, len, a.iosize, mode)))
  }

  /** With `-r` and `-i`, the IOMMU walk runs before any other check. */
  lemma IommuReadComesFirst(a: Args, files: FileFacts)
    requires IsWidth(a.iosize)
    ensures a.memread && a.iommuRead <==>
            Validate(a, files) == Ok(IommuRead(a.iommuBase, a.addr, a.reqLen, a.iosize))
  {}

  /** A positional value without `-f` makes the request a write of that
      value, even under `-r`. */
  lemma ValueForcesWrite(a: Args, files: FileFacts)
    requires IsWidth(a.iosize) && !(a.memread && a.iommuRead)
    requires a.filename.None? && |a.rest| > 0
    ensures Validate(a, files).Ok? ==>
            Validate(a, files) == Ok(MemoryAccess(MemoryRequest(a.addr, Validate(a, files).value.req.len,
                                                        a.iosize, WriteValue(a.rest[0]))))
  {}

  /** A write without `-f` needs a value. */
  lemma WriteNeedsValue(a: Args, files: FileFacts)
    requires IsWidth(a.iosize) && !a.memread
    requires a.filename.None? && |a.rest| == 0
    ensures Validate(a, files) == Err(NoValueForWrite)
  {}

  /** The value check rejects a value exactly when its bits 8-31 (width 1)
      or 16-31 (width 2) are not all clear; a 4-byte value is not checked. */
  lemma ValueCheck(a: Args, files: FileFacts)
    requires IsWidth(a.iosize) && !(a.memread && a.iommuRead)
    requires a.filename.None? && |a.rest| > 0
    ensures Validate(a, files) == Err(ValueTooLarge) <==> ValueTooWide(a.iosize, a.rest[0])
    ensures a.iosize == 4 ==> Validate(a, files) != Err(ValueTooLarge)
  {}

  /** For a value below 2^32 the check accepts exactly the values that fit
      in the access width. */
  lemma {:induction false} ValueCheckIsFit(iosize: nat, v: U64)
    requires IsWidth(iosize) && v < 0x1_0000_0000
    ensures !ValueTooWide(iosize, v) <==> v < Pow2(8 * iosize)
  {
    Pow2Of32();
    if iosize == 1 {
      assert Pow2(8) == 256 by { Pow2Add(4, 4); }
      HighPartIsZero(v, 0x100, 0x100_0000);
    } else if iosize == 2 {
      assert Pow2(16) == 0x1_0000 by { Pow2Add(8, 8); Pow2Add(4, 4); }
      HighPartIsZero(v, 0x1_0000, 0x1_0000);
    }
  }

  /** Below d * m, the digits above the lowest d are all zero exactly when
      the value is below d. */
  lemma HighPartIsZero(v: nat, d: nat, m: nat)
    requires d > 0 && m > 0 && v < d * m
    ensures (v / d) % m == 0 <==> v < d
  {
    var q := v / d;
    if q >= m {
      MulMonotonic(d, m, q);
      assert false;
    }
    DivModUnique(q, m, 0, q);
    if v >= d {
      DivModUnique(v, d, q, v % d);
      if q == 0 {
        assert false;
      }
    } else {
      DivModUnique(v, d, 0, v);
    }
  }

  /** The check looks only at the low 32 bits: for every value it answers
      as it does for the value taken modulo 2^32. */
  lemma HighBitsIgnored(iosize: nat, v: U64)
    requires IsWidth(iosize)
    ensures ValueTooWide(iosize, v) <==> ValueTooWide(iosize, v % 0x1_0000_0000)
  {
    if iosize == 1 {
      DigitsBelowProduct(v, 0x100, 0x100_0000);
    } else if iosize == 2 {
      DigitsBelowProduct(v, 0x1_0000, 0x1_0000);
    }
  }

  /** The digits of v between d and d * m depend only on v modulo d * m. */
  lemma DigitsBelowProduct(v: nat, d: nat, m: nat)
    requires d > 0 && m > 0
    ensures (v / d) % m == ((v % (d * m)) / d) % m
  {
    var x := (v / d) % m;
    DivModStep(v, d, m);
    DivModUnique(v % (d * m), d, x, v % d);
    DivModUnique(x, m, 0, x);
  }

  /** Bits from 32 up escape the check: one byte-wide write of 2^32 passes
      it, and stores 2^32 mod 2^8 = 0. */
  lemma HighBitsEscapeCheck()
    ensures !ValueTooWide(1, 0x1_0000_0000) && !ValueTooWide(2, 0x1_0000_0000)
    ensures 0x1_0000_0000 % Pow2(8) == 0
  {
    assert Pow2(8) == 256 by { Pow2Add(4, 4); }
  }

  /** Without `-l`, a file written from gives its size as the length, and a
      missing or zero length becomes one access of the chosen width. */
  lemma DefaultLength(a: Args, files: FileFacts)
    requires IsWidth(a.iosize) && !(a.memread && a.iommuRead)
    requires a.reqLen == 0
    ensures Validate(a, files).Ok? ==>
      Validate(a, files).value.req.len ==
        if a.filename.Some? && files.size.Some? && files.size.value != 0
        then files.size.value else a.iosize
    ensures Validate(a, files).Ok? && a.filename.Some? ==>
      Validate(a, files).value.req.mode.WriteFromFile?
  {}

  /** Every accepted memory request is one the transfer code can carry out. */
  lemma AcceptedIsValid(a: Args, files: FileFacts)
    requires IsWidth(a.iosize)
    ensures Validate(a, files).Ok? && Validate(a, files).value.MemoryAccess? ==>
            Valid(Validate(a, files).value.req) && Validate(a, files).value.req.addr == a.addr
  {}

  /** An address or length that is not a multiple of a 2- or 4-byte width is
      never accepted, be the length given by `-l` or taken from the file. */
  lemma MisalignedRejected(a: Args, files: FileFacts)
    requires IsWidth(a.iosize) && !(a.memread && a.iommuRead)
    requires || Misaligned(a.iosize, a.addr)
             || Misaligned(a.iosize, a.reqLen)
             || (a.filename.Some? && a.reqLen == 0 && files.size.Some?
                 && Misaligned(a.iosize, files.size.value))
    ensures Validate(a, files).Err?
  {}

  /** "Filename AND value given" compares `optind > argc`, which cannot hold
      where it is tested, so it is never reported; a value after `-f` ends
      in "Too many arguments" instead. */
  lemma FilenameAndValueNeverReported(a: Args, files: FileFacts)
    requires IsWidth(a.iosize)
    ensures Validate(a, files) != Err(FilenameAndValue)
    ensures (!(a.memread && a.iommuRead) && a.filename.Some? && |a.rest| > 0
             && !(a.memread && a.reqLen == 0)) ==> Validate(a, files) == Err(TooManyArguments)
  {}

  /** The length an accepted request gets: the `-l` length, else the file's
      size when a file is written from, and one access when that is zero. */
  function AcceptedLength(a: Args, size: Length): Length
    requires IsWidth(a.iosize)
  {
    var len0 := if a.filename.Some? && a.reqLen == 0 then size else a.reqLen;
    if len0 == 0 then a.iosize else len0
  }

  /** A read to the screen with width-aligned address and length, and no
      extra argument, is accepted; a missing length becomes one access. */
  lemma ReadAccepted(a: Args, files: FileFacts)
    requires IsWidth(a.iosize) && a.memread && !a.iommuRead
    requires a.filename.None? && a.rest == []
    requires !Misaligned(a.iosize, a.addr) && !Misaligned(a.iosize, a.reqLen)
    ensures Validate(a, files) ==
      Ok(MemoryAccess(MemoryRequest(a.addr, AcceptedLength(a, 0), a.iosize, ReadOut)))
    ensures a.reqLen == 0 ==> AcceptedLength(a, 0) == a.iosize
  {}

  /** A single value that fits the width check, at an aligned address and
      length, is accepted as a write of that value, whatever `-r`/`-w` said. */
  lemma WriteAccepted(a: Args, files: FileFacts)
    requires IsWidth(a.iosize) && !(a.memread && a.iommuRead)
    requires a.filename.None? && |a.rest| == 1 && !ValueTooWide(a.iosize, a.rest[0])
    requires !Misaligned(a.iosize, a.addr) && !Misaligned(a.iosize, a.reqLen)
    ensures Validate(a, files) ==
      Ok(MemoryAccess(MemoryRequest(a.addr, AcceptedLength(a, 0), a.iosize, WriteValue(a.rest[0]))))
  {}

  /** A read into a file with a `-l` length, a file that opens, and aligned
      address and length is accepted. */
  lemma FileReadAccepted(a: Args, files: FileFacts)
    requires IsWidth(a.iosize) && a.memread && !a.iommuRead
    requires a.filename.Some? && a.rest == [] && a.reqLen != 0 && files.opens
    requires !Misaligned(a.iosize, a.addr) && !Misaligned(a.iosize, a.reqLen)
    ensures Validate(a, files) ==
      Ok(MemoryAccess(MemoryRequest(a.addr, a.reqLen, a.iosize, ReadToFile(a.filename.value))))
  {}

  /** A write from a file that opens, and whose size can be found when no
      `-l` length is given, is accepted when address and length are aligned;
      without `-l` the length is the file's size, or one access for an empty
      file. */
  lemma FileWriteAccepted(a: Args, files: FileFacts)
    requires IsWidth(a.iosize) && !a.memread
    requires a.filename.Some? && a.rest == [] && files.opens
    requires a.reqLen == 0 ==> files.size.Some?
    requires var size := if files.size.Some? then files.size.value else 0;
      !Misaligned(a.iosize, a.addr) && !Misaligned(a.iosize, AcceptedLength(a, size))
    ensures var size := if files.size.Some? then files.size.value else 0;
      Validate(a, files) ==
        Ok(MemoryAccess(MemoryRequest(a.addr, AcceptedLength(a, size), a.iosize,
                                      WriteFromFile(a.filename.value))))
  {}
}
