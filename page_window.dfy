/**
 * The page-aligned mapping window around a requested (address, length), and
 * `mem_read`, which maps such a window of the memory device and copies the
 * requested bytes out of it (io.c:55-92).
 *
 * The page size, `sysconf(_SC_PAGE_SIZE)`, is a power of two 2^pageShift.
 * The device and the operating system are parameters: physical memory is a
 * function from address to byte, and whether `open`, `mmap` and `close`
 * succeed is decided by an `Os` value.
 */
module PageWindow {
  import opened Bytes
  import opened Wrappers

  /** What the operating system answers; decided outside the model. */
  datatype Os = Os(
    openOk: bool -> bool,              // open("/dev/mem"), by read-only flag
    mapOk: (nat, nat, bool) -> bool,   // mmap(offset, length, read-only)
    closeOk: bool)                     // close() returns 0

  predicate ValidPageShift(k: nat) {
    k < 64
  }

  /** `a & ~(2^k - 1)`: a with its k low-order bits cleared, bit by bit. */
  function ClearLowBits(a: nat, k: nat): nat {
    if k == 0 then a else 2 * ClearLowBits(a / 2, k - 1)
  }

  /** Clearing the low bits rounds down to a multiple of the page size. */
  lemma {:induction false} ClearLowBitsRoundsDown(a: nat, k: nat)
    ensures ClearLowBits(a, k) == a - a % Pow2(k)
  {
    if k > 0 {
      ClearLowBitsRoundsDown(a / 2, k - 1);
      DivModStep(a, 2, Pow2(k - 1));
    }
  }

  /** The mapped region: its page-aligned base, the request's offset inside
      it and its length (`real_addr`, `offset`, `real_len`). */
  datatype Window = Window(base: nat, offset: nat, length: nat)

  /** The window arithmetic of io.c:65-68 and io.c:387-393, in 64-bit
      unsigned arithmetic. */
  function ComputeWindow(reqAddr: U64, reqLen: Length, k: nat): Window {
    var base := ClearLowBits(reqAddr, k);
    var offset := (reqAddr - base) % TWO_64;
    Window(base, offset, (reqLen + offset) % TWO_64)
  }

  /** The overflow test `real_addr + real_len < real_addr`, evaluated in
      64-bit unsigned arithmetic. */
  predicate Wraps(w: Window) {
    (w.base + w.length) % TWO_64 < w.base
  }

  lemma PageSizeBound(k: nat)
    requires ValidPageShift(k)
    ensures Pow2(k) <= TWO_64 / 2
  {
    Pow2Monotonic(k, 63);
    Pow2Of64();
  }

  /** Clearing the k low bits gives a multiple of 2^k at most a, less than 2^k
      below it. */
  lemma RoundsDownToPage(a: nat, k: nat)
    ensures var b := ClearLowBits(a, k);
      b % Pow2(k) == 0 && b <= a && a - b == a % Pow2(k) < Pow2(k)
  {
    var p := Pow2(k);
    ClearLowBitsRoundsDown(a, k);
    var b := a - a % p;
    assert b == p * (a / p);
    DivModUnique(b, p, a / p, 0);
  }

  /** Window geometry: for a page size 2^k the base is the request rounded
      down to a page boundary, the offset is the distance to it and is below
      the page size, and the window extends the length by the offset. */
  lemma WindowGeometry(reqAddr: U64, reqLen: Length, k: nat)
    requires ValidPageShift(k)
    ensures var w := ComputeWindow(reqAddr, reqLen, k);
      && w.base % Pow2(k) == 0
      && w.base <= reqAddr
      && w.offset == reqAddr - w.base < Pow2(k)
      && w.length == reqLen + w.offset
      && w.base + w.length == reqAddr + reqLen
  {
    var base := ClearLowBits(reqAddr, k);
    RoundsDownToPage(reqAddr, k);
    var offset := reqAddr - base;
    PageSizeBound(k);
    DivModUnique(offset, TWO_64, 0, offset);
    var len := reqLen + offset;
    DivModUnique(len, TWO_64, 0, len);
  }

  /** The wrap test fires exactly when the mathematical end of the window
      (which is also the end of the request) lies beyond 2^64 - 1. */
  lemma WrapsIff(reqAddr: U64, reqLen: Length, k: nat)
    requires ValidPageShift(k)
    ensures var w := ComputeWindow(reqAddr, reqLen, k);
      && (Wraps(w) <==> w.base + w.length > TWO_64 - 1)
      && (Wraps(w) <==> reqAddr + reqLen > TWO_64 - 1)
  {
    var w := ComputeWindow(reqAddr, reqLen, k);
    WindowGeometry(reqAddr, reqLen, k);
    var sum := w.base + w.length;
    if sum < TWO_64 {
      DivModUnique(sum, TWO_64, 0, sum);
    } else {
      DivModUnique(sum, TWO_64, 1, sum - TWO_64);
    }
  }

  // ---------------------------------------------------------------------
  // mem_read

  /** How `mem_read` ends. `Copied` means the bytes were copied; it then
      returns what `close` returned. */
  datatype ReadStatus =
    | InvalidArgument   // zero address, no buffer or zero length: -EINVAL
    | WindowWraps       // "Aligned addr+len exceeds top of address space"
    | OpenFailed
    | MapFailed         // the descriptor is not closed on this path
    | Copied(closed: bool)

  const EINVAL: int := 22

  /** The C return value of `mem_read`. */
  function ReturnCode(s: ReadStatus): (r: int)
    ensures r == 0 <==> s == Copied(true)
    ensures s == InvalidArgument <==> r == -EINVAL
  {
    match s
    case InvalidArgument => -EINVAL
    case Copied(closed) => if closed then 0 else -1
    case _ => -1
  }

  /** Which way `mem_read` goes, and whether it copies (io.c:62-91). */
  function MemReadStatus(os: Os, k: nat, reqAddr: U64, hasBuffer: bool,
                         reqLen: Length, memread: bool): ReadStatus
  {
    if reqAddr == 0 || !hasBuffer || reqLen == 0 then InvalidArgument
    else
      var w := ComputeWindow(reqAddr, reqLen, k);
      if Wraps(w) then WindowWraps
      else if !os.openOk(memread) then OpenFailed
      else if !os.mapOk(w.base, w.length, memread) then MapFailed
      else Copied(os.closeOk)
  }

  /** The len bytes of physical memory from address a on. */
  function PhysBytes(mem: nat -> Byte, a: nat, len: nat): (r: seq<Byte>)
    ensures |r| == len
    ensures forall i :: 0 <= i < len ==> r[i] == mem(a + i)
  {
    seq(len, i requires 0 <= i < len => mem(a + i))
  }

  /** `mem_read`: map the window over physical memory and copy the requested
      bytes into the caller's buffer `val`. The bytes come from the mapping at
      `base + offset`, which is the requested address itself. */
  method MemRead(os: Os, mem: nat -> Byte, k: nat, reqAddr: U64, val: array?<Byte>,
                 reqLen: Length, memread: bool) returns (ret: int)
    requires ValidPageShift(k)
    requires val != null ==> reqLen <= val.Length
    modifies val
    ensures var s := MemReadStatus(os, k, reqAddr, val != null, reqLen, memread);
      && ret == ReturnCode(s)
      && (s.Copied? ==> val[..reqLen] == PhysBytes(mem, reqAddr, reqLen)
                        && val[reqLen..] == old(val[reqLen..]))
      && (!s.Copied? && val != null ==> val[..] == old(val[..]))
  {
    if reqAddr == 0 || val == null || reqLen == 0 {
      return -EINVAL;
    }
    var w := ComputeWindow(reqAddr, reqLen, k);
    if (w.base + w.length) % TWO_64 < w.base {
      return -1;
    }
    if !os.openOk(memread) {
      return -1;
    }
    if !os.mapOk(w.base, w.length, memread) {
      return -1;
    }
    WindowGeometry(reqAddr, reqLen, k);
    // memcpy(val, real_io + offset, req_len)
    forall i | 0 <= i < reqLen {
      val[i] := mem(w.base + w.offset + i);
    }
    ret := if os.closeOk then 0 else -1;
  }

  /** A 4-byte table entry as `iommu32_memread` reads it: `mem_read` into a
      zeroed `unsigned long`, so the value is the 4 bytes, little-endian.
      None when `mem_read` returns anything but 0. */
  function ReadEntry(os: Os, mem: nat -> Byte, k: nat, a: U64): (r: Option<bv32>)
    ensures r.Some? <==> MemReadStatus(os, k, a, true, 4, true) == Copied(true)
    ensures a == 0 ==> r.None?
  {
    if MemReadStatus(os, k, a, true, 4, true) == Copied(true) then
      var v := LeValue(PhysBytes(mem, a, 4));
      Pow2Of32();
      Some(v as bv32)
    else None
  }

  /** The entry reader over the whole address space. */
  function EntryReader(os: Os, mem: nat -> Byte, k: nat): U64 -> Option<bv32> {
    (a: U64) => ReadEntry(os, mem, k, a)
  }

}
