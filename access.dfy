/**
 * Sized accesses over a mapped buffer: `write_memory` fills it with one
 * value at a 1-, 2- or 4-byte granularity (io.c:190-216), and
 * `memread_memory` reads it back word by word in rows of 16 bytes, each row
 * labelled with its physical address (io.c:160-187). The rows are data here;
 * their printf rendering is not modelled.
 */
module Access {
  import opened Bytes

  const ROW_BYTES: nat := 16

  /** The buffer after filling len bytes from off with the w-byte value v. */
  function Fill(s: seq<Byte>, off: nat, len: nat, w: nat, v: nat): (r: seq<Byte>)
    requires off + len <= |s| && w > 0 && len % w == 0
    ensures |r| == |s|
  {
    s[..off] + Repeat(LeBytes(v, w), len / w) + s[off + len..]
  }

  /** What a fill leaves: bytes outside [off, off + len) as they were, and
      inside it the bytes of v, least significant first, over and over. */
  lemma FillBytes(s: seq<Byte>, off: nat, len: nat, w: nat, v: nat, i: nat)
    requires off + len <= |s| && w > 0 && len % w == 0 && i < |s|
    ensures Fill(s, off, len, w, v)[i] ==
      if off <= i < off + len then LeBytes(v, w)[(i - off) % w] else s[i]
  {
    if off <= i < off + len {
      var n := len / w;
      assert n * w == len;
      RepeatAt(LeBytes(v, w), n, i - off);
    }
  }

  /** Reading the filled area back gives len / w words, each of them v
      truncated to w bytes. */
  lemma FillReadsBack(s: seq<Byte>, off: nat, len: nat, w: nat, v: nat)
    requires off + len <= |s| && w > 0 && len % w == 0
    ensures Words(Fill(s, off, len, w, v)[off..off + len], w) ==
            seq(len / w, _ => v % Pow2(8 * w))
  {
    var f := Fill(s, off, len, w, v);
    var p := LeBytes(v, w);
    assert f[off..off + len] == Repeat(p, len / w);
    WordsOfRepeat(p, len / w);
    LeRoundTrip(v, w);
  }

  /** `write_memory`: store `value` as an `iosize`-byte word at every
      `iosize`-th byte of [off, off + len). A width other than 1, 2 or 4
      matches no case of the switch and writes nothing. The ghost result
      counts the stores. */
  method WriteMemory(a: array<Byte>, off: nat, len: nat, iosize: int, value: U64)
    returns (ghost stores: nat)
    requires off + len <= a.Length
    requires IsWidth(iosize) ==> len % iosize == 0
    modifies a
    ensures IsWidth(iosize) ==> a[..] == Fill(old(a[..]), off, len, iosize, value)
    ensures IsWidth(iosize) ==> stores == len / iosize
    ensures !IsWidth(iosize) ==> a[..] == old(a[..]) && stores == 0
  {
    stores := 0;
    if !IsWidth(iosize) {
      return;
    }
    var w: nat := iosize;
    var word := LeBytes(value, w);
    var p: nat, n: nat := off, len;
    while n != 0
      invariant off <= p && p + n == off + len && n % iosize == 0
      invariant p - off == stores * iosize
      invariant a[..] == old(a[..])[..off] + Repeat(word, stores) + old(a[..])[p..]
      decreases n
    {
      ghost var before := a[..];
      StepDown(n, w);
      // *(uintN_t *)addr = value
      forall i | 0 <= i < iosize {
        a[p + i] := word[i];
      }
      StoreExtends(old(a[..]), before, a[..], off, p, word, stores);
      stores := stores + 1;
      p, n := p + iosize, n - iosize;
    }
    MulDiv(stores, iosize);
  }

  /** One more store of the word at p extends the filled prefix by one copy. */
  lemma StoreExtends(orig: seq<Byte>, before: seq<Byte>, after: seq<Byte>,
                     off: nat, p: nat, word: seq<Byte>, stores: nat)
    requires off <= p && p + |word| <= |orig| == |before| == |after|
    requires before == orig[..off] + Repeat(word, stores) + orig[p..]
    requires forall i :: 0 <= i < |after| ==>
      after[i] == if p <= i < p + |word| then word[i - p] else before[i]
    ensures after == orig[..off] + Repeat(word, stores + 1) + orig[p + |word|..]
  {
    var head := orig[..off] + Repeat(word, stores);
    var tail := orig[p + |word|..];
    assert |head| == p;
    assert before == head + orig[p..];
    assert Repeat(word, stores + 1) == Repeat(word, stores) + word;
    forall i | 0 <= i < |after|
      ensures after[i] == (head + word + tail)[i]
    {
      if i < p {
        assert after[i] == before[i] == head[i];
      } else if i >= p + |word| {
        assert after[i] == before[i] == orig[i];
      }
    }
    assert after == head + word + tail;
  }

  /** One line of `memread_memory`'s output: the physical address it is
      labelled with and the words it shows. */
  datatype Row = Row(addr: U64, values: seq<nat>)

  /** The rows for the bytes s shown from physical address phys on: 16 bytes
      to a row, the label advancing by 16 with 64-bit wrap-around. */
  function Rows(phys: U64, s: seq<Byte>, w: nat): seq<Row>
    requires w > 0
    decreases |s|
  {
    if |s| == 0 then []
    else
      var k := if |s| < ROW_BYTES then |s| else ROW_BYTES;
      [Row(phys, Words(s[..k], w))] + Rows((phys + ROW_BYTES) % TWO_64, s[k..], w)
  }

  /** All the words of the rows, in order. */
  function RowValues(rows: seq<Row>): seq<nat> {
    if rows == [] then [] else rows[0].values + RowValues(rows[1..])
  }

  /** There are ceil(|s| / 16) rows. */
  lemma {:induction false} RowsCount(phys: U64, s: seq<Byte>, w: nat)
    requires w > 0
    ensures |Rows(phys, s, w)| == (|s| + ROW_BYTES - 1) / ROW_BYTES
    decreases |s|
  {
    if |s| > ROW_BYTES {
      RowsCount((phys + ROW_BYTES) % TWO_64, s[ROW_BYTES..], w);
    }
  }

  /** Row r is labelled phys + 16 r, modulo 2^64. */
  lemma {:induction false} RowsAddress(phys: U64, s: seq<Byte>, w: nat, r: nat)
    requires w > 0 && r < |Rows(phys, s, w)|
    ensures Rows(phys, s, w)[r].addr == (phys + ROW_BYTES * r) % TWO_64
    decreases |s|
  {
    if r == 0 {
      DivModUnique(phys, TWO_64, 0, phys);
    } else {
      var k := if |s| < ROW_BYTES then |s| else ROW_BYTES;
      var next := (phys + ROW_BYTES) % TWO_64;
      RowsAddress(next, s[k..], w, r - 1);
      ModAddLeft(phys + ROW_BYTES, ROW_BYTES * (r - 1), TWO_64);
    }
  }

  /** A row shows at most 16 / w words. */
  lemma {:induction false} RowsWidth(phys: U64, s: seq<Byte>, w: nat, r: nat)
    requires w > 0 && r < |Rows(phys, s, w)|
    ensures |Rows(phys, s, w)[r].values| <= ROW_BYTES / w
    decreases |s|
  {
    var k := if |s| < ROW_BYTES then |s| else ROW_BYTES;
    if r == 0 {
      WordsLength(s[..k], w);
      DivMonotonic(k, ROW_BYTES, w);
    } else {
      RowsWidth((phys + ROW_BYTES) % TWO_64, s[k..], w, r - 1);
    }
  }

  lemma DivMonotonic(x: nat, y: nat, w: nat)
    requires x <= y && w > 0
    ensures x / w <= y / w
  {
    if x / w > y / w {
      MulMonotonic(w, y / w + 1, x / w);
      assert false;
    }
  }

  /** Read row after row, the values are exactly the buffer's w-byte words in
      order, provided the length and the row width are multiples of w. */
  lemma {:induction false} RowsFlatten(phys: U64, s: seq<Byte>, w: nat)
    requires IsWidth(w) && |s| % w == 0
    ensures RowValues(Rows(phys, s, w)) == Words(s, w)
    decreases |s|
  {
    if |s| > 0 {
      var k := if |s| < ROW_BYTES then |s| else ROW_BYTES;
      var next := (phys + ROW_BYTES) % TWO_64;
      var rows := Rows(phys, s, w);
      assert rows == [Row(phys, Words(s[..k], w))] + Rows(next, s[k..], w);
      assert rows[1..] == Rows(next, s[k..], w);
      assert RowValues(rows) == Words(s[..k], w) + RowValues(Rows(next, s[k..], w));
      RowSplitAligned(|s|, w);
      RowsFlatten(next, s[k..], w);
      assert s == s[..k] + s[k..];
      WordsAppend(s[..k], s[k..], w);
    }
  }

  /** Cutting a row of 16 bytes off a multiple of w leaves multiples of w. */
  lemma RowSplitAligned(n: nat, w: nat)
    requires IsWidth(w) && n % w == 0 && n > 0
    ensures var k := if n < ROW_BYTES then n else ROW_BYTES;
      k % w == 0 && (n - k) % w == 0
  {
    if n >= ROW_BYTES {
      DivModUnique(n - ROW_BYTES, w, n / w - ROW_BYTES / w, 0);
    }
  }

  /** One more word at the end of a row. */
  lemma WordsSnoc(x: seq<Byte>, y: seq<Byte>, w: nat)
    requires w > 0 && |x| % w == 0 && |y| == w
    ensures Words(x + y, w) == Words(x, w) + [LeValue(y)]
  {
    WordsAppend(x, y, w);
    assert y[w..] == [] && y[..w] == y;
  }

  /** The first row of a non-empty area takes its first min(16, len) bytes. */
  lemma RowsUnfold(phys: U64, s: seq<Byte>, k: nat, w: nat)
    requires w > 0 && 0 < |s| && k == (if |s| < ROW_BYTES then |s| else ROW_BYTES)
    ensures Rows(phys, s, w) ==
      [Row(phys, Words(s[..k], w))] + Rows((phys + ROW_BYTES) % TWO_64, s[k..], w)
  {}

  /** The rows of s[start..end] are the row of s[start..p] followed by the
      rows of s[p..end], when p is where the first row ends. */
  lemma RowsAdvance(phys: U64, s: seq<Byte>, start: nat, p: nat, end: nat, w: nat)
    requires w > 0 && start < p <= end <= |s|
    requires p - start == if end - start < ROW_BYTES then end - start else ROW_BYTES
    ensures Rows(phys, s[start..end], w) ==
      [Row(phys, Words(s[start..p], w))] + Rows((phys + ROW_BYTES) % TWO_64, s[p..end], w)
  {
    var rest := s[start..end];
    assert rest[..p - start] == s[start..p] && rest[p - start..] == s[p..end];
    RowsUnfold(phys, rest, p - start, w);
  }

  /** `memread_memory` counts its length down by iosize and stops only at
      zero, which a length that is not a multiple of iosize never reaches:
      the loop runs past the mapping. */
  lemma CountdownMissesZero(len: nat, w: nat, steps: nat)
    requires w > 0 && len % w != 0
    ensures len - steps * w != 0
  {
    if len == steps * w {
      MulDiv(steps, w);
    }
  }

  /** The outer loop's invariant survives one row. */
  lemma RowsStep(rows: seq<Row>, addr: U64, s: seq<Byte>, start: nat, p: nat, end: nat,
                 w: nat, phys: U64, off: nat, values: seq<nat>)
    requires w > 0 && off <= start < p <= end <= |s|
    requires p - start == if end - start < ROW_BYTES then end - start else ROW_BYTES
    requires values == Words(s[start..p], w)
    requires rows + Rows(addr, s[start..end], w) == Rows(phys, s[off..end], w)
    ensures (rows + [Row(addr, values)]) + Rows((addr + ROW_BYTES) % TWO_64, s[p..end], w)
            == Rows(phys, s[off..end], w)
  {
    RowsAdvance(addr, s, start, p, end, w);
  }

  /** Reading the word at p extends the words read from start. */
  lemma WordsStep(s: seq<Byte>, start: nat, p: nat, w: nat)
    requires w > 0 && start <= p && p + w <= |s| && (p - start) % w == 0
    ensures Words(s[start..p + w], w) == Words(s[start..p], w) + [LeValue(s[p..p + w])]
  {
    assert s[start..p + w] == s[start..p] + s[p..p + w];
    WordsSnoc(s[start..p], s[p..p + w], w);
  }

  /** A word-aligned position short of the row's end leaves room for a word. */
  lemma RowHasRoom(i: nat, w: nat)
    requires IsWidth(w) && i % w == 0 && i < ROW_BYTES
    ensures i + w <= ROW_BYTES && (i + w) % w == 0
  {}

  /** `memread_memory`: walk the len bytes from off in `iosize`-wide words,
      16 bytes to a row, starting the labels at phys. Both loops count `len`
      down to exactly zero, so they stop only when len is a multiple of
      iosize; the callers pass 1, 2 or 4 for iosize. */
  method MemreadMemory(phys: U64, a: array<Byte>, off: nat, len: nat, iosize: nat)
    returns (rows: seq<Row>)
    requires IsWidth(iosize) && len % iosize == 0 && off + len <= a.Length
    ensures rows == Rows(phys, a[off..off + len], iosize)
  {
    var end := off + len;
    ghost var s := a[..];
    rows := [];
    var p: nat, n: nat, addr: U64 := off, len, phys;
    while n != 0
      invariant s == a[..]
      invariant RowsLoop(s, phys, off, end, iosize, rows, addr, p, n)
      decreases n
    {
      ghost var start := p;
      var values, i;
      values, i, p, n := ReadRow(a, p, n, iosize);
      RowsLoopStep(a, s, phys, off, end, iosize, rows, addr, start, values, p, n);
      rows := rows + [Row(addr, values)];
      addr := (addr + ROW_BYTES) % TWO_64;
    }
    RowsLoopExit(a, s, phys, off, end, iosize, rows, addr, p);
  }

  /** The outer loop's invariant: the rows so far, followed by the rows of
      the bytes from p on, are all the rows. */
  ghost predicate RowsLoop(s: seq<Byte>, phys: U64, off: nat, end: nat, w: nat,
                           rows: seq<Row>, addr: U64, p: nat, n: nat)
  {
    w > 0 && off <= p && p + n == end && end <= |s| && n % w == 0
    && rows + Rows(addr, s[p..end], w) == Rows(phys, s[off..end], w)
  }

  /** One row read keeps the outer loop's invariant. */
  lemma RowsLoopStep(a: array<Byte>, s: seq<Byte>, phys: U64, off: nat, end: nat, w: nat,
                     rows: seq<Row>, addr: U64, start: nat, values: seq<nat>, p: nat, n: nat)
    requires s == a[..] && start <= end
    requires RowsLoop(s, phys, off, end, w, rows, addr, start, end - start)
    requires start < p && p + n == end && n % w == 0
    requires p - start == if end - start < ROW_BYTES then end - start else ROW_BYTES
    requires values == Words(a[start..p], w)
    ensures RowsLoop(s, phys, off, end, w, rows + [Row(addr, values)],
                     (addr + ROW_BYTES) % TWO_64, p, n)
  {
    assert a[start..p] == s[start..p];
    RowsStep(rows, addr, s, start, p, end, w, phys, off, values);
  }

  /** When no bytes are left, the rows so far are all the rows. */
  lemma RowsLoopExit(a: array<Byte>, s: seq<Byte>, phys: U64, off: nat, end: nat, w: nat,
                     rows: seq<Row>, addr: U64, p: nat)
    requires s == a[..] && RowsLoop(s, phys, off, end, w, rows, addr, p, 0)
    ensures rows == Rows(phys, a[off..end], w)
  {
    assert s[p..end] == [];
    assert a[off..end] == s[off..end];
  }

  /** The inner loop's invariant: `i` bytes of the row read from `p0`, as
      whole words, with `n` bytes left. */
  ghost predicate RowLoop(a: array<Byte>, p0: nat, n0: nat, w: nat,
                          values: seq<nat>, i: nat, p: nat, n: nat)
    reads a
  {
    IsWidth(w) && p0 + n0 <= a.Length && p0 + i == p && p + n == p0 + n0
    && n % w == 0 && i % w == 0 && i <= ROW_BYTES && values == Words(a[p0..p], w)
  }

  /** One pass of the inner loop keeps its invariant. */
  lemma ReadRowStep(a: array<Byte>, p0: nat, n0: nat, w: nat,
                    values: seq<nat>, i: nat, p: nat, n: nat)
    requires RowLoop(a, p0, n0, w, values, i, p, n) && i < ROW_BYTES && n != 0
    ensures p + w <= a.Length && w <= n
    ensures RowLoop(a, p0, n0, w, values + [LeValue(a[p..p + w])], i + w, p + w, n - w)
  {
    StepDown(n, w);
    RowHasRoom(i, w);
    var s := a[..];
    assert a[p0..p] == s[p0..p] && a[p..p + w] == s[p..p + w] && a[p0..p + w] == s[p0..p + w];
    WordsStep(s, p0, p, w);
  }

  /** Where the inner loop stops: after a full row or at the end. */
  lemma ReadRowExit(a: array<Byte>, p0: nat, n0: nat, w: nat,
                    values: seq<nat>, i: nat, p: nat, n: nat)
    requires RowLoop(a, p0, n0, w, values, i, p, n) && !(i < ROW_BYTES && n != 0) && n0 > 0
    ensures i == (if n0 < ROW_BYTES then n0 else ROW_BYTES) && i > 0
  {}

  /** The inner loop of `memread_memory`: one row's words, at most 16 bytes
      of them. */
  method ReadRow(a: array<Byte>, p0: nat, n0: nat, iosize: nat)
    returns (values: seq<nat>, i: nat, p: nat, n: nat)
    requires IsWidth(iosize) && n0 % iosize == 0 && p0 + n0 <= a.Length && n0 > 0
    ensures p == p0 + i && n == n0 - i && n % iosize == 0 && i > 0
    ensures i == if n0 < ROW_BYTES then n0 else ROW_BYTES
    ensures values == Words(a[p0..p], iosize)
  {
    i := 0;
    values := [];
    p, n := p0, n0;
    while i < ROW_BYTES && n != 0
      invariant RowLoop(a, p0, n0, iosize, values, i, p, n)
      decreases n
    {
      ReadRowStep(a, p0, n0, iosize, values, i, p, n);
      values := values + [LeValue(a[p..p + iosize])];
      i, p, n := i + iosize, p + iosize, n - iosize;
    }
    ReadRowExit(a, p0, n0, iosize, values, i, p, n);
  }

  /** A fill followed by a read of the same area shows the written value,
      truncated to the width, in every position. */
  lemma WriteThenRead(s: seq<Byte>, phys: U64, off: nat, len: nat, w: nat, v: nat)
    requires off + len <= |s| && IsWidth(w) && len % w == 0
    ensures RowValues(Rows(phys, Fill(s, off, len, w, v)[off..off + len], w)) ==
            seq(len / w, _ => v % Pow2(8 * w))
  {
    var f := Fill(s, off, len, w, v);
    RowsFlatten(phys, f[off..off + len], w);
    FillReadsBack(s, off, len, w, v);
  }
}
