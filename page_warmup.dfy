/**
 * Page warm-up (`first_touch_pages`): one byte is written at every
 * page-size offset of a fresh region, lowest first, so that each page is
 * faulted in under the memory policy just installed.
 */
module PageWarmup {

  import opened Machine

  /** The offsets the loop still writes once its counter has reached i. */
  function TouchesFrom(i: nat, size: nat, pageSize: nat): (offsets: seq<nat>)
    requires 0 < pageSize
    decreases size - i
  {
    if i < size then [i] + TouchesFrom(i + pageSize, size, pageSize) else []
  }

  /** The offsets `first_touch_pages(ptr, size)` writes, in the order it writes them. */
  function PageOffsets(size: nat, pageSize: nat): (offsets: seq<nat>)
    requires 0 < pageSize
  {
    TouchesFrom(0, size, pageSize)
  }

  /** From counter i on, the k-th write lands at i + k * pageSize, and the writes stop at the first offset not below size. */
  lemma {:induction false} TouchesFromShape(i: nat, size: nat, pageSize: nat)
    requires 0 < pageSize
    ensures forall k :: 0 <= k < |TouchesFrom(i, size, pageSize)| ==> TouchesFrom(i, size, pageSize)[k] == i + k * pageSize
    ensures size <= i + |TouchesFrom(i, size, pageSize)| * pageSize
    ensures |TouchesFrom(i, size, pageSize)| > 0 ==> i + (|TouchesFrom(i, size, pageSize)| - 1) * pageSize < size
    decreases size - i
  {
    if i < size {
      var rest := TouchesFrom(i + pageSize, size, pageSize);
      TouchesFromShape(i + pageSize, size, pageSize);
      assert TouchesFrom(i, size, pageSize) == [i] + rest;
      forall k | 0 < k < |rest| + 1
        ensures TouchesFrom(i, size, pageSize)[k] == i + k * pageSize
      {
        assert (k - 1) * pageSize + pageSize == k * pageSize;
      }
      assert (|rest| + 1) * pageSize == |rest| * pageSize + pageSize;
      if |rest| > 0 {
        assert (|rest| - 1) * pageSize + pageSize == |rest| * pageSize;
      }
    }
  }

  /** Offsets are written in strictly ascending order, the k-th at k * pageSize. */
  lemma PageOffsetsAscending(size: nat, pageSize: nat)
    requires 0 < pageSize
    ensures forall k :: 0 <= k < |PageOffsets(size, pageSize)| ==> PageOffsets(size, pageSize)[k] == k * pageSize
    ensures forall j, k :: 0 <= j < k < |PageOffsets(size, pageSize)| ==> PageOffsets(size, pageSize)[j] < PageOffsets(size, pageSize)[k]
  {
    TouchesFromShape(0, size, pageSize);
    var offsets := PageOffsets(size, pageSize);
    forall j, k | 0 <= j < k < |offsets|
      ensures offsets[j] < offsets[k]
    {
      MulMonotone(j, k, pageSize);
    }
  }

  /** Every offset written is a multiple of the page size below size. */
  lemma WrittenOffsetIsPageStart(size: nat, pageSize: nat, off: nat)
    requires 0 < pageSize && off in PageOffsets(size, pageSize)
    ensures off < size && off % pageSize == 0
  {
    TouchesFromShape(0, size, pageSize);
    var offsets := PageOffsets(size, pageSize);
    var m := |offsets|;
    var k :| 0 <= k < m && offsets[k] == off;
    if k < m - 1 {
      MulMonotone(k, m - 1, pageSize);
    }
    DivModUnique(off, pageSize, k, 0);
  }

  /** Every multiple of the page size below size is written. */
  lemma PageStartIsWritten(size: nat, pageSize: nat, off: nat)
    requires 0 < pageSize && off < size && off % pageSize == 0
    ensures off in PageOffsets(size, pageSize)
  {
    TouchesFromShape(0, size, pageSize);
    var offsets := PageOffsets(size, pageSize);
    var m := |offsets|;
    var k := off / pageSize;
    assert off == k * pageSize;
    if k >= m {
      if k > m {
        MulMonotone(m, k, pageSize);
      }
      assert false;
    }
    assert offsets[k] == off;
  }

  /** An offset is written exactly when it is a multiple of the page size below size. */
  lemma PageOffsetsExactly(size: nat, pageSize: nat)
    requires 0 < pageSize
    ensures forall off: nat :: off in PageOffsets(size, pageSize) <==> off < size && off % pageSize == 0
  {
    forall off: nat
      ensures off in PageOffsets(size, pageSize) <==> off < size && off % pageSize == 0
    {
      if off in PageOffsets(size, pageSize) {
        WrittenOffsetIsPageStart(size, pageSize, off);
      }
      if off < size && off % pageSize == 0 {
        PageStartIsWritten(size, pageSize, off);
      }
    }
  }

  /** The loop makes ceil(size / pageSize) writes. */
  lemma PageOffsetsCount(size: nat, pageSize: nat)
    requires 0 < pageSize
    ensures |PageOffsets(size, pageSize)| == (size + pageSize - 1) / pageSize
  {
    TouchesFromShape(0, size, pageSize);
    var m := |PageOffsets(size, pageSize)|;
    if size == 0 {
      DivModUnique(pageSize - 1, pageSize, 0, pageSize - 1);
    } else {
      assert (m - 1) * pageSize == m * pageSize - pageSize;
      DivModUnique(size + pageSize - 1, pageSize, m, size + pageSize - 1 - m * pageSize);
    }
  }

  /**
   * `first_touch_pages(mem, size)`: writes 0 at each offset of
   * PageOffsets(size, pageSize), in that order, and nowhere else.
   * `i` is a `size_t`: the requirement on size + pageSize rules out its wrap-around.
   */
  method FirstTouch(mem: array<Byte>, size: SizeT, pageSize: nat) returns (ghost touched: seq<nat>)
    requires 0 < pageSize && size <= mem.Length
    requires size + pageSize <= ADDRESS_LIMIT
    modifies mem
    ensures touched == PageOffsets(size, pageSize)
    ensures forall j :: 0 <= j < mem.Length ==> mem[j] == if j in touched then 0 else old(mem[j])
  {
    var i: SizeT := 0;
    touched := [];
    while i < size
      invariant touched + TouchesFrom(i, size, pageSize) == PageOffsets(size, pageSize)
      invariant forall j :: 0 <= j < mem.Length ==> mem[j] == if j in touched then 0 else old(mem[j])
      decreases size - i
    {
      mem[i] := 0;
      assert TouchesFrom(i, size, pageSize) == [i] + TouchesFrom(i + pageSize, size, pageSize);
      touched := touched + [i];
      i := i + pageSize;
    }
  }
}
