/**
 * The arithmetic and slicing behind the API's page windows: the page
 * count `(total + size - 1) // size`, Python's clamping slice `s[i:j]`,
 * and the concatenation of per-year lists.
 */
module Paging {
  import opened Wrappers

  /** `(total + size - 1) // size` */
  function CeilDiv(total: nat, size: nat): nat
    requires size > 0
  {
    (total + size - 1) / size
  }

  lemma MulMonotone(a: nat, b: nat, c: nat)
    requires a <= b
    ensures a * c <= b * c
  {
  }

  /** The page count is the ceiling of `total / size`. */
  lemma {:induction false} CeilDivIsCeiling(total: nat, size: nat)
    requires size > 0
    ensures total <= CeilDiv(total, size) * size
    ensures total > 0 ==> (CeilDiv(total, size) - 1) * size < total
    ensures CeilDiv(total, size) == 0 <==> total == 0
  {
    var q, r := (total + size - 1) / size, (total + size - 1) % size;
    assert total + size - 1 == q * size + r && 0 <= r < size;
    assert q * size == total + size - 1 - r;
    if total > 0 {
      assert (q - 1) * size == q * size - size;
    }
    if q == 0 {
      assert total + size - 1 == r;
    }
  }

  /** `s[i:j]` for non-negative `i` and `j`: both ends are clamped to `|s|`. */
  function PySlice<T>(s: seq<T>, i: nat, j: nat): seq<T>
  {
    var a, b := Min(i, |s|), Min(j, |s|);
    if a <= b then s[a..b] else []
  }

  /** `year_data[(page - 1) * size : min((page - 1) * size + size, len(year_data))]` */
  function PageWindow<T>(s: seq<T>, page: nat, size: nat): seq<T>
    requires page >= 1
  {
    var start := (page - 1) * size;
    PySlice(s, start, Min(start + size, |s|))
  }

  /** Concatenation of lists, in order. */
  function Flatten<T>(lists: seq<seq<T>>): seq<T>
    decreases |lists|
  {
    if |lists| == 0 then [] else Flatten(lists[..|lists| - 1]) + lists[|lists| - 1]
  }

  /** The sum of the lengths of the lists. */
  function TotalLength<T>(lists: seq<seq<T>>): nat
    decreases |lists|
  {
    if |lists| == 0 then 0 else TotalLength(lists[..|lists| - 1]) + |lists[|lists| - 1]|
  }

  lemma {:induction false} FlattenLength<T>(lists: seq<seq<T>>)
    ensures |Flatten(lists)| == TotalLength(lists)
    decreases |lists|
  {
    if |lists| > 0 {
      FlattenLength(lists[..|lists| - 1]);
    }
  }

  /** A page inside the page count holds between 1 and `size` records, taken from the right offset. */
  lemma PageWindowShape<T>(s: seq<T>, page: nat, size: nat)
    requires size > 0 && 1 <= page <= CeilDiv(|s|, size)
    ensures (page - 1) * size < |s|
    ensures PageWindow(s, page, size) == s[(page - 1) * size .. Min(page * size, |s|)]
    ensures 0 < |PageWindow(s, page, size)| <= size
  {
    CeilDivIsCeiling(|s|, size);
    MulMonotone(page - 1, CeilDiv(|s|, size) - 1, size);
    assert (page - 1) * size + size == page * size;
  }

  /** The pages 1 .. n, in order. */
  function Pages<T>(s: seq<T>, size: nat, n: nat): seq<seq<T>>
  {
    seq(n, i requires 0 <= i < n => PageWindow(s, i + 1, size))
  }

  /** The first `n` pages, read in turn, are the first `min(n * size, len)` records; `e` is `n * size`. */
  lemma {:induction false} PagesPrefix<T>(s: seq<T>, size: nat, n: nat, e: nat)
    requires size > 0 && e == n * size
    ensures Flatten(Pages(s, size, n)) == s[..Min(e, |s|)]
    decreases n
  {
    if n > 0 {
      PagesSnoc(s, size, n);
      PageAt(s, size, n, e);
      PagesPrefix(s, size, n - 1, e - size);
      PrefixThenSlice(s, Min(e - size, |s|), Min(e, |s|));
    }
  }

  lemma PrefixThenSlice<T>(s: seq<T>, a: nat, b: nat)
    requires a <= b <= |s|
    ensures s[..a] + s[a..b] == s[..b]
  {
  }

  /** The first `n` pages are the first `n - 1` followed by page `n`. */
  lemma PagesSnoc<T>(s: seq<T>, size: nat, n: nat)
    requires n > 0
    ensures Flatten(Pages(s, size, n)) == Flatten(Pages(s, size, n - 1)) + PageWindow(s, n, size)
  {
    var ps := Pages(s, size, n);
    assert ps[..n - 1] == Pages(s, size, n - 1);
  }

  /** Page `n` is the stretch between the ends of pages `n - 1` and `n`. */
  lemma PageAt<T>(s: seq<T>, size: nat, n: nat, e: nat)
    requires size > 0 && n > 0 && e == n * size
    ensures e >= size && (e - size) == (n - 1) * size
    ensures PageWindow(s, n, size) == s[Min(e - size, |s|)..Min(e, |s|)]
  {
    assert (n - 1) * size + size == n * size;
  }

  /** Reading pages 1 .. total_pages in turn gives back the whole list. */
  lemma PagesCoverAll<T>(s: seq<T>, size: nat)
    requires size > 0
    ensures Flatten(Pages(s, size, CeilDiv(|s|, size))) == s
  {
    CeilDivIsCeiling(|s|, size);
    PagesPrefix(s, size, CeilDiv(|s|, size), CeilDiv(|s|, size) * size);
    assert s[..|s|] == s;
  }

  /** A full page is left as it is: the next list only lies past it. */
  lemma SkipTakeFull<T>(flat: seq<T>, y: seq<T>, offset: nat, size: nat, paginated: seq<T>, skip: nat)
    requires size > 0
    requires paginated == PySlice(flat, offset, offset + size)
    requires skip == (if offset >= |flat| then offset - |flat| else 0)
    requires |paginated| >= size
    ensures paginated == PySlice(flat + y, offset, offset + size) && skip == 0
  {
    assert offset + size <= |flat|;
    assert (flat + y)[offset..offset + size] == flat[offset..offset + size];
  }

  /** A list no longer than what is still to be skipped is skipped whole. */
  lemma SkipTakeSkips<T>(flat: seq<T>, y: seq<T>, offset: nat, size: nat, paginated: seq<T>, skip: nat)
    requires size > 0
    requires paginated == PySlice(flat, offset, offset + size)
    requires skip == (if offset >= |flat| then offset - |flat| else 0)
    requires |paginated| < size && skip >= |y|
    ensures paginated == PySlice(flat + y, offset, offset + size)
    ensures skip - |y| == (if offset >= |flat + y| then offset - |flat + y| else 0)
  {
    if |y| == 0 {
      assert flat + y == flat;
    } else {
      assert offset >= |flat| + |y|;
    }
  }

  /**
   * Otherwise the page takes the records of the list after the ones still to
   * be skipped, up to what the page still holds.
   */
  lemma SkipTakeTakes<T>(flat: seq<T>, y: seq<T>, offset: nat, size: nat, paginated: seq<T>, skip: nat)
    requires size > 0
    requires paginated == PySlice(flat, offset, offset + size)
    requires skip == (if offset >= |flat| then offset - |flat| else 0)
    requires |paginated| < size && skip < |y|
    ensures paginated + y[skip..skip + Min(size - |paginated|, |y| - skip)] == PySlice(flat + y, offset, offset + size)
    ensures offset < |flat + y|
  {
    var n := |flat|;
    var take := Min(size - |paginated|, |y| - skip);
    if offset >= n {
      assert paginated == [] && skip == offset - n && take == Min(size, |y| - skip);
      SliceRight(flat, y, offset, offset + take);
    } else {
      assert paginated == flat[offset..Min(offset + size, n)];
      assert skip == 0 && |paginated| == n - offset && take == Min(size - (n - offset), |y|);
      SliceAcross(flat, y, offset, n + take);
    }
  }

  /** A slice that lies in the second part of a concatenation. */
  lemma SliceRight<T>(a: seq<T>, b: seq<T>, i: nat, j: nat)
    requires |a| <= i <= j <= |a| + |b|
    ensures (a + b)[i..j] == b[i - |a|..j - |a|]
  {
  }

  /** A slice that starts in the first part of a concatenation and ends in the second. */
  lemma SliceAcross<T>(a: seq<T>, b: seq<T>, i: nat, j: nat)
    requires i <= |a| <= j <= |a| + |b|
    ensures (a + b)[i..j] == a[i..] + b[..j - |a|]
  {
    assert (a + b)[i..j] == (a + b)[i..|a|] + (a + b)[|a|..j];
    assert (a + b)[i..|a|] == a[i..];
  }

}
