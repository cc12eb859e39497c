/** Offset/limit paging over an ordered sequence. Pages are 1-based and
    `size` rows long: page `p` starts at offset `(p - 1) * size`, which is
    how the service turns its `pageNum` (rows per page) and `pageCount`
    (current page) into a skip and a take. */
module Paging {

  function Min(a: int, b: int): int {
    if a <= b then a else b
  }

  function Max(a: int, b: int): int {
    if a <= b then b else a
  }

  /** First index of page `page`, clamped to the end of the data. */
  function PageLo(len: nat, size: nat, page: nat): nat
    requires page >= 1
  {
    Min((page - 1) * size, len)
  }

  /** One past the last index of page `page`, clamped to the end of the data. */
  function PageHi(len: nat, size: nat, page: nat): nat
    requires page >= 1
  {
    Min(page * size, len)
  }

  lemma PageBoundsOrdered(len: nat, size: nat, page: nat)
    requires page >= 1
    ensures PageLo(len, size, page) <= PageHi(len, size, page)
  {
    assert (page - 1) * size <= page * size;
  }

  /** The rows of page `page` when pages hold `size` rows. */
  function Page<T>(s: seq<T>, size: nat, page: nat): (r: seq<T>)
    requires size >= 1 && page >= 1
    ensures |r| == Min(size, Max(0, |s| - (page - 1) * size))
    ensures forall i :: 0 <= i < |r| ==> r[i] == s[(page - 1) * size + i]
    ensures (page - 1) * size >= |s| ==> r == []
  {
    PageBoundsOrdered(|s|, size, page);
    assert page * size == (page - 1) * size + size;
    s[PageLo(|s|, size, page)..PageHi(|s|, size, page)]
  }

  /** Pages 1..k laid end to end. */
  function Pages<T>(s: seq<T>, size: nat, k: nat): seq<T>
    requires size >= 1
  {
    if k == 0 then [] else Pages(s, size, k - 1) + Page(s, size, k)
  }

  /** Two different pages never share a position, and the earlier page
      lies wholly before the later one. */
  lemma PagesDisjoint(len: nat, size: nat, p: nat, q: nat)
    requires 1 <= p < q
    ensures PageHi(len, size, p) <= PageLo(len, size, q)
  {
    assert p * size <= (q - 1) * size by {
      MulMonotone(p, q - 1, size);
    }
  }

  lemma MulMonotone(a: nat, b: nat, c: nat)
    requires a <= b
    ensures a * c <= b * c
  {
  }

  /** Page `p` followed by page `p + 1` is one contiguous run of the data:
      no row falls between two consecutive pages. */
  lemma PagesAdjacent<T>(s: seq<T>, size: nat, p: nat)
    requires size >= 1 && p >= 1
    ensures Page(s, size, p) + Page(s, size, p + 1) == s[PageLo(|s|, size, p)..PageHi(|s|, size, p + 1)]
  {
    var lo, mid, hi := PageLo(|s|, size, p), PageHi(|s|, size, p), PageHi(|s|, size, p + 1);
    PageBoundsOrdered(|s|, size, p);
    PageBoundsOrdered(|s|, size, p + 1);
    assert s[lo..mid] + s[mid..hi] == s[lo..hi];
  }

  /** Reading pages 1..k in order yields the first `k * size` rows (or all
      of them): paging neither skips nor repeats a row. */
  lemma {:induction false} PagesArePrefix<T>(s: seq<T>, size: nat, k: nat)
    requires size >= 1
    ensures Pages(s, size, k) == s[..Min(k * size, |s|)]
  {
    if k > 0 {
      PagesArePrefix(s, size, k - 1);
      var lo, hi := PageLo(|s|, size, k), PageHi(|s|, size, k);
      PageBoundsOrdered(|s|, size, k);
      assert Pages(s, size, k) == s[..lo] + s[lo..hi];
      assert s[..lo] + s[lo..hi] == s[..hi];
    }
  }
}
