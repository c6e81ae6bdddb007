/** Page arithmetic of the paginator: how many pages a snapshot of `len`
    children needs, and which run of the snapshot each page receives. */
module Slicing {

  function Min(a: int, b: int): int {
    if a < b then a else b
  }

  /** `Math.ceil(len / amount)`: the number of pages. */
  function PageCount(len: nat, amount: nat): nat
    requires amount >= 1
  {
    (len + amount - 1) / amount
  }

  /** `Array.prototype.slice(start, end)` for non-negative bounds: both
      bounds are clamped to the length, and a run that would end before it
      starts is empty. */
  function JsSlice<T>(s: seq<T>, start: nat, end: nat): (r: seq<T>)
    ensures |r| == if Min(end, |s|) <= start then 0 else Min(end, |s|) - start
    ensures forall k :: 0 <= k < |r| ==> r[k] == s[start + k]
  {
    var lo := Min(start, |s|);
    var hi := Min(end, |s|);
    if lo < hi then s[lo..hi] else []
  }

  /** The children page `i` receives: `children.slice(i * amount, (i + 1) * amount)`.
      The source's `|| 9e9` fallback replaces an end bound of 0, which
      only arises when `amount` is 0, so it has no effect here. */
  function PageSlice<T>(s: seq<T>, amount: nat, i: nat): seq<T>
    requires amount >= 1
  {
    JsSlice(s, i * amount, (i + 1) * amount)
  }

  /** The contents of every page `build` creates, in page order. */
  function Slices<T>(s: seq<T>, amount: nat): seq<seq<T>>
    requires amount >= 1
  {
    seq(PageCount(|s|, amount), i requires 0 <= i => PageSlice(s, amount, i))
  }

  /** The pages' contents laid end to end, first page first. */
  function Flatten<T>(pages: seq<seq<T>>): seq<T>
  {
    if pages == [] then [] else Flatten(pages[..|pages| - 1]) + pages[|pages| - 1]
  }

  /** Monotonicity of multiplication by a non-negative factor. */
  lemma {:induction false} MulMono(a: nat, b: nat, c: nat)
    requires a <= b
    ensures a * c <= b * c
  {
    if a < b {
      MulMono(a, b - 1, c);
      assert (b - 1) * c + c == b * c;
    }
  }

  /** PageCount is the ceiling of len / amount: the pages hold all `len`
      children, and one page fewer would not. */
  lemma PageCountIsCeiling(len: nat, amount: nat)
    requires amount >= 1
    ensures PageCount(len, amount) * amount >= len
    ensures PageCount(len, amount) > 0 ==> (PageCount(len, amount) - 1) * amount < len
    ensures PageCount(len, amount) == 0 <==> len == 0
  {
    var n := len + amount - 1;
    var q, r := n / amount, n % amount;
    assert n == q * amount + r && 0 <= r < amount;
    assert q * amount >= len;
    if q > 0 {
      assert (q - 1) * amount == q * amount - amount;
    }
    if len == 0 {
      assert n < amount;
    } else {
      assert q * amount >= len > 0;
    }
  }

  /** Every page that `build` creates starts inside the snapshot, so it is
      a non-empty run starting at `i * amount` and ending at the next page
      boundary or at the end of the snapshot. */
  lemma PageSliceAt<T>(s: seq<T>, amount: nat, i: nat)
    requires amount >= 1 && i < PageCount(|s|, amount)
    ensures i * amount < Min((i + 1) * amount, |s|)
    ensures PageSlice(s, amount, i) == s[i * amount .. Min((i + 1) * amount, |s|)]
  {
    PageCountIsCeiling(|s|, amount);
    MulMono(i, PageCount(|s|, amount) - 1, amount);
    assert (i + 1) * amount == i * amount + amount;
    var page := PageSlice(s, amount, i);
    var run := s[i * amount .. Min((i + 1) * amount, |s|)];
    assert |page| == |run|;
    forall k | 0 <= k < |page| ensures page[k] == run[k] { }
  }

  /** Every page but the last holds exactly `amount` children; the last holds
      what remains, between 1 and `amount` of them. */
  lemma PageSizes<T>(s: seq<T>, amount: nat, i: nat)
    requires amount >= 1 && i < PageCount(|s|, amount)
    ensures i < PageCount(|s|, amount) - 1 ==> |PageSlice(s, amount, i)| == amount
    ensures i == PageCount(|s|, amount) - 1 ==>
              |PageSlice(s, amount, i)| == |s| - i * amount &&
              1 <= |PageSlice(s, amount, i)| <= amount
  {
    PageCountIsCeiling(|s|, amount);
    PageSliceAt(s, amount, i);
    assert (i + 1) * amount == i * amount + amount;
    var count := PageCount(|s|, amount);
    if i < count - 1 {
      MulMono(i + 1, count - 1, amount);
    }
  }

  /** The first `k` pages, laid end to end, are the first `k * amount`
      children of the snapshot (all of them once `k` reaches the page count). */
  lemma {:induction false} FlattenPrefix<T>(s: seq<T>, amount: nat, k: nat)
    requires amount >= 1 && k <= PageCount(|s|, amount)
    ensures Flatten(Slices(s, amount)[..k]) == s[..Min(k * amount, |s|)]
  {
    var pages := Slices(s, amount);
    if k == 0 {
      assert pages[..0] == [];
    } else {
      FlattenPrefix(s, amount, k - 1);
      PageSliceAt(s, amount, k - 1);
      assert pages[..k][..k - 1] == pages[..k - 1];
      assert (k - 1 + 1) * amount == k * amount;
      PageSlicesJoin(s, (k - 1) * amount, Min(k * amount, |s|));
    }
  }

  /** Appending the run `s[lo..hi]` to the prefix `s[..lo]` gives `s[..hi]`. */
  lemma PageSlicesJoin<T>(s: seq<T>, lo: nat, hi: nat)
    requires lo <= hi <= |s|
    ensures s[..lo] + s[lo..hi] == s[..hi]
  {
  }

  /** The pages partition the snapshot: laid end to end they give back every
      child exactly once, in the original order. */
  lemma Partition<T>(s: seq<T>, amount: nat)
    requires amount >= 1
    ensures Flatten(Slices(s, amount)) == s
  {
    var count := PageCount(|s|, amount);
    PageCountIsCeiling(|s|, amount);
    FlattenPrefix(s, amount, count);
    assert Slices(s, amount)[..count] == Slices(s, amount);
  }

  /** Position `p` falls within the bounds of page `i` exactly when `i` is
      `p / amount`, so no position belongs to two pages. */
  lemma PageOfPosition(amount: nat, p: nat, i: nat)
    requires amount >= 1
    ensures i * amount <= p < (i + 1) * amount <==> i == p / amount
  {
    var q := p / amount;
    assert p == q * amount + p % amount && 0 <= p % amount < amount;
    assert (q + 1) * amount == q * amount + amount;
    if i * amount <= p < (i + 1) * amount {
      if i < q {
        MulMono(i + 1, q, amount);
        assert false;
      } else if i > q {
        MulMono(q + 1, i, amount);
        assert false;
      }
    }
  }

  /** Position `p` of a snapshot of `len` children is on a page that `build`
      creates. */
  lemma PageIndexInRange(len: nat, amount: nat, p: nat)
    requires amount >= 1 && p < len
    ensures p / amount < PageCount(len, amount)
  {
    var q := p / amount;
    assert q * amount <= p by {
      assert p == q * amount + p % amount;
    }
    PageCountIsCeiling(len, amount);
    var count := PageCount(len, amount);
    if q >= count {
      MulMono(count, q, amount);
      assert false;
    }
  }

  /** The child at position `p` lies on page `p / amount`, at offset
      `p % amount` within it. */
  lemma PositionOnPage<T>(s: seq<T>, amount: nat, p: nat)
    requires amount >= 1 && p < |s|
    ensures p / amount < PageCount(|s|, amount)
    ensures p % amount < |PageSlice(s, amount, p / amount)|
    ensures PageSlice(s, amount, p / amount)[p % amount] == s[p]
  {
    var q, r := p / amount, p % amount;
    PageIndexInRange(|s|, amount, p);
    PageSliceAt(s, amount, q);
    assert p == q * amount + r && r < amount;
    assert (q + 1) * amount == q * amount + amount;
  }

  /** The example of ten children, three to a page: four pages holding 3, 3,
      3 and 1 children. */
  lemma TenChildrenInThrees<T>(s: seq<T>)
    requires |s| == 10
    ensures PageCount(|s|, 3) == 4
    ensures |PageSlice(s, 3, 0)| == 3 && |PageSlice(s, 3, 1)| == 3
    ensures |PageSlice(s, 3, 2)| == 3 && PageSlice(s, 3, 3) == [s[9]]
  {
  }
}
