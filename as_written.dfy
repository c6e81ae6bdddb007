/** The page objects of paginator.js as its code is written, for the two
    defects the main model corrects: the page constructor is spelled
    `intialize`, which Prototype's `Class.create` never calls, and `build`
    and `goToPage` read a `node` field that no code ever sets. */
module AsWritten {
  import opened Slicing
  import opened Document

  /** The exception JavaScript raises on reading a property of `undefined`. */
  datatype Thrown = TypeError

  datatype Result<R> = Ok(value: R) | Throws(error: Thrown)

  /** The two fields the paginator reads from a page object: `container`,
      set only by a constructor that runs, and `node`, set by nothing. `None`
      stands for `undefined`; `Some(items)` for an element and its children. */
  datatype PageObject<T> = PageObject(container: Option<seq<T>>, node: Option<seq<T>>)

  /** `new PaginatorPage(element)`: `initializeRuns` says whether the
      constructor body runs. As written, it does not. */
  function NewPage<T>(initializeRuns: bool): PageObject<T>
  {
    PageObject(if initializeRuns then Some([]) else None, None)
  }

  /** `add`: `this.container.insert(ele)`. */
  function Add<T>(p: PageObject<T>, e: T): Result<PageObject<T>>
  {
    match p.container
    case None => Throws(TypeError)
    case Some(items) => Ok(p.(container := Some(items + [e])))
  }

  /** The `each` loop of `build` that adds one page's children in order. */
  function AddAll<T>(p: PageObject<T>, es: seq<T>): Result<PageObject<T>>
    decreases |es|
  {
    if es == [] then Ok(p)
    else match Add(p, es[0])
      case Throws(e) => Throws(e)
      case Ok(q) => AddAll(q, es[1..])
  }

  /** The page loop of `build` from page `i` on, `acc` holding the pages
      already made; the first exception ends `build`. */
  function BuildFrom<T>(s: seq<T>, amount: nat, initializeRuns: bool, i: nat, acc: seq<PageObject<T>>)
    : Result<seq<PageObject<T>>>
    requires amount >= 1
    decreases PageCount(|s|, amount) - i
  {
    if i >= PageCount(|s|, amount) then Ok(acc)
    else match AddAll(NewPage(initializeRuns), PageSlice(s, amount, i))
      case Throws(e) => Throws(e)
      case Ok(p) => BuildFrom(s, amount, initializeRuns, i + 1, acc + [p])
  }

  function BuildPages<T>(s: seq<T>, amount: nat, initializeRuns: bool): Result<seq<PageObject<T>>>
    requires amount >= 1
  {
    BuildFrom(s, amount, initializeRuns, 0, [])
  }

  /** Whether `goToPage(n)` ends in `onInvalidPage(n)`: it does when the
      paginator is not built, when `pages[n]` is `undefined`, and when
      `pages[n].node` is, since `.show()` then throws inside the `try`. */
  function GoToPageReports<T>(built: bool, pages: seq<PageObject<T>>, n: int): bool
  {
    !built || !(0 <= n < |pages|) || pages[n].node.None?
  }

  /** With a constructor that runs, adding elements appends them to the
      page's container in order. */
  lemma {:induction false} AddAllAppends<T>(items: seq<T>, node: Option<seq<T>>, es: seq<T>)
    ensures AddAll(PageObject(Some(items), node), es) == Ok(PageObject(Some(items + es), node))
    decreases |es|
  {
    if es == [] {
      assert items + es == items;
    } else {
      assert Add(PageObject(Some(items), node), es[0]) == Ok(PageObject(Some(items + [es[0]]), node));
      AddAllAppends(items + [es[0]], node, es[1..]);
      assert items + [es[0]] + es[1..] == items + es;
    }
  }

  /** As written, `build` throws on any container that has a child: the
      first `add` reads `container` of a page whose constructor never ran. */
  lemma BuildRaises<T>(s: seq<T>, amount: nat)
    requires amount >= 1 && |s| > 0
    ensures BuildPages(s, amount, false) == Throws(TypeError)
  {
    PageCountIsCeiling(|s|, amount);
    PageSliceAt(s, amount, 0);
    assert PageSlice(s, amount, 0) != [];
  }

  /** With the constructor running, `build`'s page loop succeeds and page
      `i` holds the `i`-th run of the snapshot; `node` is still unset. */
  lemma {:induction false} BuildFromFills<T>(s: seq<T>, amount: nat, i: nat, acc: seq<PageObject<T>>)
    requires amount >= 1 && i <= PageCount(|s|, amount) && |acc| == i
    requires forall j :: 0 <= j < i ==> acc[j] == PageObject(Some(PageSlice(s, amount, j)), None)
    ensures BuildFrom(s, amount, true, i, acc).Ok?
    ensures |BuildFrom(s, amount, true, i, acc).value| == PageCount(|s|, amount)
    ensures forall j :: 0 <= j < PageCount(|s|, amount) ==>
              BuildFrom(s, amount, true, i, acc).value[j] == PageObject(Some(PageSlice(s, amount, j)), None)
    decreases PageCount(|s|, amount) - i
  {
    if i < PageCount(|s|, amount) {
      AddAllAppends([], None, PageSlice(s, amount, i));
      assert [] + PageSlice(s, amount, i) == PageSlice(s, amount, i);
      BuildFromFills(s, amount, i + 1, acc + [PageObject(Some(PageSlice(s, amount, i)), None)]);
    }
  }

  /** Even with the constructor fixed, `goToPage` reports every page
      number as invalid, including a page that exists, because no page
      object has a `node`. */
  lemma GoToPageAlwaysReports<T>(s: seq<T>, amount: nat, n: int)
    requires amount >= 1
    ensures BuildPages(s, amount, true).Ok?
    ensures GoToPageReports(true, BuildPages(s, amount, true).value, n)
    ensures |s| > 0 ==> 0 < |BuildPages(s, amount, true).value|
  {
    BuildFromFills(s, amount, 0, []);
    PageCountIsCeiling(|s|, amount);
  }
}
