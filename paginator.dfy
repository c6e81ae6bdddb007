/** `Paginator`: splits a container's children into pages, builds the
    navigation, tracks the current page, and can restore the container. */
module Pagination {
  import opened Slicing
  import opened Document
  import opened Pages

  /** The options record; `onInvalidPage` is the paginator's ghost log. */
  datatype Settings = Settings(amount: int, numbers: bool, paddles: bool, prevText: string, nextText: string)

  /** The defaults every option takes when the caller leaves it out. */
  const Defaults := Settings(3, true, true, "Previous", "Next")

  /** A numbered navigation link, and whether it carries the `active` mark. */
  datatype Link = Link(active: bool)

  /** A previous/next control, and whether it carries the `disabled` mark. */
  datatype Paddle = Paddle(disabled: bool)

  /** What `createNav` and `destroy` raise when the paginator is not built. */
  datatype Error = NotBuilt

  /** How an operation that can raise ended. */
  datatype Outcome = Done | Raised(error: Error)

  /** Marks link `n` active and clears the mark on every other link. */
  method MarkActive(links: seq<Link>, n: nat) returns (r: seq<Link>)
    requires n < |links|
    ensures |r| == |links|
    ensures forall m :: 0 <= m < |r| ==> r[m].active == (m == n)
  {
    r := links[n := Link(true)];
    var j := 0;
    while j < |r|
      invariant 0 <= j <= |r| == |links|
      invariant r[n] == Link(true)
      invariant forall m :: 0 <= m < j ==> r[m].active == (m == n)
    {
      if j != n {
        r := r[j := Link(false)];
      }
      j := j + 1;
    }
  }

  class Paginator<T> {
    const container: Container<T>
    const settings: Settings

    var built: bool
    /** The snapshot of the container's children taken by the last `build`. */
    var children: seq<Node<T>>
    var pages: seq<Page<T>>
    var curPage: int
    /** The numbered links, one per page; present only when `settings.numbers`. */
    var numbers: Option<seq<Link>>
    /** The previous and next controls; present only when `settings.paddles`. */
    var prevPaddle: Option<Paddle>
    var nextPaddle: Option<Paddle>
    /** Every argument `onInvalidPage` has been called with, oldest first. */
    ghost var invalidPages: seq<int>

    /** The pages, their wrapper and the current page index as `build` lays
        them out, before the navigation exists. */
    ghost predicate PagesLaidOut()
      reads this, container, pages
    {
      settings.amount >= 1 &&
      (!settings.numbers ==> numbers.None?) &&
      (!settings.paddles ==> prevPaddle.None? && nextPaddle.None?) &&
      (built ==>
        |pages| == PageCount(|children|, settings.amount) &&
        Distinct(pages) &&
        (forall i :: 0 <= i < |pages| ==> pages[i].items == PageSlice(children, settings.amount, i)) &&
        |container.children| >= 1 && container.children[0].PagesWrap? &&
        (forall k :: 1 <= k < |container.children| ==> container.children[k].NavWrap?) &&
        (if |pages| == 0 then curPage == 0 else 0 <= curPage < |pages|))
    }

    /** The object invariant: once built, the pages partition the snapshot,
        the container holds the wrapper followed by the navigation, there is
        one link per page, and `curPage` names a page whenever there is one. */
    ghost predicate Valid()
      reads this, container, pages
    {
      PagesLaidOut() &&
      (built ==>
        |container.children| >= 2 &&
        (settings.numbers ==> numbers.Some? && |numbers.value| == |pages|) &&
        (settings.paddles ==> prevPaddle.Some? && nextPaddle.Some?))
    }

    /** Page `n` is the only visible page, its link the only active one, and
        each paddle is disabled exactly at its end of the page range. */
    ghost predicate Shows(n: int)
      reads this, pages
    {
      0 <= n < |pages| &&
      (forall i :: 0 <= i < |pages| ==> pages[i].hidden == (i != n)) &&
      (numbers.Some? ==> forall i :: 0 <= i < |numbers.value| ==> numbers.value[i].active == (i == n)) &&
      (prevPaddle.Some? ==> prevPaddle.value.disabled == (n == 0)) &&
      (nextPaddle.Some? ==> nextPaddle.value.disabled == (n == |pages| - 1))
    }

    /** The navigation agrees with `curPage`. */
    ghost predicate Synced()
      reads this, container, pages
    {
      Valid() && built && Shows(curPage)
    }

    /** `initialize`: remembers the container and the settings; nothing is
        built yet. */
    constructor (container: Container<T>, settings: Settings)
      requires settings.amount >= 1
      ensures Valid() && !built
      ensures this.container == container && this.settings == settings
      ensures pages == [] && children == [] && curPage == 0
      ensures numbers == None && prevPaddle == None && nextPaddle == None
      ensures invalidPages == []
    {
      this.container := container;
      this.settings := settings;
      built := false;
      children := [];
      pages := [];
      curPage := 0;
      numbers := None;
      prevPaddle := None;
      nextPaddle := None;
      invalidPages := [];
    }

    /** `build`: moves the container's children into ceil(L / amount) fresh
        hidden pages, `amount` to a page and in order, builds the navigation
        and goes to page 0. */
    method Build()
      requires Valid()
      modifies this, container
      ensures Valid() && built && curPage == 0
      ensures children == old(container.children)
      ensures |pages| == PageCount(|children|, settings.amount)
      ensures forall i :: 0 <= i < |pages| ==> fresh(pages[i]) && pages[i].items == PageSlice(children, settings.amount, i)
      ensures container.children == [PagesWrap, NavWrap]
      ensures |children| > 0 ==> Shows(0) && invalidPages == old(invalidPages)
      ensures |children| == 0 ==>
                pages == [] && invalidPages == old(invalidPages) + [0] &&
                numbers == (if settings.numbers then Some([]) else None) &&
                prevPaddle == (if settings.paddles then Some(Paddle(false)) else None) &&
                nextPaddle == prevPaddle
    {
      built := true;
      children := container.children;
      curPage := 0;
      container.children := container.children + [PagesWrap];
      var created := MakePages();
      pages := created;
      var _ := CreateNav();
      GoToPage(curPage);
    }

    /** The loop of `build` that creates the pages: page `i` is a fresh
        hidden page holding the `i`-th run of `amount` children of the
        snapshot, and the children leave the container as they are added. */
    method MakePages() returns (created: seq<Page<T>>)
      requires settings.amount >= 1
      requires container.children == children + [PagesWrap]
      modifies container
      ensures |created| == PageCount(|children|, settings.amount) && Distinct(created)
      ensures forall j :: 0 <= j < |created| ==>
                fresh(created[j]) && created[j].items == PageSlice(children, settings.amount, j) && created[j].hidden
      ensures container.children == [PagesWrap]
    {
      var amount := settings.amount;
      var count := PageCount(|children|, amount);
      PageCountIsCeiling(|children|, amount);
      created := [];
      var i := 0;
      while i < count
        invariant 0 <= i <= count && |created| == i
        invariant Distinct(created)
        invariant forall j :: 0 <= j < i ==> fresh(created[j]) && created[j].items == PageSlice(children, amount, j) && created[j].hidden
        invariant container.children == children[Min(i * amount, |children|)..] + [PagesWrap]
      {
        var page := new Page();
        created := created + [page];
        PageSliceAt(children, amount, i);
        var slice := PageSlice(children, amount, i);
        assert container.children[..|slice|] == slice;
        FillPage(page, slice);
        assert (i + 1) * amount == i * amount + amount;
        i := i + 1;
      }
      assert Min(count * amount, |children|) == |children|;
    }

    /** Adds each child of `slice` to `page`, in order; adding an element to
        the page moves it out of the container, whose children start with
        `slice`. */
    method FillPage(page: Page<T>, slice: seq<Node<T>>)
      requires |slice| <= |container.children| && container.children[..|slice|] == slice
      modifies page, container
      ensures page.items == old(page.items) + slice && page.hidden == old(page.hidden)
      ensures container.children == old(container.children)[|slice|..]
    {
      var k := 0;
      while k < |slice|
        invariant 0 <= k <= |slice|
        invariant page.items == old(page.items) + slice[..k] && page.hidden == old(page.hidden)
        invariant container.children == old(container.children)[k..]
      {
        page.Add(slice[k]);
        container.children := container.children[1..];
        k := k + 1;
      }
    }

    /** `createNav`: appends a navigation container to the container, with
        one inactive link per page when numbers are on and two enabled
        paddles when paddles are on; raises when not built. */
    method CreateNav() returns (r: Outcome)
      requires PagesLaidOut()
      modifies this, container
      ensures Valid()
      ensures built == old(built) && children == old(children) && pages == old(pages)
      ensures curPage == old(curPage) && invalidPages == old(invalidPages)
      ensures old(built) ==>
                r == Done &&
                container.children == old(container.children) + [NavWrap] &&
                numbers == (if settings.numbers then Some(seq(|pages|, _ => Link(false))) else old(numbers)) &&
                prevPaddle == (if settings.paddles then Some(Paddle(false)) else old(prevPaddle)) &&
                nextPaddle == (if settings.paddles then Some(Paddle(false)) else old(nextPaddle))
      ensures !old(built) ==> r == Raised(NotBuilt) && unchanged(this, container)
    {
      if !built {
        return Raised(NotBuilt);
      }
      container.children := container.children + [NavWrap];
      if settings.numbers {
        var links: seq<Link> := [];
        var i := 0;
        while i < |pages|
          invariant 0 <= i <= |pages|
          invariant links == seq(i, _ => Link(false))
        {
          links := links + [Link(false)];
          i := i + 1;
        }
        numbers := Some(links);
      }
      if settings.paddles {
        prevPaddle := Some(Paddle(false));
        nextPaddle := Some(Paddle(false));
      }
      r := Done;
    }

    /** `goToPage`: on a built paginator with `n` in range, shows page `n`
        alone and updates the links and paddles; otherwise reports `n` to
        `onInvalidPage` and changes nothing else. */
    method GoToPage(n: int)
      requires Valid()
      modifies this, pages
      ensures Valid()
      ensures built == old(built) && children == old(children) && pages == old(pages)
      ensures forall i :: 0 <= i < |pages| ==> pages[i].items == old(pages[i].items)
      ensures old(built) && 0 <= n < |pages| ==>
                curPage == n && Shows(n) && invalidPages == old(invalidPages)
      ensures old(built) && 0 <= n < |pages| && old(Shows(n)) ==>
                numbers == old(numbers) && prevPaddle == old(prevPaddle) && nextPaddle == old(nextPaddle) &&
                forall i :: 0 <= i < |pages| ==> pages[i].hidden == old(pages[i].hidden)
      ensures !(old(built) && 0 <= n < |pages|) ==>
                invalidPages == old(invalidPages) + [n] && curPage == old(curPage) &&
                numbers == old(numbers) && prevPaddle == old(prevPaddle) && nextPaddle == old(nextPaddle) &&
                forall i :: 0 <= i < |pages| ==> pages[i].hidden == old(pages[i].hidden)
    {
      if !(built && 0 <= n < |pages|) {
        invalidPages := invalidPages + [n];
        return;
      }
      ShowOnly(n);
      curPage := n;
      if settings.numbers {
        ghost var was := numbers.value;
        var links := MarkActive(numbers.value, n);
        assert old(Shows(n)) ==> links == was;
        numbers := Some(links);
      }
      if settings.paddles {
        prevPaddle := Some(Paddle(curPage == 0));
        nextPaddle := Some(Paddle(curPage == |pages| - 1));
      }
    }

    /** Shows page `n` and hides every other page. */
    method ShowOnly(n: int)
      requires 0 <= n < |pages| && Distinct(pages)
      modifies pages
      ensures forall j :: 0 <= j < |pages| ==> pages[j].hidden == (j != n)
      ensures forall j :: 0 <= j < |pages| ==> pages[j].items == old(pages[j].items)
    {
      pages[n].hidden := false;
      var k := 0;
      while k < |pages|
        invariant 0 <= k <= |pages|
        invariant !pages[n].hidden
        invariant forall j :: 0 <= j < k ==> pages[j].hidden == (j != n)
        invariant forall j :: 0 <= j < |pages| ==> pages[j].items == old(pages[j].items)
      {
        if k != n {
          pages[k].hidden := true;
        }
        k := k + 1;
      }
    }

    /** Clicking link `i`: goes to page `i` unless that link is already
        active. */
    method ClickLink(i: int)
      requires Valid() && built && numbers.Some? && 0 <= i < |numbers.value|
      modifies this, pages
      ensures Valid() && built && pages == old(pages) && children == old(children)
      ensures invalidPages == old(invalidPages)
      ensures old(numbers.value[i].active) ==>
                curPage == old(curPage) && numbers == old(numbers) &&
                prevPaddle == old(prevPaddle) && nextPaddle == old(nextPaddle) &&
                forall j :: 0 <= j < |pages| ==> pages[j].hidden == old(pages[j].hidden)
      ensures !old(numbers.value[i].active) ==> curPage == i && Synced()
      ensures old(Synced()) ==> Synced()
    {
      if !numbers.value[i].active {
        GoToPage(i);
      }
    }

    /** Clicking the previous control: goes to `curPage - 1` unless the
        control is disabled. From a synced state this never reports an
        invalid page and keeps the state synced. */
    method ClickPrev()
      requires Valid() && built && prevPaddle.Some?
      modifies this, pages
      ensures Valid() && built && pages == old(pages) && children == old(children)
      ensures old(prevPaddle.value.disabled) ==>
                curPage == old(curPage) && numbers == old(numbers) &&
                prevPaddle == old(prevPaddle) && nextPaddle == old(nextPaddle) &&
                invalidPages == old(invalidPages) &&
                forall j :: 0 <= j < |pages| ==> pages[j].hidden == old(pages[j].hidden)
      ensures !old(prevPaddle.value.disabled) && 0 <= old(curPage) - 1 < |pages| ==>
                curPage == old(curPage) - 1 && Synced() && invalidPages == old(invalidPages)
      ensures !old(prevPaddle.value.disabled) && !(0 <= old(curPage) - 1 < |pages|) ==>
                curPage == old(curPage) && numbers == old(numbers) &&
                prevPaddle == old(prevPaddle) && nextPaddle == old(nextPaddle) &&
                invalidPages == old(invalidPages) + [old(curPage) - 1] &&
                forall j :: 0 <= j < |pages| ==> pages[j].hidden == old(pages[j].hidden)
      ensures old(Synced()) ==> Synced() && invalidPages == old(invalidPages)
    {
      if !prevPaddle.value.disabled {
        GoToPage(curPage - 1);
      }
    }

    /** Clicking the next control: goes to `curPage + 1` unless the control
        is disabled. From a synced state this never reports an invalid page
        and keeps the state synced. */
    method ClickNext()
      requires Valid() && built && nextPaddle.Some?
      modifies this, pages
      ensures Valid() && built && pages == old(pages) && children == old(children)
      ensures old(nextPaddle.value.disabled) ==>
                curPage == old(curPage) && numbers == old(numbers) &&
                prevPaddle == old(prevPaddle) && nextPaddle == old(nextPaddle) &&
                invalidPages == old(invalidPages) &&
                forall j :: 0 <= j < |pages| ==> pages[j].hidden == old(pages[j].hidden)
      ensures !old(nextPaddle.value.disabled) && 0 <= old(curPage) + 1 < |pages| ==>
                curPage == old(curPage) + 1 && Synced() && invalidPages == old(invalidPages)
      ensures !old(nextPaddle.value.disabled) && !(0 <= old(curPage) + 1 < |pages|) ==>
                curPage == old(curPage) && numbers == old(numbers) &&
                prevPaddle == old(prevPaddle) && nextPaddle == old(nextPaddle) &&
                invalidPages == old(invalidPages) + [old(curPage) + 1] &&
                forall j :: 0 <= j < |pages| ==> pages[j].hidden == old(pages[j].hidden)
      ensures old(Synced()) ==> Synced() && invalidPages == old(invalidPages)
    {
      if !nextPaddle.value.disabled {
        GoToPage(curPage + 1);
      }
    }

    /** `destroy`: moves every page's children back to the end of the
        container, page by page, removes the wrapper and the navigation, and
        clears `built`; raises when not built. */
    method Destroy() returns (r: Outcome)
      requires Valid()
      modifies this, container, pages
      ensures Valid()
      ensures pages == old(pages) && children == old(children) && curPage == old(curPage)
      ensures numbers == old(numbers) && prevPaddle == old(prevPaddle) && nextPaddle == old(nextPaddle)
      ensures invalidPages == old(invalidPages)
      ensures old(built) ==>
                r == Done && !built &&
                container.children == old(container.children)[1..|old(container.children)| - 1] + children &&
                forall i :: 0 <= i < |pages| ==> pages[i].items == []
      ensures !old(built) ==> r == Raised(NotBuilt) && unchanged(this, container) && unchanged(pages)
    {
      if !built {
        return Raised(NotBuilt);
      }
      var amount := settings.amount;
      var navAt := |container.children| - 1;
      ghost var before := container.children;
      PageCountIsCeiling(|children|, amount);
      var i := 0;
      while i < |pages|
        modifies container, pages
        invariant 0 <= i <= |pages|
        invariant container.children == before + children[..Min(i * amount, |children|)]
        invariant forall j :: 0 <= j < i ==> pages[j].items == []
        invariant forall j :: i <= j < |pages| ==> pages[j].items == PageSlice(children, amount, j)
      {
        PageSliceAt(children, amount, i);
        assert (i + 1) * amount == i * amount + amount;
        PageSlicesJoin(children, i * amount, Min((i + 1) * amount, |children|));
        pages[i].Destroy(container);
        i := i + 1;
      }
      assert children[..Min(i * amount, |children|)] == children;
      container.children := container.children[1..];
      container.children := container.children[..navAt - 1] + container.children[navAt..];
      built := false;
      r := Done;
    }
  }

  /** `build` followed by `destroy` gives the container back its children,
      the same ones in the same order. */
  method BuildThenDestroy<T>(p: Paginator<T>)
    requires p.Valid()
    modifies p, p.container, p.pages
    ensures p.Valid() && !p.built
    ensures p.container.children == old(p.container.children)
  {
    p.Build();
    var r := p.Destroy();
  }
}
