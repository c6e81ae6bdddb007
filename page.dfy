/** `PaginatorPage`: one page's container and the children it holds. */
module Pages {
  import opened Document

  class Page<T> {
    /** The children of the page's container, in insertion order. */
    var items: seq<Node<T>>
    /** Whether the page's container is hidden. */
    var hidden: bool

    /** A page starts with an empty container that is hidden. */
    constructor ()
      ensures items == [] && hidden
    {
      items := [];
      hidden := true;
    }

    /** `add`: appends an element to the page's container. */
    method Add(e: Node<T>)
      modifies this
      ensures items == old(items) + [e]
      ensures hidden == old(hidden)
    {
      items := items + [e];
    }

    /** `destroy`: moves every child of the page's container, in order, to
        the end of `dest`, leaving the page empty. */
    method Destroy(dest: Container<T>)
      modifies this, dest
      ensures dest.children == old(dest.children) + old(items)
      ensures items == []
      ensures hidden == old(hidden)
    {
      ghost var held := items;
      var moved := 0;
      while items != []
        invariant 0 <= moved <= |held|
        invariant items == held[moved..]
        invariant dest.children == old(dest.children) + held[..moved]
        invariant hidden == old(hidden)
        decreases |items|
      {
        dest.children := dest.children + [items[0]];
        items := items[1..];
        moved := moved + 1;
      }
    }
  }

  /** No page appears twice in a list of pages. */
  ghost predicate Distinct<T>(pages: seq<Page<T>>)
  {
    forall i, j :: 0 <= i < j < |pages| ==> pages[i] != pages[j]
  }

  /** Filling a fresh page with `elements` and then destroying it into
      `dest` appends `elements` to `dest` in the order they were added. */
  method AddThenDestroy<T>(elements: seq<Node<T>>, dest: Container<T>)
    modifies dest
    ensures dest.children == old(dest.children) + elements
  {
    var page := new Page();
    var k := 0;
    while k < |elements|
      invariant 0 <= k <= |elements|
      invariant page.items == elements[..k]
      invariant dest.children == old(dest.children)
    {
      page.Add(elements[k]);
      k := k + 1;
    }
    page.Destroy(dest);
  }
}
