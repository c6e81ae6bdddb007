/** The few pieces of the document the paginator touches: the element whose
    children are paginated, and what those children can be. */
module Document {

  datatype Option<T> = None | Some(value: T)

  /** A child element of the paginated container. `Item` is one of the
      elements being paginated; `PagesWrap` and `NavWrap` are the wrapper of
      all page containers and the navigation container that `build` inserts. */
  datatype Node<T> = Item(value: T) | PagesWrap | NavWrap

  /** The element passed to the paginator; its child list is all the model
      needs of it. */
  class Container<T> {
    var children: seq<Node<T>>

    constructor (children: seq<Node<T>>)
      ensures this.children == children
    {
      this.children := children;
    }
  }
}
