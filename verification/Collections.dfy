/** Going through the elements of a set or the keys of a map, in whatever order the container gives them. */
module Collections {

  method AnyOf<T(==)>(elements: set<T>) returns (element: T)
    requires elements != {}
    ensures element in elements
  {
    SomeOrNone(elements);
    element :| element in elements;
  }

  lemma SomeOrNone<T>(elements: set<T>)
    ensures elements == {} || exists element :: element in elements
  {
    if !exists element :: element in elements {
      assert elements == {};
    }
  }
}
