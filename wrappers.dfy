/** Option, the model's stand-in for a Java reference that may be null, and
    the fact that lets a loop pick an element of a collection it is
    iterating over. */
module Wrappers {
  datatype Option<+T> = None | Some(value: T)

  lemma EmptyOrMember(s: set<int>)
    ensures s == {} || exists v :: v in s
  {
    if forall v :: v !in s {
      assert s == {};
    }
  }

  lemma EmptyOrMemberMultiset(s: multiset<int>)
    ensures s == multiset{} || exists v :: v in s
  {
    if forall v :: v !in s {
      assert s == multiset{};
    }
  }
}
