/** Failure types shared by the whole model. */
module Prelude {

  datatype Option<+T> = None | Some(value: T)

  datatype Result<+T, +E> = Success(value: T) | Failure(error: E)

  lemma SomeMember(s: set<int>)
    requires s != {}
    ensures exists x :: x in s
  {
    if forall x :: x !in s {
      assert false;
    }
  }

  /** The entries of a list at some rising positions. */
  ghost predicate Picks<T>(list: seq<T>, at: seq<nat>, picked: seq<T>) {
    && |at| == |picked|
    && (forall i :: 0 <= i < |at| ==> at[i] < |list| && picked[i] == list[at[i]])
    && (forall i, j :: 0 <= i < j < |at| ==> at[i] < at[j])
  }

  /** One more entry, picked or not. */
  lemma PicksOneMore<T>(front: seq<T>, at: seq<nat>, picked: seq<T>, last: T)
    requires Picks(front, at, picked)
    ensures Picks(front + [last], at, picked)
    ensures Picks(front + [last], at + [|front|], picked + [last])
  {
  }
}
