/** Lists without duplicates, and removal of an id from a list, as the session store
    and the request client both need them. */
module Sequences {
  ghost predicate Distinct<T(!new)>(s: seq<T>) {
    forall i, j | 0 <= i < j < |s| :: s[i] != s[j]
  }

  /** The list without an id: `retain(|x| x != id)`, or `Set.delete`. */
  function Without(ids: seq<int>, id: int): (rest: seq<int>)
    ensures forall x :: x in rest <==> x in ids && x != id
  {
    if ids == [] then []
    else if ids[0] == id then Without(ids[1..], id)
    else [ids[0]] + Without(ids[1..], id)
  }

  lemma {:induction false} WithoutDistinct(ids: seq<int>, id: int)
    requires Distinct(ids)
    ensures Distinct(Without(ids, id)) && |Without(ids, id)| <= |ids|
  {
    if ids != [] {
      var rest := Without(ids[1..], id);
      WithoutDistinct(ids[1..], id);
      forall j | 0 <= j < |rest|
        ensures ids[0] != rest[j]
      {
        assert rest[j] in ids[1..];
      }
    }
  }

  lemma {:induction false} WithoutAbsent(ids: seq<int>, id: int)
    requires id !in ids
    ensures Without(ids, id) == ids
  {
    if ids != [] {
      WithoutAbsent(ids[1..], id);
    }
  }

  lemma Associate<T>(a: seq<T>, b: seq<T>, c: seq<T>)
    ensures a + b + c == a + (b + c)
  {
  }
}
