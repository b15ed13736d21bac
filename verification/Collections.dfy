/** What several parts of the model share. */
module Collections {

  datatype Option<+T> = None | Some(value: T)

  predicate Distinct(l: seq<int>) { forall j, k :: 0 <= j < k < |l| ==> l[j] != l[k] }
}
