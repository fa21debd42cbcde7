/** Wrapper types shared by the models: `Option` for Rust's
    `Option<T>` and `Result` for Rust's `Result<T, E>`, and the distinctness
    of the elements of a sequence, with the fact that a long enough listing
    of distinct elements of a set names all of them. */
module Wrappers {

  datatype Option<+T> = None | Some(value: T) {

    /** `Option::or`: this value if present, otherwise `other`. */
    function Or(other: Option<T>): Option<T> {
      if Some? then this else other
    }

    /** `Option::unwrap_or`. */
    function UnwrapOr(default: T): T {
      if Some? then value else default
    }
  }

  datatype Result<+T, +E> = Ok(value: T) | Err(error: E)

  /** No element occurs twice. */
  predicate NoDuplicates<T(==)>(s: seq<T>) {
    forall i, j :: 0 <= i < j < |s| ==> s[i] != s[j]
  }

  /** A listing of distinct elements of `keys` with as many entries as `keys`
      has elements lists every element of `keys`. */
  lemma {:induction false} ListingCoversSet<T>(order: seq<T>, keys: set<T>)
    requires NoDuplicates(order) && (forall i :: 0 <= i < |order| ==> order[i] in keys)
    requires |order| == |keys|
    ensures forall k :: k in keys ==> k in order
  {
    if order != [] {
      var rest := keys - {order[0]};
      forall i | 0 <= i < |order[1..]| ensures order[1..][i] in rest {
        assert order[1..][i] == order[i + 1] != order[0];
      }
      assert NoDuplicates(order[1..]) by {
        forall i, j | 0 <= i < j < |order[1..]| ensures order[1..][i] != order[1..][j] {
          assert order[1..][i] == order[i + 1] && order[1..][j] == order[j + 1];
        }
      }
      ListingCoversSet(order[1..], rest);
      forall k | k in keys ensures k in order {
        if k != order[0] {
          assert k in order[1..];
        }
      }
    }
  }
}
