/**
 * Spring Data paging reduced to what it does to a result list: page `page`
 * of size `size` is the slice starting at `page * size`. Sorting by a field
 * named in a request string is not part of this model.
 */
module Paging {

  /** PageRequest.of(page, size) rejects a size below one. */
  function Page<T>(s: seq<T>, page: nat, size: nat): (r: seq<T>)
    requires size >= 1
    ensures |r| <= size
    ensures page * size >= |s| ==> r == []
    ensures page * size < |s| ==> |r| == if |s| - page * size < size then |s| - page * size else size
    ensures forall i :: 0 <= i < |r| ==> r[i] == s[page * size + i]
  {
    var from := page * size;
    if from >= |s| then []
    else if |s| - from < size then s[from..]
    else s[from..from + size]
  }

  /** Every element of the full list appears on exactly the page its index selects. */
  lemma ElementOnItsPage<T>(s: seq<T>, size: nat, k: nat)
    requires size >= 1 && k < |s|
    ensures k % size < |Page(s, k / size, size)|
    ensures Page(s, k / size, size)[k % size] == s[k]
  {
    var p := k / size;
    assert p * size + k % size == k;
    assert p * size <= k;
  }
}
