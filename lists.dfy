/** Searching the scripts' theme registries, as `Array.prototype.find` does. */
module Lists {
  import opened Browser

  /** The index of the first element whose `key` is `k`: what `find` with the callback
      `x => key(x) == k` locates, or none when no element matches. */
  function FindIndex<T>(items: seq<T>, key: T -> string, k: string): (r: Option<nat>)
    ensures r.Some? ==> r.value < |items| && key(items[r.value]) == k
                        && forall j :: 0 <= j < r.value ==> key(items[j]) != k
    ensures r.None? ==> forall j :: 0 <= j < |items| ==> key(items[j]) != k
  {
    if items == [] then None
    else if key(items[0]) == k then Some(0)
    else match FindIndex(items[1..], key, k)
      case None => None
      case Some(i) => Some(i + 1)
  }
}
