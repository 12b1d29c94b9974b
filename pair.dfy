/** pair/pair.go: pairing each element of a slice with the one after it. */
module Pairs {

  datatype Pair<T> = Pair(first: T, second: T)

  /**
   * ZipWithNext pairs every element with its successor. Go slices `ts[1:]` first, which
   * panics on an empty slice, hence the precondition.
   */
  method ZipWithNext<T>(ts: seq<T>) returns (result: seq<Pair<T>>)
    requires |ts| >= 1
    ensures |result| == |ts| - 1
    ensures forall i :: 0 <= i < |result| ==> result[i] == Pair(ts[i], ts[i + 1])
    ensures forall i :: 0 <= i < |result| - 1 ==> result[i].second == result[i + 1].first
  {
    var ends := ts[1..];
    var slots := new Pair<T>[|ends|](_ => Pair(ts[0], ts[0]));
    for i := 0 to |ends|
      invariant forall k :: 0 <= k < i ==> slots[k] == Pair(ts[k], ends[k])
    {
      slots[i] := Pair(ts[i], ends[i]);
    }
    result := slots[..];
  }
}
