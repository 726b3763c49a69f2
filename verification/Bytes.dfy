/** What every part of the model uses: unsigned 8-bit values, optional values and what sequences share. */
module Bytes {
  type byte = b: int | 0 <= b < 256

  datatype Option<+T> = None | Some(value: T)

  /** Only what lies from `start` to `end` differs between the two. */
  ghost predicate SameOutside<T>(s: seq<T>, t: seq<T>, start: nat, end: nat)
  {
    |s| == |t| && forall i :: 0 <= i < |s| && !(start <= i < end) ==> s[i] == t[i]
  }

  lemma Associate<T>(a: seq<T>, b: seq<T>, c: seq<T>)
    ensures (a + b) + c == a + (b + c)
  {
  }
}
