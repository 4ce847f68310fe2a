/** What several modules need: optional values, ints, intervals and descending lists of page numbers. */
module Common {

  datatype Option<+T> = None | Some(value: T)

  const INT_MAX: int := 0x7fff_ffff

  /** A wider integer handed over as an int. */
  function AsInt(n: int): (r: int)
    ensures -INT_MAX - 1 <= r <= INT_MAX
    ensures r == n <==> -INT_MAX - 1 <= n <= INT_MAX
  {
    var m := n % 0x1_0000_0000;
    if m <= INT_MAX then m else m - 0x1_0000_0000
  }

  /** The numbers lo, lo+1, ..., hi-1. */
  ghost function Interval(lo: nat, hi: nat): (r: set<nat>)
    ensures forall p :: p in r <==> lo <= p < hi
    ensures |r| == if lo <= hi then hi - lo else 0
  {
    if hi <= lo then {} else Interval(lo, hi - 1) + {hi - 1}
  }

  ghost predicate Descending(s: seq<nat>) {
    forall i, j :: 0 <= i < j < |s| ==> s[i] > s[j]
  }
}
