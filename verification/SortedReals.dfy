/** Python's `sorted(set(values))` and the half-open cells between its members. */
module SortedReals {

  predicate Increasing(s: seq<real>) {
    forall i, j :: 0 <= i < j < |s| ==> s[i] < s[j]
  }

  lemma HeadIsLeast(s: seq<real>, rest: seq<real>, v: real)
    requires Increasing(s) && s != [] && s[0] < v
    requires forall u :: u in rest ==> u == v || u in s[1..]
    ensures forall i :: 0 <= i < |rest| ==> s[0] < rest[i]
  {
    forall i | 0 <= i < |rest| ensures s[0] < rest[i] {
      var u := rest[i];
      assert u in rest;
      if u != v {
        var k :| 0 <= k < |s[1..]| && s[1..][k] == u;
        assert u == s[k + 1];
      }
    }
  }

  function Insert(v: real, s: seq<real>): (r: seq<real>)
    requires Increasing(s)
    ensures Increasing(r)
    ensures forall u :: u in r <==> u == v || u in s
  {
    if s == [] || v < s[0] then [v] + s
    else if v == s[0] then s
    else
      var rest := Insert(v, s[1..]);
      assert forall u :: u in s <==> u == s[0] || u in s[1..];
      HeadIsLeast(s, rest, v);
      [s[0]] + rest
  }

  /** `sorted(set(values))` */
  function SortedDistinct(values: seq<real>): (r: seq<real>)
    ensures Increasing(r)
    ensures forall u :: u in r <==> u in values
  {
    if values == [] then []
    else
      assert forall u :: u in values <==> u == values[0] || u in values[1..];
      Insert(values[0], SortedDistinct(values[1..]))
  }

  /** A sorted list has nothing between neighbours. */
  lemma NothingBetween(s: seq<real>, i: nat, v: real)
    requires Increasing(s) && i + 1 < |s| && v in s
    ensures v <= s[i] || s[i + 1] <= v
  {
    var k :| 0 <= k < |s| && s[k] == v;
  }

  /** Every value from the first member up to the last lies in one of the half-open cells. */
  lemma {:induction false} Locate(s: seq<real>, v: real) returns (i: nat)
    requires Increasing(s) && |s| >= 2 && s[0] <= v < s[|s| - 1]
    ensures i + 1 < |s| && s[i] <= v < s[i + 1]
  {
    if |s| == 2 || s[|s| - 2] <= v {
      i := |s| - 2;
    } else {
      i := Locate(s[..|s| - 1], v);
    }
  }
}
