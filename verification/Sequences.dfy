/** Taking one element out of a sequence, and joining several. */
module Sequences {

  function Without<T>(s: seq<T>, k: nat): seq<T>
    requires k < |s|
  {
    s[..k] + s[k + 1..]
  }

  /** The sequences one after the other. */
  function Joined<T>(chunks: seq<seq<T>>): seq<T> {
    if chunks == [] then [] else Joined(chunks[..|chunks| - 1]) + chunks[|chunks| - 1]
  }

  lemma {:induction false} JoinedTwice<T>(a: seq<seq<T>>, b: seq<seq<T>>)
    ensures Joined(a + b) == Joined(a) + Joined(b)
  {
    if b == [] {
      assert a + b == a;
      assert Joined(a) + [] == Joined(a);
    } else {
      var init, last := b[..|b| - 1], b[|b| - 1];
      JoinedTwice(a, init);
      assert (a + b)[..|a + b| - 1] == a + init && (a + b)[|a + b| - 1] == last;
      assert (Joined(a) + Joined(init)) + last == Joined(a) + (Joined(init) + last);
    }
  }

  lemma JoinedTwo<T>(a: seq<T>, b: seq<T>)
    ensures Joined([a, b]) == a + b
  {
    var s := [a, b];
    assert s[..1] == [a];
    assert [a][..0] == [];
    assert Joined([a]) == a;
  }
}
