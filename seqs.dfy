/** Sequence facts shared by the deduplicating loops of the model. */
module Seqs {

  /** No element occurs twice. */
  ghost predicate NoDup<T>(s: seq<T>) {
    forall i, j :: 0 <= i < j < |s| ==> s[i] != s[j]
  }

  /** The position of the first occurrence of `x` in `s`. */
  function FirstIndex<T(==)>(s: seq<T>, x: T): (i: nat)
    requires x in s
    ensures i < |s| && s[i] == x && x !in s[..i]
  {
    if s[0] == x then 0
    else
      var k := FirstIndex(s[1..], x);
      assert s[1..][..k] == s[1..k + 1];
      k + 1
  }

  /** Any index holding `x` with no earlier `x` is the first index. */
  lemma FirstIndexUnique<T>(s: seq<T>, x: T, i: nat)
    requires i < |s| && s[i] == x && x !in s[..i]
    ensures FirstIndex(s, x) == i
  {
  }

  /** Appending never moves the first occurrence of an element already present. */
  lemma FirstIndexAppend<T>(s: seq<T>, t: seq<T>, x: T)
    requires x in s
    ensures FirstIndex(s + t, x) == FirstIndex(s, x)
  {
    var f := FirstIndex(s, x);
    assert (s + t)[..f] == s[..f];
    FirstIndexUnique(s + t, x, f);
  }

  /** An element new to `s` first occurs where it is appended. */
  lemma FirstIndexNew<T>(s: seq<T>, x: T)
    requires x !in s
    ensures FirstIndex(s + [x], x) == |s|
  {
    assert (s + [x])[..|s|] == s;
    FirstIndexUnique(s + [x], x, |s|);
  }

  /**
   * The elements of `s` with every repeat removed: each element is kept at
   * its first occurrence, later copies are skipped.  Written as the loop
   * computes it, one more input element at a time.
   */
  function Distinct<T(==)>(s: seq<T>): seq<T> {
    if s == [] then []
    else
      var d := Distinct(s[..|s| - 1]);
      if s[|s| - 1] in d then d else d + [s[|s| - 1]]
  }

  /**
   * `Distinct(s)` holds no repeat, holds exactly the elements of `s`, and
   * lists them in the order in which they first occur in `s`.
   */
  lemma {:induction false} DistinctSpec<T>(s: seq<T>)
    ensures NoDup(Distinct(s))
    ensures forall x :: x in Distinct(s) <==> x in s
    ensures forall i, j :: 0 <= i < j < |Distinct(s)| ==>
              FirstIndex(s, Distinct(s)[i]) < FirstIndex(s, Distinct(s)[j])
  {
    if s != [] {
      var p, y := s[..|s| - 1], s[|s| - 1];
      assert s == p + [y];
      DistinctSpec(p);
      var d := Distinct(p);
      forall x | x in p ensures FirstIndex(s, x) == FirstIndex(p, x) {
        var f := FirstIndex(p, x);
        assert s[..f] == p[..f];
        FirstIndexUnique(s, x, f);
      }
      if y !in d {
        assert y !in s[..|s| - 1];
        FirstIndexUnique(s, y, |s| - 1);
        forall x | x in d ensures FirstIndex(s, x) < FirstIndex(s, y) {
          assert FirstIndex(p, x) < |p|;
        }
      }
    }
  }
}
