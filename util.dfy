/**
 * Helpers shared by the whole program: the fatal-error outcomes, the unit
 * sentinel, name splitting and the synthetic index axis.
 */
module Util {

  /**
   * A 64-bit floating-point sample, kept as its IEEE-754 bit pattern.  The
   * modelled code only stores, copies and pairs samples; it never computes
   * with them.
   */
  type Float64 = bv64

  /** The unit given to channels that declare none ("unitless"). */
  const Unitless: string := "ul"

  /**
   * The ways the modelled code aborts the run.  In the program each of these
   * prints a message and exits the process; here an operation returns it as
   * its error instead.
   */
  datatype Failure =
    | DuplicateValue(name: string)      // two values share a name but not a value
    | DuplicateJsonTopic(name: string)  // a topic name repeats in the JSON header
    | DuplicateCsvTopic(name: string)   // a topic name repeats in the CSV header
    | MultipleXaxis                     // more than one topic carries `xaxis`

  const Separator: char := '/'

  /** The number of separators in `s`. */
  function Separators(s: string): nat {
    if s == [] then 0
    else (if s[0] == Separator then 1 else 0) + Separators(s[1..])
  }

  /** A text has no separator exactly when it counts none. */
  lemma {:induction false} SeparatorsNone(s: string)
    ensures Separators(s) == 0 <==> Separator !in s
  {
    if s != [] {
      SeparatorsNone(s[1..]);
      assert s == [s[0]] + s[1..];
    }
  }

  /**
   * The pieces of `s` between separators, as `str::split("/")` yields them:
   * one more piece than there are separators, and empty pieces are kept.
   */
  function Split(s: string): (parts: seq<string>)
    ensures |parts| == 1 + Separators(s)
  {
    if s == [] then [""]
    else
      var rest := Split(s[1..]);
      if s[0] == Separator then [""] + rest
      else [[s[0]] + rest[0]] + rest[1..]
  }

  /** The pieces glued back together with a separator between neighbours. */
  function Join(parts: seq<string>): (r: string)
    ensures |parts| >= 1 ==> parts[0] <= r
  {
    if |parts| == 0 then ""
    else if |parts| == 1 then parts[0]
    else parts[0] + [Separator] + Join(parts[1..])
  }

  /** Joining the pieces of a split gives back the original text. */
  lemma {:induction false} JoinSplit(s: string)
    ensures Join(Split(s)) == s
  {
    if s != [] {
      JoinSplit(s[1..]);
      var rest := Split(s[1..]);
      if s[0] != Separator {
        if |rest| == 1 {
          assert Join(Split(s)) == [s[0]] + rest[0];
        } else {
          assert Split(s)[1..] == rest[1..];
          assert Join(Split(s)) == [s[0]] + rest[0] + [Separator] + Join(rest[1..]);
        }
      }
    }
  }

  /** A text without separators splits into itself alone. */
  lemma {:induction false} SplitWhole(p: string)
    requires Separator !in p
    ensures Split(p) == [p]
  {
    if p != [] {
      SplitWhole(p[1..]);
      assert p == [p[0]] + p[1..];
    }
  }

  /** A separator-free first piece followed by a separator splits off as one piece. */
  lemma {:induction false} SplitFront(p: string, t: string)
    requires Separator !in p
    ensures Split(p + [Separator] + t) == [p] + Split(t)
  {
    var s := p + [Separator] + t;
    if p == [] {
      assert s[1..] == t;
    } else {
      SplitFront(p[1..], t);
      assert s[1..] == p[1..] + [Separator] + t;
      assert [p[0]] + p[1..] == p;
    }
  }

  /** Splitting a join of separator-free pieces gives the pieces back. */
  lemma {:induction false} SplitJoin(parts: seq<string>)
    requires |parts| >= 1
    requires forall p :: p in parts ==> Separator !in p
    ensures Split(Join(parts)) == parts
  {
    if |parts| == 1 {
      SplitWhole(parts[0]);
    } else {
      assert parts[0] in parts;
      forall p | p in parts[1..] ensures Separator !in p {
        assert p in parts;
      }
      SplitJoin(parts[1..]);
      SplitFront(parts[0], Join(parts[1..]));
      assert parts == [parts[0]] + parts[1..];
    }
  }

  /** No piece of a split contains the separator. */
  lemma {:induction false} SplitPieces(s: string)
    ensures forall p :: p in Split(s) ==> Separator !in p
  {
    if s != [] {
      SplitPieces(s[1..]);
      var rest := Split(s[1..]);
      if s[0] != Separator {
        assert rest[0] in rest;
        forall p | p in Split(s) ensures Separator !in p {
          if p != [s[0]] + rest[0] {
            assert p in rest[1..];
          }
        }
      }
    }
  }

  /** Appending one more piece to a join adds a separator and that piece. */
  lemma {:induction false} JoinSnoc(parts: seq<string>, p: string)
    requires |parts| >= 1
    ensures Join(parts + [p]) == Join(parts) + [Separator] + p
  {
    if |parts| > 1 {
      JoinSnoc(parts[1..], p);
      assert (parts + [p])[1..] == parts[1..] + [p];
    }
  }

  /**
   * `folder` and `base` are the two halves of `name` split at its last
   * separator: `base` holds no separator, and either the name has a separator
   * and reads `folder/base`, or it has none and is all base with an empty
   * folder.
   */
  ghost predicate SplitsAs(name: string, folder: string, base: string) {
    Separators(base) == 0 &&
    if Separators(name) > 0 then name == folder + [Separator] + base
    else folder == "" && base == name
  }

  /** A name splits in only one way. */
  lemma SplitsAsUnique(name: string, f1: string, b1: string, f2: string, b2: string)
    requires SplitsAs(name, f1, b1) && SplitsAs(name, f2, b2)
    ensures f1 == f2 && b1 == b2
  {
    SeparatorsNone(name);
    SeparatorsNone(b1);
    SeparatorsNone(b2);
    if Separator in name {
      SeparatorPositions(name, f1, b1);
      SeparatorPositions(name, f2, b2);
      assert |f1| == |f2|;
      assert f1 == name[..|f1|] == f2;
      assert b1 == name[|f1| + 1..] == b2;
    }
  }

  /** In `folder/base` with a separator-free base, the last separator is the one after the folder. */
  lemma SeparatorPositions(name: string, folder: string, base: string)
    requires name == folder + [Separator] + base && Separator !in base
    ensures name[|folder|] == Separator
    ensures forall k :: |folder| < k < |name| ==> name[k] != Separator
  {
    forall k | |folder| < k < |name| ensures name[k] != Separator {
      assert name[k] == base[k - |folder| - 1];
    }
  }

  /**
   * Splits a `/`-separated path into its folder and base name at the last
   * separator: split into pieces, pop the last piece as the base and join the
   * rest as the folder.  It never fails.
   */
  function SplitName(name: string): (r: (string, string))
    ensures SplitsAs(name, r.0, r.1)
  {
    var parts := Split(name);
    JoinSplit(name);
    SplitPieces(name);
    SeparatorsNone(name);
    SeparatorsNone(parts[|parts| - 1]);
    if |parts| == 1 then
      ("", parts[0])
    else
      var base := parts[|parts| - 1];
      var folder := Join(parts[..|parts| - 1]);
      assert parts == parts[..|parts| - 1] + [base];
      JoinSnoc(parts[..|parts| - 1], base);
      assert base in parts;
      (folder, base)
  }

  /**
   * Pairs every sample with its row number, counting up from 0.  The row
   * number is kept as an integer (the program converts it to a float).
   */
  method FakeXAxis(data: seq<Float64>) returns (points: seq<(nat, Float64)>)
    ensures |points| == |data|
    ensures forall i :: 0 <= i < |data| ==> points[i] == (i, data[i])
  {
    points := [];
    var x := 0;
    for k := 0 to |data|
      invariant x == k == |points|
      invariant forall i :: 0 <= i < k ==> points[i] == (i, data[i])
    {
      points := points + [(x, data[k])];
      x := x + 1;
    }
  }
}
