/** Strings in byte order, as sort.Strings leaves them. */
module Sorting {
  import opened MapRanges

  predicate Less(a: string, b: string) {
    if b == "" then false
    else if a == "" then true
    else a[0] < b[0] || (a[0] == b[0] && Less(a[1..], b[1..]))
  }

  lemma {:induction false} LessTrans(a: string, b: string, c: string)
    requires Less(a, b) && Less(b, c)
    ensures Less(a, c)
  {
    if a != "" && a[0] == b[0] && b[0] == c[0] { LessTrans(a[1..], b[1..], c[1..]); }
  }

  lemma {:induction false} LessTotal(a: string, b: string)
    ensures a == b || Less(a, b) || Less(b, a)
    ensures !(Less(a, b) && Less(b, a)) && !Less(a, a)
  {
    if a != "" && b != "" {
      LessTotal(a[1..], b[1..]);
      assert a == [a[0]] + a[1..] && b == [b[0]] + b[1..];
    }
    if a != "" { LessTotal(a[1..], a[1..]); }
  }

  /** In strictly increasing order. */
  predicate Ascending(xs: seq<string>) {
    forall i :: 0 < i < |xs| ==> Less(xs[i - 1], xs[i])
  }

  function Placed(x: string, xs: seq<string>): (r: seq<string>)
    ensures |r| == |xs| + 1 && multiset(r) == multiset(xs) + multiset{x}
    ensures r[0] == x || (xs != [] && r[0] == xs[0])
  {
    if xs == [] || !Less(xs[0], x) then
      [x] + xs
    else
      assert xs == [xs[0]] + xs[1..];
      [xs[0]] + Placed(x, xs[1..])
  }

  function Sorted(xs: seq<string>): (r: seq<string>)
    ensures multiset(r) == multiset(xs)
  {
    if xs == [] then []
    else
      assert xs == [xs[0]] + xs[1..];
      Placed(xs[0], Sorted(xs[1..]))
  }

  lemma {:induction false} PlacedAscending(x: string, xs: seq<string>)
    requires Ascending(xs) && x !in xs
    ensures Ascending(Placed(x, xs))
  {
    if xs != [] {
      LessTotal(xs[0], x);
      if Less(xs[0], x) {
        assert Ascending(xs[1..]) by {
          forall i | 0 < i < |xs[1..]| ensures Less(xs[1..][i - 1], xs[1..][i]) { assert Less(xs[i], xs[i + 1]); }
        }
        PlacedAscending(x, xs[1..]);
        AscendingCons(xs[0], Placed(x, xs[1..]));
      } else {
        AscendingCons(x, xs);
      }
    }
  }

  lemma {:induction false} AscendingCons(x: string, xs: seq<string>)
    requires Ascending(xs) && (xs == [] || Less(x, xs[0]))
    ensures Ascending([x] + xs)
  {
    var r := [x] + xs;
    forall i | 0 < i < |r| ensures Less(r[i - 1], r[i]) {
      if i > 1 { assert Less(xs[i - 2], xs[i - 1]); }
    }
  }

  lemma {:induction false} SameMembers(xs: seq<string>)
    ensures forall x :: x in Sorted(xs) <==> x in xs
  {
    assert multiset(Sorted(xs)) == multiset(xs);
    forall x ensures x in Sorted(xs) <==> x in xs {
      assert x in Sorted(xs) <==> x in multiset(Sorted(xs));
      assert x in xs <==> x in multiset(xs);
    }
  }

  /** Sorting strings that do not repeat gives them in strictly increasing order. */
  lemma {:induction false} SortedAscending(xs: seq<string>)
    requires NoRepeats(xs)
    ensures Ascending(Sorted(xs))
  {
    if xs != [] {
      assert NoRepeats(xs[1..]) by {
        forall i, j | 0 <= i < j < |xs[1..]| ensures xs[1..][i] != xs[1..][j] { assert xs[i + 1] != xs[j + 1]; }
      }
      SortedAscending(xs[1..]);
      SameMembers(xs[1..]);
      PlacedAscending(xs[0], Sorted(xs[1..]));
    }
  }

  lemma {:induction false} AscendingLess(xs: seq<string>, i: nat, j: nat)
    requires Ascending(xs) && i < j < |xs|
    ensures Less(xs[i], xs[j])
  {
    if i + 1 < j {
      AscendingLess(xs, i, j - 1);
      assert Less(xs[j - 1], xs[j]);
      LessTrans(xs[i], xs[j - 1], xs[j]);
    } else {
      assert Less(xs[j - 1], xs[j]);
    }
  }

  lemma {:induction false} FirstLeast(xs: seq<string>, x: string)
    requires Ascending(xs) && x in xs
    ensures x == xs[0] || Less(xs[0], x)
  {
    var i :| 0 <= i < |xs| && xs[i] == x;
    if i > 0 { AscendingLess(xs, 0, i); }
  }

  lemma {:induction false} AscendingTail(xs: seq<string>)
    requires xs != [] && Ascending(xs)
    ensures Ascending(xs[1..]) && xs[0] !in xs[1..]
  {
    forall i | 0 < i < |xs[1..]| ensures Less(xs[1..][i - 1], xs[1..][i]) { assert Less(xs[i], xs[i + 1]); }
    if xs[0] in xs[1..] {
      var i :| 0 <= i < |xs[1..]| && xs[1..][i] == xs[0];
      AscendingLess(xs, 0, i + 1);
      LessTotal(xs[0], xs[0]);
    }
  }

  /** A strictly increasing list is fixed by its members. */
  lemma {:induction false} AscendingUnique(xs: seq<string>, ys: seq<string>)
    requires Ascending(xs) && Ascending(ys) && forall x :: x in xs <==> x in ys
    ensures xs == ys
  {
    if xs != [] || ys != [] {
      var x := if xs != [] then xs[0] else ys[0];
      assert x in xs || x in ys;
      assert x in xs && x in ys;
      assert xs[0] in xs && ys[0] in ys;
      FirstLeast(xs, ys[0]);
      FirstLeast(ys, xs[0]);
      LessTotal(xs[0], ys[0]);
      AscendingTail(xs);
      AscendingTail(ys);
      TailMembers(xs, ys);
      AscendingUnique(xs[1..], ys[1..]);
      assert xs == [xs[0]] + xs[1..] && ys == [ys[0]] + ys[1..];
    }
  }

  lemma {:induction false} TailMembers(xs: seq<string>, ys: seq<string>)
    requires xs != [] && ys != [] && xs[0] == ys[0] && xs[0] !in xs[1..] && ys[0] !in ys[1..]
    requires forall x :: x in xs <==> x in ys
    ensures forall x :: x in xs[1..] <==> x in ys[1..]
  {
    assert xs == [xs[0]] + xs[1..] && ys == [ys[0]] + ys[1..];
    forall x ensures x in xs[1..] <==> x in ys[1..] {
      assert x in xs <==> x == xs[0] || x in xs[1..];
      assert x in ys <==> x == ys[0] || x in ys[1..];
    }
  }
}
