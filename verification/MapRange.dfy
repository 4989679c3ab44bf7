/** Ranging over a map. */
module MapRanges {
  predicate NoRepeats(xs: seq<string>) {
    forall i, j :: 0 <= i < j < |xs| ==> xs[i] != xs[j]
  }

  /** `order` lists the keys, each once. */
  ghost predicate Enumerates(order: seq<string>, keys: set<string>) {
    && NoRepeats(order)
    && (forall x :: x in order <==> x in keys)
  }

  lemma {:induction false} EnumeratesMore(order: seq<string>, keys: set<string>, x: string)
    requires Enumerates(order, keys) && x !in keys
    ensures Enumerates(order + [x], keys + {x})
  {
  }

  /** Ranging over a map visits its keys in any order. */
  method RangeOver(keys: set<string>) returns (order: seq<string>)
    ensures Enumerates(order, keys)
  {
    order := [];
    var left := keys;
    while left != {}
      invariant left <= keys && Enumerates(order, keys - left)
      decreases |left|
    {
      var k :| k in left;
      assert keys - (left - {k}) == keys - left + {k};
      EnumeratesMore(order, keys - left, k);
      left := left - {k};
      order := order + [k];
    }
  }
}
