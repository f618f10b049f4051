/** Ranking of one category: a stable sort by the trailing price, highest first,
    cut to the first five answers. */
module Ranking {
  import opened Rules

  /** How many answers each category keeps. */
  const TopK: nat := 5

  function Min(a: int, b: int): int
  {
    if a <= b then a else b
  }

  predicate NonIncreasing(s: seq<Itinerary>)
  {
    forall i, j :: 0 <= i < j < |s| ==> s[i].price >= s[j].price
  }

  predicate Distinct(s: seq<Itinerary>)
  {
    forall i, j :: 0 <= i < j < |s| ==> s[i] != s[j]
  }

  /** The answers of one price, in the order they occur. */
  function WithPrice(s: seq<Itinerary>, p: real): seq<Itinerary>
  {
    if s == [] then []
    else (if s[0].price == p then [s[0]] else []) + WithPrice(s[1..], p)
  }

  /** Places x after every answer priced at least as high: a stable insertion in descending order. */
  function InsertByPrice(s: seq<Itinerary>, x: Itinerary): (r: seq<Itinerary>)
    ensures |r| == |s| + 1
  {
    if s == [] then [x]
    else if s[0].price < x.price then [x] + s
    else [s[0]] + InsertByPrice(s[1..], x)
  }

  /** The answers ordered by their trailing price, highest first, with answers of equal price
      left in their input order (the sort the source uses is stable). */
  function SortByPriceDesc(xs: seq<Itinerary>): (r: seq<Itinerary>)
    ensures |r| == |xs|
  {
    if xs == [] then []
    else InsertByPrice(SortByPriceDesc(xs[..|xs| - 1]), xs[|xs| - 1])
  }

  /** The first five answers of the sorted list, or all of them when there are fewer. */
  function Ranked(xs: seq<Itinerary>): (r: seq<Itinerary>)
    ensures |r| == Min(TopK, |xs|)
  {
    var sorted := SortByPriceDesc(xs);
    sorted[..Min(TopK, |sorted|)]
  }

  // ---------------------------------------------------------------------------
  // Insertion
  // ---------------------------------------------------------------------------

  lemma {:induction false} InsertByPriceElements(s: seq<Itinerary>, x: Itinerary)
    ensures multiset(InsertByPrice(s, x)) == multiset(s) + multiset{x}
  {
    if s != [] && s[0].price >= x.price {
      InsertByPriceElements(s[1..], x);
      calc {
        multiset(InsertByPrice(s, x));
        multiset([s[0]] + InsertByPrice(s[1..], x));
        multiset{s[0]} + multiset(InsertByPrice(s[1..], x));
        multiset{s[0]} + multiset(s[1..]) + multiset{x};
        { assert s == [s[0]] + s[1..]; }
        multiset(s) + multiset{x};
      }
    }
  }

  lemma {:induction false} InsertByPriceOrdered(s: seq<Itinerary>, x: Itinerary)
    requires NonIncreasing(s)
    ensures NonIncreasing(InsertByPrice(s, x))
  {
    if s != [] && s[0].price >= x.price {
      InsertByPriceOrdered(s[1..], x);
      InsertByPriceElements(s[1..], x);
      var r := InsertByPrice(s[1..], x);
      forall k | 0 <= k < |r| ensures s[0].price >= r[k].price {
        assert r[k] in multiset(r);
        assert r[k] == x || r[k] in multiset(s[1..]);
      }
    }
  }

  lemma {:induction false} WithPriceAppend(a: seq<Itinerary>, b: seq<Itinerary>, p: real)
    ensures WithPrice(a + b, p) == WithPrice(a, p) + WithPrice(b, p)
  {
    if a != [] {
      assert (a + b)[1..] == a[1..] + b;
      WithPriceAppend(a[1..], b, p);
    } else {
      assert a + b == b;
    }
  }

  lemma {:induction false} WithPriceBelow(s: seq<Itinerary>, p: real)
    requires forall k :: 0 <= k < |s| ==> s[k].price < p
    ensures WithPrice(s, p) == []
  {
    if s != [] {
      WithPriceBelow(s[1..], p);
    }
  }

  /** Inserting x leaves the answers of every other price where they were, and puts x
      after the answers of its own price. */
  lemma {:induction false} InsertByPriceStable(s: seq<Itinerary>, x: Itinerary, p: real)
    requires NonIncreasing(s)
    ensures WithPrice(InsertByPrice(s, x), p) == WithPrice(s, p) + (if x.price == p then [x] else [])
  {
    if s == [] {
      WithPriceSingle(x, p);
    } else if s[0].price < x.price {
      assert ([x] + s)[1..] == s;
      if x.price == p {
        WithPriceBelow(s, p);
      }
    } else {
      InsertByPriceStable(s[1..], x, p);
      assert ([s[0]] + InsertByPrice(s[1..], x))[1..] == InsertByPrice(s[1..], x);
    }
  }

  lemma {:induction false} InsertByPriceDistinct(s: seq<Itinerary>, x: Itinerary)
    requires Distinct(s) && x !in s
    ensures Distinct(InsertByPrice(s, x))
  {
    if s != [] && s[0].price >= x.price {
      InsertByPriceDistinct(s[1..], x);
      InsertByPriceElements(s[1..], x);
      var r := InsertByPrice(s[1..], x);
      assert s[0] !in multiset(s[1..]) + multiset{x};
      assert s[0] !in r by {
        assert multiset(r) == multiset(s[1..]) + multiset{x};
      }
    }
  }

  // ---------------------------------------------------------------------------
  // Sorting
  // ---------------------------------------------------------------------------

  /** The sort yields its input's answers, duplicates included. */
  lemma {:induction false} SortByPriceDescElements(xs: seq<Itinerary>)
    ensures multiset(SortByPriceDesc(xs)) == multiset(xs)
  {
    if xs != [] {
      var init := xs[..|xs| - 1];
      SortByPriceDescElements(init);
      InsertByPriceElements(SortByPriceDesc(init), xs[|xs| - 1]);
      assert xs == init + [xs[|xs| - 1]];
    }
  }

  /** The sort yields answers in non-increasing price order. */
  lemma {:induction false} SortByPriceDescOrdered(xs: seq<Itinerary>)
    ensures NonIncreasing(SortByPriceDesc(xs))
  {
    if xs != [] {
      SortByPriceDescOrdered(xs[..|xs| - 1]);
      InsertByPriceOrdered(SortByPriceDesc(xs[..|xs| - 1]), xs[|xs| - 1]);
    }
  }

  lemma WithPriceSingle(x: Itinerary, p: real)
    ensures WithPrice([x], p) == if x.price == p then [x] else []
  {
  }

  /** The sort is stable: answers of equal price keep their input order. */
  lemma {:induction false} SortByPriceDescStable(xs: seq<Itinerary>, p: real)
    ensures WithPrice(SortByPriceDesc(xs), p) == WithPrice(xs, p)
  {
    if xs != [] {
      var init, last := xs[..|xs| - 1], xs[|xs| - 1];
      SortByPriceDescStable(init, p);
      SortByPriceDescOrdered(init);
      InsertByPriceStable(SortByPriceDesc(init), last, p);
      assert xs == init + [last];
      WithPriceAppend(init, [last], p);
      WithPriceSingle(last, p);
    }
  }

  lemma {:induction false} SortByPriceDescDistinct(xs: seq<Itinerary>)
    requires Distinct(xs)
    ensures Distinct(SortByPriceDesc(xs))
  {
    if xs != [] {
      var init, last := xs[..|xs| - 1], xs[|xs| - 1];
      assert Distinct(init);
      SortByPriceDescDistinct(init);
      SortByPriceDescElements(init);
      assert last !in multiset(SortByPriceDesc(init));
      InsertByPriceDistinct(SortByPriceDesc(init), last);
    }
  }

  // ---------------------------------------------------------------------------
  // The top five
  // ---------------------------------------------------------------------------

  /** The ranked list holds min(5, n) answers of the input, highest price first,
      and keeps the whole input when it has at most five answers. */
  lemma RankedShape(xs: seq<Itinerary>)
    ensures |Ranked(xs)| == Min(TopK, |xs|)
    ensures NonIncreasing(Ranked(xs))
    ensures forall x :: x in Ranked(xs) ==> x in xs
    ensures |xs| <= TopK ==> multiset(Ranked(xs)) == multiset(xs)
  {
    var sorted := SortByPriceDesc(xs);
    SortByPriceDescElements(xs);
    SortByPriceDescOrdered(xs);
    assert |sorted| == |multiset(sorted)| == |xs|;
    var r := Ranked(xs);
    forall x | x in r ensures x in xs {
      assert x in sorted;
      assert x in multiset(sorted);
    }
    if |xs| <= TopK {
      assert r == sorted[..|sorted|] == sorted;
    }
  }

  /** Every answer left out of the ranked list is priced at most the last one kept. */
  lemma RankedOmitsOnlyCheaper(xs: seq<Itinerary>, x: Itinerary)
    requires x in xs && x !in Ranked(xs)
    ensures Ranked(xs) != []
    ensures x.price <= Ranked(xs)[|Ranked(xs)| - 1].price
  {
    var sorted := SortByPriceDesc(xs);
    SortByPriceDescElements(xs);
    SortByPriceDescOrdered(xs);
    assert |sorted| == |multiset(sorted)| == |xs|;
    var r := Ranked(xs);
    assert r == sorted[..|r|];
    assert x in multiset(sorted);
    var k :| 0 <= k < |sorted| && sorted[k] == x;
    assert k >= |r|;
  }

  /** Ranking a duplicate-free enumeration yields no answer twice. */
  lemma RankedDistinct(xs: seq<Itinerary>)
    requires Distinct(xs)
    ensures Distinct(Ranked(xs))
  {
    SortByPriceDescDistinct(xs);
  }

  /** Removing one answer keeps a list in non-increasing price order. */
  lemma RemoveAtOrdered(s: seq<Itinerary>, k: int)
    requires NonIncreasing(s) && 0 <= k < |s|
    ensures NonIncreasing(s[..k] + s[k + 1..])
  {
  }

  lemma HeadPricesEqual(a: seq<Itinerary>, b: seq<Itinerary>)
    requires NonIncreasing(a) && NonIncreasing(b)
    requires a != [] && multiset(a) == multiset(b)
    ensures b != [] && a[0].price == b[0].price
  {
    assert a[0] in multiset(b);
    assert a[0] in b;
    assert b[0] in multiset(a);
    assert b[0] in a;
  }

  /** If b' (b with the answer at k removed) has a's tail prices, and b[k] is priced like b's head,
      then a and b have the same prices throughout. */
  lemma PricesAfterRemoval(a: seq<Itinerary>, b: seq<Itinerary>, k: int, b': seq<Itinerary>)
    requires NonIncreasing(b) && 0 <= k < |b| && |a| == |b|
    requires b' == b[..k] + b[k + 1..]
    requires a[0].price == b[0].price == b[k].price
    requires forall i :: 0 <= i < |b'| ==> a[i + 1].price == b'[i].price
    ensures forall i :: 0 <= i < |a| ==> a[i].price == b[i].price
  {
    forall i | 0 < i < |a| ensures a[i].price == b[i].price {
      assert a[i].price == b'[i - 1].price;
      if i - 1 < k {
        assert b'[i - 1] == b[i - 1];
      } else {
        assert b'[i - 1] == b[i];
      }
    }
  }

  lemma RemoveAtElements(a: seq<Itinerary>, b: seq<Itinerary>, k: int)
    requires multiset(a) == multiset(b)
    requires a != [] && 0 <= k < |b| && b[k] == a[0]
    ensures multiset(a[1..]) == multiset(b[..k] + b[k + 1..])
  {
    assert a == [a[0]] + a[1..];
    assert b == b[..k] + [b[k]] + b[k + 1..];
    calc {
      multiset(a[1..]);
      multiset(a) - multiset{a[0]};
      multiset(b) - multiset{b[k]};
      multiset(b[..k]) + multiset(b[k + 1..]);
    }
  }

  /** Two lists in non-increasing price order holding the same answers have the same prices
      position by position, whatever order they give answers of equal price. */
  lemma {:induction false} SortedPricesUnique(a: seq<Itinerary>, b: seq<Itinerary>)
    requires NonIncreasing(a) && NonIncreasing(b)
    requires multiset(a) == multiset(b)
    ensures |a| == |b|
    ensures forall i :: 0 <= i < |a| ==> a[i].price == b[i].price
  {
    assert |a| == |multiset(a)| == |multiset(b)| == |b|;
    if a != [] {
      HeadPricesEqual(a, b);
      assert a[0] in multiset(b);
      var k :| 0 <= k < |b| && b[k] == a[0];
      var b' := b[..k] + b[k + 1..];
      RemoveAtElements(a, b, k);
      RemoveAtOrdered(b, k);
      SortedPricesUnique(a[1..], b');
      PricesAfterRemoval(a, b, k, b');
    }
  }

  /** Ranking any two enumerations of the same answers yields the same prices in the same
      positions: only which of several equally priced answers is kept can differ. */
  lemma RankedPricesDetermined(xs: seq<Itinerary>, ys: seq<Itinerary>)
    requires multiset(xs) == multiset(ys)
    ensures |Ranked(xs)| == |Ranked(ys)|
    ensures forall i :: 0 <= i < |Ranked(xs)| ==> Ranked(xs)[i].price == Ranked(ys)[i].price
  {
    SortByPriceDescElements(xs);
    SortByPriceDescElements(ys);
    SortByPriceDescOrdered(xs);
    SortByPriceDescOrdered(ys);
    SortedPricesUnique(SortByPriceDesc(xs), SortByPriceDesc(ys));
  }
}
