/** `Array.prototype.sort` applied to asset paths with the numeric-aware comparator.

    `Array.prototype.sort` is stable, and the comparator is a total preorder, so the result
    is determined: the paths ordered by the comparator, with paths that tie kept in their
    input order. The sort is modelled as an insertion sort, which is stable too, and
    `SortPathsUnique` shows that no other arrangement has these properties. */
module PathSort {
  import opened Collation

  /** Every path may precede every later one. */
  predicate Sorted(ps: seq<string>) {
    forall i, j :: 0 <= i < j < |ps| ==> PathLe(ps[i], ps[j])
  }

  lemma SortedCons(p: string, ps: seq<string>)
    requires Sorted(ps)
    requires forall q :: q in ps ==> PathLe(p, q)
    ensures Sorted([p] + ps)
  {
    forall i, j | 0 <= i < j < |[p] + ps|
      ensures PathLe(([p] + ps)[i], ([p] + ps)[j])
    {
      if i == 0 {
        assert ([p] + ps)[j] == ps[j - 1];
      } else {
        assert ([p] + ps)[i] == ps[i - 1] && ([p] + ps)[j] == ps[j - 1];
      }
    }
  }

  /** A path that may precede the head of a sorted sequence may precede all of it. */
  lemma LeHeadLeAll(p: string, ps: seq<string>)
    requires Sorted(ps) && ps != []
    requires PathLe(p, ps[0])
    ensures forall q :: q in ps ==> PathLe(p, q)
  {
    forall q | q in ps
      ensures PathLe(p, q)
    {
      var j :| 0 <= j < |ps| && ps[j] == q;
      if j > 0 {
        PathLeTransitive(p, ps[0], q);
      }
    }
  }

  /** What inserting behind the head of a sorted sequence needs: the head may precede
      everything in the rest with `p` added. */
  lemma HeadLeRest(p: string, ps: seq<string>, rest: seq<string>)
    requires Sorted(ps) && ps != []
    requires PathLe(ps[0], p)
    requires multiset(rest) == multiset(ps[1..]) + multiset{p}
    ensures forall q :: q in rest ==> PathLe(ps[0], q)
  {
    forall q | q in rest
      ensures PathLe(ps[0], q)
    {
      assert q in multiset(rest);
      if q != p {
        assert q in ps[1..];
        var j :| 0 <= j < |ps[1..]| && ps[1..][j] == q;
        assert ps[j + 1] == q;
      }
    }
  }

  /** Inserts `p` before the first path it may precede. */
  function Insert(p: string, ps: seq<string>): (r: seq<string>)
    requires Sorted(ps)
    ensures Sorted(r)
    ensures multiset(r) == multiset(ps) + multiset{p}
  {
    if ps == [] then [p]
    else if PathLe(p, ps[0]) then
      LeHeadLeAll(p, ps);
      SortedCons(p, ps);
      [p] + ps
    else
      PathLeTotal(p, ps[0]);
      var rest := Insert(p, ps[1..]);
      HeadLeRest(p, ps, rest);
      SortedCons(ps[0], rest);
      assert ps == [ps[0]] + ps[1..];
      [ps[0]] + rest
  }

  /** Model of `paths.sort((a, b) => a.localeCompare(b, undefined, { numeric: true }))`. */
  function SortPaths(ps: seq<string>): (r: seq<string>)
    ensures Sorted(r)
    ensures multiset(r) == multiset(ps)
  {
    if ps == [] then []
    else
      assert ps == [ps[0]] + ps[1..];
      Insert(ps[0], SortPaths(ps[1..]))
  }

  /** In a sorted sequence a path that compares strictly smaller stands strictly earlier. */
  lemma StrictlySmallerComesFirst(ps: seq<string>, i: int, j: int)
    requires Sorted(ps)
    requires 0 <= i < |ps| && 0 <= j < |ps|
    requires NumericCompare(ps[i], ps[j]) < 0
    ensures i < j
  {
    NumericCompareFlip(ps[i], ps[j]);
    NumericCompareZero(ps[i], ps[i]);
  }

  /** No two distinct paths of `x` tie. */
  predicate NoTies(x: seq<string>) {
    forall a, b :: a in x && b in x && PathLe(a, b) && PathLe(b, a) ==> a == b
  }

  lemma NoTiesTail(x: seq<string>)
    requires x != [] && NoTies(x)
    ensures NoTies(x[1..])
  {
    assert forall q :: q in x[1..] ==> q in x;
  }

  /** Two sorted permutations of the same paths, of which no two distinct ones tie, start
      with the same path. */
  lemma SortedHeadsEqual(x: seq<string>, y: seq<string>)
    requires Sorted(x) && Sorted(y) && x != [] && y != []
    requires multiset(x) == multiset(y)
    requires NoTies(x)
    ensures x[0] == y[0]
  {
    assert x[0] in multiset(y) && y[0] in multiset(x);
    var k :| 0 <= k < |y| && y[k] == x[0];
    var l :| 0 <= l < |x| && x[l] == y[0];
    NumericCompareZero(x[0], x[0]);
    assert PathLe(x[0], y[0]) by {
      if l > 0 { assert PathLe(x[0], x[l]); }
    }
    assert PathLe(y[0], x[0]) by {
      if k > 0 { assert PathLe(y[0], y[k]); }
    }
    assert x[0] in x && y[0] in x;
  }

  lemma TailMultiset(x: seq<string>)
    requires x != []
    ensures multiset(x[1..]) == multiset(x) - multiset{x[0]}
  {
    assert x == [x[0]] + x[1..];
  }

  /** When no two distinct paths compare equal, the sorted order is fully determined:
      any two sorted permutations of the same paths coincide. */
  lemma {:induction false} SortedPermutationUnique(x: seq<string>, y: seq<string>)
    requires Sorted(x) && Sorted(y)
    requires multiset(x) == multiset(y)
    requires NoTies(x)
    ensures x == y
  {
    if x == [] {
      assert |y| == |multiset(y)| == 0;
    } else {
      assert y != [] by {
        assert x[0] in multiset(y);
      }
      SortedHeadsEqual(x, y);
      var xs, ys := x[1..], y[1..];
      assert multiset(xs) == multiset(ys) by {
        TailMultiset(x);
        TailMultiset(y);
      }
      assert Sorted(xs) && Sorted(ys) by {
        TailSorted(x);
        TailSorted(y);
      }
      NoTiesTail(x);
      SortedPermutationUnique(xs, ys);
      assert x == [x[0]] + xs && y == [y[0]] + ys;
    }
  }

  lemma TailSorted(x: seq<string>)
    requires Sorted(x) && x != []
    ensures Sorted(x[1..])
  {
    forall i, j | 0 <= i < j < |x[1..]| ensures PathLe(x[1..][i], x[1..][j]) {
      assert x[1..][i] == x[i + 1] && x[1..][j] == x[j + 1];
    }
  }

  /** Sorting paths of which no two distinct ones compare equal yields the one sorted
      arrangement of them. */
  lemma SortPathsDetermined(input: seq<string>, expected: seq<string>)
    requires Sorted(expected)
    requires multiset(expected) == multiset(input)
    requires NoTies(expected)
    ensures SortPaths(input) == expected
  {
    var sorted := SortPaths(input);
    SortedPermutationUnique(expected, sorted);
  }

  /** Two paths tie when the comparator puts neither before the other, as `p01` and `p1`. */
  predicate Tie(x: string, y: string) {
    NumericCompare(x, y) == 0
  }

  /** The paths of `ps` that tie with `c`, in their order in `ps`. */
  function TiedWith(ps: seq<string>, c: string): seq<string> {
    if ps == [] then []
    else (if Tie(ps[0], c) then [ps[0]] else []) + TiedWith(ps[1..], c)
  }

  /** A path that ties with itself is found in its own tie class. */
  lemma {:induction false} TiedWithSelf(ps: seq<string>, q: string)
    requires q in ps
    ensures q in TiedWith(ps, q)
  {
    if ps[0] == q {
      NumericCompareZero(q, q);
    } else {
      TiedWithSelf(ps[1..], q);
    }
  }

  /** The tie class of `c` in `ps` holds only paths of `ps`. */
  lemma {:induction false} TiedWithIn(ps: seq<string>, c: string, q: string)
    requires q in TiedWith(ps, c)
    ensures q in ps
  {
    if ps != [] && q != ps[0] {
      TiedWithIn(ps[1..], c, q);
    }
  }

  /** A path behind which `p` is inserted does not tie with what `p` ties with. */
  lemma PastNotTied(p: string, h: string, c: string)
    requires !PathLe(p, h)
    ensures !(Tie(p, c) && Tie(h, c))
  {
    NumericCompareZero(p, c);
    NumericCompareZero(h, c);
    NumericCompareZero(p, h);
  }

  /** Inserting `p` puts it in front of every path it ties with. */
  lemma {:induction false} InsertTiedWith(p: string, ps: seq<string>, c: string)
    requires Sorted(ps)
    ensures TiedWith(Insert(p, ps), c) == (if Tie(p, c) then [p] else []) + TiedWith(ps, c)
  {
    if ps == [] {
      assert [p][1..] == [];
    } else if PathLe(p, ps[0]) {
      assert ([p] + ps)[1..] == ps;
    } else {
      TailSorted(ps);
      InsertTiedWith(p, ps[1..], c);
      PastNotTied(p, ps[0], c);
      assert Insert(p, ps) == [ps[0]] + Insert(p, ps[1..]);
      assert ps == [ps[0]] + ps[1..];
      TiedBehindHead(p, ps[0], ps[1..], Insert(p, ps[1..]), c);
    }
  }

  /** The tie class of `c` when `p` goes somewhere behind a head `h` that is not in the
      same class as `p`. */
  lemma TiedBehindHead(p: string, h: string, rest: seq<string>, t: seq<string>, c: string)
    requires TiedWith(t, c) == (if Tie(p, c) then [p] else []) + TiedWith(rest, c)
    requires !(Tie(p, c) && Tie(h, c))
    ensures TiedWith([h] + t, c) == (if Tie(p, c) then [p] else []) + TiedWith([h] + rest, c)
  {
    assert ([h] + t)[1..] == t && ([h] + rest)[1..] == rest;
  }

  /** The sort is stable: the paths that tie with any `c` keep their input order. */
  lemma {:induction false} SortPathsStable(ps: seq<string>, c: string)
    ensures TiedWith(SortPaths(ps), c) == TiedWith(ps, c)
  {
    if ps != [] {
      SortPathsStable(ps[1..], c);
      InsertTiedWith(ps[0], SortPaths(ps[1..]), c);
    }
  }

  /** A path of a sorted sequence may precede or tie with all of it when it is the head. */
  lemma HeadPrecedes(x: seq<string>, q: string)
    requires Sorted(x) && x != [] && q in x
    ensures PathLe(x[0], q)
  {
    var k :| 0 <= k < |x| && x[k] == q;
    if k == 0 {
      NumericCompareZero(q, q);
    }
  }

  /** Two sorted sequences that list the paths of every tie class in the same order are
      equal. */
  lemma {:induction false} SortedStableUnique(x: seq<string>, y: seq<string>)
    requires Sorted(x) && Sorted(y)
    requires forall c :: TiedWith(x, c) == TiedWith(y, c)
    ensures x == y
  {
    if x == [] || y == [] {
      var z := if x == [] then y else x;
      if z != [] {
        TiedWithSelf(z, z[0]);
        assert false;
      }
    } else {
      var a, b := x[0], y[0];
      assert PathLe(a, b) by {
        TiedWithSelf(y, b);
        assert TiedWith(x, b) == TiedWith(y, b);
        TiedWithIn(x, b, b);
        HeadPrecedes(x, b);
      }
      assert PathLe(b, a) by {
        TiedWithSelf(x, a);
        assert TiedWith(x, a) == TiedWith(y, a);
        TiedWithIn(y, a, a);
        HeadPrecedes(y, a);
      }
      assert a == b by {
        NumericCompareFlip(a, b);
        NumericCompareZero(a, b);
        NumericCompareZero(a, a);
        assert TiedWith(y, a) == [b] + TiedWith(y[1..], a);
        assert TiedWith(x, a) == [a] + TiedWith(x[1..], a);
        assert TiedWith(x, a)[0] == a && TiedWith(y, a)[0] == b;
      }
      forall c
        ensures TiedWith(x[1..], c) == TiedWith(y[1..], c)
      {
        assert TiedWith(x, c) == (if Tie(a, c) then [a] else []) + TiedWith(x[1..], c);
        assert TiedWith(y, c) == (if Tie(a, c) then [a] else []) + TiedWith(y[1..], c);
        var n := if Tie(a, c) then 1 else 0;
        assert TiedWith(x[1..], c) == TiedWith(x, c)[n..];
        assert TiedWith(y[1..], c) == TiedWith(y, c)[n..];
      }
      TailSorted(x);
      TailSorted(y);
      SortedStableUnique(x[1..], y[1..]);
      assert x == [a] + x[1..] && y == [a] + y[1..];
    }
  }

  /** The sort's result is determined: it is the one sorted arrangement that keeps the
      paths of every tie class in their input order. */
  lemma SortPathsUnique(ps: seq<string>, expected: seq<string>)
    requires Sorted(expected)
    requires forall c :: TiedWith(expected, c) == TiedWith(ps, c)
    ensures SortPaths(ps) == expected
  {
    forall c
      ensures TiedWith(SortPaths(ps), c) == TiedWith(expected, c)
    {
      SortPathsStable(ps, c);
    }
    SortedStableUnique(SortPaths(ps), expected);
  }

  /** Two tied paths keep their order. */
  lemma SortKeepsTiedPair(x: string, y: string)
    requires Tie(x, y)
    ensures SortPaths([x, y]) == [x, y]
  {
    SortOne(y);
    assert [x, y][1..] == [y];
    assert Insert(x, [y]) == [x, y];
  }

  /** A path that may precede the head goes in front. */
  lemma InsertHere(p: string, ps: seq<string>)
    requires Sorted(ps) && ps != [] && PathLe(p, ps[0])
    ensures Insert(p, ps) == [p] + ps
  {
  }

  /** A path that may not precede the head goes behind it. */
  lemma InsertPast(p: string, ps: seq<string>)
    requires Sorted(ps) && ps != [] && !PathLe(p, ps[0])
    ensures Sorted(ps[1..])
    ensures Insert(p, ps) == [ps[0]] + Insert(p, ps[1..])
  {
    TailSorted(ps);
  }

  lemma SortOne(x: string)
    ensures SortPaths([x]) == [x]
  {
    assert [x][1..] == [];
  }

  /** Two paths listed in the wrong order are swapped by the sort. */
  lemma SortSwapsTwo(x: string, y: string)
    requires NumericCompare(x, y) < 0
    ensures SortPaths([y, x]) == [x, y]
  {
    NumericCompareFlip(x, y);
    SortOne(x);
    assert [y, x][1..] == [x];
    InsertPast(y, [x]);
    assert [x][1..] == [];
  }

  lemma InsertMiddle(x: string, y: string, z: string)
    requires Sorted([x, z]) && !PathLe(y, x) && PathLe(y, z)
    ensures Insert(y, [x, z]) == [x, y, z]
  {
    InsertPast(y, [x, z]);
    assert [x, z][1..] == [z];
    InsertHere(y, [z]);
  }

  /** Three paths listed as `y, z, x`, where `x < y < z` by the comparator, sort to `x, y, z`. */
  lemma SortThree(x: string, y: string, z: string)
    requires NumericCompare(x, y) < 0 && NumericCompare(y, z) < 0 && NumericCompare(x, z) < 0
    ensures SortPaths([y, z, x]) == [x, y, z]
  {
    NumericCompareFlip(x, y);
    SortSwapsTwo(x, z);
    assert [y, z, x][1..] == [z, x];
    assert SortPaths([y, z, x]) == Insert(y, [x, z]);
    InsertMiddle(x, y, z);
  }

  lemma OneBeforeTwo()
    ensures NumericCompare("p1.png", "p2.png") < 0
  {
    assert DecimalValue("1") == 1 && DecimalValue("2") == 2;
    assert "p" + "1" + ".png" == "p1.png" && "p" + "2" + ".png" == "p2.png";
    NumberRunsCompareByValue("p", "1", "2", ".png");
  }

  lemma TwoBeforeTen()
    ensures NumericCompare("p2.png", "p10.png") < 0
  {
    assert DecimalValue("2") == 2;
    assert "10"[..1] == "1";
    assert DecimalValue("10") == 10;
    assert "p" + "2" + ".png" == "p2.png" && "p" + "10" + ".png" == "p10.png";
    NumberRunsCompareByValue("p", "2", "10", ".png");
  }

  lemma OneBeforeTen()
    ensures NumericCompare("p1.png", "p10.png") < 0
  {
    assert DecimalValue("1") == 1;
    assert "10"[..1] == "1";
    assert DecimalValue("10") == 10;
    assert "p" + "1" + ".png" == "p1.png" && "p" + "10" + ".png" == "p10.png";
    NumberRunsCompareByValue("p", "1", "10", ".png");
  }

  /** `p2.png`, `p10.png`, `p1.png` sort to `p1.png`, `p2.png`, `p10.png`, and not to the
      character order `p1`, `p10`, `p2`. */
  lemma SortPathsExample()
    ensures SortPaths(["p2.png", "p10.png", "p1.png"]) == ["p1.png", "p2.png", "p10.png"]
  {
    OneBeforeTwo();
    TwoBeforeTen();
    OneBeforeTen();
    SortThree("p1.png", "p2.png", "p10.png");
  }
}
