/**
 * The default ordering of `Array.prototype.sort` on strings: lexicographic
 * comparison of UTF-16 code units (ECMAScript IsLessThan on strings), and a
 * sort by it. A sort has a unique result under a total order, so insertion
 * sort stands for whatever algorithm the JavaScript engine runs.
 */
module Order {

  // ---------------------------------------------------------------------
  // UTF-16 code units
  // ---------------------------------------------------------------------

  predicate IsHighSurrogate(u: int)
  {
    0xD800 <= u <= 0xDBFF
  }

  /** The UTF-16 encoding of one scalar value: one unit below U+10000, else a surrogate pair. */
  function CharUnits(c: char): (u: seq<int>)
    ensures |u| == 1 || |u| == 2
    ensures |u| == 2 <==> IsHighSurrogate(u[0])
  {
    var v := c as int;
    if v < 0x10000 then [v] else [0xD800 + (v - 0x10000) / 0x400, 0xDC00 + (v - 0x10000) % 0x400]
  }

  function CodeUnits(s: string): seq<int>
  {
    if s == [] then [] else CharUnits(s[0]) + CodeUnits(s[1..])
  }

  /** Distinct chars have encodings of which neither is a prefix of the other. */
  lemma CharUnitsPrefixFree(x: char, y: char, r1: seq<int>, r2: seq<int>)
    requires CharUnits(x) + r1 == CharUnits(y) + r2
    ensures x == y && r1 == r2
  {
    var u, w := CharUnits(x), CharUnits(y);
    assert u[0] == (u + r1)[0] == (w + r2)[0] == w[0];
    assert |u| == |w|;
    if |u| == 2 {
      assert u[1] == (u + r1)[1] == (w + r2)[1] == w[1];
      var v, z := x as int, y as int;
      assert (v - 0x10000) / 0x400 == (z - 0x10000) / 0x400;
      assert (v - 0x10000) % 0x400 == (z - 0x10000) % 0x400;
      assert v == z;
    }
    assert r1 == (u + r1)[|u|..] == (w + r2)[|w|..] == r2;
  }

  /** Different strings have different code-unit sequences. */
  lemma {:induction false} CodeUnitsInjective(a: string, b: string)
    requires CodeUnits(a) == CodeUnits(b)
    ensures a == b
  {
    if a != [] && b != [] {
      CharUnitsPrefixFree(a[0], b[0], CodeUnits(a[1..]), CodeUnits(b[1..]));
      CodeUnitsInjective(a[1..], b[1..]);
      assert a == [a[0]] + a[1..] && b == [b[0]] + b[1..];
    }
  }

  // ---------------------------------------------------------------------
  // Lexicographic order on code units
  // ---------------------------------------------------------------------

  /** a sorts no later than b: a is a prefix of b, or the first differing unit of a is smaller. */
  predicate UnitsLessEq(a: seq<int>, b: seq<int>)
    decreases |a|
  {
    a == [] || (b != [] && (a[0] < b[0] || (a[0] == b[0] && UnitsLessEq(a[1..], b[1..]))))
  }

  lemma {:induction false} UnitsReflexive(a: seq<int>)
    ensures UnitsLessEq(a, a)
  {
    if a != [] { UnitsReflexive(a[1..]); }
  }

  lemma {:induction false} UnitsTotal(a: seq<int>, b: seq<int>)
    ensures UnitsLessEq(a, b) || UnitsLessEq(b, a)
  {
    if a != [] && b != [] && a[0] == b[0] { UnitsTotal(a[1..], b[1..]); }
  }

  lemma {:induction false} UnitsTransitive(a: seq<int>, b: seq<int>, c: seq<int>)
    requires UnitsLessEq(a, b) && UnitsLessEq(b, c)
    ensures UnitsLessEq(a, c)
  {
    if a != [] && b != [] && c != [] && a[0] == b[0] == c[0] {
      UnitsTransitive(a[1..], b[1..], c[1..]);
    }
  }

  lemma {:induction false} UnitsAntisymmetric(a: seq<int>, b: seq<int>)
    requires UnitsLessEq(a, b) && UnitsLessEq(b, a)
    ensures a == b
  {
    if a != [] && b != [] {
      UnitsAntisymmetric(a[1..], b[1..]);
      assert a == [a[0]] + a[1..] && b == [b[0]] + b[1..];
    }
  }

  // ---------------------------------------------------------------------
  // The string order
  // ---------------------------------------------------------------------

  /** Default JavaScript string comparison: a sorts no later than b. */
  predicate LessEq(a: string, b: string)
    ensures a == b ==> LessEq(a, b)
    ensures a == [] ==> LessEq(a, b)
  {
    UnitsReflexive(CodeUnits(a));
    UnitsLessEq(CodeUnits(a), CodeUnits(b))
  }

  /** The default string ordering is a total order. */
  lemma LessEqTotalOrder(a: string, b: string, c: string)
    ensures LessEq(a, a)
    ensures LessEq(a, b) || LessEq(b, a)
    ensures LessEq(a, b) && LessEq(b, c) ==> LessEq(a, c)
    ensures LessEq(a, b) && LessEq(b, a) ==> a == b
  {
    UnitsReflexive(CodeUnits(a));
    UnitsTotal(CodeUnits(a), CodeUnits(b));
    if LessEq(a, b) && LessEq(b, c) { UnitsTransitive(CodeUnits(a), CodeUnits(b), CodeUnits(c)); }
    if LessEq(a, b) && LessEq(b, a) {
      UnitsAntisymmetric(CodeUnits(a), CodeUnits(b));
      CodeUnitsInjective(a, b);
    }
  }

  // ---------------------------------------------------------------------
  // Sorting
  // ---------------------------------------------------------------------

  predicate Sorted(s: seq<string>)
  {
    forall i, j :: 0 <= i < j < |s| ==> LessEq(s[i], s[j])
  }

  /** Insertion of x before the first element it sorts no later than: one more copy of x. */
  function Insert(x: string, s: seq<string>): (r: seq<string>)
    ensures |r| == |s| + 1
    ensures multiset(r) == multiset(s) + multiset{x}
  {
    if s == [] || LessEq(x, s[0]) then [x] + s
    else
      assert s == [s[0]] + s[1..];
      [s[0]] + Insert(x, s[1..])
  }

  /** A head that sorts no later than every element of a sorted tail keeps it sorted. */
  lemma SortedCons(h: string, t: seq<string>)
    requires Sorted(t)
    requires forall j :: 0 <= j < |t| ==> LessEq(h, t[j])
    ensures Sorted([h] + t)
  {
    forall i, j | 0 <= i < j < |[h] + t| ensures LessEq(([h] + t)[i], ([h] + t)[j]) {
      assert ([h] + t)[j] == t[j - 1];
      if i > 0 { assert ([h] + t)[i] == t[i - 1]; }
    }
  }

  lemma {:induction false} InsertSorted(x: string, s: seq<string>)
    requires Sorted(s)
    ensures Sorted(Insert(x, s))
    ensures multiset(Insert(x, s)) == multiset(s) + multiset{x}
  {
    if s == [] {
    } else if LessEq(x, s[0]) {
      forall j | 0 <= j < |s| ensures LessEq(x, s[j]) {
        LessEqTotalOrder(x, s[0], s[j]);
      }
      SortedCons(x, s);
    } else {
      var h, tail := s[0], s[1..];
      assert s == [h] + tail;
      assert Sorted(tail);
      var t := Insert(x, tail);
      InsertSorted(x, tail);
      LessEqTotalOrder(x, h, x);
      forall j | 0 <= j < |t| ensures LessEq(h, t[j]) {
        assert t[j] in multiset(t);
        if t[j] != x {
          assert t[j] in multiset(tail);
          var k :| 0 <= k < |tail| && tail[k] == t[j];
          assert s[k + 1] == t[j];
        }
      }
      SortedCons(h, t);
    }
  }

  /** `Array.prototype.sort()` with the default comparison: a sorted permutation. */
  function Sort(s: seq<string>): (r: seq<string>)
    ensures Sorted(r)
    ensures multiset(r) == multiset(s)
  {
    if s == [] then []
    else
      InsertSorted(s[0], Sort(s[1..]));
      assert s == [s[0]] + s[1..];
      Insert(s[0], Sort(s[1..]))
  }

  /** The head of a sorted sequence sorts no later than any of its elements. */
  lemma HeadIsLeast(a: seq<string>, y: string)
    requires Sorted(a) && y in multiset(a)
    ensures LessEq(a[0], y)
  {
    var k :| 0 <= k < |a| && a[k] == y;
    if k == 0 { LessEqTotalOrder(y, y, y); }
  }

  /** Two sorted permutations of the same strings start with the same string. */
  lemma SameHead(a: seq<string>, b: seq<string>)
    requires Sorted(a) && Sorted(b) && multiset(a) == multiset(b) && a != []
    ensures b != [] && a[0] == b[0]
  {
    assert a[0] in multiset(b);
    HeadIsLeast(a, b[0]);
    HeadIsLeast(b, a[0]);
    LessEqTotalOrder(a[0], b[0], a[0]);
  }

  /** The multiset of a tail: one occurrence of the head fewer. */
  lemma TailMultiset(a: seq<string>)
    requires a != []
    ensures multiset(a[1..]) == multiset(a) - multiset{a[0]}
  {
    assert a == [a[0]] + a[1..];
  }

  /** Any two sorted permutations of the same strings are equal, so every correct sort agrees with Sort. */
  lemma {:induction false} SortedUnique(a: seq<string>, b: seq<string>)
    requires Sorted(a) && Sorted(b) && multiset(a) == multiset(b)
    ensures a == b
  {
    if a != [] {
      SameHead(a, b);
      TailMultiset(a);
      TailMultiset(b);
      assert Sorted(a[1..]) && Sorted(b[1..]);
      SortedUnique(a[1..], b[1..]);
      assert a == [a[0]] + a[1..] && b == [b[0]] + b[1..];
    }
  }

  predicate Distinct(s: seq<string>)
  {
    forall i, j :: 0 <= i < j < |s| ==> s[i] != s[j]
  }

  /** Dropping the head of a distinct sequence leaves a distinct tail without it. */
  lemma DistinctTail(s: seq<string>)
    requires Distinct(s) && s != []
    ensures Distinct(s[1..]) && s[0] !in s[1..]
  {
    forall i, j | 0 <= i < j < |s[1..]| ensures s[1..][i] != s[1..][j] {
      assert s[1..][i] == s[i + 1] && s[1..][j] == s[j + 1];
    }
    forall k | 0 <= k < |s[1..]| ensures s[1..][k] != s[0] { assert s[1..][k] == s[k + 1]; }
  }

  /** A new head keeps a distinct sequence distinct. */
  lemma DistinctCons(h: string, t: seq<string>)
    requires Distinct(t) && h !in t
    ensures Distinct([h] + t)
  {
    forall i, j | 0 <= i < j < |[h] + t| ensures ([h] + t)[i] != ([h] + t)[j] {
      assert ([h] + t)[j] == t[j - 1];
      if i > 0 { assert ([h] + t)[i] == t[i - 1]; }
    }
  }

  lemma {:induction false} InsertDistinct(x: string, s: seq<string>)
    requires Sorted(s) && Distinct(s) && x !in s
    ensures Distinct(Insert(x, s))
  {
    if s == [] || LessEq(x, s[0]) {
      DistinctCons(x, s);
    } else {
      var h, tail := s[0], s[1..];
      assert s == [h] + tail;
      assert Sorted(tail);
      DistinctTail(s);
      InsertSorted(x, tail);
      InsertDistinct(x, tail);
      var t := Insert(x, tail);
      assert h !in t by {
        assert h != x by { assert h == s[0]; }
        assert h !in tail;
        assert h !in multiset(tail) + multiset{x};
        assert h !in multiset(t);
      }
      DistinctCons(h, t);
    }
  }

  /** Sorting distinct strings yields distinct strings. */
  lemma {:induction false} SortDistinct(s: seq<string>)
    requires Distinct(s)
    ensures Distinct(Sort(s))
  {
    if s != [] {
      var tail := s[1..];
      DistinctTail(s);
      SortDistinct(tail);
      assert s[0] !in Sort(tail) by {
        assert s[0] !in multiset(tail);
      }
      InsertDistinct(s[0], Sort(tail));
    }
  }

  /** Sorted and distinct: strictly ascending. */
  lemma StrictlyAscending(s: seq<string>, i: int, j: int)
    requires Sorted(s) && Distinct(s) && 0 <= i < j < |s|
    ensures LessEq(s[i], s[j]) && !LessEq(s[j], s[i])
  {
    LessEqTotalOrder(s[i], s[j], s[i]);
  }

  /** Sorting is insensitive to the order of its input. */
  lemma SortDependsOnlyOnContents(s: seq<string>, t: seq<string>)
    requires multiset(s) == multiset(t)
    ensures Sort(s) == Sort(t)
  {
    SortedUnique(Sort(s), Sort(t));
  }
}
