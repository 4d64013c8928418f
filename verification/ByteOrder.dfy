/** The order in which keys are stored and listed (Go compares strings byte by byte, and byte order
    agrees with code-point order on UTF-8), and the pages cut out of it. */
module ByteOrder {

  /** Strict lexicographic order. */
  predicate Less(a: string, b: string) {
    b != [] && (a == [] || a[0] < b[0] || (a[0] == b[0] && Less(a[1..], b[1..])))
  }

  lemma {:induction false} FirstDifference(a: string, b: string) returns (k: nat)
    requires Less(a, b)
    ensures k <= |a| && k < |b| && a[..k] == b[..k] && (k == |a| || a[k] < b[k])
  {
    if a == [] || a[0] < b[0] {
      k := 0;
    } else {
      var i := FirstDifference(a[1..], b[1..]);
      k := i + 1;
      assert a[..k] == [a[0]] + a[1..][..i] && b[..k] == [b[0]] + b[1..][..i];
    }
  }

  lemma {:induction false} DifferenceDecides(a: string, b: string, k: nat)
    requires k <= |a| && k < |b| && a[..k] == b[..k] && (k == |a| || a[k] < b[k])
    ensures Less(a, b)
    decreases k
  {
    if k > 0 {
      assert a[0] == a[..k][0] == b[..k][0] == b[0];
      assert a[1..][..k - 1] == a[..k][1..] && b[1..][..k - 1] == b[..k][1..];
      DifferenceDecides(a[1..], b[1..], k - 1);
    }
  }

  /** The first difference decides: a smaller character, or the end of the string. */
  lemma LessIsFirstDifference(a: string, b: string)
    ensures Less(a, b)
       <==> exists k :: 0 <= k <= |a| && k < |b| && a[..k] == b[..k] && (k == |a| || a[k] < b[k])
  {
    if Less(a, b) {
      var k := FirstDifference(a, b);
    }
    if k :| 0 <= k <= |a| && k < |b| && a[..k] == b[..k] && (k == |a| || a[k] < b[k]) {
      DifferenceDecides(a, b, k);
    }
  }

  lemma {:induction false} LessTransitive(a: string, b: string, c: string)
    requires Less(a, b) && Less(b, c)
    ensures Less(a, c)
  {
    if a != [] && a[0] == b[0] && b[0] == c[0] {
      LessTransitive(a[1..], b[1..], c[1..]);
    }
  }

  lemma {:induction false} LessTotal(a: string, b: string)
    ensures Less(a, b) || a == b || Less(b, a)
    ensures !(Less(a, b) && Less(b, a))
    ensures Less(a, b) ==> a != b
  {
    if a == [] || b == [] {
    } else if a[0] == b[0] {
      LessTotal(a[1..], b[1..]);
      assert a == [a[0]] + a[1..] && b == [b[0]] + b[1..];
    }
  }

  /** A common prefix does not matter for the order. */
  lemma {:induction false} LessCommonPrefix(p: string, a: string, b: string)
    ensures Less(p + a, p + b) <==> Less(a, b)
  {
    if p == [] {
      assert p + a == a && p + b == b;
    } else {
      assert (p + a)[1..] == p[1..] + a && (p + b)[1..] == p[1..] + b;
      LessCommonPrefix(p[1..], a, b);
    }
  }

  /** Strings with a given prefix are contiguous: whatever lies between two of them has it too. */
  lemma {:induction false} PrefixIsContiguous(p: string, a: string, x: string, b: string)
    requires !Less(x, p + a) && !Less(p + b, x)
    ensures p <= x
  {
    if p != [] {
      assert (p + a)[1..] == p[1..] + a && (p + b)[1..] == p[1..] + b;
      assert x != [] && x[0] == p[0];
      PrefixIsContiguous(p[1..], a, x[1..], b);
      assert x == [x[0]] + x[1..];
    }
  }

  ghost predicate Ascending(q: seq<string>) {
    forall i, j :: 0 <= i < j < |q| ==> Less(q[i], q[j])
  }

  /** Every element of `q` comes before `x`. */
  ghost predicate AllBefore(q: seq<string>, x: string) {
    forall y :: y in q ==> Less(y, x)
  }

  ghost function Elements(q: seq<string>): set<string> {
    set x | x in q
  }

  lemma {:induction false} AscendingSize(q: seq<string>)
    requires Ascending(q)
    ensures |Elements(q)| == |q|
  {
    if q != [] {
      var n := |q| - 1;
      AscendingSize(q[..n]);
      assert q == q[..n] + [q[n]];
      assert Elements(q) == Elements(q[..n]) + {q[n]};
      if q[n] in q[..n] {
        LessTotal(q[n], q[n]);
      }
    }
  }

  /** In an ascending sequence no element occurs twice. */
  lemma {:induction false} AscendingOnce(q: seq<string>, x: string)
    requires Ascending(q)
    ensures multiset(q)[x] == if x in q then 1 else 0
  {
    if q != [] {
      var n := |q| - 1;
      AscendingOnce(q[..n], x);
      assert q == q[..n] + [q[n]];
      if x == q[n] {
        LessTotal(x, x);
        assert x !in q[..n];
      }
    }
  }

  /** Two ascending sequences with the same elements are the same sequence. */
  lemma {:induction false} AscendingUnique(q: seq<string>, r: seq<string>)
    requires Ascending(q) && Ascending(r)
    requires Elements(q) == Elements(r)
    ensures q == r
  {
    AscendingSize(q);
    AscendingSize(r);
    if q != [] {
      var n := |q| - 1;
      var x, y := q[n], r[n];
      assert x in Elements(q) && y in Elements(r);
      assert x in r && y in q;
      LessTotal(x, y);
      assert x == y;
      LessTotal(x, x);
      assert q == q[..n] + [x] && r == r[..n] + [x];
      assert x !in q[..n] && x !in r[..n];
      assert Elements(q[..n]) == Elements(q) - {x};
      assert Elements(r[..n]) == Elements(r) - {x};
      AscendingUnique(q[..n], r[..n]);
    }
  }

  lemma {:induction false} AscendingAppend(q: seq<string>, r: seq<string>)
    requires Ascending(q) && Ascending(r)
    requires q == [] || forall x :: x in r ==> Less(q[|q| - 1], x)
    ensures Ascending(q + r)
  {
    forall i, j | 0 <= i < j < |q + r|
      ensures Less((q + r)[i], (q + r)[j])
    {
      if i < |q| <= j {
        var last := q[|q| - 1];
        assert (q + r)[j] in r;
        if i < |q| - 1 {
          LessTransitive(q[i], last, (q + r)[j]);
        }
      }
    }
  }

  /** `p` holds the first elements of `s` in ascending order, at most `m` of them and all of `s` if
      there is room: what is not on the page comes after the page, and the page is full. */
  ghost predicate IsPage(p: seq<string>, s: set<string>, m: nat) {
    && Ascending(p)
    && |p| <= m
    && (forall x :: x in p ==> x in s)
    && (forall x :: x in s && x !in p ==> |p| == m && AllBefore(p, x))
  }

  ghost predicate IsLeast(x: string, s: set<string>) {
    x in s && forall y :: y in s && y != x ==> Less(x, y)
  }

  lemma {:induction false} LeastExists(s: set<string>) returns (x: string)
    requires s != {}
    ensures IsLeast(x, s)
  {
    var y :| y in s;
    if s == {y} {
      x := y;
    } else {
      assert s - {y} != {};
      var z := LeastExists(s - {y});
      LessTotal(y, z);
      if Less(y, z) {
        x := y;
        forall w | w in s && w != y ensures Less(y, w) {
          if w != z {
            LessTransitive(y, z, w);
          }
        }
      } else {
        x := z;
      }
    }
  }

  lemma {:induction false} PageExists(s: set<string>, m: nat) returns (p: seq<string>)
    ensures IsPage(p, s, m)
  {
    if m == 0 || s == {} {
      p := [];
    } else {
      var x := LeastExists(s);
      var rest := PageExists(s - {x}, m - 1);
      assert x !in rest;
      p := [x] + rest;
    }
  }

  /** The first `m` elements of `s`. */
  ghost function Page(s: set<string>, m: nat): (p: seq<string>)
    ensures IsPage(p, s, m)
  {
    assert exists p :: IsPage(p, s, m) by { var p := PageExists(s, m); }
    var p :| IsPage(p, s, m);
    p
  }

  /** All of `s` in ascending order. */
  ghost function Sorted(s: set<string>): (p: seq<string>)
    ensures Ascending(p) && Elements(p) == s
  {
    var p := Page(s, |s|);
    assert Elements(p) == s by {
      AscendingSize(p);
      if |p| == |s| {
        SameSizeSubset(Elements(p), s);
      }
    }
    p
  }

  /** A page is full unless it holds the whole set. */
  lemma PageLength(s: set<string>, m: nat)
    ensures |Page(s, m)| == if |s| < m then |s| else m
  {
    var p := Page(s, m);
    AscendingSize(p);
    Smaller(Elements(p), s);
    if |p| < m {
      assert Elements(p) == s;
    }
  }

  /** A page is the start of the ordered set. */
  lemma PageIsStart(s: set<string>, m: nat)
    ensures |Page(s, m)| <= |Sorted(s)| && Page(s, m) == Sorted(s)[..|Page(s, m)|]
  {
    var p, all := Page(s, m), Sorted(s);
    PageLength(s, m);
    AscendingSize(all);
    var q := all[..|p|];
    assert forall i :: 0 <= i < |q| ==> all[i] in q;
    forall x | x in q ensures x in s {
      assert x in Elements(all);
    }
    forall x | x in s && x !in q ensures |q| == m && AllBefore(q, x) {
      assert x in Elements(all);
      var j :| 0 <= j < |all| && all[j] == x;
      forall y | y in q ensures Less(y, x) {
        var i :| 0 <= i < |q| && q[i] == y;
        assert Less(all[i], all[j]);
      }
    }
    PageUnique(p, q, s, m);
  }

  /** A page is determined by the set and the size. */
  lemma PageUnique(p: seq<string>, q: seq<string>, s: set<string>, m: nat)
    requires IsPage(p, s, m) && IsPage(q, s, m)
    ensures p == q
  {
    PageIncluded(p, q, s, m);
    PageIncluded(q, p, s, m);
    AscendingUnique(p, q);
  }

  lemma PageIncluded(p: seq<string>, q: seq<string>, s: set<string>, m: nat)
    requires IsPage(p, s, m) && IsPage(q, s, m)
    ensures Elements(p) <= Elements(q)
  {
    if x :| x in p && x !in q {
      assert |q| == m && AllBefore(q, x);
      forall y | y in q ensures y in Elements(p) - {x} {
        LessTotal(x, y);
      }
      AscendingSize(p);
      AscendingSize(q);
      assert Elements(q) <= Elements(p) - {x};
      Smaller(Elements(q), Elements(p) - {x});
    }
  }

  lemma {:induction false} Smaller<T>(a: set<T>, b: set<T>)
    requires a <= b
    ensures |a| <= |b|
  {
    assert b == a + (b - a);
  }

  lemma SameSizeSubset<T>(a: set<T>, b: set<T>)
    requires a <= b && |a| == |b|
    ensures a == b
  {
    Smaller(b - a, b);
    assert b == a + (b - a);
  }
}
