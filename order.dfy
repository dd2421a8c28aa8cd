/** The order in which a std::map<std::string, T> walks its keys: lexicographic
    comparison of characters, a proper prefix sorting before the longer string. */
module StringOrder {

  /** a < b as std::string's operator< decides it. */
  predicate Below(a: string, b: string)
    decreases |a|
  {
    if |a| == 0 then |b| > 0
    else |b| > 0 && (a[0] < b[0] || (a[0] == b[0] && Below(a[1..], b[1..])))
  }

  lemma {:induction false} BelowIrreflexive(a: string)
    ensures !Below(a, a)
    decreases |a|
  {
    if |a| > 0 { BelowIrreflexive(a[1..]); }
  }

  lemma {:induction false} BelowTransitive(a: string, b: string, c: string)
    requires Below(a, b) && Below(b, c)
    ensures Below(a, c)
    decreases |a|
  {
    if |a| > 0 && a[0] == b[0] && b[0] == c[0] {
      BelowTransitive(a[1..], b[1..], c[1..]);
    }
  }

  lemma {:induction false} BelowTotal(a: string, b: string)
    requires a != b
    ensures Below(a, b) || Below(b, a)
    decreases |a|
  {
    if |a| > 0 && |b| > 0 && a[0] == b[0] {
      assert a == [a[0]] + a[1..] && b == [b[0]] + b[1..];
      BelowTotal(a[1..], b[1..]);
    }
  }

  lemma BelowAsymmetric(a: string, b: string)
    requires Below(a, b)
    ensures !Below(b, a)
  {
    if Below(b, a) {
      BelowTransitive(a, b, a);
      BelowIrreflexive(a);
    }
  }

  /** k is the first key of s in map order. */
  predicate IsLeast(k: string, s: set<string>)
  {
    k in s && forall j :: j in s && j != k ==> Below(k, j)
  }

  lemma {:induction false} LeastExists(s: set<string>)
    requires s != {}
    ensures exists k :: IsLeast(k, s)
    decreases |s|
  {
    var x :| x in s;
    if s != {x} {
      var rest := s - {x};
      LeastExists(rest);
      var m :| IsLeast(m, rest);
      if Below(x, m) {
        forall j | j in s && j != x ensures Below(x, j) {
          if j != m { BelowTransitive(x, m, j); }
        }
        assert IsLeast(x, s);
      } else {
        BelowTotal(x, m);
        assert IsLeast(m, s);
      }
    } else {
      assert IsLeast(x, s);
    }
  }

  lemma LeastUnique(k1: string, k2: string, s: set<string>)
    requires IsLeast(k1, s) && IsLeast(k2, s)
    ensures k1 == k2
  {
    if k1 != k2 {
      BelowAsymmetric(k1, k2);
    }
  }

  ghost function Least(s: set<string>): (k: string)
    requires s != {}
    ensures IsLeast(k, s)
  {
    LeastExists(s);
    var k :| IsLeast(k, s); k
  }

  /** The keys of s in the order std::map iterates them. */
  ghost function Ordered(s: set<string>): (r: seq<string>)
    decreases |s|
  {
    if s == {} then [] else var k := Least(s); [k] + Ordered(s - {k})
  }

  /** No name occurs twice in r. */
  predicate Distinct(r: seq<string>)
  {
    forall i, j :: 0 <= i < j < |r| ==> r[i] != r[j]
  }

  /** Each name comes strictly before the next one in map order. */
  predicate Increasing(r: seq<string>)
  {
    forall i :: 0 <= i < |r| - 1 ==> Below(r[i], r[i + 1])
  }

  /** The iteration visits every key exactly once, in increasing order. */
  lemma {:induction false} OrderedEnumerates(s: set<string>)
    ensures |Ordered(s)| == |s|
    ensures forall x :: x in Ordered(s) <==> x in s
    ensures Distinct(Ordered(s))
    ensures Increasing(Ordered(s))
    decreases |s|
  {
    if s != {} {
      var k := Least(s);
      var rest := Ordered(s - {k});
      OrderedEnumerates(s - {k});
      assert Ordered(s) == [k] + rest;
      if |rest| > 0 {
        assert rest[0] in s - {k};
        assert Below(k, rest[0]);
      }
    }
  }

  /** An increasing sequence orders any two of its names. */
  lemma {:induction false} IncreasingBelow(r: seq<string>, i: nat, j: nat)
    requires Increasing(r) && i < j < |r|
    ensures Below(r[i], r[j])
    decreases j - i
  {
    if i + 1 < j {
      IncreasingBelow(r, i + 1, j);
      BelowTransitive(r[i], r[i + 1], r[j]);
    }
  }

  /** The first key of the iteration that lies in a subset t is the least
      key of t: the first one found is the first one in map order. */
  lemma FirstInOrderIsLeast(s: set<string>, t: set<string>, i: nat)
    requires t <= s && i < |Ordered(s)| && Ordered(s)[i] in t
    requires forall j :: 0 <= j < i ==> Ordered(s)[j] !in t
    ensures IsLeast(Ordered(s)[i], t)
  {
    OrderedEnumerates(s);
    var r := Ordered(s);
    forall x | x in t && x != r[i] ensures Below(r[i], x) {
      var j :| 0 <= j < |r| && r[j] == x;
      IncreasingBelow(r, i, j);
    }
  }
}
