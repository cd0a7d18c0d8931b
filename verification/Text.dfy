/** Python's order on text: code point by code point, a proper prefix coming first. */
module Text {
  predicate Less(a: string, b: string) {
    if b == [] then
      false
    else if a == [] then
      true
    else
      a[0] < b[0] || (a[0] == b[0] && Less(a[1..], b[1..]))
  }

  predicate AtMost(a: string, b: string) {
    a == b || Less(a, b)
  }

  lemma {:induction false} LessIrreflexive(a: string)
    ensures !Less(a, a)
  {
    if a != [] {
      LessIrreflexive(a[1..]);
    }
  }

  lemma {:induction false} LessTransitive(a: string, b: string, c: string)
    requires Less(a, b) && Less(b, c)
    ensures Less(a, c)
  {
    if a != [] && a[0] == b[0] == c[0] {
      LessTransitive(a[1..], b[1..], c[1..]);
    }
  }

  lemma {:induction false} LessTotal(a: string, b: string)
    ensures Less(a, b) || a == b || Less(b, a)
  {
    if a != [] && b != [] && a[0] == b[0] {
      LessTotal(a[1..], b[1..]);
      assert a == [a[0]] + a[1..];
      assert b == [b[0]] + b[1..];
    }
  }

  lemma LessAsymmetric(a: string, b: string)
    requires Less(a, b)
    ensures !Less(b, a)
  {
    LessIrreflexive(a);
    if Less(b, a) {
      LessTransitive(a, b, a);
    }
  }

  /** Texts with a common-length head compare by the heads, and by the tails when the heads agree. */
  lemma {:induction false} LessOfConcat(a: string, b: string, c: string, d: string)
    requires |a| == |c|
    ensures Less(a + b, c + d) <==> Less(a, c) || (a == c && Less(b, d))
  {
    if a == [] {
      assert a + b == b;
      assert c + d == d;
    } else {
      assert (a + b)[1..] == a[1..] + b;
      assert (c + d)[1..] == c[1..] + d;
      assert a == [a[0]] + a[1..];
      assert c == [c[0]] + c[1..];
      LessOfConcat(a[1..], b, c[1..], d);
    }
  }

  /** The texts agree up to `k`, where the first one ends or has the smaller character. */
  predicate DiffersAt(a: string, b: string, k: int) {
    && 0 <= k <= |a| && k < |b| && a[..k] == b[..k]
    && (k == |a| || a[k] < b[k])
  }

  /** A text is less exactly when it is a proper beginning, or has the smaller character at the first difference. */
  lemma {:induction false} LessMeans(a: string, b: string)
    ensures Less(a, b) <==> exists k :: DiffersAt(a, b, k)
  {
    if b != [] {
      if a == [] || a[0] < b[0] {
        assert DiffersAt(a, b, 0);
      } else {
        LessMeans(a[1..], b[1..]);
        if a[0] == b[0] && Less(a[1..], b[1..]) {
          var k :| DiffersAt(a[1..], b[1..], k);
          assert a[..k + 1] == [a[0]] + a[1..][..k] && b[..k + 1] == [b[0]] + b[1..][..k];
          assert DiffersAt(a, b, k + 1);
        }
        if k :| DiffersAt(a, b, k) {
          assert a[..k][0] == a[0] && b[..k][0] == b[0];
          assert a[1..][..k - 1] == a[..k][1..] && b[1..][..k - 1] == b[..k][1..];
          assert DiffersAt(a[1..], b[1..], k - 1);
        }
      }
    }
  }

  // ----- decimal numbers

  predicate IsDecimal(s: string) {
    forall i | 0 <= i < |s| :: '0' <= s[i] <= '9'
  }

  /** The number that decimal digits stand for. */
  function Number(s: string): int
    requires IsDecimal(s)
  {
    if s == "" then 0 else 10 * Number(s[..|s| - 1]) + (s[|s| - 1] as int - '0' as int)
  }

  /** What `sorted` yields on distinct texts. */
  ghost predicate StrictlyAscending(s: seq<string>) {
    forall i, j | 0 <= i < j < |s| :: Less(s[i], s[j])
  }

  ghost predicate Ascending(s: seq<string>) {
    forall i, j | 0 <= i < j < |s| :: AtMost(s[i], s[j])
  }

  predicate IsLeast(m: string, s: set<string>) {
    m in s && forall x | x in s :: AtMost(m, x)
  }

  lemma {:induction false} LeastExists(s: set<string>)
    requires s != {}
    ensures exists m :: IsLeast(m, s)
  {
    var x :| x in s;
    if s == {x} {
      assert IsLeast(x, s);
    } else {
      var r := s - {x};
      assert s == r + {x};
      LeastExists(r);
      var n :| IsLeast(n, r);
      LessTotal(n, x);
      var m := if Less(x, n) then x else n;
      forall y | y in s ensures AtMost(m, y) {
        if y != x && Less(x, n) && Less(n, y) {
          LessTransitive(x, n, y);
        }
      }
      assert IsLeast(m, s);
    }
  }

  lemma LeastIsUnique(s: set<string>)
    ensures forall m, n | IsLeast(m, s) && IsLeast(n, s) :: m == n
  {
    forall m, n | IsLeast(m, s) && IsLeast(n, s) ensures m == n {
      if m != n {
        LessAsymmetric(m, n);
      }
    }
  }

  function Least(s: set<string>): (m: string)
    requires s != {}
    ensures IsLeast(m, s)
  {
    LeastExists(s);
    LeastIsUnique(s);
    var m :| m in s && IsLeast(m, s);
    m
  }

  /** `sorted` applied to a set of texts. */
  function SortedSet(s: set<string>): (r: seq<string>)
    ensures StrictlyAscending(r)
    ensures forall x :: x in r <==> x in s
  {
    if s == {} then
      []
    else
      var rest := SortedSet(s - {Least(s)});
      assert forall x | x in rest :: Less(Least(s), x);
      [Least(s)] + rest
  }

  lemma {:induction false} SortedSetLength(s: set<string>)
    ensures |SortedSet(s)| == |s|
  {
    if s != {} {
      SortedSetLength(s - {Least(s)});
    }
  }

  /** A strictly ascending sequence is determined by its members. */
  lemma {:induction false} AscendingUnique(r: seq<string>, q: seq<string>)
    requires StrictlyAscending(r) && StrictlyAscending(q)
    requires forall x :: x in r <==> x in q
    ensures r == q
  {
    if r == [] {
      assert forall i | 0 <= i < |q| :: q[i] in r;
    } else {
      assert r[0] in q && r[0] in r;
      assert q != [];
      assert q[0] in r;
      if r[0] != q[0] {
        assert Less(q[0], r[0]);
        assert Less(r[0], q[0]);
        LessAsymmetric(q[0], r[0]);
      }
      LessIrreflexive(r[0]);
      var r', q' := r[1..], q[1..];
      forall x ensures x in r' <==> x in q' {
        if x in r' { assert x in r; assert x != r[0]; assert x in q; }
        if x in q' { assert x in q; assert x != q[0]; assert x in r; }
      }
      AscendingUnique(r', q');
      assert r == [r[0]] + r';
      assert q == [q[0]] + q';
    }
  }

  lemma ConsAscending(x: string, s: seq<string>)
    requires Ascending(s)
    requires forall y | y in multiset(s) :: AtMost(x, y)
    ensures Ascending([x] + s)
  {
    assert forall i | 0 <= i < |s| :: s[i] in multiset(s);
  }

  lemma HeadBelow(x: string, s: seq<string>)
    requires s != [] && Ascending(s) && AtMost(x, s[0])
    ensures forall y | y in multiset(s) :: AtMost(x, y)
  {
    forall y | y in s ensures AtMost(x, y) {
      if x != s[0] && y != s[0] && y != x {
        LessTransitive(x, s[0], y);
      }
    }
  }

  /** `sorted` applied to a list of texts: insertion keeps repetitions. */
  function Insert(x: string, s: seq<string>): (r: seq<string>)
    requires Ascending(s)
    ensures Ascending(r)
    ensures multiset(r) == multiset(s) + multiset{x}
  {
    if s == [] then
      [x]
    else if AtMost(x, s[0]) then
      HeadBelow(x, s);
      ConsAscending(x, s);
      [x] + s
    else
      var rest := Insert(x, s[1..]);
      assert s == [s[0]] + s[1..];
      LessTotal(x, s[0]);
      HeadBelow(s[0], s);
      ConsAscending(s[0], rest);
      [s[0]] + rest
  }

  function Sorted(s: seq<string>): (r: seq<string>)
    ensures Ascending(r)
    ensures multiset(r) == multiset(s)
  {
    if s == [] then
      []
    else
      assert s == [s[0]] + s[1..];
      Insert(s[0], Sorted(s[1..]))
  }
}
