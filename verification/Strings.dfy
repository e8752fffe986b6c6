/** Strings as sequences of characters: the order, the sort and the join/split pair the
    controllers rely on. */
module Strings {
  import Sorting

  /** Lexicographic order on strings, which is the order sort.Strings uses. */
  predicate Below(a: string, b: string) {
    b != "" && (a == "" || a[0] < b[0] || (a[0] == b[0] && Below(a[1..], b[1..])))
  }

  /** A proper prefix comes first, and otherwise the first difference decides. */
  lemma {:induction false} BelowIff(a: string, b: string)
    ensures Below(a, b) <==>
      exists i :: 0 <= i <= |a| && i < |b| && a[..i] == b[..i] && (i < |a| ==> a[i] < b[i])
  {
    if a != "" && b != "" {
      BelowIff(a[1..], b[1..]);
      if a[0] == b[0] {
        var (c, d) := (a[1..], b[1..]);
        if i :| 0 <= i <= |c| && i < |d| && c[..i] == d[..i] && (i < |c| ==> c[i] < d[i]) {
          assert a[..i + 1] == [a[0]] + a[1..][..i] && b[..i + 1] == [b[0]] + b[1..][..i];
        }
        if i :| 0 <= i <= |a| && i < |b| && a[..i] == b[..i] && (i < |a| ==> a[i] < b[i]) {
          assert i > 0 && a[1..][..i - 1] == a[..i][1..] && b[1..][..i - 1] == b[..i][1..];
        }
      } else {
        assert a[0] < b[0] ==> a[..0] == b[..0];
        assert forall i :: 0 < i <= |a| && i < |b| ==> a[..i][0] == a[0] && b[..i][0] == b[0];
      }
    } else {
      assert b != "" ==> a[..0] == b[..0];
    }
  }

  predicate AtMost(a: string, b: string) {
    a == b || Below(a, b)
  }

  lemma {:induction false} BelowTotal(a: string, b: string)
    ensures Below(a, b) || a == b || Below(b, a)
    ensures !(Below(a, b) && Below(b, a))
    ensures !Below(a, a)
  {
    if a != "" && b != "" {
      BelowTotal(a[1..], b[1..]);
      BelowTotal(a[1..], a[1..]);
      assert a[0] == b[0] && a[1..] == b[1..] ==> a == [b[0]] + b[1..] == b;
    } else if a != "" {
      BelowTotal(a[1..], a[1..]);
    }
  }

  lemma {:induction false} BelowTransitive(a: string, b: string, c: string)
    requires Below(a, b) && Below(b, c)
    ensures Below(a, c)
  {
    if a != "" && a[0] == b[0] == c[0] {
      BelowTransitive(a[1..], b[1..], c[1..]);
    }
  }

  lemma AtMostTransitive(a: string, b: string, c: string)
    requires AtMost(a, b) && AtMost(b, c)
    ensures AtMost(a, c)
  {
    if a != b && b != c {
      BelowTransitive(a, b, c);
    }
  }

  predicate Sorted(xs: seq<string>) {
    forall i, j :: 0 <= i < j < |xs| ==> AtMost(xs[i], xs[j])
  }

  predicate Distinct<T(==)>(xs: seq<T>) {
    forall i, j :: 0 <= i < j < |xs| ==> xs[i] != xs[j]
  }

  lemma AtMostOrders()
    ensures Sorting.Orders(AtMost)
  {
    forall a, b ensures AtMost(a, b) || AtMost(b, a) { BelowTotal(a, b); }
    forall a, b, c | AtMost(a, b) && AtMost(b, c) ensures AtMost(a, c) { AtMostTransitive(a, b, c); }
  }

  /** The sorted arrangement of a list, standing for sort.Strings. */
  function Sort(xs: seq<string>): (r: seq<string>)
    ensures Sorted(r) && multiset(r) == multiset(xs)
  {
    AtMostOrders();
    Sorting.SortBy(AtMost, xs)
  }

  lemma LeastFirst(xs: seq<string>, x: string)
    requires Sorted(xs) && x in xs
    ensures AtMost(xs[0], x)
  {
  }

  lemma TailMultiset<T>(xs: seq<T>)
    requires xs != []
    ensures multiset(xs[1..]) == multiset(xs) - multiset{xs[0]}
  {
    assert xs == [xs[0]] + xs[1..];
  }

  /** A list has one sorted arrangement, so the result does not depend on the order listed. */
  lemma {:induction false} SortedUnique(xs: seq<string>, ys: seq<string>)
    requires Sorted(xs) && Sorted(ys) && multiset(xs) == multiset(ys)
    ensures xs == ys
  {
    SameMembers(xs, ys);
    if xs == [] {
      assert |multiset(ys)| == 0;
    } else {
      assert xs[0] in xs;
      assert ys[0] in ys;
      LeastFirst(xs, ys[0]);
      LeastFirst(ys, xs[0]);
      BelowTotal(xs[0], ys[0]);
      TailMultiset(xs);
      TailMultiset(ys);
      SortedUnique(xs[1..], ys[1..]);
      assert xs == [xs[0]] + xs[1..] && ys == [ys[0]] + ys[1..];
    }
  }

  lemma SameMembers<T>(xs: seq<T>, ys: seq<T>)
    requires multiset(xs) == multiset(ys)
    ensures forall x :: x in xs <==> x in ys
  {
    forall x ensures x in xs <==> x in ys {
      assert x in xs <==> x in multiset(xs);
    }
  }

  /** Distinctness is a property of the multiset alone. */
  lemma DistinctMultiset<T>(xs: seq<T>)
    ensures Distinct(xs) <==> forall x :: x in multiset(xs) ==> multiset(xs)[x] == 1
  {
    if xs != [] {
      var y, rest := xs[0], xs[1..];
      assert xs == [y] + rest;
      DistinctMultiset(rest);
      assert multiset(xs) == multiset{y} + multiset(rest);
      if Distinct(xs) {
        assert y !in rest;
        assert y !in multiset(rest);
      } else if forall x :: x in multiset(xs) ==> multiset(xs)[x] == 1 {
        assert multiset(xs)[y] == 1;
        assert y !in multiset(rest);
        assert y !in rest;
        forall x | x in multiset(rest) ensures multiset(rest)[x] == 1 {
          assert multiset(xs)[x] == 1;
        }
      }
      if Distinct(rest) && y !in rest { assert Distinct(xs); }
    }
  }

  function Join(xs: seq<string>, sep: char): string {
    if xs == [] then "" else if |xs| == 1 then xs[0] else xs[0] + [sep] + Join(xs[1..], sep)
  }

  function Split(s: string, sep: char): (r: seq<string>)
    ensures r != []
  {
    if s == "" then [""]
    else
      var rest := Split(s[1..], sep);
      if s[0] == sep then [""] + rest else [[s[0]] + rest[0]] + rest[1..]
  }

  lemma {:induction false} SplitWord(x: string, sep: char)
    requires sep !in x
    ensures Split(x, sep) == [x]
  {
    if x != "" {
      assert x[0] in x && x == [x[0]] + x[1..];
      SplitWord(x[1..], sep);
    }
  }

  lemma {:induction false} SplitAfterWord(x: string, sep: char, rest: string)
    requires sep !in x
    ensures Split(x + [sep] + rest, sep) == [x] + Split(rest, sep)
  {
    var s := x + [sep] + rest;
    if x == "" {
      assert s[1..] == rest;
    } else {
      assert s[0] in x && x == [x[0]] + x[1..] && s[1..] == x[1..] + [sep] + rest;
      SplitAfterWord(x[1..], sep, rest);
    }
  }

  /** Splitting undoes joining for a non-empty list of words free of the separator. */
  lemma {:induction false} SplitJoin(xs: seq<string>, sep: char)
    requires xs != [] && forall x :: x in xs ==> sep !in x
    ensures Split(Join(xs, sep), sep) == xs
  {
    if |xs| == 1 {
      SplitWord(xs[0], sep);
    } else {
      SplitJoin(xs[1..], sep);
      SplitAfterWord(xs[0], sep, Join(xs[1..], sep));
    }
  }

  /** The pieces hold no separator, and joined with it they are the text again. */
  lemma {:induction false} SplitPieces(s: string, sep: char)
    ensures Join(Split(s, sep), sep) == s
    ensures forall i :: 0 <= i < |Split(s, sep)| ==> sep !in Split(s, sep)[i]
  {
    if s != "" {
      var rest := Split(s[1..], sep);
      SplitPieces(s[1..], sep);
      assert s == [s[0]] + s[1..];
      if s[0] == sep {
        assert Split(s, sep)[1..] == rest;
      } else {
        assert Split(s, sep)[1..] == rest[1..] && Split(s, sep)[0] == [s[0]] + rest[0];
      }
    }
  }

  lemma JoinNonEmpty(xs: seq<string>, sep: char)
    requires forall x :: x in xs ==> x != ""
    ensures Join(xs, sep) == "" <==> xs == []
  {
    assert xs != [] ==> xs[0] in xs;
  }

  // ---- Trimming ----

  function TrimLeft(p: char -> bool, s: string): string {
    if s != "" && p(s[0]) then TrimLeft(p, s[1..]) else s
  }

  function TrimRight(p: char -> bool, s: string): string {
    if s != "" && p(s[|s| - 1]) then TrimRight(p, s[..|s| - 1]) else s
  }

  function Trim(p: char -> bool, s: string): string {
    TrimRight(p, TrimLeft(p, s))
  }

  lemma {:induction false} TrimLeftTakes(p: char -> bool, s: string) returns (m: nat)
    ensures m <= |s| && TrimLeft(p, s) == s[m..] && (m < |s| ==> !p(s[m]))
    ensures forall i :: 0 <= i < m ==> p(s[i])
  {
    m := 0;
    if s != "" && p(s[0]) {
      m := TrimLeftTakes(p, s[1..]);
      assert forall i :: 0 < i < m + 1 ==> s[i] == s[1..][i - 1];
      m := m + 1;
    }
  }

  lemma {:induction false} TrimRightTakes(p: char -> bool, s: string) returns (n: nat)
    ensures n <= |s| && TrimRight(p, s) == s[..n] && (n > 0 ==> !p(s[n - 1]))
    ensures forall i :: n <= i < |s| ==> p(s[i])
  {
    n := |s|;
    if s != "" && p(s[|s| - 1]) {
      n := TrimRightTakes(p, s[..|s| - 1]);
    }
  }

  /** Both ends are rid of such characters, and of nothing else. */
  lemma TrimTakes(p: char -> bool, s: string) returns (m: nat, n: nat)
    ensures m <= n <= |s| && Trim(p, s) == s[m..n] && (m < n ==> !p(s[m]) && !p(s[n - 1]))
    ensures forall i :: 0 <= i < m || n <= i < |s| ==> p(s[i])
  {
    m := TrimLeftTakes(p, s);
    var k := TrimRightTakes(p, s[m..]);
    n := m + k;
    assert forall i :: n <= i < |s| ==> s[i] == s[m..][i - m];
  }

  lemma TrimStays(p: char -> bool, s: string)
    requires s != "" ==> !p(s[0]) && !p(s[|s| - 1])
    ensures Trim(p, s) == s
  {
  }

  // ---- Decimal numerals ----

  predicate IsDigit(c: char) {
    '0' <= c <= '9'
  }

  function Digit(n: nat): (c: char)
    requires n < 10
    ensures IsDigit(c)
  {
    '0' + n as char
  }

  function Itoa(n: nat): (s: string)
    ensures s != "" && forall i :: 0 <= i < |s| ==> IsDigit(s[i])
  {
    if n < 10 then [Digit(n)] else Itoa(n / 10) + [Digit(n % 10)]
  }

  lemma {:induction false} ItoaInjective(m: nat, n: nat)
    requires Itoa(m) == Itoa(n)
    ensures m == n
  {
    var s, t := Itoa(m), Itoa(n);
    assert s[|s| - 1] == Digit(m % 10) && t[|t| - 1] == Digit(n % 10);
    assert m % 10 == n % 10;
    if m >= 10 && n >= 10 {
      assert Itoa(m / 10) == s[..|s| - 1] && Itoa(n / 10) == t[..|t| - 1];
      ItoaInjective(m / 10, n / 10);
    }
  }

  /** The number a decimal numeral stands for. */
  function Atoi(s: string): nat
    requires forall i :: 0 <= i < |s| ==> IsDigit(s[i])
  {
    if s == "" then 0
    else
      assert IsDigit(s[|s| - 1]);
      10 * Atoi(s[..|s| - 1]) + (s[|s| - 1] - '0') as nat
  }

  /** Reading undoes writing, and what is written has no needless zero in front. */
  lemma {:induction false} AtoiItoa(n: nat)
    ensures Atoi(Itoa(n)) == n && (|Itoa(n)| > 1 ==> Itoa(n)[0] != '0')
  {
    if n >= 10 {
      AtoiItoa(n / 10);
      assert Itoa(n)[..|Itoa(n)| - 1] == Itoa(n / 10);
      assert n / 10 < 10 ==> Itoa(n / 10)[0] == Digit(n / 10);
    } else {
      assert Itoa(n)[..0] == "";
    }
  }
}
