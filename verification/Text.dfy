/** ASCII case folding, the byte order of Go strings, and sorting by it. */
module Text {
  import opened Lists

  function LowerChar(c: char): char {
    if 'A' <= c <= 'Z' then (c as int + 32) as char else c
  }

  /** strings.ToLower on ASCII. */
  function ToLower(s: string): string {
    seq(|s|, i requires 0 <= i < |s| => LowerChar(s[i]))
  }

  // ----- What case folding is -----

  /** `c` is the i-th letter of the alphabet, as a capital or a small letter. */
  ghost predicate Letter(c: char, i: nat) {
    i < 26 && (c as int == 65 + i || c as int == 97 + i)
  }

  /** The same character, or the same letter of the alphabet. */
  ghost predicate SameLetter(c: char, d: char) {
    c == d || exists i: nat :: Letter(c, i) && Letter(d, i)
  }

  ghost predicate SameUpToCase(a: string, b: string) {
    |a| == |b| && forall i :: 0 <= i < |a| ==> SameLetter(a[i], b[i])
  }

  ghost predicate Capital(c: char) {
    65 <= c as int < 91
  }

  ghost predicate NoCapitals(s: string) {
    forall i :: 0 <= i < |s| ==> !Capital(s[i])
  }

  lemma LetterIff(c: char, d: char)
    ensures LowerChar(c) == LowerChar(d) <==> SameLetter(c, d)
    ensures !Capital(LowerChar(c)) && SameLetter(c, LowerChar(c))
    ensures !Capital(c) ==> LowerChar(c) == c
  {
    if Capital(c) {
      assert Letter(c, c as int - 65) && Letter(LowerChar(c), c as int - 65);
    }
    if Capital(d) {
      assert Letter(d, d as int - 65) && Letter(LowerChar(d), d as int - 65);
    }
  }

  /** Two strings fold to the same exactly when they agree letter by letter up to case. */
  lemma FoldIff(a: string, b: string)
    ensures ToLower(a) == ToLower(b) <==> SameUpToCase(a, b)
  {
    forall i | 0 <= i < |a| && i < |b| ensures LowerChar(a[i]) == LowerChar(b[i]) <==> SameLetter(a[i], b[i]) {
      LetterIff(a[i], b[i]);
    }
    if ToLower(a) == ToLower(b) {
      assert |ToLower(a)| == |a| && |ToLower(b)| == |b|;
      forall i | 0 <= i < |a| ensures SameLetter(a[i], b[i]) {
        assert ToLower(a)[i] == ToLower(b)[i];
      }
    }
  }

  /** And what they fold to is the spelling without capitals. */
  lemma FoldIsSmall(s: string)
    ensures NoCapitals(ToLower(s)) && SameUpToCase(s, ToLower(s))
    ensures NoCapitals(s) ==> ToLower(s) == s
  {
    forall i | 0 <= i < |s|
      ensures !Capital(ToLower(s)[i]) && SameLetter(s[i], ToLower(s)[i])
      ensures !Capital(s[i]) ==> ToLower(s)[i] == s[i]
    {
      LetterIff(s[i], s[i]);
    }
  }

  // ----- The order of strings -----

  /** The strict order sort.Strings uses. */
  predicate Lt(a: string, b: string) {
    b != [] && (a == [] || a[0] < b[0] || (a[0] == b[0] && Lt(a[1..], b[1..])))
  }

  /** `a` and `b` agree before `k`, where `a` ends or has the smaller character. */
  ghost predicate LessAt(a: string, b: string, k: nat) {
    k <= |a| && k < |b| && a[..k] == b[..k] && (k < |a| ==> a[k] as int < b[k] as int)
  }

  /** Dictionary order: at the first difference the smaller character, or the end, comes first. */
  lemma {:induction false} LtIff(a: string, b: string)
    ensures Lt(a, b) <==> exists k: nat :: LessAt(a, b, k)
  {
    if b == [] || a == [] || a[0] != b[0] {
      if b != [] && (a == [] || a[0] < b[0]) { assert LessAt(a, b, 0); }
      forall k: nat | 0 < k <= |a| && k < |b| ensures a[..k][0] == a[0] && b[..k][0] == b[0] {}
    } else {
      LtIff(a[1..], b[1..]);
      if k: nat :| LessAt(a[1..], b[1..], k) {
        assert a[..k + 1] == [a[0]] + a[1..][..k] && b[..k + 1] == [b[0]] + b[1..][..k];
        assert LessAt(a, b, k + 1);
      }
      if k: nat :| LessAt(a, b, k) {
        assert k > 0;
        assert a[1..][..k - 1] == a[..k][1..] && b[1..][..k - 1] == b[..k][1..];
        assert LessAt(a[1..], b[1..], k - 1);
      }
    }
  }

  lemma LtIrreflexive(a: string)
    ensures !Lt(a, a)
  {}

  lemma {:induction false} LtTransitive(a: string, b: string, c: string)
    requires Lt(a, b) && Lt(b, c)
    ensures Lt(a, c)
  {
    if a == [] || a[0] < c[0] {
    } else {
      LtTransitive(a[1..], b[1..], c[1..]);
    }
  }

  lemma {:induction false} LtTotal(a: string, b: string)
    ensures a == b || Lt(a, b) || Lt(b, a)
  {
    if a == [] || b == [] || a[0] != b[0] {
    } else {
      LtTotal(a[1..], b[1..]);
      assert a == [a[0]] + a[1..] && b == [b[0]] + b[1..];
    }
  }

  ghost predicate Ascending(q: seq<string>) {
    forall i, j :: 0 <= i < j < |q| ==> Lt(q[i], q[j])
  }

  ghost predicate IsLeast(m: string, s: set<string>) {
    m in s && forall x :: x in s && x != m ==> Lt(m, x)
  }

  lemma {:induction false} LeastExists(s: set<string>)
    requires s != {}
    ensures exists m :: IsLeast(m, s)
  {
    var x :| x in s;
    if s == {x} {
      assert IsLeast(x, s);
    } else {
      var rest := s - {x};
      LeastExists(rest);
      var m :| IsLeast(m, rest);
      LtTotal(x, m);
      if Lt(m, x) {
        assert IsLeast(m, s);
      } else {
        forall y | y in s && y != x ensures Lt(x, y) {
          if y != m { LtTransitive(x, m, y); }
        }
        assert IsLeast(x, s);
      }
    }
  }

  lemma {:induction false} ListingExists(s: set<string>)
    ensures exists q :: Ascending(q) && Elems(q) == s
  {
    if s == {} {
      assert Ascending([]) && Elems<string>([]) == {};
    } else {
      LeastExists(s);
      var m :| IsLeast(m, s);
      ListingExists(s - {m});
      var rest :| Ascending(rest) && Elems(rest) == s - {m};
      assert forall x :: x in rest ==> x in Elems(rest);
      assert Ascending([m] + rest);
      assert Elems([m] + rest) == {m} + Elems(rest);
    }
  }

  /** The canonical listing of a set of strings; `AscendingUnique` says there is only one. */
  ghost function Sorted(s: set<string>): (q: seq<string>)
    ensures Ascending(q) && Elems(q) == s
  {
    ListingExists(s);
    var q :| Ascending(q) && Elems(q) == s;
    q
  }

  lemma SortedMember(s: set<string>, x: string)
    ensures x in Sorted(s) <==> x in s
  {
    assert x in Sorted(s) <==> x in Elems(Sorted(s));
  }

  lemma AscendingDistinct(q: seq<string>)
    requires Ascending(q)
    ensures Distinct(q)
  {
    forall i, j | 0 <= i < j < |q| ensures q[i] != q[j] { LtIrreflexive(q[i]); }
  }

  /** A set has one ascending listing only, so sorting is deterministic. */
  lemma {:induction false} AscendingUnique(p: seq<string>, q: seq<string>)
    requires Ascending(p) && Ascending(q) && Elems(p) == Elems(q)
    ensures p == q
  {
    EmptyElems(p);
    EmptyElems(q);
    if p == [] {
    } else {
      assert p[0] in Elems(q) && q[0] in Elems(p);
      var i :| 0 <= i < |q| && q[i] == p[0];
      var j :| 0 <= j < |p| && p[j] == q[0];
      if p[0] != q[0] {
        LtTransitive(p[0], q[0], p[0]);
        LtIrreflexive(p[0]);
      }
      AscendingDistinct(p);
      AscendingDistinct(q);
      assert Elems(p[1..]) == Elems(p) - {p[0]};
      assert Elems(q[1..]) == Elems(q) - {q[0]};
      AscendingUnique(p[1..], q[1..]);
      assert p == [p[0]] + p[1..] && q == [q[0]] + q[1..];
    }
  }

  /** Sorted is injective: two sets with the same listing are the same set. */
  lemma SortedInjective(s: set<string>, t: set<string>)
    requires Sorted(s) == Sorted(t)
    ensures s == t
  {}

  ghost predicate SortedBy<T>(xs: seq<T>, key: T -> string) {
    forall i, j :: 0 <= i < j < |xs| ==> !Lt(key(xs[j]), key(xs[i]))
  }

  lemma {:induction false} NotLtTransitive(a: string, b: string, c: string)
    requires !Lt(b, a) && !Lt(c, b)
    ensures !Lt(c, a)
  {
    if Lt(c, a) {
      LtTotal(a, b);
      LtTotal(b, c);
      if a != b { LtTransitive(c, a, b); }
    }
  }

  method InsertBy<T>(ys: seq<T>, x: T, key: T -> string) returns (zs: seq<T>)
    requires SortedBy(ys, key)
    ensures multiset(zs) == multiset(ys) + multiset{x}
    ensures SortedBy(zs, key)
  {
    var k := |ys|;
    while k > 0 && Lt(key(x), key(ys[k - 1]))
      invariant 0 <= k <= |ys|
      invariant forall j :: k <= j < |ys| ==> Lt(key(x), key(ys[j]))
    {
      k := k - 1;
    }
    InsertSorted(ys, k, x, key);
    zs := ys[..k] + [x] + ys[k..];
    assert ys == ys[..k] + ys[k..];
  }

  /** sort.Slice: some permutation that is ordered by `key`. */
  method SortBy<T>(xs: seq<T>, key: T -> string) returns (ys: seq<T>)
    ensures multiset(ys) == multiset(xs)
    ensures SortedBy(ys, key)
  {
    ys := [];
    for n := 0 to |xs|
      invariant multiset(ys) == multiset(xs[..n])
      invariant SortedBy(ys, key)
    {
      ys := InsertBy(ys, xs[n], key);
      assert xs[..n + 1] == xs[..n] + [xs[n]];
    }
    assert xs[..|xs|] == xs;
  }

  lemma InsertSorted<T>(ys: seq<T>, k: nat, x: T, key: T -> string)
    requires k <= |ys| && SortedBy(ys, key)
    requires k > 0 ==> !Lt(key(x), key(ys[k - 1]))
    requires forall j :: k <= j < |ys| ==> Lt(key(x), key(ys[j]))
    ensures SortedBy(ys[..k] + [x] + ys[k..], key)
  {
    var zs := ys[..k] + [x] + ys[k..];
    forall i, j | 0 <= i < j < |zs| ensures !Lt(key(zs[j]), key(zs[i])) {
      if j == k {
        if i < k - 1 { NotLtTransitive(key(ys[i]), key(ys[k - 1]), key(x)); }
      } else if i == k {
        if Lt(key(zs[j]), key(x)) {
          LtTransitive(key(zs[j]), key(x), key(zs[j]));
          LtIrreflexive(key(zs[j]));
        }
      } else {
        assert zs[i] == ys[if i < k then i else i - 1];
        assert zs[j] == ys[if j < k then j else j - 1];
      }
    }
  }

  /** sort.Strings on a list without repetitions gives the canonical listing of its elements. */
  method SortStrings(xs: seq<string>) returns (ys: seq<string>)
    requires Distinct(xs)
    ensures ys == Sorted(Elems(xs))
  {
    ys := SortBy(xs, (x: string) => x);
    PermutationElems(ys, xs);
    PermutationDistinct(ys, xs);
    OrderedIsAscending(ys);
    AscendingUnique(ys, Sorted(Elems(xs)));
  }

  lemma OrderedIsAscending(ys: seq<string>)
    requires forall i, j :: 0 <= i < j < |ys| ==> !Lt(ys[j], ys[i])
    requires Distinct(ys)
    ensures Ascending(ys)
  {
    forall i, j | 0 <= i < j < |ys| ensures Lt(ys[i], ys[j]) { LtTotal(ys[i], ys[j]); }
  }

  /** Sorting records by a key that is unique among them lists them by ascending key. */
  lemma SortedByUniqueKey<T>(ys: seq<T>, key: T -> string, keys: set<string>, at: map<string, T>)
    requires SortedBy(ys, key)
    requires at.Keys == keys
    requires forall k :: k in keys ==> key(at[k]) == k && at[k] in ys
    requires forall y :: y in ys ==> key(y) in keys && y == at[key(y)]
    requires Distinct(ys)
    ensures |ys| == |Sorted(keys)|
    ensures forall i :: 0 <= i < |ys| ==> Sorted(keys)[i] in at && ys[i] == at[Sorted(keys)[i]]
  {
    var ks := seq(|ys|, i requires 0 <= i < |ys| => key(ys[i]));
    forall i, j | 0 <= i < j < |ys| ensures ks[i] != ks[j] {
      assert ys[i] in ys && ys[j] in ys;
    }
    OrderedIsAscending(ks);
    forall k ensures k in Elems(ks) <==> k in keys {
      if k in keys {
        var i :| 0 <= i < |ys| && ys[i] == at[k];
        assert ks[i] == k;
      }
      if k in ks {
        var i :| 0 <= i < |ks| && ks[i] == k;
        assert ys[i] in ys;
      }
    }
    AscendingUnique(ks, Sorted(keys));
    forall i | 0 <= i < |ys| ensures Sorted(keys)[i] in at && ys[i] == at[Sorted(keys)[i]] {
      assert ys[i] in ys && ks[i] == key(ys[i]);
    }
  }
}
