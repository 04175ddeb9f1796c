/** Sorting as the installer uses it: sort.Strings on map keys, and stable
    sorts (slices.SortStableFunc, sort.SliceStable) by an integer weight. */
module Order {

  // ------------------------------------------- strictly sorted sequences

  ghost predicate StrictOrder<T(!new)>(less: (T, T) -> bool) {
    && (forall x :: !less(x, x))
    && (forall x, y, z :: less(x, y) && less(y, z) ==> less(x, z))
  }

  ghost predicate StrictlySorted<T>(s: seq<T>, less: (T, T) -> bool) {
    forall i, j | 0 <= i < j < |s| :: less(s[i], s[j])
  }

  /** A strictly sorted list is determined by its elements: two runs that
      collect the same elements in different orders sort to the same list. */
  lemma {:induction false} SortedUnique<T(!new)>(a: seq<T>, b: seq<T>, less: (T, T) -> bool)
    requires StrictOrder(less)
    requires StrictlySorted(a, less) && StrictlySorted(b, less)
    requires forall x :: x in a <==> x in b
    ensures a == b
  {
    if a == [] {
      FirstIsIn(b);
    } else {
      SameHead(a, b, less);
      forall x ensures x in a[1..] <==> x in b[1..] {
        InTail(a, x, less);
        InTail(b, x, less);
      }
      SortedUnique(a[1..], b[1..], less);
      assert a == [a[0]] + a[1..] && b == [b[0]] + b[1..];
    }
  }

  lemma FirstIsIn<T>(s: seq<T>)
    ensures s == [] || s[0] in s
  {
  }

  lemma SameHead<T(!new)>(a: seq<T>, b: seq<T>, less: (T, T) -> bool)
    requires StrictOrder(less)
    requires StrictlySorted(a, less) && StrictlySorted(b, less)
    requires a != [] && forall x :: x in a <==> x in b
    ensures b != [] && a[0] == b[0]
  {
    assert a[0] in b;
    assert b[0] in a;
    var i :| 0 <= i < |b| && b[i] == a[0];
    var j :| 0 <= j < |a| && a[j] == b[0];
  }

  lemma InTail<T(!new)>(s: seq<T>, x: T, less: (T, T) -> bool)
    requires StrictOrder(less) && StrictlySorted(s, less) && s != []
    ensures x in s[1..] <==> x in s && x != s[0]
  {
    if x in s && x != s[0] {
      var i :| 0 <= i < |s| && s[i] == x;
      assert s[1..][i - 1] == x;
    }
  }

  // --------------------------------------------------- order on strings

  /** The order of Go strings, code point by code point. */
  predicate Less(a: string, b: string) {
    if b == "" then false
    else if a == "" then true
    else if a[0] != b[0] then a[0] < b[0]
    else Less(a[1..], b[1..])
  }

  lemma {:induction false} LessIrreflexive(a: string)
    ensures !Less(a, a)
  {
    if a != "" {
      LessIrreflexive(a[1..]);
    }
  }

  lemma {:induction false} LessTransitive(a: string, b: string, c: string)
    requires Less(a, b) && Less(b, c)
    ensures Less(a, c)
  {
    if a != "" && a[0] == b[0] == c[0] {
      LessTransitive(a[1..], b[1..], c[1..]);
    }
  }

  lemma {:induction false} LessTotal(a: string, b: string)
    ensures Less(a, b) || a == b || Less(b, a)
  {
    if a != "" && b != "" && a[0] == b[0] {
      LessTotal(a[1..], b[1..]);
      assert a == [a[0]] + a[1..] && b == [b[0]] + b[1..];
    }
  }

  lemma LessIsStrictOrder()
    ensures StrictOrder(Less)
  {
    forall x: string ensures !Less(x, x) { LessIrreflexive(x); }
    forall x: string, y: string, z: string | Less(x, y) && Less(y, z) ensures Less(x, z) {
      LessTransitive(x, y, z);
    }
  }

  predicate SortedStrings(s: seq<string>) {
    forall i, j | 0 <= i < j < |s| :: Less(s[i], s[j])
  }

  /** Puts k into a sorted list that does not hold it. */
  function Insert(k: string, s: seq<string>): (r: seq<string>)
    ensures forall x :: x in r <==> x == k || x in s
  {
    if s == [] then [k]
    else if Less(k, s[0]) then [k] + s
    else
      assert forall x :: x in s <==> x == s[0] || x in s[1..];
      [s[0]] + Insert(k, s[1..])
  }

  lemma {:induction false} InsertSorted(k: string, s: seq<string>)
    requires SortedStrings(s) && k !in s
    ensures SortedStrings(Insert(k, s))
  {
    if s != [] && Less(k, s[0]) {
      forall i | 0 < i < |s| ensures Less(k, s[i]) {
        LessTransitive(k, s[0], s[i]);
      }
    } else if s != [] {
      InsertSorted(k, s[1..]);
      LessTotal(k, s[0]);
      var rest := Insert(k, s[1..]);
      forall i | 0 <= i < |rest| ensures Less(s[0], rest[i]) {
        assert rest[i] in rest;
        if rest[i] != k {
          var j :| 0 <= j < |s[1..]| && s[1..][j] == rest[i];
          assert s[j + 1] == rest[i];
        }
      }
    }
  }

  /** sort.Strings on a list without duplicates. */
  function SortStrings(s: seq<string>): (r: seq<string>)
    requires forall i, j | 0 <= i < j < |s| :: s[i] != s[j]
    ensures SortedStrings(r)
    ensures forall x :: x in r <==> x in s
  {
    if s == [] then []
    else
      var sorted := SortStrings(s[..|s| - 1]);
      assert forall x :: x in s <==> x in s[..|s| - 1] || x == s[|s| - 1];
      InsertSorted(s[|s| - 1], sorted);
      Insert(s[|s| - 1], sorted)
  }

  // ---------------------------------------------------------- stable sort

  ghost predicate Permutation(p: seq<nat>, n: nat) {
    && |p| == n
    && (forall i | 0 <= i < n :: p[i] < n)
    && (forall i, j | 0 <= i < j < n :: p[i] != p[j])
  }

  /** By key, and by original position where the keys are equal. */
  predicate Before(keys: seq<int>, i: nat, j: nat)
    requires i < |keys| && j < |keys|
  {
    keys[i] < keys[j] || (keys[i] == keys[j] && i < j)
  }

  ghost predicate StablySorted(keys: seq<int>, p: seq<nat>) {
    && Permutation(p, |keys|)
    && forall a, b | 0 <= a < b < |p| :: Before(keys, p[a], p[b])
  }

  /** Puts position n after every position of p whose key is not greater. */
  function InsertPosition(keys: seq<int>, n: nat, p: seq<nat>): seq<nat>
    requires n < |keys| && forall i | 0 <= i < |p| :: p[i] < |keys|
  {
    if p == [] then [n]
    else if keys[p[0]] <= keys[n] then [p[0]] + InsertPosition(keys, n, p[1..])
    else [n] + p
  }

  /** The order a stable sort by `keys` puts the positions 0, 1, ... in. */
  function StableOrder(keys: seq<int>): (p: seq<nat>)
    ensures StablySorted(keys, p)
  {
    if keys == [] then []
    else
      var n := |keys| - 1;
      var p := StableOrder(keys[..n]);
      assert forall i | 0 <= i < |p| :: p[i] < n;
      assert forall a, b | 0 <= a < b < |p| :: Before(keys, p[a], p[b]) by {
        assert forall a, b | 0 <= a < b < |p| :: Before(keys[..n], p[a], p[b]);
      }
      InsertPositionSorts(keys, n, p);
      InsertPosition(keys, n, p)
  }

  lemma {:induction false} InsertPositionSorts(keys: seq<int>, n: nat, p: seq<nat>)
    requires n < |keys|
    requires forall i | 0 <= i < |p| :: p[i] < n
    requires forall i, j | 0 <= i < j < |p| :: p[i] != p[j]
    requires forall a, b | 0 <= a < b < |p| :: Before(keys, p[a], p[b])
    ensures var r := InsertPosition(keys, n, p);
      && |r| == |p| + 1
      && (forall x :: x in r <==> x == n || x in p)
      && (forall i | 0 <= i < |r| :: r[i] <= n)
      && (forall i, j | 0 <= i < j < |r| :: r[i] != r[j])
      && (forall a, b | 0 <= a < b < |r| :: Before(keys, r[a], r[b]))
  {
    if p != [] && keys[p[0]] <= keys[n] {
      InsertPositionSorts(keys, n, p[1..]);
      var rest := InsertPosition(keys, n, p[1..]);
      forall b | 0 <= b < |rest|
        ensures p[0] != rest[b] && Before(keys, p[0], rest[b])
      {
        assert rest[b] in rest;
        if rest[b] != n {
          var i :| 0 <= i < |p[1..]| && p[1..][i] == rest[b];
          assert p[i + 1] == rest[b];
        }
      }
      assert forall x :: x in p <==> x == p[0] || x in p[1..];
    } else if p != [] {
      forall b | 0 <= b < |p|
        ensures n != p[b] && Before(keys, n, p[b])
      {
        if b > 0 { assert Before(keys, p[0], p[b]); }
      }
    }
  }

  /** There is only one stable order. */
  lemma StableOrderUnique(keys: seq<int>, p: seq<nat>)
    requires StablySorted(keys, p)
    ensures p == StableOrder(keys)
  {
    var q := StableOrder(keys);
    var less := (i: nat, j: nat) => i < |keys| && j < |keys| && Before(keys, i, j);
    forall x: nat ensures x in p <==> x in q {
      PermutationCovers(p, |keys|, x);
      PermutationCovers(q, |keys|, x);
    }
    SortedUnique(p, q, less);
  }

  /** A list of n different positions below n holds every position below n. */
  lemma {:induction false} PermutationCovers(p: seq<nat>, n: nat, x: nat)
    requires Permutation(p, n)
    ensures x in p <==> x < n
  {
    if x < n && x !in p {
      var below := Below(n);
      var used := set i: nat | i in p;
      CountDistinct(p);
      assert used <= below - {x};
      SubsetSize(used, below - {x});
      assert false;
    }
  }

  lemma {:induction false} CountDistinct(p: seq<nat>)
    requires forall i, j | 0 <= i < j < |p| :: p[i] != p[j]
    ensures |set i: nat | i in p| == |p|
  {
    if p != [] {
      CountDistinct(p[1..]);
      assert (set i: nat | i in p) == {p[0]} + (set i: nat | i in p[1..]);
    }
  }

  ghost function Below(n: nat): (s: set<nat>)
    ensures |s| == n && forall i: nat :: i in s <==> i < n
  {
    if n == 0 then {} else Below(n - 1) + {n - 1}
  }

  lemma {:induction false} SubsetSize<T>(a: set<T>, b: set<T>)
    requires a <= b
    ensures |a| <= |b|
  {
    if a != {} {
      var x :| x in a;
      SubsetSize(a - {x}, b - {x});
    }
  }
}
