/** list.sort with a key: stable sorting of rows by lexicographic string keys. */
module StableSort {

  /** A row with its sort key; str tuples are compared component by component. */
  datatype Row<T> = Row(key: seq<string>, value: T)

  /** Python's order on strings, by code point. */
  predicate StrLess(a: string, b: string) {
    if b == [] then false
    else if a == [] then true
    else if a[0] != b[0] then a[0] < b[0]
    else StrLess(a[1..], b[1..])
  }

  predicate KeyLess(a: seq<string>, b: seq<string>) {
    if b == [] then false
    else if a == [] then true
    else if a[0] != b[0] then StrLess(a[0], b[0])
    else KeyLess(a[1..], b[1..])
  }

  lemma {:induction false} StrOrder(a: string, b: string, c: string)
    ensures StrLess(a, b) && StrLess(b, c) ==> StrLess(a, c)
    ensures !(StrLess(a, b) && StrLess(b, a))
    ensures StrLess(a, b) || StrLess(b, a) || a == b
  {
    if a != [] && b != [] {
      assert a == [a[0]] + a[1..] && b == [b[0]] + b[1..];
      StrOrder(a[1..], b[1..], if c == [] then [] else c[1..]);
    }
  }

  lemma {:induction false} KeyOrder(a: seq<string>, b: seq<string>, c: seq<string>)
    ensures KeyLess(a, b) && KeyLess(b, c) ==> KeyLess(a, c)
    ensures !(KeyLess(a, b) && KeyLess(b, a))
    ensures KeyLess(a, b) || KeyLess(b, a) || a == b
  {
    hide StrLess;
    if a != [] && b != [] {
      assert a == [a[0]] + a[1..] && b == [b[0]] + b[1..];
      StrOrder(a[0], b[0], if c == [] then [] else c[0]);
      KeyOrder(a[1..], b[1..], if c == [] then [] else c[1..]);
      if c != [] {
        StrOrder(b[0], c[0], a[0]);
        StrOrder(a[0], c[0], b[0]);
      }
    }
  }

  // ---------- The two orders, without their recursion ----------

  /** a and b agree before k, and there a ends or has the smaller character. */
  predicate StrSplits(a: string, b: string, k: nat) {
    k <= |a| && k <= |b| && a[..k] == b[..k] && (if k == |a| then k < |b| else k < |b| && a[k] < b[k])
  }

  ghost predicate StrBefore(a: string, b: string) { exists k: nat :: StrSplits(a, b, k) }

  /** a and b agree before k, and there a ends or has the earlier component. */
  ghost predicate KeySplits(a: seq<string>, b: seq<string>, k: nat) {
    k <= |a| && k <= |b| && a[..k] == b[..k] && (if k == |a| then k < |b| else k < |b| && StrBefore(a[k], b[k]))
  }

  ghost predicate KeyBefore(a: seq<string>, b: seq<string>) { exists k: nat :: KeySplits(a, b, k) }

  lemma {:induction false} StrLessIff(a: string, b: string)
    ensures StrLess(a, b) <==> StrBefore(a, b)
  {
    hide StrBefore;
    if b == [] || a == [] || a[0] != b[0] {
      StrSplitFront(a, b);
    } else {
      StrLessIff(a[1..], b[1..]);
      StrSplitNext(a, b);
    }
  }

  /** Strings that differ at the front, or of which one is empty. */
  lemma StrSplitFront(a: string, b: string)
    requires b == [] || a == [] || a[0] != b[0]
    ensures StrBefore(a, b) <==> StrSplits(a, b, 0)
    ensures StrSplits(a, b, 0) <==> b != [] && (a == [] || a[0] < b[0])
  {
    forall k: nat | StrSplits(a, b, k) ensures k == 0 {
    }
  }

  lemma StrSplitNext(a: string, b: string)
    requires a != [] && b != [] && a[0] == b[0]
    ensures StrBefore(a, b) <==> StrBefore(a[1..], b[1..])
  {
    if k: nat :| StrSplits(a, b, k) {
      assert k > 0;
      assert a[1..][..k - 1] == a[..k][1..] && b[1..][..k - 1] == b[..k][1..];
      assert StrSplits(a[1..], b[1..], k - 1);
    }
    if k: nat :| StrSplits(a[1..], b[1..], k) {
      assert a[..k + 1] == [a[0]] + a[1..][..k] && b[..k + 1] == [b[0]] + b[1..][..k];
      assert StrSplits(a, b, k + 1);
    }
  }

  lemma {:induction false} KeyLessIff(a: seq<string>, b: seq<string>)
    ensures KeyLess(a, b) <==> KeyBefore(a, b)
  {
    hide KeyBefore, StrLess, StrBefore;
    if b == [] || a == [] || a[0] != b[0] {
      if a != [] && b != [] { StrLessIff(a[0], b[0]); }
      KeySplitFront(a, b);
    } else {
      KeyLessIff(a[1..], b[1..]);
      KeySplitNext(a, b);
    }
  }

  lemma KeySplitFront(a: seq<string>, b: seq<string>)
    requires b == [] || a == [] || a[0] != b[0]
    ensures KeyBefore(a, b) <==> KeySplits(a, b, 0)
    ensures KeySplits(a, b, 0) <==> b != [] && (a == [] || StrBefore(a[0], b[0]))
  {
    hide StrBefore;
    forall k: nat | KeySplits(a, b, k) ensures k == 0 {
    }
  }

  lemma KeySplitNext(a: seq<string>, b: seq<string>)
    requires a != [] && b != [] && a[0] == b[0]
    ensures KeyBefore(a, b) <==> KeyBefore(a[1..], b[1..])
  {
    hide StrBefore;
    assert !StrBefore(a[0], b[0]) by { NotBeforeSelf(a[0]); }
    if k: nat :| KeySplits(a, b, k) {
      assert k > 0;
      assert a[1..][..k - 1] == a[..k][1..] && b[1..][..k - 1] == b[..k][1..];
      assert KeySplits(a[1..], b[1..], k - 1);
    }
    if k: nat :| KeySplits(a[1..], b[1..], k) {
      assert a[..k + 1] == [a[0]] + a[1..][..k] && b[..k + 1] == [b[0]] + b[1..][..k];
      assert KeySplits(a, b, k + 1);
    }
  }

  lemma NotBeforeSelf(a: string)
    ensures !StrBefore(a, a)
  {
  }

  /** Places x behind every row that is not greater: equal keys keep their arrival order. */
  function Insert<T>(x: Row<T>, s: seq<Row<T>>): (r: seq<Row<T>>)
    ensures |r| == |s| + 1
  {
    if s == [] || KeyLess(x.key, s[0].key) then [x] + s else [s[0]] + Insert(x, s[1..])
  }

  function Sort<T>(s: seq<Row<T>>): (r: seq<Row<T>>)
    ensures |r| == |s|
  {
    if s == [] then [] else Insert(s[|s| - 1], Sort(s[..|s| - 1]))
  }

  // ---------- It is a stable sort ----------

  predicate Ordered<T>(s: seq<Row<T>>) {
    forall i, j :: 0 <= i < j < |s| ==> !KeyLess(s[j].key, s[i].key)
  }

  /** Every row stands behind the rows with smaller keys. */
  ghost predicate Ascending<T>(s: seq<Row<T>>) {
    forall i, j :: 0 <= i < j < |s| ==> s[i].key == s[j].key || KeyBefore(s[i].key, s[j].key)
  }

  lemma OrderedAscends<T>(s: seq<Row<T>>)
    requires Ordered(s)
    ensures Ascending(s)
  {
    hide KeyLess, KeyBefore;
    forall i, j | 0 <= i < j < |s| ensures s[i].key == s[j].key || KeyBefore(s[i].key, s[j].key) {
      KeyOrder(s[i].key, s[j].key, s[i].key);
      KeyLessIff(s[i].key, s[j].key);
    }
  }

  /** Rows with one key, in order. */
  function WithKey<T>(s: seq<Row<T>>, k: seq<string>): seq<Row<T>> {
    if s == [] then [] else (if s[0].key == k then [s[0]] else []) + WithKey(s[1..], k)
  }

  lemma {:induction false} WithKeyCons<T>(x: Row<T>, s: seq<Row<T>>, k: seq<string>)
    ensures WithKey([x] + s, k) == (if x.key == k then [x] else []) + WithKey(s, k)
  {
    assert ([x] + s)[1..] == s;
  }

  lemma WithKeyNil<T>(k: seq<string>)
    ensures WithKey<T>([], k) == []
  {
  }

  lemma {:induction false} WithKeyConcat<T>(a: seq<Row<T>>, b: seq<Row<T>>, k: seq<string>)
    ensures WithKey(a + b, k) == WithKey(a, k) + WithKey(b, k)
  {
    hide WithKey;
    if a == [] {
      assert a + b == b;
      WithKeyNil<T>(k);
    } else {
      var h, t := a[0], a[1..];
      WithKeyConcat(t, b, k);
      WithKeyCons(h, t + b, k);
      WithKeyCons(h, t, k);
      assert a == [h] + t && a + b == [h] + (t + b);
    }
  }

  lemma {:induction false} InsertMultiset<T>(x: Row<T>, s: seq<Row<T>>)
    ensures multiset(Insert(x, s)) == multiset(s) + multiset{x}
  {
    hide KeyLess;
    if s != [] && !KeyLess(x.key, s[0].key) {
      InsertMultiset(x, s[1..]);
      assert s == [s[0]] + s[1..];
    }
  }

  lemma {:induction false} InsertOrdered<T>(x: Row<T>, s: seq<Row<T>>)
    requires Ordered(s)
    ensures Ordered(Insert(x, s))
  {
    hide KeyLess;
    if s == [] {
    } else if KeyLess(x.key, s[0].key) {
      AllAbove(x, s);
    } else {
      var rest := s[1..];
      InsertOrdered(x, rest);
      InsertMultiset(x, rest);
      var r := Insert(x, rest);
      forall j | 0 <= j < |r| ensures !KeyLess(r[j].key, s[0].key) {
        assert r[j] in multiset(r);
        assert r[j] == x || r[j] in rest;
      }
    }
  }

  lemma AllAbove<T>(x: Row<T>, s: seq<Row<T>>)
    requires s != [] && Ordered(s) && KeyLess(x.key, s[0].key)
    ensures forall i :: 0 <= i < |s| ==> KeyLess(x.key, s[i].key) && !KeyLess(s[i].key, x.key)
  {
    hide KeyLess;
    forall i | 0 <= i < |s| ensures KeyLess(x.key, s[i].key) && !KeyLess(s[i].key, x.key) {
      KeyOrder(x.key, s[0].key, s[i].key);
      KeyOrder(s[0].key, s[i].key, x.key);
      KeyOrder(x.key, s[i].key, x.key);
    }
  }

  lemma {:induction false} InsertStable<T>(x: Row<T>, s: seq<Row<T>>, k: seq<string>)
    requires Ordered(s)
    ensures WithKey(Insert(x, s), k) == WithKey(s, k) + (if x.key == k then [x] else [])
  {
    hide KeyLess;
    if s == [] {
    } else if KeyLess(x.key, s[0].key) {
      AllAbove(x, s);
      NoKeyBelow(x, s);
      assert ([x] + s)[1..] == s;
    } else {
      InsertStable(x, s[1..], k);
      assert ([s[0]] + Insert(x, s[1..]))[1..] == Insert(x, s[1..]);
    }
  }

  lemma {:induction false} NoKeyBelow<T>(x: Row<T>, s: seq<Row<T>>)
    requires forall i :: 0 <= i < |s| ==> KeyLess(x.key, s[i].key)
    ensures WithKey(s, x.key) == []
  {
    hide KeyLess;
    if s != [] {
      KeyOrder(x.key, s[0].key, x.key);
      NoKeyBelow(x, s[1..]);
    }
  }

  /** Sorted, a permutation, and stable: rows with equal keys keep their order. */
  lemma {:induction false} SortMeaning<T>(s: seq<Row<T>>)
    ensures Ordered(Sort(s)) && Ascending(Sort(s))
    ensures multiset(Sort(s)) == multiset(s)
    ensures forall k :: WithKey(Sort(s), k) == WithKey(s, k)
  {
    hide KeyLess, Insert, Ascending;
    if s != [] {
      var before, x := s[..|s| - 1], s[|s| - 1];
      SortMeaning(before);
      InsertOrdered(x, Sort(before));
      InsertMultiset(x, Sort(before));
      assert s == before + [x];
      forall k ensures WithKey(Sort(s), k) == WithKey(s, k) {
        InsertStable(x, Sort(before), k);
        WithKeyConcat(before, [x], k);
      }
    }
    OrderedAscends(Sort(s));
  }

  // ---------- It is the only one ----------

  /** p lists every position below n once. */
  ghost predicate IsPermutation(p: seq<nat>, n: nat) {
    && |p| == n
    && (forall i :: 0 <= i < n ==> p[i] < n)
    && (forall i, j :: 0 <= i < j < n ==> p[i] != p[j])
  }

  /** Row a belongs in front of row b: a smaller key, or one key and an earlier arrival. */
  ghost predicate Precedes<T>(s: seq<Row<T>>, a: nat, b: nat)
    requires a < |s| && b < |s|
  {
    KeyBefore(s[a].key, s[b].key) || (s[a].key == s[b].key && a < b)
  }

  /** The positions in p stand in strictly ascending order of their rows. */
  ghost predicate Arranged<T>(s: seq<Row<T>>, p: seq<nat>) {
    && (forall i :: 0 <= i < |p| ==> p[i] < |s|)
    && (forall i, j :: 0 <= i < j < |p| ==> Precedes(s, p[i], p[j]))
  }

  /** t lists the rows of s at the positions p. */
  ghost predicate ListedAt<T>(s: seq<Row<T>>, t: seq<Row<T>>, p: seq<nat>) {
    && IsPermutation(p, |s|) && |t| == |s|
    && forall i :: 0 <= i < |s| ==> t[i] == s[p[i]]
  }

  lemma {:induction false} InsertSplits<T>(x: Row<T>, r: seq<Row<T>>) returns (pos: nat)
    requires Ordered(r)
    ensures pos <= |r| && Insert(x, r) == r[..pos] + [x] + r[pos..]
    ensures forall i :: 0 <= i < pos ==> !KeyLess(x.key, r[i].key)
    ensures forall i :: pos <= i < |r| ==> KeyLess(x.key, r[i].key)
  {
    hide KeyLess;
    if r == [] {
      pos := 0;
    } else if KeyLess(x.key, r[0].key) {
      AllAbove(x, r);
      pos := 0;
    } else {
      var below := InsertSplits(x, r[1..]);
      pos := below + 1;
      assert r[..pos] == [r[0]] + r[1..][..below] && r[pos..] == r[1..][below..];
      assert Insert(x, r) == [r[0]] + (r[1..][..below] + [x] + r[1..][below..]);
    }
  }

  /** q with n put in at pos. */
  function Placed<U>(q: seq<U>, pos: nat, n: U): (p: seq<U>)
    requires pos <= |q|
    ensures |p| == |q| + 1 && p[pos] == n
    ensures forall i :: 0 <= i < pos ==> p[i] == q[i]
    ensures forall i :: pos < i < |p| ==> p[i] == q[i - 1]
  {
    q[..pos] + [n] + q[pos..]
  }

  lemma PlacedPermutation(q: seq<nat>, pos: nat, n: nat)
    requires IsPermutation(q, n) && pos <= n
    ensures IsPermutation(Placed(q, pos, n), n + 1)
  {
    hide Placed;
  }

  /** Adding the last position at its place. */
  lemma PlacedArranged<T>(s: seq<Row<T>>, r: seq<Row<T>>, x: Row<T>, q: seq<nat>, pos: nat)
    requires ListedAt(s, r, q) && Arranged(s, q) && pos <= |q|
    requires forall i :: 0 <= i < pos ==> !KeyLess(x.key, r[i].key)
    requires forall i :: pos <= i < |r| ==> KeyLess(x.key, r[i].key)
    ensures Arranged(s + [x], Placed(q, pos, |s|))
  {
    hide KeyLess, KeyBefore, Placed;
    var p, t := Placed(q, pos, |s|), s + [x];
    forall i, j | 0 <= i < j < |p| ensures Precedes(t, p[i], p[j]) {
      if i == pos {
        assert t[p[j]] == r[j - 1];
        KeyLessIff(x.key, r[j - 1].key);
      } else if j == pos {
        assert t[p[i]] == r[i];
        KeyOrder(r[i].key, x.key, x.key);
        KeyLessIff(r[i].key, x.key);
      } else {
        assert Precedes(s, p[i], p[j]);
      }
    }
  }

  lemma PlacedRows<T>(s: seq<Row<T>>, t: seq<Row<T>>, x: Row<T>, q: seq<nat>, pos: nat)
    requires ListedAt(s, t, q) && pos <= |s|
    ensures ListedAt(s + [x], Placed(t, pos, x), Placed(q, pos, |s|))
  {
    hide Placed;
    PlacedPermutation(q, pos, |s|);
  }

  /** How the sorted list was arranged. */
  lemma {:induction false} SortArranges<T>(s: seq<Row<T>>) returns (p: seq<nat>)
    ensures ListedAt(s, Sort(s), p) && Arranged(s, p)
  {
    if s == [] {
      p := [];
    } else {
      hide KeyLess, Insert, KeyBefore, WithKey, Arranged, Sort, Ordered, Ascending;
      var before, x := s[..|s| - 1], s[|s| - 1];
      assert s == before + [x];
      var q := SortArranges(before);
      SortMeaning(before);
      SortSnoc(before, x);
      var pos := InsertSplits(x, Sort(before));
      p := Placed(q, pos, |before|);
      PlacedRows(before, Sort(before), x, q, pos);
      PlacedArranged(before, Sort(before), x, q, pos);
    }
  }

  lemma PrecedesIsStrict<T>(s: seq<Row<T>>, a: nat, b: nat)
    requires a < |s| && b < |s|
    ensures !(Precedes(s, a, b) && Precedes(s, b, a))
  {
    hide KeyBefore;
    KeyLessIff(s[a].key, s[b].key);
    KeyLessIff(s[b].key, s[a].key);
    KeyOrder(s[a].key, s[b].key, s[a].key);
  }

  /** Two arrangements of the same positions are equal. */
  lemma {:induction false} ArrangementUnique<T>(s: seq<Row<T>>, p: seq<nat>, q: seq<nat>)
    requires Arranged(s, p) && Arranged(s, q) && |p| == |q| && forall a :: a in p <==> a in q
    ensures p == q
  {
    hide Precedes;
    if p != [] {
      assert p[0] in q && q[0] in p;
      var k :| 0 <= k < |q| && q[k] == p[0];
      var l :| 0 <= l < |p| && p[l] == q[0];
      PrecedesIsStrict(s, p[0], q[0]);
      assert p[0] == q[0];
      forall i | 1 <= i < |p| ensures p[i] != p[0] && q[i] != p[0] { PrecedesIsStrict(s, p[0], p[0]); }
      TailWithin(p, q);
      TailWithin(q, p);
      ArrangementUnique(s, p[1..], q[1..]);
    }
  }

  lemma TailWithin(p: seq<nat>, q: seq<nat>)
    requires p != [] && q != [] && p[0] == q[0] && forall a :: a in p ==> a in q
    requires forall i :: 1 <= i < |p| ==> p[i] != p[0]
    ensures forall a :: a in p[1..] ==> a in q[1..]
  {
    forall a | a in p[1..] ensures a in q[1..] {
      assert a in p;
      var k :| 0 <= k < |q| && q[k] == a;
      assert q[1..][k - 1] == a;
    }
  }

  ghost function Elements(p: seq<nat>): (s: set<nat>)
    ensures forall a :: a in s <==> a in p
  {
    if p == [] then {} else Elements(p[..|p| - 1]) + {p[|p| - 1]}
  }

  ghost function Below(n: nat): (s: set<nat>)
    ensures |s| == n && forall a: nat :: a in s <==> a < n
  {
    if n == 0 then {} else Below(n - 1) + {n - 1}
  }

  lemma {:induction false} DistinctCount(p: seq<nat>)
    requires forall i, j :: 0 <= i < j < |p| ==> p[i] != p[j]
    ensures |Elements(p)| == |p|
  {
    if p != [] {
      var q, z := p[..|p| - 1], p[|p| - 1];
      DistinctCount(q);
      assert z !in q;
    }
  }

  lemma SubsetSize(a: set<nat>, b: set<nat>)
    requires a <= b
    ensures |a| <= |b|
  {
    assert b == a + (b - a);
  }

  lemma PermutationCovers(p: seq<nat>, n: nat, a: nat)
    requires IsPermutation(p, n) && a < n
    ensures a in p
  {
    hide Elements, Below;
    DistinctCount(p);
    if a !in p { SubsetSize(Elements(p), Below(n) - {a}); }
  }

  /** The sorted list is the one list of all rows in ascending key order, equal keys in order of
      arrival. */
  lemma SortIff<T>(s: seq<Row<T>>, t: seq<Row<T>>)
    ensures t == Sort(s) <==> exists p :: ListedAt(s, t, p) && Arranged(s, p)
  {
    hide Arranged, Sort;
    var p := SortArranges(s);
    if q :| ListedAt(s, t, q) && Arranged(s, q) {
      forall a ensures a in p <==> a in q {
        if a in p || a in q {
          PermutationCovers(p, |s|, a);
          PermutationCovers(q, |s|, a);
        }
      }
      ArrangementUnique(s, p, q);
    }
  }

  // ---------- When the order of arrival does not matter ----------

  /** Rows with equal keys are equal. */
  ghost predicate KeysDecide<T(!new)>(s: seq<Row<T>>) {
    forall a, b :: a in s && b in s && a.key == b.key ==> a == b
  }

  lemma {:induction false} InsertCommutes<T>(x: Row<T>, y: Row<T>, s: seq<Row<T>>)
    requires x.key == y.key ==> x == y
    ensures Insert(x, Insert(y, s)) == Insert(y, Insert(x, s))
  {
    hide KeyLess;
    KeyOrder(x.key, y.key, x.key);
    if x.key != y.key && s != [] {
      KeyOrder(x.key, y.key, s[0].key);
      KeyOrder(y.key, x.key, s[0].key);
      InsertCommutes(x, y, s[1..]);
    }
  }

  lemma {:induction false} MoveToEnd<T(!new)>(a: seq<Row<T>>, x: Row<T>, b: seq<Row<T>>)
    requires KeysDecide(a + [x] + b)
    ensures Sort(a + [x] + b) == Sort(a + b + [x])
  {
    hide Insert;
    if b == [] {
      assert a + [x] + b == a + b + [x];
    } else {
      var c, w := b[..|b| - 1], b[|b| - 1];
      var l, m, r := a + [x] + c, a + c, a + b;
      assert a + [x] + b == l + [w] && a + b == m + [w];
      assert x in l + [w] && w in l + [w];
      assert forall z :: z in l ==> z in l + [w];
      MoveToEnd(a, x, c);
      SortSnoc(l, w);
      SortSnoc(m, x);
      SortSnoc(m, w);
      SortSnoc(r, x);
      InsertCommutes(w, x, Sort(m));
    }
  }

  lemma SortSnoc<T>(s: seq<Row<T>>, x: Row<T>)
    ensures Sort(s + [x]) == Insert(x, Sort(s))
  {
    hide Insert;
    assert (s + [x])[..|s|] == s;
  }

  /** If keys decide rows, every permutation sorts to the same list. */
  lemma {:induction false} PermutationInvariant<T(!new)>(s: seq<Row<T>>, t: seq<Row<T>>)
    requires multiset(s) == multiset(t) && KeysDecide(s)
    ensures Sort(s) == Sort(t)
    decreases |t|
  {
    hide Insert, Sort;
    assert |s| == |multiset(s)| == |multiset(t)| == |t|;
    if t != [] {
      var u, z := t[..|t| - 1], t[|t| - 1];
      assert t == u + [z];
      assert z in multiset(s);
      var i :| 0 <= i < |s| && s[i] == z;
      var a, b := s[..i], s[i + 1..];
      assert s == a + [z] + b;
      MoveToEnd(a, z, b);
      SortSnoc(a + b, z);
      SortSnoc(u, z);
      assert multiset(a + b) == multiset(s) - multiset{z};
      assert multiset(u) == multiset(t) - multiset{z};
      assert forall r :: r in a + b ==> r in s;
      PermutationInvariant(a + b, u);
    }
  }

  /** Two different rows with one key, exchanged, sort differently: stability shows them. */
  lemma ExchangeShows<T>(a: seq<Row<T>>, x: Row<T>, b: seq<Row<T>>, y: Row<T>, c: seq<Row<T>>)
    requires x.key == y.key && x != y
    ensures Sort(a + [x] + b + [y] + c) != Sort(a + [y] + b + [x] + c)
  {
    hide Sort, Ordered, WithKey;
    var s, t := a + [x] + b + [y] + c, a + [y] + b + [x] + c;
    SortMeaning(s);
    SortMeaning(t);
    assert s == a + ([x] + (b + [y] + c)) && t == a + ([y] + (b + [x] + c));
    KeyedAt(a, x, b + [y] + c);
    KeyedAt(a, y, b + [x] + c);
  }

  /** Among the rows with its key, x stands behind exactly those in front of it. */
  lemma KeyedAt<T>(a: seq<Row<T>>, x: Row<T>, b: seq<Row<T>>)
    ensures |WithKey(a, x.key)| < |WithKey(a + ([x] + b), x.key)|
    ensures WithKey(a + ([x] + b), x.key)[|WithKey(a, x.key)|] == x
  {
    WithKeyConcat(a, [x] + b, x.key);
    WithKeyConcat([x], b, x.key);
  }

  lemma ExchangePermutes<U>(a: seq<U>, x: U, b: seq<U>, y: U, c: seq<U>)
    ensures multiset(a + [x] + b + [y] + c) == multiset(a + [y] + b + [x] + c)
  {
  }

  lemma TwinPositions<T(!new)>(s: seq<Row<T>>) returns (lo: nat, hi: nat)
    requires !KeysDecide(s)
    ensures lo < hi < |s| && s[lo].key == s[hi].key && s[lo] != s[hi]
  {
    var x, y :| x in s && y in s && x.key == y.key && x != y;
    var i :| 0 <= i < |s| && s[i] == x;
    var j :| 0 <= j < |s| && s[j] == y;
    lo, hi := if i < j then i else j, if i < j then j else i;
  }

  lemma Exchanged<U>(s: seq<U>, lo: nat, hi: nat)
    requires lo < hi < |s|
    ensures multiset(s[lo := s[hi]][hi := s[lo]]) == multiset(s)
  {
    var a, b, c := s[..lo], s[lo + 1..hi], s[hi + 1..];
    assert s == a + [s[lo]] + b + [s[hi]] + c;
    assert s[lo := s[hi]][hi := s[lo]] == a + [s[hi]] + b + [s[lo]] + c;
    ExchangePermutes(a, s[lo], b, s[hi], c);
  }

  lemma ExchangedSort<T>(s: seq<Row<T>>, t: seq<Row<T>>, lo: nat, hi: nat)
    requires lo < hi < |s| && s[lo].key == s[hi].key && s[lo] != s[hi]
    requires t == s[lo := s[hi]][hi := s[lo]]
    ensures Sort(s) != Sort(t)
  {
    hide Sort;
    var a, b, c := s[..lo], s[lo + 1..hi], s[hi + 1..];
    assert s == a + [s[lo]] + b + [s[hi]] + c;
    assert t == a + [s[hi]] + b + [s[lo]] + c;
    ExchangeShows(a, s[lo], b, s[hi], c);
  }

  lemma TwinsShow<T(!new)>(s: seq<Row<T>>) returns (t: seq<Row<T>>)
    requires !KeysDecide(s)
    ensures multiset(t) == multiset(s) && Sort(t) != Sort(s)
  {
    hide Sort, KeysDecide;
    var lo, hi := TwinPositions(s);
    t := s[lo := s[hi]][hi := s[lo]];
    Exchanged(s, lo, hi);
    ExchangedSort(s, t, lo, hi);
  }

  ghost predicate OrderForgotten<T(!new)>(s: seq<Row<T>>) {
    forall t: seq<Row<T>> :: multiset(t) == multiset(s) ==> Sort(t) == Sort(s)
  }

  /** The exact condition: sorting forgets the arrival order of s if and only if no two different
      rows of s share a key. */
  lemma OrderForgottenIff<T(!new)>(s: seq<Row<T>>)
    ensures OrderForgotten(s) <==> KeysDecide(s)
  {
    hide Sort, KeysDecide;
    if KeysDecide(s) {
      forall t: seq<Row<T>> | multiset(t) == multiset(s) ensures Sort(t) == Sort(s) {
        PermutationInvariant(s, t);
      }
    } else {
      var t := TwinsShow(s);
    }
  }
}
