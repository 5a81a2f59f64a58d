/** Small shared vocabulary: an Option type, get-or-default lookups (the
    model's stand-in for Python's auto-vivifying defaultdict reads), and
    order-preserving list helpers used by several source files. */
module Util {

  datatype Option<+T> = None | Some(value: T)

  /** `d[k]` on a defaultdict, or `d.get(k, dflt)`: the stored value or the default. */
  function Get<K, V>(m: map<K, V>, k: K, dflt: V): (v: V)
    ensures k in m ==> v == m[k]
    ensures k !in m ==> v == dflt
  {
    if k in m then m[k] else dflt
  }

  /** A non-empty set has an element (the witness `:|` needs). */
  lemma Inhabited(s: set<int>)
    requires s != {}
    ensures exists x :: x in s
  {
    if forall x :: x !in s {
      assert false;
    }
  }

  predicate NoDuplicates<T(==)>(s: seq<T>) {
    forall i, j :: 0 <= i < j < |s| ==> s[i] != s[j]
  }

  /** `for x in xs: if x not in acc: acc.append(x)` -- append the values not yet present. */
  function AppendNew<T(==)>(acc: seq<T>, xs: seq<T>): (r: seq<T>)
    decreases |xs|
  {
    if xs == [] then acc
    else
      var last := xs[|xs| - 1];
      var before := AppendNew(acc, xs[..|xs| - 1]);
      if last in before then before else before + [last]
  }

  /** One more element: `if x not in acc: acc.append(x)`. */
  lemma AppendNewOne<T>(acc: seq<T>, x: T)
    ensures AppendNew(acc, [x]) == if x in acc then acc else acc + [x]
  {
    assert [x][..0] == [];
  }

  /** `if x not in xs: xs.append(x)`, the append-once step of the scripts'
      ordered author and paper lists. */
  method AddOnce<T(==)>(xs: seq<T>, x: T) returns (r: seq<T>)
    ensures r == AppendNew(xs, [x])
  {
    AppendNewOne(xs, x);
    r := xs;
    if x !in r {
      r := r + [x];
    }
  }

  /** The first occurrence of each element, in first-occurrence order. */
  function Dedup<T(==)>(xs: seq<T>): seq<T> {
    AppendNew([], xs)
  }

  lemma {:induction false} AppendNewFacts<T>(acc: seq<T>, xs: seq<T>)
    ensures acc <= AppendNew(acc, xs)
    ensures forall x :: x in AppendNew(acc, xs) <==> x in acc || x in xs
    ensures NoDuplicates(acc) ==> NoDuplicates(AppendNew(acc, xs))
    decreases |xs|
  {
    if xs != [] {
      var init := xs[..|xs| - 1];
      AppendNewFacts(acc, init);
      assert xs == init + [xs[|xs| - 1]];
    }
  }

  /** Processing `xs` then `ys` is processing `xs + ys`: the loop can be split
      at any row boundary. */
  lemma {:induction false} AppendNewConcat<T>(acc: seq<T>, xs: seq<T>, ys: seq<T>)
    ensures AppendNew(acc, xs + ys) == AppendNew(AppendNew(acc, xs), ys)
    decreases |ys|
  {
    if ys == [] {
      assert xs + ys == xs;
    } else {
      var init := ys[..|ys| - 1];
      AppendNewConcat(acc, xs, init);
      assert (xs + ys)[..|xs + ys| - 1] == xs + init;
      assert (xs + ys)[|xs + ys| - 1] == ys[|ys| - 1];
    }
  }

  lemma DedupFacts<T>(xs: seq<T>)
    ensures NoDuplicates(Dedup(xs))
    ensures forall x :: x in Dedup(xs) <==> x in xs
    ensures |Dedup(xs)| <= |xs|
    ensures xs != [] ==> Dedup(xs) != []
  {
    AppendNewFacts([], xs);
    DedupLength(xs);
  }

  lemma {:induction false} DedupLength<T>(xs: seq<T>)
    ensures |AppendNew([], xs)| <= |xs|
    decreases |xs|
  {
    if xs != [] {
      DedupLength(xs[..|xs| - 1]);
    }
  }

  /** Taking one more element of a sequence. */
  lemma TakeStep<T>(s: seq<T>, k: nat)
    requires k < |s|
    ensures s[..k + 1] == s[..k] + [s[k]]
  {
  }

  /** A prefix grown by the next element. */
  lemma TakeNext<T>(s: seq<T>, k: nat, prefix: seq<T>, x: T)
    requires k < |s| && prefix == s[..k] && x == s[k]
    ensures prefix + [x] == s[..k + 1]
  {
    assert s[..k + 1] == s[..k] + [s[k]];
  }

  lemma TakeAll<T>(s: seq<T>)
    ensures s[..|s|] == s
  {
  }

  function Count<T(==)>(xs: seq<T>, x: T): nat {
    multiset(xs)[x]
  }

  function SumReals(xs: seq<real>): real
    decreases |xs|
  {
    if xs == [] then 0.0 else SumReals(xs[..|xs| - 1]) + xs[|xs| - 1]
  }

  lemma SumRealsAppend(xs: seq<real>, x: real)
    ensures SumReals(xs + [x]) == SumReals(xs) + x
  {
    assert (xs + [x])[..|xs|] == xs;
  }

  function SumNats(xs: seq<nat>): nat
    decreases |xs|
  {
    if xs == [] then 0 else SumNats(xs[..|xs| - 1]) + xs[|xs| - 1]
  }

  function Max(a: int, b: int): int {
    if a < b then b else a
  }

  function Min(a: int, b: int): int {
    if a < b then a else b
  }

  function Abs(x: real): (r: real)
    ensures 0.0 <= r && (r == x || r == -x)
  {
    if x < 0.0 then -x else x
  }

  // Python's max / min over the items of a dict, by value

  /** `k` holds a largest value of `m`. */
  predicate IsMaxKey(m: map<int, real>, k: int) {
    k in m && forall j :: j in m ==> m[j] <= m[k]
  }

  /** Every non-empty map has a key with a largest value. */
  lemma {:induction false} MaxKeyExists(m: map<int, real>)
    requires m != map[]
    ensures exists k :: IsMaxKey(m, k)
    decreases |m|
  {
    Inhabited(m.Keys);
    var d :| d in m;
    var rest := m - {d};
    if rest == map[] {
      assert forall j :: j in m ==> j == d || j in rest;
      assert IsMaxKey(m, d);
    } else {
      assert |rest.Keys| < |m.Keys| by {
        assert rest.Keys == m.Keys - {d};
      }
      MaxKeyExists(rest);
      var k :| IsMaxKey(rest, k);
      assert forall j :: j in m ==> j == d || j in rest;
      if m[d] <= m[k] {
        assert IsMaxKey(m, k);
      } else {
        assert IsMaxKey(m, d);
      }
    }
  }

  /** `max(m.iteritems(), key=itemgetter(1))`: a pair with the largest value.
      Which pair wins a tie depends on dict order, which is unspecified. */
  method MaxItem(m: map<int, real>) returns (k: int, v: real)
    requires m != map[]
    ensures k in m && v == m[k]
    ensures forall j :: j in m ==> m[j] <= v
  {
    MaxKeyExists(m);
    k :| IsMaxKey(m, k);
    v := m[k];
  }

  /** `k` holds a smallest value of `m`. */
  predicate IsMinKey(m: map<int, real>, k: int) {
    k in m && forall j :: j in m ==> m[k] <= m[j]
  }

  /** Every non-empty map has a key with a smallest value. */
  lemma {:induction false} MinKeyExists(m: map<int, real>)
    requires m != map[]
    ensures exists k :: IsMinKey(m, k)
    decreases |m|
  {
    Inhabited(m.Keys);
    var d :| d in m;
    var rest := m - {d};
    if rest == map[] {
      assert forall j :: j in m ==> j == d || j in rest;
      assert IsMinKey(m, d);
    } else {
      assert |rest.Keys| < |m.Keys| by {
        assert rest.Keys == m.Keys - {d};
      }
      MinKeyExists(rest);
      var k :| IsMinKey(rest, k);
      assert forall j :: j in m ==> j == d || j in rest;
      if m[k] <= m[d] {
        assert IsMinKey(m, k);
      } else {
        assert IsMinKey(m, d);
      }
    }
  }

  /** `min(m.iteritems(), key=itemgetter(1))`: a pair with the smallest value.
      Which pair wins a tie depends on dict order, which is unspecified. */
  method MinItem(m: map<int, real>) returns (k: int, v: real)
    requires m != map[]
    ensures k in m && v == m[k]
    ensures forall j :: j in m ==> v <= m[j]
  {
    MinKeyExists(m);
    k :| IsMinKey(m, k);
    v := m[k];
  }

  /** The largest value of a non-empty map. */
  ghost function MaxOf(m: map<int, real>): (v: real)
    requires m != map[]
    ensures exists k :: IsMaxKey(m, k) && m[k] == v
    ensures forall j :: j in m ==> m[j] <= v
  {
    MaxKeyExists(m);
    var k :| IsMaxKey(m, k);
    m[k]
  }

  /** The smallest value of a non-empty map. */
  ghost function MinOf(m: map<int, real>): (v: real)
    requires m != map[]
    ensures exists k :: IsMinKey(m, k) && m[k] == v
    ensures forall j :: j in m ==> v <= m[j]
  {
    MinKeyExists(m);
    var k :| IsMinKey(m, k);
    m[k]
  }

  /** `for x in xs: d[k].append(x)` on a defaultdict(list): the key appears
      only once something is appended. */
  function AppendAll<V>(m: map<int, seq<V>>, k: int, xs: seq<V>): (r: map<int, seq<V>>)
    ensures xs == [] ==> r == m
    ensures xs != [] ==> r == m[k := Get(m, k, []) + xs]
  {
    if xs == [] then m else m[k := Get(m, k, []) + xs]
  }

  /** Appending one more element. */
  lemma AppendAllStep<V>(m: map<int, seq<V>>, k: int, xs: seq<V>, x: V)
    ensures AppendAll(m, k, xs + [x]) == AppendAll(m, k, xs)[k := Get(AppendAll(m, k, xs), k, []) + [x]]
  {
    if xs == [] {
      assert xs + [x] == [x];
    } else {
      assert Get(m, k, []) + (xs + [x]) == Get(m, k, []) + xs + [x];
    }
  }

  /** `sub` is obtained from `s` by deleting elements. */
  predicate IsSubsequence<T(==)>(sub: seq<T>, s: seq<T>)
    decreases |s|
  {
    if sub == [] then true
    else if s == [] then false
    else if sub[|sub| - 1] == s[|s| - 1] then IsSubsequence(sub[..|sub| - 1], s[..|s| - 1])
    else IsSubsequence(sub, s[..|s| - 1])
  }

  /** `[y for y in xs if y != x]` */
  function Without<T(==)>(xs: seq<T>, x: T): seq<T>
    decreases |xs|
  {
    if xs == [] then []
    else
      var init := Without(xs[..|xs| - 1], x);
      if xs[|xs| - 1] == x then init else init + [xs[|xs| - 1]]
  }

  lemma WithoutFacts<T>(xs: seq<T>, x: T)
    ensures x !in Without(xs, x)
    ensures forall y :: y in Without(xs, x) <==> y in xs && y != x
    ensures IsSubsequence(Without(xs, x), xs)
  {
    WithoutMembers(xs, x);
    WithoutIsSubsequence(xs, x);
  }

  lemma {:induction false} WithoutMembers<T>(xs: seq<T>, x: T)
    ensures forall y :: y in Without(xs, x) <==> y in xs && y != x
    decreases |xs|
  {
    if xs != [] {
      var init, last := xs[..|xs| - 1], xs[|xs| - 1];
      WithoutMembers(init, x);
      assert xs == init + [last];
      assert forall y :: y in xs <==> y in init || y == last;
    }
  }

  lemma {:induction false} WithoutIsSubsequence<T>(xs: seq<T>, x: T)
    ensures IsSubsequence(Without(xs, x), xs)
    decreases |xs|
  {
    if xs != [] {
      var init, last := xs[..|xs| - 1], xs[|xs| - 1];
      WithoutIsSubsequence(init, x);
      var r := Without(xs, x);
      if last != x {
        assert r == Without(init, x) + [last];
        assert r[..|r| - 1] == Without(init, x);
      } else {
        assert r == Without(init, x);
        if r != [] {
          WithoutMembers(init, x);
          assert r[|r| - 1] in r;
        }
      }
    }
  }
}
