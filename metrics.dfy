/** The two similarity metrics of feature.py: the composite string distance
    (feature.py:73-91) and the Euclidean distance between sparse count maps
    (feature.py:26-41). The jellyfish string metrics and `math.sqrt` are not
    part of this model; they arrive as the function values of an `Ext`. */
module Metrics {
  import opened Util

  /** The library functions feature.py calls: `jellyfish.jaro_distance`,
      `jellyfish.levenshtein_distance`, `jellyfish.damerau_levenshtein_distance`
      and `math.sqrt`. */
  datatype Ext = Ext(
    jaro: (string, string) -> real,
    levenshtein: (string, string) -> nat,
    damerau: (string, string) -> nat,
    sqrt: real -> real)
  {
    /** What the model assumes of them: Jaro similarity lies in [0,1] and is 1
        on identical non-empty strings; an edit distance never exceeds the
        longer length and is 0 on identical strings; `sqrt` is the
        non-negative square root. */
    ghost predicate Valid() {
      && (forall a, b :: 0.0 <= jaro(a, b) <= 1.0)
      && (forall a :: a != [] ==> jaro(a, a) == 1.0)
      && (forall a, b {:trigger levenshtein(a, b)} :: levenshtein(a, b) <= Max(|a|, |b|))
      && (forall a, b {:trigger damerau(a, b)} :: damerau(a, b) <= Max(|a|, |b|))
      && (forall a :: levenshtein(a, a) == 0 && damerau(a, a) == 0)
      && (forall x :: 0.0 <= x ==> 0.0 <= sqrt(x) && Square(sqrt(x)) == x)
      && sqrt(0.0) == 0.0
    }
  }

  /** `1 - d / norm` with Python 2 integer division of ints. */
  function EditTerm(d: nat, norm: nat): int
    requires norm > 0
  {
    1 - d / norm
  }

  /** `stringDistance` (feature.py:73-91): 0 when either string is empty,
      otherwise `0.5*jaro + 0.25*(1 - leven/norm) + 0.25*(1 - damerau/norm)`. */
  function StringDistance(ext: Ext, s1: string, s2: string): (r: real)
    requires ext.Valid()
    ensures s1 == [] || s2 == [] ==> r == 0.0
    ensures 0.0 <= r <= 1.0
  {
    if |s1| > 0 && |s2| > 0 then
      var norm := Max(|s1|, |s2|);
      EditTermIsIndicator(ext.levenshtein(s1, s2), norm);
      EditTermIsIndicator(ext.damerau(s1, s2), norm);
      0.5 * ext.jaro(s1, s2)
        + 0.25 * EditTerm(ext.levenshtein(s1, s2), norm) as real
        + 0.25 * EditTerm(ext.damerau(s1, s2), norm) as real
    else 0.0
  }

  function Indicator(b: bool): real {
    if b then 1.0 else 0.0
  }

  /** Because an edit distance is at most `norm`, the integer division makes
      each edit term exactly 1 or 0. */
  lemma EditTermIsIndicator(d: nat, norm: nat)
    requires 0 < norm && d <= norm
    ensures EditTerm(d, norm) as real == Indicator(d < norm)
  {
    if d < norm {
      assert d / norm == 0;
    } else {
      assert d / norm == 1;
    }
  }

  /** The closed form of the distance of two non-empty strings. */
  lemma StringDistanceClosedForm(ext: Ext, s1: string, s2: string)
    requires ext.Valid() && s1 != [] && s2 != []
    ensures StringDistance(ext, s1, s2)
      == 0.5 * ext.jaro(s1, s2)
       + 0.25 * Indicator(ext.levenshtein(s1, s2) < Max(|s1|, |s2|))
       + 0.25 * Indicator(ext.damerau(s1, s2) < Max(|s1|, |s2|))
  {
    var norm := Max(|s1|, |s2|);
    EditTermIsIndicator(ext.levenshtein(s1, s2), norm);
    EditTermIsIndicator(ext.damerau(s1, s2), norm);
  }

  /** A non-empty string is at distance exactly 1 from itself: the maximum. */
  lemma StringDistanceSelf(ext: Ext, s: string)
    requires ext.Valid() && s != []
    ensures StringDistance(ext, s, s) == 1.0
  {
    StringDistanceClosedForm(ext, s, s);
  }

  // ---------------------------------------------------------------------
  // Sparse Euclidean distance

  /** `x ** 2` */
  function Square(x: real): (r: real)
    ensures r >= 0.0
  {
    x * x
  }

  lemma SquareOfDifference(a: real, b: real)
    ensures Square(a - b) == Square(b - a)
  {
  }

  /** The contribution of dimension `d`: the squared difference when both
      maps have it, the squared value when only one has it. */
  function Term(p: map<int, real>, q: map<int, real>, d: int): (t: real)
    ensures t >= 0.0
  {
    if d in p && d in q then Square(p[d] - q[d])
    else if d in p then Square(p[d])
    else if d in q then Square(q[d])
    else 0.0
  }

  /** The sum of `Term` over a finite set of dimensions. */
  ghost function SumOver(dims: set<int>, p: map<int, real>, q: map<int, real>): (s: real)
    ensures s >= 0.0
    decreases |dims|
  {
    if dims == {} then 0.0
    else
      Inhabited(dims);
      var d :| d in dims;
      Term(p, q, d) + SumOver(dims - {d}, p, q)
  }

  /** The sum does not depend on which dimension is taken first. */
  lemma {:induction false} SumOverRemove(dims: set<int>, p: map<int, real>, q: map<int, real>, d: int)
    requires d in dims
    ensures SumOver(dims, p, q) == Term(p, q, d) + SumOver(dims - {d}, p, q)
    decreases |dims|
  {
    var e :| e in dims && SumOver(dims, p, q) == Term(p, q, e) + SumOver(dims - {e}, p, q);
    if e != d {
      SumOverRemove(dims - {e}, p, q, d);
      SumOverRemove(dims - {d}, p, q, e);
      assert dims - {e} - {d} == dims - {d} - {e};
    }
  }

  lemma SumOverAdd(dims: set<int>, p: map<int, real>, q: map<int, real>, d: int)
    requires d !in dims
    ensures SumOver(dims + {d}, p, q) == SumOver(dims, p, q) + Term(p, q, d)
  {
    SumOverRemove(dims + {d}, p, q, d);
    assert dims + {d} - {d} == dims;
  }

  /** The square of `euclidean_distance(p, q)`: the sum, over the union of
      the keys, of the squared difference. */
  ghost function SqDistance(p: map<int, real>, q: map<int, real>): real {
    SumOver(p.Keys + q.Keys, p, q)
  }

  lemma {:induction false} SumOverSymmetric(dims: set<int>, p: map<int, real>, q: map<int, real>)
    ensures SumOver(dims, p, q) == SumOver(dims, q, p)
    decreases |dims|
  {
    if dims != {} {
      Inhabited(dims);
      var d :| d in dims;
      SumOverRemove(dims, p, q, d);
      SumOverRemove(dims, q, p, d);
      SumOverSymmetric(dims - {d}, p, q);
      if d in p && d in q {
        SquareOfDifference(p[d], q[d]);
      }
    }
  }

  lemma {:induction false} SumOverSame(dims: set<int>, p: map<int, real>)
    ensures SumOver(dims, p, p) == 0.0
    decreases |dims|
  {
    if dims != {} {
      Inhabited(dims);
      var d :| d in dims;
      SumOverRemove(dims, p, p, d);
      SumOverSame(dims - {d}, p);
    }
  }

  /** The value of `euclidean_distance(p, q)`. */
  ghost function Distance(ext: Ext, p: map<int, real>, q: map<int, real>): real {
    ext.sqrt(SqDistance(p, q))
  }

  /** The distance is non-negative and its square is the sum over the union of
      the keys of the squared difference, a missing key counting as 0. */
  lemma DistanceSquared(ext: Ext, p: map<int, real>, q: map<int, real>)
    requires ext.Valid()
    ensures Distance(ext, p, q) >= 0.0
    ensures Square(Distance(ext, p, q)) == SumOver(p.Keys + q.Keys, p, q)
  {
  }

  /** `euclidean_distance` is symmetric. */
  lemma DistanceSymmetric(ext: Ext, p: map<int, real>, q: map<int, real>)
    ensures Distance(ext, p, q) == Distance(ext, q, p)
  {
    SqDistanceSymmetric(p, q);
  }

  /** A map is at distance 0 from itself; in particular two empty maps are. */
  lemma DistanceSelf(ext: Ext, p: map<int, real>)
    requires ext.Valid()
    ensures Distance(ext, p, p) == 0.0
  {
    SqDistanceSelf(p);
  }

  lemma SqDistanceSymmetric(p: map<int, real>, q: map<int, real>)
    ensures SqDistance(p, q) == SqDistance(q, p)
  {
    SumOverSymmetric(p.Keys + q.Keys, p, q);
    assert p.Keys + q.Keys == q.Keys + p.Keys;
  }

  /** The squared distance of a map to itself is 0. */
  lemma SqDistanceSelf(p: map<int, real>)
    ensures SqDistance(p, p) == 0.0
  {
    SumOverSame(p.Keys, p);
    assert p.Keys + p.Keys == p.Keys;
  }

  /** One key of the first pass of `euclidean_distance` moves from `todo` to
      the keys already summed. */
  lemma FirstPassStep(p: map<int, real>, q: map<int, real>, todo: set<int>, d: int)
    requires todo <= p.Keys && d in todo
    ensures SumOver(p.Keys - (todo - {d}), p, q) == SumOver(p.Keys - todo, p, q) + Term(p, q, d)
  {
    SumOverAdd(p.Keys - todo, p, q, d);
    assert p.Keys - (todo - {d}) == (p.Keys - todo) + {d};
  }

  /** One key of the second pass: only a key missing from `p` adds a term,
      its squared value. */
  lemma SecondPassStep(p: map<int, real>, q: map<int, real>, rest: set<int>, d: int)
    requires rest <= q.Keys && d in rest
    ensures rest - {d} <= q.Keys
    ensures d in p ==> SumOver(p.Keys + (q.Keys - (rest - {d})), p, q) == SumOver(p.Keys + (q.Keys - rest), p, q)
    ensures d !in p ==> SumOver(p.Keys + (q.Keys - (rest - {d})), p, q) == SumOver(p.Keys + (q.Keys - rest), p, q) + Square(q[d])
  {
    var before := p.Keys + (q.Keys - rest);
    if d in p {
      assert p.Keys + (q.Keys - (rest - {d})) == before;
    } else {
      SumOverAdd(before, p, q, d);
      assert p.Keys + (q.Keys - (rest - {d})) == before + {d};
    }
  }

  /** The keys covered before and after the second pass. */
  lemma SecondPassEnds(p: map<int, real>, q: map<int, real>)
    ensures p.Keys + (q.Keys - q.Keys) == p.Keys
    ensures p.Keys + (q.Keys - {}) == p.Keys + q.Keys
  {
  }

  /** The first loop of `euclidean_distance` (feature.py:30-34): every key of
      `p`, squared difference when `q` has it, squared value otherwise.
      Python's dict order is unspecified, so the keys are taken in any order. */
  method SumKeysOfFirst(p: map<int, real>, q: map<int, real>) returns (distance: real)
    ensures distance == SumOver(p.Keys, p, q)
  {
    distance := 0.0;
    var todo := p.Keys;
    while todo != {}
      invariant todo <= p.Keys
      invariant distance == SumOver(p.Keys - todo, p, q)
      decreases |todo|
    {
      Inhabited(todo);
      var d :| d in todo;
      FirstPassStep(p, q, todo, d);
      if d in q {
        distance := distance + Square(p[d] - q[d]);
      } else {
        distance := distance + Square(p[d]);
      }
      todo := todo - {d};
    }
    assert p.Keys - todo == p.Keys;
  }

  /** The second loop (feature.py:36-38): adds the squared value of every key
      of `q` that `p` lacks to the running sum `start` over the keys of `p`. */
  method AddKeysOfSecond(p: map<int, real>, q: map<int, real>, start: real) returns (distance: real)
    requires start == SumOver(p.Keys, p, q)
    ensures distance == SumOver(p.Keys + q.Keys, p, q)
  {
    distance := start;
    var rest := q.Keys;
    SecondPassEnds(p, q);
    while rest != {}
      invariant rest <= q.Keys
      invariant distance == SumOver(p.Keys + (q.Keys - rest), p, q)
      decreases |rest|
    {
      Inhabited(rest);
      var d :| d in rest;
      SecondPassStep(p, q, rest, d);
      if d !in p {
        distance := distance + Square(q[d]);
      }
      rest := rest - {d};
    }
  }

  /** `euclidean_distance` (feature.py:26-41): the square root of the two passes. */
  method EuclideanDistance(ext: Ext, p: map<int, real>, q: map<int, real>) returns (r: real)
    ensures r == Distance(ext, p, q)
  {
    var distance := SumKeysOfFirst(p, q);
    distance := AddKeysOfSecond(p, q, distance);
    r := ext.sqrt(distance);
  }
}
