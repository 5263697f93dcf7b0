/** `Array.prototype.sort` with a comparator, as ECMAScript 2019 and later require it: a stable
    sort. The comparator is given through `le(a, b)`, "`a` may stay before `b`", that is
    `compare(a, b) <= 0`. The sort is written as an insertion sort; `SortIsUnique` shows that
    any stable sorted permutation is this one, so the choice of algorithm does not matter. */
module StableSort {
  import opened Seqs

  /** `le` is total and transitive: what a consistent comparator gives. */
  ghost predicate TotalPreorder<T(!new)>(le: (T, T) -> bool) {
    && (forall a, b :: le(a, b) || le(b, a))
    && (forall a, b, c :: le(a, b) && le(b, c) ==> le(a, c))
  }

  ghost predicate Sorted<T>(le: (T, T) -> bool, s: seq<T>) {
    forall i, j :: 0 <= i < j < |s| ==> le(s[i], s[j])
  }

  /** The elements the comparator cannot tell apart from `x` (`compare` gives 0 both ways). */
  function EquivalentTo<T>(le: (T, T) -> bool, x: T): T -> bool {
    y => le(x, y) && le(y, x)
  }

  /** Places `x` in `s` before the first element it may precede. */
  function Insert<T(!new)>(le: (T, T) -> bool, x: T, s: seq<T>): (r: seq<T>)
    ensures |r| == |s| + 1
    ensures multiset(r) == multiset(s) + multiset{x}
  {
    if s == [] then [x]
    else if le(x, s[0]) then [x] + s
    else
      assert s == [s[0]] + s[1..];
      [s[0]] + Insert(le, x, s[1..])
  }

  /** The sorted copy of `s`. */
  function Sort<T(!new)>(le: (T, T) -> bool, s: seq<T>): (r: seq<T>)
    ensures |r| == |s|
    ensures multiset(r) == multiset(s)
  {
    if s == [] then []
    else
      assert s == [s[0]] + s[1..];
      Insert(le, s[0], Sort(le, s[1..]))
  }

  lemma {:induction false} InsertSorted<T(!new)>(le: (T, T) -> bool, x: T, s: seq<T>)
    requires TotalPreorder(le)
    requires Sorted(le, s)
    ensures Sorted(le, Insert(le, x, s))
  {
    if s != [] && !le(x, s[0]) {
      var tail := Insert(le, x, s[1..]);
      InsertSorted(le, x, s[1..]);
      forall k | 0 <= k < |tail| ensures le(s[0], tail[k]) {
        assert tail[k] in multiset(tail);
        if tail[k] != x {
          assert tail[k] in s[1..];
        }
      }
    }
  }

  /** With a consistent comparator the result is ordered. */
  lemma {:induction false} SortSorted<T(!new)>(le: (T, T) -> bool, s: seq<T>)
    requires TotalPreorder(le)
    ensures Sorted(le, Sort(le, s))
  {
    if s != [] {
      SortSorted(le, s[1..]);
      InsertSorted(le, s[0], Sort(le, s[1..]));
    }
  }

  /** Inserting `x` in front of elements it may not precede does not reorder the elements of
      any class `p` of mutually equivalent elements. */
  lemma {:induction false} InsertStable<T(!new)>(le: (T, T) -> bool, x: T, s: seq<T>, p: T -> bool)
    requires forall a, b :: p(a) && p(b) ==> le(a, b)
    ensures Filter(p, Insert(le, x, s)) == Filter(p, [x] + s)
  {
    if s != [] && !le(x, s[0]) {
      var h, s' := s[0], s[1..];
      var ins := Insert(le, x, s');
      assert Insert(le, x, s) == [h] + ins;
      InsertStable(le, x, s', p);
      FilterConcat(p, [h], ins);
      FilterConcat(p, [x], s');
      FilterConcat(p, [h], s');
      FilterConcat(p, [x], s);
      assert [h] + s' == s;
      var fx, fh := Filter(p, [x]), Filter(p, [h]);
      // at most one of x and h is in the class, since x may not precede h
      assert fx == [] || fh == [];
      assert fh + fx == fx + fh;
    }
  }

  /** Stability: the elements of any class of mutually equivalent elements come out in the
      order they went in. */
  lemma {:induction false} SortStable<T(!new)>(le: (T, T) -> bool, s: seq<T>, p: T -> bool)
    requires forall a, b :: p(a) && p(b) ==> le(a, b)
    ensures Filter(p, Sort(le, s)) == Filter(p, s)
  {
    if s != [] {
      var s' := s[1..];
      calc {
        Filter(p, Sort(le, s));
        Filter(p, Insert(le, s[0], Sort(le, s')));
        { InsertStable(le, s[0], Sort(le, s'), p); }
        Filter(p, [s[0]] + Sort(le, s'));
        { FilterConcat(p, [s[0]], Sort(le, s')); }
        Filter(p, [s[0]]) + Filter(p, Sort(le, s'));
        { SortStable(le, s', p); }
        Filter(p, [s[0]]) + Filter(p, s');
        { FilterConcat(p, [s[0]], s'); assert [s[0]] + s' == s; }
        Filter(p, s);
      }
    }
  }

  /** Under a total preorder, an equivalence class is a class of mutually equivalent elements. */
  lemma EquivalenceClass<T(!new)>(le: (T, T) -> bool, x: T)
    requires TotalPreorder(le)
    ensures forall a, b :: EquivalentTo(le, x)(a) && EquivalentTo(le, x)(b) ==> le(a, b)
  {
  }

  /** The first element of a sorted sequence may precede every element of it. */
  lemma HeadPrecedes<T(!new)>(le: (T, T) -> bool, t: seq<T>, v: T)
    requires TotalPreorder(le)
    requires Sorted(le, t)
    requires v in t
    ensures le(t[0], v)
  {
    var k :| 0 <= k < |t| && t[k] == v;
    if k > 0 {
      assert le(t[0], t[k]);
    }
  }

  /** A common first element can be dropped from both sides of an equation between filters. */
  lemma FilterDropHead<T(!new)>(p: T -> bool, x: T, a: seq<T>, b: seq<T>)
    requires Filter(p, [x] + a) == Filter(p, [x] + b)
    ensures Filter(p, a) == Filter(p, b)
  {
    FilterConcat(p, [x], a);
    FilterConcat(p, [x], b);
    var head := Filter(p, [x]);
    assert Filter(p, a) == (head + Filter(p, a))[|head|..];
    assert Filter(p, b) == (head + Filter(p, b))[|head|..];
  }

  /** Two sorted sequences that list every equivalence class the same way have the same first
      element. */
  lemma SortedSameClassesSameHead<T(!new)>(le: (T, T) -> bool, r: seq<T>, t: seq<T>)
    requires TotalPreorder(le)
    requires Sorted(le, r) && Sorted(le, t)
    requires r != [] && t != []
    requires forall x :: Filter(EquivalentTo(le, x), r) == Filter(EquivalentTo(le, x), t)
    ensures r[0] == t[0]
  {
    var x, y := r[0], t[0];
    var p, q := EquivalentTo(le, x), EquivalentTo(le, y);
    assert p(x) && q(y) by { assert le(x, x) && le(y, y); }
    // x is in t, so y may precede it; y is in r, so x may precede y
    assert Filter(p, r) == Filter(p, t);
    FilterCount(p, r, x);
    FilterCount(p, t, x);
    HeadPrecedes(le, t, x);
    assert Filter(q, r) == Filter(q, t);
    FilterCount(q, t, y);
    FilterCount(q, r, y);
    HeadPrecedes(le, r, y);
    assert p(y);
    assert Filter(p, r)[0] == x;
    assert Filter(p, t)[0] == y;
  }

  /** Two sorted sequences that list every equivalence class the same way are equal. */
  lemma {:induction false} SortedSameClassesEqual<T(!new)>(le: (T, T) -> bool, r: seq<T>, t: seq<T>)
    requires TotalPreorder(le)
    requires Sorted(le, r) && Sorted(le, t)
    requires forall x :: Filter(EquivalentTo(le, x), r) == Filter(EquivalentTo(le, x), t)
    ensures r == t
    decreases |r| + |t|
  {
    if r == [] || t == [] {
      if r != [] {
        FilterCount(EquivalentTo(le, r[0]), r, r[0]);
      }
      if t != [] {
        FilterCount(EquivalentTo(le, t[0]), t, t[0]);
      }
    } else {
      SortedSameClassesSameHead(le, r, t);
      var x := r[0];
      assert r == [x] + r[1..] && t == [x] + t[1..];
      forall z ensures Filter(EquivalentTo(le, z), r[1..]) == Filter(EquivalentTo(le, z), t[1..]) {
        FilterDropHead(EquivalentTo(le, z), x, r[1..], t[1..]);
      }
      SortedSameClassesEqual(le, r[1..], t[1..]);
    }
  }

  /** Characterisation: a sorted sequence that lists every equivalence class of `s` in the
      order `s` lists it is exactly `Sort(le, s)`. */
  lemma SortIsUnique<T(!new)>(le: (T, T) -> bool, s: seq<T>, r: seq<T>)
    requires TotalPreorder(le)
    requires Sorted(le, r)
    requires forall x :: Filter(EquivalentTo(le, x), r) == Filter(EquivalentTo(le, x), s)
    ensures r == Sort(le, s)
  {
    SortSorted(le, s);
    forall x ensures Filter(EquivalentTo(le, x), Sort(le, s)) == Filter(EquivalentTo(le, x), s) {
      EquivalenceClass(le, x);
      SortStable(le, s, EquivalentTo(le, x));
    }
    SortedSameClassesEqual(le, r, Sort(le, s));
  }
}
