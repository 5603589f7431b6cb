/**
 * The order in which highlights are kept before they are rendered:
 * `start` ascending, and among equal starts the longer range first.
 *
 * `Compare` is the comparator handed to `Array.prototype.sort`. The sort
 * itself is a library routine that ECMAScript requires to be stable; it is
 * modelled by `StableSort`, an insertion sort, and the lemmas below prove
 * that it sorts, permutes, keeps records with equal bounds in their prior
 * order, and that these three facts determine its result uniquely, so any
 * stable sort under `Compare` yields the same sequence.
 */
module HighlightOrder {
  import opened Values

  /**
   * `(a.start - b.start) || ((b.end - b.start) - (a.end - a.start))`:
   * JavaScript's `||` on numbers yields its left operand unless that is 0.
   * Negative means `a` goes first, positive means `b` goes first.
   */
  function Compare(a: Highlight, b: Highlight): (r: int)
    ensures r < 0 <==> a.start < b.start || (a.start == b.start && a.end - a.start > b.end - b.start)
    ensures r == 0 <==> a.start == b.start && a.end == b.end
  {
    var byStart := a.start - b.start;
    if byStart != 0 then byStart else (b.end - b.start) - (a.end - a.start)
  }

  /** The comparator is consistent in the sense the sort requires: swapping the arguments negates it ... */
  lemma CompareAntisymmetric(a: Highlight, b: Highlight)
    ensures Compare(a, b) == -Compare(b, a)
  {
  }

  /** ... and "may go first" is transitive. */
  lemma CompareTransitive(a: Highlight, b: Highlight, c: Highlight)
    requires Compare(a, b) <= 0 && Compare(b, c) <= 0
    ensures Compare(a, c) <= 0
  {
  }

  /** No record of `s` must go after a later one. */
  predicate Sorted(s: seq<Highlight>) {
    forall i, j :: 0 <= i < j < |s| ==> Compare(s[i], s[j]) <= 0
  }

  /** `[h]` when `h` has the given bounds, else `[]`: what `h` contributes to their group. */
  function GroupOf(h: Highlight, start: int, end: int): seq<Highlight> {
    if h.start == start && h.end == end then [h] else []
  }

  /**
   * The records of `s` with exactly these bounds, in their order in `s`:
   * the records the comparator cannot tell apart from each other.
   */
  function WithBounds(s: seq<Highlight>, start: int, end: int): (r: seq<Highlight>)
    ensures |r| <= |s|
  {
    if s == [] then [] else GroupOf(s[0], start, end) + WithBounds(s[1..], start, end)
  }

  /** A group is empty exactly when no record has its bounds. */
  lemma {:induction false} WithBoundsEmpty(s: seq<Highlight>, start: int, end: int)
    ensures WithBounds(s, start, end) == [] <==> forall i :: 0 <= i < |s| ==> s[i].start != start || s[i].end != end
  {
    if s != [] {
      WithBoundsEmpty(s[1..], start, end);
      assert forall i :: 1 <= i < |s| ==> s[i] == s[1..][i - 1];
    }
  }

  lemma WithBoundsHead(s: seq<Highlight>, start: int, end: int)
    requires s != []
    ensures WithBounds(s, start, end) == GroupOf(s[0], start, end) + WithBounds(s[1..], start, end)
  {
  }

  /** `x` placed into `s` just before the first record it may go before. */
  function Insert(x: Highlight, s: seq<Highlight>): (r: seq<Highlight>)
    ensures multiset(r) == multiset(s) + multiset{x}
  {
    if s == [] || Compare(x, s[0]) <= 0 then [x] + s
    else
      assert s == [s[0]] + s[1..];
      [s[0]] + Insert(x, s[1..])
  }

  lemma SortedCons(a: Highlight, t: seq<Highlight>)
    requires Sorted(t)
    requires forall k :: 0 <= k < |t| ==> Compare(a, t[k]) <= 0
    ensures Sorted([a] + t)
  {
    forall i, j | 0 <= i < j < |[a] + t| ensures Compare(([a] + t)[i], ([a] + t)[j]) <= 0 {
      if i > 0 {
        assert ([a] + t)[i] == t[i - 1] && ([a] + t)[j] == t[j - 1];
      } else {
        assert ([a] + t)[j] == t[j - 1];
      }
    }
  }

  lemma SortedTail(s: seq<Highlight>)
    requires Sorted(s) && s != []
    ensures Sorted(s[1..])
  {
    forall i, j | 0 <= i < j < |s[1..]| ensures Compare(s[1..][i], s[1..][j]) <= 0 {
      assert s[1..][i] == s[i + 1] && s[1..][j] == s[j + 1];
    }
  }

  lemma MultisetCons(s: seq<Highlight>)
    requires s != []
    ensures multiset(s) == multiset(s[1..]) + multiset{s[0]}
  {
    assert s == [s[0]] + s[1..];
  }

  /** Inserting into a sorted sequence keeps it sorted. */
  lemma {:induction false} InsertSorted(x: Highlight, s: seq<Highlight>)
    requires Sorted(s)
    ensures Sorted(Insert(x, s))
  {
    if s == [] || Compare(x, s[0]) <= 0 {
      forall k | 0 <= k < |s| ensures Compare(x, s[k]) <= 0 {
        if k > 0 {
          CompareTransitive(x, s[0], s[k]);
        }
      }
      SortedCons(x, s);
    } else {
      SortedTail(s);
      InsertSorted(x, s[1..]);
      var t := Insert(x, s[1..]);
      forall k | 0 <= k < |t| ensures Compare(s[0], t[k]) <= 0 {
        assert t[k] in multiset(t);
        if t[k] != x {
          assert t[k] in multiset(s[1..]);
          var m :| 0 <= m < |s[1..]| && s[1..][m] == t[k];
          assert s[1..][m] == s[m + 1];
        }
      }
      SortedCons(s[0], t);
    }
  }

  /** The stable sort of the highlight store under `Compare`. */
  function StableSort(s: seq<Highlight>): (r: seq<Highlight>)
    ensures multiset(r) == multiset(s)
    ensures Sorted(r)
  {
    if s == [] then []
    else
      var rest := StableSort(s[1..]);
      InsertSorted(s[0], rest);
      MultisetCons(s);
      Insert(s[0], rest)
  }

  /** The step of `WithBoundsInsert` where `x` moves past the head of `t`. */
  lemma WithBoundsInsertPast(x: Highlight, t: seq<Highlight>, start: int, end: int)
    requires t != [] && Compare(x, t[0]) > 0
    requires WithBounds(Insert(x, t[1..]), start, end) == GroupOf(x, start, end) + WithBounds(t[1..], start, end)
    ensures WithBounds(Insert(x, t), start, end) == GroupOf(x, start, end) + WithBounds(t, start, end)
  {
    var u, t0, rest := Insert(x, t), t[0], Insert(x, t[1..]);
    assert u == [t0] + rest;
    assert u != [] && u[0] == t0 && u[1..] == rest;
    WithBoundsHead(u, start, end);
    WithBoundsHead(t, start, end);
    var gx, g0, w := GroupOf(x, start, end), GroupOf(t0, start, end), WithBounds(t[1..], start, end);
    // x and t0 differ in their bounds, so at most one of them joins the group
    if gx == [] {
      assert gx + w == w && gx + (g0 + w) == g0 + w;
    } else {
      assert g0 == [];
      assert g0 + (gx + w) == gx + w && g0 + w == w;
    }
  }

  /** `x` lands before every record that has its bounds, and leaves the others' order alone. */
  lemma {:induction false} WithBoundsInsert(x: Highlight, t: seq<Highlight>, start: int, end: int)
    ensures WithBounds(Insert(x, t), start, end) == GroupOf(x, start, end) + WithBounds(t, start, end)
  {
    if t == [] || Compare(x, t[0]) <= 0 {
      var u := [x] + t;
      assert Insert(x, t) == u;
      assert u[0] == x && u[1..] == t;
      WithBoundsHead(u, start, end);
    } else {
      WithBoundsInsert(x, t[1..], start, end);
      WithBoundsInsertPast(x, t, start, end);
    }
  }

  /** Stability: records equal on both keys keep their relative order. */
  lemma {:induction false} StableSortKeepsTies(s: seq<Highlight>, start: int, end: int)
    ensures WithBounds(StableSort(s), start, end) == WithBounds(s, start, end)
  {
    if s != [] {
      StableSortKeepsTies(s[1..], start, end);
      WithBoundsInsert(s[0], StableSort(s[1..]), start, end);
      WithBoundsHead(s, start, end);
    }
  }

  /** Two sorted sequences that agree on every group of equal-bounds records have heads with the same bounds. */
  lemma HeadsShareBounds(a: seq<Highlight>, b: seq<Highlight>)
    requires Sorted(a) && Sorted(b) && a != [] && b != []
    requires WithBounds(a, b[0].start, b[0].end) == WithBounds(b, b[0].start, b[0].end)
    requires WithBounds(b, a[0].start, a[0].end) == WithBounds(a, a[0].start, a[0].end)
    ensures a[0].start == b[0].start && a[0].end == b[0].end
  {
    // b[0]'s bounds occur somewhere in a, and a[0] goes no later than that record
    WithBoundsEmpty(a, b[0].start, b[0].end);
    WithBoundsEmpty(b, b[0].start, b[0].end);
    var i :| 0 <= i < |a| && a[i].start == b[0].start && a[i].end == b[0].end;
    assert Compare(a[0], b[0]) == Compare(a[0], a[i]) <= 0;
    // and symmetrically
    WithBoundsEmpty(a, a[0].start, a[0].end);
    WithBoundsEmpty(b, a[0].start, a[0].end);
    var j :| 0 <= j < |b| && b[j].start == a[0].start && b[j].end == a[0].end;
    assert Compare(b[0], a[0]) == Compare(b[0], b[j]) <= 0;
  }

  /** Equal heads with equal groups leave equal groups in the tails. */
  lemma TailsShareTies(a: seq<Highlight>, b: seq<Highlight>, start: int, end: int)
    requires a != [] && b != [] && a[0] == b[0]
    requires WithBounds(a, start, end) == WithBounds(b, start, end)
    ensures WithBounds(a[1..], start, end) == WithBounds(b[1..], start, end)
  {
    var wa, wb := WithBounds(a[1..], start, end), WithBounds(b[1..], start, end);
    WithBoundsHead(a, start, end);
    WithBoundsHead(b, start, end);
    var g := GroupOf(a[0], start, end);
    assert wa == (g + wa)[|g|..] == (g + wb)[|g|..] == wb;
  }

  /**
   * Two sorted sequences that agree on every group of records with equal
   * bounds are the same sequence.
   */
  lemma {:induction false} SortedTiesDetermine(a: seq<Highlight>, b: seq<Highlight>)
    requires Sorted(a) && Sorted(b)
    requires forall start, end :: WithBounds(a, start, end) == WithBounds(b, start, end)
    ensures a == b
  {
    if a == [] || b == [] {
      // a record at the head of either one has a non-empty group in both
      var w := if a != [] then a[0] else if b != [] then b[0] else Highlight(0, 0, DefaultColor);
      assert WithBounds(a, w.start, w.end) == WithBounds(b, w.start, w.end);
      WithBoundsEmpty(a, w.start, w.end);
      WithBoundsEmpty(b, w.start, w.end);
    } else {
      HeadsShareBounds(a, b);
      var a0 := a[0];
      WithBoundsHead(a, a0.start, a0.end);
      WithBoundsHead(b, a0.start, a0.end);
      var wa, wb := WithBounds(a, a0.start, a0.end), WithBounds(b, a0.start, a0.end);
      assert wa == wb;
      assert a0 == wa[0] == wb[0] == b[0];
      forall start, end ensures WithBounds(a[1..], start, end) == WithBounds(b[1..], start, end) {
        TailsShareTies(a, b, start, end);
      }
      SortedTail(a);
      SortedTail(b);
      SortedTiesDetermine(a[1..], b[1..]);
      assert a == [a0] + a[1..] && b == [a0] + b[1..];
    }
  }

  /**
   * Any sorted rearrangement of `s` that keeps equal-bounds records in
   * their order is `StableSort(s)`: the model of the library sort is the
   * only result a stable sort under `Compare` may produce.
   */
  lemma StableSortIsUnique(s: seq<Highlight>, r: seq<Highlight>)
    requires Sorted(r)
    requires forall start, end :: WithBounds(r, start, end) == WithBounds(s, start, end)
    ensures r == StableSort(s)
  {
    forall start, end ensures WithBounds(r, start, end) == WithBounds(StableSort(s), start, end) {
      StableSortKeepsTies(s, start, end);
    }
    SortedTiesDetermine(r, StableSort(s));
  }

  /** Sorting what is already sorted changes nothing. */
  lemma StableSortOfSorted(s: seq<Highlight>)
    requires Sorted(s)
    ensures StableSort(s) == s
  {
    StableSortIsUnique(s, s);
  }
}
