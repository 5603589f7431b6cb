/**
 * The specification functions behind lookup and removal in the highlight
 * store: which records a `(start, end)` query matches, the first of them,
 * and `Array.prototype.splice(index, 1)` on the store.
 */
module HighlightSearch {
  import opened Values
  import opened HighlightOrder

  /** A bound that is a number must equal the record's; one that is not a number matches anything. */
  predicate Matches(h: Highlight, start: Number, end: Number) {
    (start.NotANumber? || h.start == start.value) && (end.NotANumber? || h.end == end.value)
  }

  /** The first position at or after `from` whose record matches the query, if any. */
  function FirstMatchFrom(hs: seq<Highlight>, start: Number, end: Number, from: nat): (r: Option<nat>)
    requires from <= |hs|
    ensures r.Some? ==> from <= r.value < |hs| && Matches(hs[r.value], start, end)
    ensures r.Some? ==> forall j :: from <= j < r.value ==> !Matches(hs[j], start, end)
    ensures r.None? <==> forall j :: from <= j < |hs| ==> !Matches(hs[j], start, end)
    decreases |hs| - from
  {
    if from == |hs| then None
    else if Matches(hs[from], start, end) then Some(from)
    else FirstMatchFrom(hs, start, end, from + 1)
  }

  /** The smallest position whose record matches the query, or `None` exactly when none does. */
  function FirstMatch(hs: seq<Highlight>, start: Number, end: Number): (r: Option<nat>)
    ensures r.Some? ==> r.value < |hs| && Matches(hs[r.value], start, end)
    ensures r.Some? ==> forall j :: 0 <= j < r.value ==> !Matches(hs[j], start, end)
    ensures r.None? <==> forall j :: 0 <= j < |hs| ==> !Matches(hs[j], start, end)
  {
    FirstMatchFrom(hs, start, end, 0)
  }

  /** The copy of record `h` that a lookup hands out, tagged with its position `i`. */
  function Annotate(h: Highlight, i: nat): FoundHighlight {
    FoundHighlight(h.start, h.end, h.color, i)
  }

  /** With both bounds omitted the query matches the first record, if there is one. */
  lemma WildcardFindsFirst(hs: seq<Highlight>)
    ensures FirstMatch(hs, NotANumber, NotANumber) == if hs == [] then None else Some(0)
  {
  }

  /** Appending a record leaves an earlier match in place; otherwise the new record is found if it matches. */
  lemma FirstMatchAppend(hs: seq<Highlight>, h: Highlight, start: Number, end: Number)
    ensures FirstMatch(hs + [h], start, end)
         == if FirstMatch(hs, start, end).Some? then FirstMatch(hs, start, end)
            else if Matches(h, start, end) then Some(|hs|)
            else None
  {
    var s := hs + [h];
    assert forall j :: 0 <= j < |hs| ==> s[j] == hs[j];
    assert s[|hs|] == h;
    var r := FirstMatch(s, start, end);
    match FirstMatch(hs, start, end)
    case Some(k) =>
      assert Matches(s[k], start, end);
    case None =>
      if Matches(h, start, end) {
        assert Matches(s[|hs|], start, end);
      }
  }

  /**
   * A record just added by its own bounds is found again by them: at its
   * own position, with its own colour, unless an earlier record has the
   * same bounds.
   */
  lemma AddedIsFound(hs: seq<Highlight>, start: int, end: int, color: string)
    ensures var r := FirstMatch(hs + [Highlight(start, end, color)], Num(start), Num(end));
            && r.Some?
            && (hs + [Highlight(start, end, color)])[r.value].start == start
            && (hs + [Highlight(start, end, color)])[r.value].end == end
            && (FirstMatch(hs, Num(start), Num(end)).None? ==> r == Some(|hs|))
  {
    FirstMatchAppend(hs, Highlight(start, end, color), Num(start), Num(end));
  }

  /** `s` without its element at position `i`; the others keep their order. */
  function RemoveAt(s: seq<Highlight>, i: nat): (r: seq<Highlight>)
    requires i < |s|
    ensures |r| == |s| - 1
    ensures forall j :: 0 <= j < i ==> r[j] == s[j]
    ensures forall j :: i <= j < |r| ==> r[j] == s[j + 1]
    ensures multiset(r) == multiset(s) - multiset{s[i]}
  {
    assert s == s[..i] + [s[i]] + s[i + 1..];
    s[..i] + s[i + 1..]
  }

  /**
   * `hs.splice(index, 1)`: the start position is `index`, counted from the
   * end when negative and taken as 0 when not a number, clamped to the
   * array; the element there is removed, if there is one.
   */
  function Splice(hs: seq<Highlight>, index: Number): (r: seq<Highlight>)
    ensures index.Num? && 0 <= index.value < |hs| ==> r == RemoveAt(hs, index.value)
    ensures index.Num? && index.value < 0 <= |hs| + index.value ==> r == RemoveAt(hs, |hs| + index.value)
    ensures index.Num? && index.value >= |hs| ==> r == hs
    ensures hs != [] && (index.NotANumber? || |hs| + index.value < 0) ==> r == RemoveAt(hs, 0)
    ensures hs == [] ==> r == []
  {
    var p: nat :=
      match index
      case NotANumber => 0
      case Num(i) => if i >= 0 then i else if |hs| + i < 0 then 0 else |hs| + i;
    if p < |hs| then RemoveAt(hs, p) else hs
  }

  /** Deleting one record from a sorted store leaves it sorted. */
  lemma SortedRemoveAt(s: seq<Highlight>, i: nat)
    requires i < |s| && Sorted(s)
    ensures Sorted(RemoveAt(s, i))
  {
    var r := RemoveAt(s, i);
    forall a, b | 0 <= a < b < |r| ensures Compare(r[a], r[b]) <= 0 {
      var a', b' := if a < i then a else a + 1, if b < i then b else b + 1;
      assert r[a] == s[a'] && r[b] == s[b'];
    }
  }

  /** Any splice of a sorted store is sorted. */
  lemma SortedSplice(s: seq<Highlight>, index: Number)
    requires Sorted(s)
    ensures Sorted(Splice(s, index))
  {
    if s != [] {
      match index
      case NotANumber =>
        SortedRemoveAt(s, 0);
      case Num(i) =>
        if 0 <= i < |s| {
          SortedRemoveAt(s, i);
        } else if i < 0 <= |s| + i {
          SortedRemoveAt(s, |s| + i);
        } else if i < 0 {
          SortedRemoveAt(s, 0);
        }
    }
  }

  /** A matching position with no match before it is the first match. */
  lemma FirstMatchIs(hs: seq<Highlight>, start: Number, end: Number, i: nat)
    requires i < |hs| && Matches(hs[i], start, end)
    requires forall j :: 0 <= j < i ==> !Matches(hs[j], start, end)
    ensures FirstMatch(hs, start, end) == Some(i)
  {
  }

  /** Positions of `RemoveAt(hs, k)` before `stop` hold records of `hs` that do not match. */
  lemma RemoveAtUnmatched(hs: seq<Highlight>, start: Number, end: Number, k: nat, stop: nat)
    requires k < |hs| && stop <= |hs| - 1
    requires forall j :: 0 <= j < k ==> !Matches(hs[j], start, end)
    requires forall j :: k < j <= stop ==> !Matches(hs[j], start, end)
    ensures forall m :: 0 <= m < stop ==> !Matches(RemoveAt(hs, k)[m], start, end)
  {
    var r := RemoveAt(hs, k);
    forall m | 0 <= m < stop ensures !Matches(r[m], start, end) {
      if m < k {
        assert r[m] == hs[m];
      } else {
        assert r[m] == hs[m + 1];
      }
    }
  }

  /**
   * After the first match `k` of a query is removed, the same query finds
   * nothing when `k` was the only match ...
   */
  lemma RemoveLastMatch(hs: seq<Highlight>, start: Number, end: Number, k: nat)
    requires FirstMatch(hs, start, end) == Some(k)
    requires FirstMatchFrom(hs, start, end, k + 1).None?
    ensures FirstMatch(RemoveAt(hs, k), start, end).None?
  {
    RemoveAtUnmatched(hs, start, end, k, |hs| - 1);
  }

  /** ... and otherwise finds the next match of the old store, one position earlier. */
  lemma RemoveBeforeNextMatch(hs: seq<Highlight>, start: Number, end: Number, k: nat, j: nat)
    requires FirstMatch(hs, start, end) == Some(k)
    requires FirstMatchFrom(hs, start, end, k + 1) == Some(j)
    ensures FirstMatch(RemoveAt(hs, k), start, end) == Some(j - 1)
  {
    var r := RemoveAt(hs, k);
    RemoveAtUnmatched(hs, start, end, k, j - 1);
    assert r[j - 1] == hs[j];
    FirstMatchIs(r, start, end, j - 1);
  }

  /** If only one record matches, removing it leaves a store in which the query finds nothing. */
  lemma RemoveOnlyMatch(hs: seq<Highlight>, start: Number, end: Number)
    requires FirstMatch(hs, start, end).Some?
    requires forall j :: 0 <= j < |hs| && j != FirstMatch(hs, start, end).value ==> !Matches(hs[j], start, end)
    ensures FirstMatch(RemoveAt(hs, FirstMatch(hs, start, end).value), start, end).None?
  {
    RemoveLastMatch(hs, start, end, FirstMatch(hs, start, end).value);
  }
}
