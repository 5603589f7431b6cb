/**
 * The highlight store of a `text-doc` element: the `highlights` array and
 * the `needsSort` flag that the element's constructor closes over, with the
 * operations it exposes on them and the sort step that opens every render.
 *
 * The flag implements invalidate-then-rebuild: adding a record marks the
 * order stale, the render path sorts only when it is stale and then marks it
 * fresh. `Valid` is the invariant that makes this sound: whenever the flag is
 * clear, the store is already in sorted order.
 */
module TextDoc {
  import opened Values
  import opened HighlightOrder
  import opened HighlightSearch

  class TextDocument {
    /** The stored ranges, in store order. */
    var highlights: seq<Highlight>
    /** Set by every addition; cleared once the store has been sorted. */
    var needsSort: bool

    ghost predicate Valid()
      reads this
    {
      !needsSort ==> Sorted(highlights)
    }

    /** A new element starts with no highlights and nothing to sort. */
    constructor ()
      ensures Valid()
      ensures highlights == [] && !needsSort
    {
      needsSort := false;
      highlights := [];
    }

    /**
     * `addHighlight(start, end, color = '#FFFF00')`: throws when either bound
     * is not a number and changes nothing then; otherwise marks the order
     * stale and appends one record at the end.
     */
    method AddHighlight(start: Number, end: Number, color: Option<string>) returns (r: Outcome)
      requires Valid()
      modifies this
      ensures Valid()
      ensures r.Fail? <==> start.NotANumber? || end.NotANumber?
      ensures r.Fail? ==> r.error == InvalidArgument
      ensures r.Fail? ==> highlights == old(highlights) && needsSort == old(needsSort)
      ensures r.Pass? ==> highlights == old(highlights) + [Highlight(start.value, end.value, color.GetOr(DefaultColor))]
      ensures r.Pass? ==> needsSort
    {
      if start.NotANumber? || end.NotANumber? {
        return Fail(InvalidArgument);
      }
      needsSort := true;
      highlights := highlights + [Highlight(start.value, end.value, color.GetOr(DefaultColor))];
      r := Pass;
    }

    /**
     * `getHighlight(start, end)`: a copy of the first record that matches
     * every bound given as a number, annotated with its index; `None` (null)
     * when no record matches. The store is only read.
     */
    method GetHighlight(start: Number, end: Number) returns (r: Option<FoundHighlight>)
      ensures r.None? <==> forall j :: 0 <= j < |highlights| ==> !Matches(highlights[j], start, end)
      ensures r.Some? ==> FirstMatch(highlights, start, end) == Some(r.value.index)
      ensures r.Some? ==> r.value.index < |highlights| && r.value == Annotate(highlights[r.value.index], r.value.index)
    {
      var hasStart := !start.NotANumber?;
      var hasEnd := !end.NotANumber?;
      var i := 0;
      while i < |highlights|
        invariant 0 <= i <= |highlights|
        invariant FirstMatchFrom(highlights, start, end, i) == FirstMatch(highlights, start, end)
      {
        var highlight := highlights[i];
        if hasStart && highlight.start != start.value {
          i := i + 1;
          continue;
        }
        if hasEnd && highlight.end != end.value {
          i := i + 1;
          continue;
        }
        return Some(Annotate(highlight, i));
      }
      return None;
    }

    /**
     * `removeHighlight(obj)`: with own `start` and `end` properties, removes
     * the record `getHighlight(obj.start, obj.end)` finds, and fails with
     * `NotFound` (the source dereferences `null` and throws) when there is
     * none; otherwise, with an own `index` property, does
     * `splice(obj.index, 1)`; otherwise does nothing. The flag is left alone.
     */
    method RemoveHighlight(ref: HighlightRef) returns (r: Outcome)
      requires Valid()
      modifies this
      ensures Valid()
      ensures needsSort == old(needsSort)
      ensures ref.ByBounds() && FirstMatch(old(highlights), ref.start.value, ref.end.value).None?
          ==> r == Fail(NotFound) && highlights == old(highlights)
      ensures ref.ByBounds() && FirstMatch(old(highlights), ref.start.value, ref.end.value).Some?
          ==> r == Pass && highlights == RemoveAt(old(highlights), FirstMatch(old(highlights), ref.start.value, ref.end.value).value)
      ensures !ref.ByBounds() && ref.index.Some? ==> r == Pass && highlights == Splice(old(highlights), ref.index.value)
      ensures !ref.ByBounds() && ref.index.None? ==> r == Pass && highlights == old(highlights)
    {
      if ref.ByBounds() {
        var highlight := GetHighlight(ref.start.value, ref.end.value);
        if highlight.None? {
          return Fail(NotFound);
        }
        if !needsSort {
          SortedSplice(highlights, Num(highlight.value.index));
        }
        highlights := Splice(highlights, Num(highlight.value.index));
      } else if ref.index.Some? {
        if !needsSort {
          SortedSplice(highlights, ref.index.value);
        }
        highlights := Splice(highlights, ref.index.value);
      }
      r := Pass;
    }

    /**
     * The sort step at the top of `applyHighlights`: sorts the store with
     * the comparator only when the order is stale, then marks it fresh.
     * Either way the store ends up as the stable sort of what it was, so
     * skipping the sort when the flag is clear loses nothing.
     */
    method SortIfNeeded()
      requires Valid()
      modifies this
      ensures Valid() && !needsSort
      ensures highlights == StableSort(old(highlights))
      ensures !old(needsSort) ==> highlights == old(highlights)
      ensures Sorted(highlights) && multiset(highlights) == multiset(old(highlights))
      ensures forall start, end :: WithBounds(highlights, start, end) == WithBounds(old(highlights), start, end)
    {
      if needsSort {
        forall start, end ensures WithBounds(StableSort(highlights), start, end) == WithBounds(highlights, start, end) {
          StableSortKeepsTies(highlights, start, end);
        }
        highlights := StableSort(highlights);
        needsSort := false;
      } else {
        StableSortOfSorted(highlights);
      }
    }
  }
}
