/** The order of a difference. */
module CfgDiffOrder {
  // What is gone comes first, in the order of the old lines; then what is new or other, in the order
  // of the new ones. A path stands where it is first listed.

  import opened CfgFlatten
  import opened Common

  /** The first line with that path, or the number of lines where there is none. */
  function FirstLine(entries: seq<FlatEntry>, path: bytes): nat {
    if entries == [] || entries[0].path == path then 0 else 1 + FirstLine(entries[1..], path)
  }

  lemma {:induction false} FirstLineIs(entries: seq<FlatEntry>, path: bytes)
    ensures var n := FirstLine(entries, path);
            && n <= |entries| && (n < |entries| ==> entries[n].path == path)
            && forall i | 0 <= i < n :: entries[i].path != path
  {
    if entries != [] && entries[0].path != path {
      FirstLineIs(entries[1..], path);
    }
  }

  /** Some line has the one path, and none up to it the other. */
  ghost predicate ComesFirst(entries: seq<FlatEntry>, path: bytes, other: bytes) {
    exists i :: 0 <= i < |entries| && entries[i].path == path && forall j | 0 <= j <= i :: entries[j].path != other
  }

  ghost predicate InOrder(d: seq<DiffEntry>, entries: seq<FlatEntry>) {
    forall i, j | 0 <= i < j < |d| :: ComesFirst(entries, d[i].path, d[j].path)
  }

  lemma OrderedComesFirst(d: seq<DiffEntry>, entries: seq<FlatEntry>)
    requires InLineOrder(d, entries) && AllListed(d, entries, {})
    ensures InOrder(d, entries)
  {
    hide FirstLine;
    forall i, j | 0 <= i < j < |d| ensures ComesFirst(entries, d[i].path, d[j].path) {
      FirstLineIs(entries, d[i].path);
      FirstLineIs(entries, d[j].path);
      var n := FirstLine(entries, d[i].path);
      assert FirstLine(entries, d[i].path) < FirstLine(entries, d[j].path);
      assert 0 <= n < |entries| && entries[n].path == d[i].path;
    }
  }

  ghost predicate InLineOrder(d: seq<DiffEntry>, entries: seq<FlatEntry>) {
    forall i, j | 0 <= i < j < |d| :: FirstLine(entries, d[i].path) < FirstLine(entries, d[j].path)
  }

  ghost predicate AllListed(d: seq<DiffEntry>, entries: seq<FlatEntry>, seen: set<bytes>) {
    forall i | 0 <= i < |d| :: d[i].path !in seen && FirstLine(entries, d[i].path) < |entries|
  }

  /** A line whose path came before leaves the order of the others alone. */
  lemma Skipped(d: seq<DiffEntry>, entries: seq<FlatEntry>, seen: set<bytes>)
    requires entries != [] && entries[0].path in seen
    requires InLineOrder(d, entries[1..]) && AllListed(d, entries[1..], seen)
    ensures InLineOrder(d, entries) && AllListed(d, entries, seen)
  {
  }

  /** A line with a new path comes before all those of other paths. */
  lemma Leading(first: seq<DiffEntry>, d: seq<DiffEntry>, entries: seq<FlatEntry>, seen: set<bytes>)
    requires entries != [] && entries[0].path !in seen
    requires |first| <= 1 && (first != [] ==> first[0].path == entries[0].path)
    requires InLineOrder(d, entries[1..]) && AllListed(d, entries[1..], seen + {entries[0].path})
    ensures InLineOrder(first + d, entries) && AllListed(first + d, entries, seen)
  {
    var all, more := first + d, seen + {entries[0].path};
    forall i | 0 <= i < |d| ensures d[i].path !in seen {
      assert d[i].path !in more;
    }
    forall i | 0 <= i < |d| ensures FirstLine(entries, d[i].path) == 1 + FirstLine(entries[1..], d[i].path) {
      assert d[i].path !in more;
    }
    hide FirstLine;
    FirstIsZero(entries);
    forall i | 0 <= i < |all| ensures all[i].path !in seen && FirstLine(entries, all[i].path) < |entries| {
      if i >= |first| {
        assert all[i] == d[i - |first|];
      }
    }
    forall i, j | 0 <= i < j < |all| ensures FirstLine(entries, all[i].path) < FirstLine(entries, all[j].path) {
      assert all[j] == d[j - |first|];
      if i >= |first| {
        assert all[i] == d[i - |first|];
      }
    }
  }

  lemma FirstIsZero(entries: seq<FlatEntry>)
    requires entries != []
    ensures FirstLine(entries, entries[0].path) == 0
  {
  }

  lemma {:induction false} RemovalsOrdered(entries: seq<FlatEntry>, seen: set<bytes>, a: map<bytes, bytes>,
                                           b: map<bytes, bytes>)
    requires AllIn(entries, a)
    ensures var d := Removals(entries, seen, a, b);
            InLineOrder(d, entries) && AllListed(d, entries, seen) && forall i | 0 <= i < |d| :: d[i].change.Removed?
    decreases |entries|
  {
    hide InLineOrder, AllListed;
    if entries == [] {
      NothingListed(seen);
    } else if entries[0].path in seen {
      RemovalsOrdered(entries[1..], seen, a, b);
      Skipped(Removals(entries[1..], seen, a, b), entries, seen);
    } else {
      var more := seen + {entries[0].path};
      RemovalsOrdered(entries[1..], more, a, b);
      Leading(RemovalOf(entries[0].path, a, b), Removals(entries[1..], more, a, b), entries, seen);
    }
  }

  lemma {:induction false} ArrivalsOrdered(entries: seq<FlatEntry>, seen: set<bytes>, a: map<bytes, bytes>,
                                           b: map<bytes, bytes>)
    requires AllIn(entries, b)
    ensures var d := Arrivals(entries, seen, a, b);
            InLineOrder(d, entries) && AllListed(d, entries, seen) && forall i | 0 <= i < |d| :: !d[i].change.Removed?
    decreases |entries|
  {
    hide InLineOrder, AllListed;
    if entries == [] {
      NothingListed(seen);
    } else if entries[0].path in seen {
      ArrivalsOrdered(entries[1..], seen, a, b);
      Skipped(Arrivals(entries[1..], seen, a, b), entries, seen);
    } else {
      var more := seen + {entries[0].path};
      ArrivalsOrdered(entries[1..], more, a, b);
      Leading(ArrivalOf(entries[0].path, a, b), Arrivals(entries[1..], more, a, b), entries, seen);
    }
  }

  lemma NothingListed(seen: set<bytes>)
    ensures InLineOrder([], []) && AllListed([], [], seen)
  {
  }

  /** A difference is its removals in the order of the old lines, and then the rest in that of the new. */
  lemma DiffOrdered(a: seq<FlatEntry>, b: seq<FlatEntry>) returns (gone: seq<DiffEntry>, arrived: seq<DiffEntry>)
    ensures DiffOf(a, b) == gone + arrived
    ensures forall i | 0 <= i < |gone| :: gone[i].change.Removed?
    ensures forall i | 0 <= i < |arrived| :: !arrived[i].change.Removed?
    ensures InOrder(gone, a) && InOrder(arrived, b)
  {
    hide InLineOrder, AllListed, InOrder, Removals, Arrivals;
    Indexed(a);
    Indexed(b);
    var x, y := IndexOf(a), IndexOf(b);
    gone, arrived := Removals(a, {}, x, y), Arrivals(b, {}, x, y);
    RemovalsOrdered(a, {}, x, y);
    ArrivalsOrdered(b, {}, x, y);
    OrderedComesFirst(gone, a);
    OrderedComesFirst(arrived, b);
  }
}
