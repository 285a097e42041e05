/** Reassembly over whole runs. */
module ReassemblyLaw {
  // Whatever the order, overlap and interleaving of its frames, a message is emitted once, at the
  // first moment its end has been seen and nothing is missing.

  import opened Common
  import opened Frames
  import opened Reassembly

  // ---- runs

  /** The table after a run of DATA frames. */
  function Final(t: Table, frames: seq<Frame>): Table {
    if frames == [] then t
    else Accepted(Final(t, frames[..|frames| - 1]), frames[|frames| - 1])
  }

  /** What frame `i` of a run completes. */
  function EmittedAt(t: Table, frames: seq<Frame>, i: nat): Option<Message>
    requires i < |frames|
  {
    Emitted(Final(t, frames[..i]), frames[i])
  }

  /** The frames of one message, in the order they arrive. */
  function Only(frames: seq<Frame>, k: Key): (r: seq<Frame>)
    ensures forall f | f in r :: f in frames && f.Id() == k
  {
    if frames == [] then []
    else
      var last := frames[|frames| - 1];
      Only(frames[..|frames| - 1], k) + if last.Id() == k then [last] else []
  }

  // ---- slices of a message

  /** The frame carries a piece of `m` where it belongs; the one with FIN reaches the end. */
  ghost predicate IsSlice(f: Frame, k: Key, m: bytes) {
    && f.Id() == k && |m| < TWO32 && f.Begin() + |f.payload| <= |m|
    && f.payload == m[f.Begin()..f.Begin() + |f.payload|]
    && (f.Fin() ==> f.Begin() + |f.payload| == |m|)
  }

  predicate Reaches(f: Frame, x: nat) {
    f.Begin() <= x < f.Begin() + |f.payload|
  }

  ghost predicate CoveredBy(seen: seq<Frame>, x: nat) {
    exists i :: 0 <= i < |seen| && Reaches(seen[i], x)
  }

  ghost predicate HasFin(seen: seq<Frame>) {
    exists i :: 0 <= i < |seen| && seen[i].Fin()
  }

  ghost predicate AnyCompressed(seen: seq<Frame>) {
    exists i :: 0 <= i < |seen| && seen[i].Compressed()
  }

  /** The end has been seen and no byte is missing. */
  ghost predicate Whole(seen: seq<Frame>, m: bytes) {
    HasFin(seen) && forall x: nat | x < |m| :: CoveredBy(seen, x)
  }

  /** A partial that has taken in exactly the slices `seen` of `m`. */
  ghost predicate Holds(p: Partial, seen: seq<Frame>, k: Key, m: bytes) {
    && Sound(p) && p.Id() == k && p.highWater <= |m|
    && (forall x: nat :: Covers(p.ranges, x) <==> CoveredBy(seen, x))
    && (forall x: nat | CoveredBy(seen, x) :: x < |p.buffer| && p.buffer[x] == m[x])
    && p.haveFin == HasFin(seen) && (p.haveFin ==> p.totalLen == |m|)
    && p.compressed == AnyCompressed(seen)
  }

  lemma CoveredSnoc(seen: seq<Frame>, f: Frame, x: nat)
    ensures CoveredBy(seen + [f], x) <==> CoveredBy(seen, x) || Reaches(f, x)
  {
    var all := seen + [f];
    if CoveredBy(seen, x) {
      var i :| 0 <= i < |seen| && Reaches(seen[i], x);
      assert Reaches(all[i], x);
    }
    if Reaches(f, x) {
      assert Reaches(all[|seen|], x);
    }
  }

  lemma FlagsSnoc(seen: seq<Frame>, f: Frame)
    ensures HasFin(seen + [f]) <==> HasFin(seen) || f.Fin()
    ensures AnyCompressed(seen + [f]) <==> AnyCompressed(seen) || f.Compressed()
  {
    var all := seen + [f];
    assert all[|seen|] == f;
    assert forall i | 0 <= i < |seen| :: all[i] == seen[i];
    if HasFin(seen) {
      var i :| 0 <= i < |seen| && seen[i].Fin();
      assert all[i].Fin();
    }
    if AnyCompressed(seen) {
      var i :| 0 <= i < |seen| && seen[i].Compressed();
      assert all[i].Compressed();
    }
  }

  lemma FreshHolds(k: Key, m: bytes)
    ensures Holds(Fresh(k), [], k, m)
  {
  }

  /** Placing one more slice keeps the partial in step with what has been seen. */
  lemma AbsorbHolds(p: Partial, seen: seq<Frame>, f: Frame, k: Key, m: bytes)
    requires Holds(p, seen, k, m) && IsSlice(f, k, m)
    ensures Holds(Absorb(p, f), seen + [f], k, m)
  {
    AbsorbSound(p, f);
    FlagsSnoc(seen, f);
    var q := Absorb(p, f);
    assert f.End() == f.Begin() + |f.payload|;
    forall x: nat ensures Covers(q.ranges, x) <==> CoveredBy(seen + [f], x) {
      CoveredSnoc(seen, f, x);
      if f.payload != [] {
        InsertCovers(p.ranges, Span(f.Begin(), f.End()), x);
      }
    }
    forall x: nat | CoveredBy(seen + [f], x) ensures x < |q.buffer| && q.buffer[x] == m[x] {
      CoveredSnoc(seen, f, x);
      BufferAt(p.buffer, f, m, x);
    }
  }

  lemma BufferAt(buffer: bytes, f: Frame, m: bytes, x: nat)
    requires IsSlice(f, f.Id(), m) && x < |m| && (Reaches(f, x) || (x < |buffer| && buffer[x] == m[x]))
    ensures var b := Overwritten(Grown(buffer, f.End()), f.Begin(), f.payload);
            x < |b| && b[x] == m[x]
  {
    assert f.End() == f.Begin() + |f.payload|;
    var grown := Grown(buffer, f.End());
    var b := Overwritten(grown, f.Begin(), f.payload);
    if Reaches(f, x) {
      assert b[x] == f.payload[x - f.Begin()];
    } else {
      assert b[x] == grown[x] == buffer[x];
    }
  }

  /** `is_complete` decides exactly whether the message is whole. */
  lemma CompleteExactly(p: Partial, seen: seq<Frame>, k: Key, m: bytes)
    requires Holds(p, seen, k, m)
    ensures IsComplete(p) <==> Whole(seen, m)
    ensures IsComplete(p) ==> p.totalLen <= |p.buffer| && p.buffer[..p.totalLen] == m
  {
    if p.haveFin && |m| > 0 {
      InitialSegment(p.ranges, |m|);
      forall x: nat | Covers(p.ranges, x) ensures x < |m| {
        var i :| 0 <= i < |p.ranges| && Has(p.ranges[i], x);
      }
      if IsComplete(p) {
        assert p.ranges == [Span(0, p.ranges[0].hi)];
        assert p.ranges[0].hi == |m|;
      }
      assert Whole(seen, m) <==> forall x: nat | x < |m| :: Covers(p.ranges, x);
    }
    if IsComplete(p) {
      assert |p.buffer| == |m|;
      forall x | 0 <= x < |m| ensures p.buffer[x] == m[x] {
        assert CoveredBy(seen, x);
      }
    }
  }

  lemma WholeGrows(seen: seq<Frame>, f: Frame, m: bytes)
    requires Whole(seen, m)
    ensures Whole(seen + [f], m)
  {
    FlagsSnoc(seen, f);
    forall x: nat | x < |m| ensures CoveredBy(seen + [f], x) {
      CoveredSnoc(seen, f, x);
    }
  }

  ghost predicate SlicesOf(frames: seq<Frame>, k: Key, m: bytes) {
    forall f | f in frames && f.Id() == k :: IsSlice(f, k, m)
  }

  /** Until a message is whole, its partial has taken in exactly the slices that arrived. */
  lemma {:induction false} InFlight(t: Table, frames: seq<Frame>, k: Key, m: bytes)
    requires k !in t && SlicesOf(frames, k, m) && !Whole(Only(frames, k), m)
    ensures var s := Final(t, frames);
            Tracks(s, Only(frames, k), k, m)
  {
    if frames != [] {
      var before, f := frames[..|frames| - 1], frames[|frames| - 1];
      assert frames == before + [f];
      assert SlicesOf(before, k, m);
      var seen := Only(before, k);
      assert Only(frames, k) == if f.Id() == k then seen + [f] else seen;
      assert Final(t, frames) == Accepted(Final(t, before), f);
      hide Whole, Only, Final, Accepted, Holds;
      if f.Id() == k {
        if Whole(seen, m) {
          WholeGrows(seen, f, m);
          assert false;
        }
        InFlight(t, before, k, m);
        TakeIn(Final(t, before), seen, f, k, m);
      } else {
        InFlight(t, before, k, m);
        OtherMessages(Final(t, before), f, k);
      }
    } else {
      assert Only(frames, k) == [];
    }
  }

  lemma OtherMessages(s: Table, f: Frame, k: Key)
    requires f.Id() != k
    ensures k in Accepted(s, f) <==> k in s
    ensures k in s ==> Accepted(s, f)[k] == s[k]
  {
  }

  /** What a table holds for a message none or some of whose slices have arrived. */
  ghost predicate Tracks(s: Table, seen: seq<Frame>, k: Key, m: bytes) {
    if seen == [] then k !in s else k in s && Holds(s[k], seen, k, m)
  }

  lemma TakeIn(s: Table, seen: seq<Frame>, f: Frame, k: Key, m: bytes)
    requires IsSlice(f, k, m) && Tracks(s, seen, k, m)
    ensures if Whole(seen + [f], m) then k !in Accepted(s, f) else Tracks(Accepted(s, f), seen + [f], k, m)
    ensures Emitted(s, f)
         == if Whole(seen + [f], m)
            then Some(Message(k.streamId, k.msgId, AnyCompressed(seen + [f]), m)) else None
  {
    var p := Current(s, k);
    if seen == [] {
      FreshHolds(k, m);
    }
    hide Whole, Absorb, IsComplete;
    AbsorbHolds(p, seen, f, k, m);
    CompleteExactly(Absorb(p, f), seen + [f], k, m);
  }

  /**
    * The first emission: overlapping, repeated and reordered slices, interleaved with any
    * other traffic, complete the message at the first frame after which FIN has been seen
    * and every byte has arrived, and then exactly the message comes out.
    */
  lemma FirstEmission(t: Table, frames: seq<Frame>, i: nat, k: Key, m: bytes)
    requires i < |frames| && frames[i].Id() == k && k !in t && SlicesOf(frames, k, m)
    requires !Whole(Only(frames[..i], k), m)
    ensures var seen := Only(frames[..i + 1], k);
            EmittedAt(t, frames, i)
            == if Whole(seen, m) then Some(Message(k.streamId, k.msgId, AnyCompressed(seen), m)) else None
    ensures Whole(Only(frames[..i + 1], k), m) ==> k !in Final(t, frames[..i + 1])
  {
    var before, f := frames[..i], frames[i];
    var seen := Only(before, k);
    assert frames[..i + 1][..i] == before && frames[..i + 1][i] == f;
    InFlight(t, before, k, m);
    TakeIn(Final(t, before), seen, f, k, m);
  }

  // ---- fragments in any order

  /** The frames cut the message into consecutive pieces, only the last of which has FIN. */
  ghost predicate Cuts(frames: seq<Frame>, k: Key, m: bytes) {
    && frames != [] && (forall f | f in frames :: IsSlice(f, k, m))
    && (forall i | 0 <= i < |frames| :: frames[i].Fin() <==> i == |frames| - 1)
    && (|frames| > 1 ==> forall i | 0 <= i < |frames| :: frames[i].payload != [])
    && (forall i, j | 0 <= i < j < |frames| :: frames[i].Begin() + |frames[i].payload| <= frames[j].Begin())
    && (forall x: nat | x < |m| :: CoveredBy(frames, x))
  }

  lemma CutsDistinct(frames: seq<Frame>, k: Key, m: bytes, i: nat, j: nat)
    requires Cuts(frames, k, m) && i < |frames| && j < |frames| && frames[i] == frames[j]
    ensures i == j
  {
  }

  lemma {:induction false} CountAtMostOne<T>(s: seq<T>, e: T)
    requires forall i, j | 0 <= i < |s| && 0 <= j < |s| && s[i] == s[j] :: i == j
    ensures multiset(s)[e] <= 1
  {
    if s != [] {
      var rest := s[1..];
      assert s == [s[0]] + rest;
      forall i, j | 0 <= i < |rest| && 0 <= j < |rest| && rest[i] == rest[j] ensures i == j {
        assert s[i + 1] == s[j + 1];
      }
      CountAtMostOne(rest, e);
      if s[0] == e {
        forall i | 0 <= i < |rest| ensures rest[i] != e {
          assert rest[i] == s[i + 1];
        }
        assert e !in rest;
      }
    }
  }

  /** A frame of a shuffled cut does not come twice. */
  lemma ShuffleDistinct(cut: seq<Frame>, shuffled: seq<Frame>, k: Key, m: bytes, j: nat)
    requires Cuts(cut, k, m) && multiset(shuffled) == multiset(cut) && j < |shuffled|
    ensures shuffled[j] !in shuffled[..j]
  {
    var e := shuffled[j];
    forall a, b | 0 <= a < |cut| && 0 <= b < |cut| && cut[a] == cut[b] ensures a == b {
      CutsDistinct(cut, k, m, a, b);
    }
    CountAtMostOne(cut, e);
    assert shuffled == shuffled[..j] + [e] + shuffled[j + 1..];
    assert multiset(shuffled)[e] >= multiset(shuffled[..j])[e] + 1;
  }

  /** Every order of the pieces is whole at its last piece and not before. */
  lemma WholeAtLast(cut: seq<Frame>, shuffled: seq<Frame>, k: Key, m: bytes, j: nat)
    requires Cuts(cut, k, m) && multiset(shuffled) == multiset(cut) && j <= |shuffled|
    ensures Whole(shuffled[..j], m) <==> j == |shuffled|
  {
    SameMembers(cut, shuffled);
    if j == |shuffled| {
      assert shuffled[..j] == shuffled;
      var last := cut[|cut| - 1];
      assert last in shuffled;
      forall x: nat | x < |m| ensures CoveredBy(shuffled, x) {
        assert CoveredBy(cut, x);
        var i :| 0 <= i < |cut| && Reaches(cut[i], x);
        assert cut[i] in shuffled;
      }
    } else {
      var e := shuffled[j];
      ShuffleDistinct(cut, shuffled, k, m, j);
      assert e in shuffled;
      var a :| 0 <= a < |cut| && cut[a] == e;
      if e.Fin() {
        NoOtherFin(cut, shuffled, k, m, j);
      } else {
        NotReached(cut, shuffled, k, m, j, a);
      }
    }
  }

  lemma SameMembers(cut: seq<Frame>, shuffled: seq<Frame>)
    requires multiset(shuffled) == multiset(cut)
    ensures forall f :: f in shuffled <==> f in cut
  {
    forall f ensures f in shuffled <==> f in cut {
      assert f in shuffled <==> f in multiset(shuffled);
      assert f in cut <==> f in multiset(cut);
    }
  }

  lemma NoOtherFin(cut: seq<Frame>, shuffled: seq<Frame>, k: Key, m: bytes, j: nat)
    requires Cuts(cut, k, m) && multiset(shuffled) == multiset(cut) && j < |shuffled|
    requires shuffled[j].Fin() && shuffled[j] !in shuffled[..j]
    ensures !HasFin(shuffled[..j])
  {
    SameMembers(cut, shuffled);
    var last := cut[|cut| - 1];
    assert shuffled[j] in cut;
    assert shuffled[j] == last;
    forall i | 0 <= i < j ensures !shuffled[..j][i].Fin() {
      assert shuffled[i] in cut;
      assert shuffled[..j][i] != last;
    }
  }

  lemma NotReached(cut: seq<Frame>, shuffled: seq<Frame>, k: Key, m: bytes, j: nat, a: nat)
    requires Cuts(cut, k, m) && multiset(shuffled) == multiset(cut) && j < |shuffled| && a < |cut|
    requires shuffled[j] == cut[a] && !cut[a].Fin() && shuffled[j] !in shuffled[..j]
    ensures !Whole(shuffled[..j], m)
  {
    SameMembers(cut, shuffled);
    var x := cut[a].Begin();
    assert cut[a].payload != [] && IsSlice(cut[a], k, m);
    forall i | 0 <= i < j ensures !Reaches(shuffled[..j][i], x) {
      assert shuffled[i] in cut;
      var b :| 0 <= b < |cut| && cut[b] == shuffled[i];
      assert b != a;
    }
    assert x < |m| && !CoveredBy(shuffled[..j], x);
  }

  /** Taking one message's frames from a prefix of a run gives a prefix of its frames. */
  lemma {:induction false} OnlyPrefix(frames: seq<Frame>, i: nat, k: Key)
    requires i <= |frames|
    ensures var n := |Only(frames[..i], k)|;
            n <= |Only(frames, k)| && Only(frames[..i], k) == Only(frames, k)[..n]
  {
    if i < |frames| {
      var before := frames[..|frames| - 1];
      OnlyPrefix(before, i, k);
      assert before[..i] == frames[..i];
    } else {
      assert frames[..i] == frames;
    }
  }

  /**
    * Any order, any interleaving: when the frames a run has for a message are the pieces of
    * one cut of it, shuffled, the frame that is the last of them emits the message, and no
    * other frame of the message emits anything.
    */
  lemma AnyOrder(t: Table, frames: seq<Frame>, i: nat, k: Key, m: bytes, cut: seq<Frame>)
    requires i < |frames| && frames[i].Id() == k && k !in t
    requires Cuts(cut, k, m) && multiset(Only(frames, k)) == multiset(cut)
    ensures var seen := Only(frames[..i + 1], k);
            EmittedAt(t, frames, i)
            == if |seen| == |cut| then Some(Message(k.streamId, k.msgId, AnyCompressed(seen), m)) else None
  {
    var all := Only(frames, k);
    assert |all| == |multiset(all)| == |cut|;
    SameMembers(cut, all);
    InOnly(frames, k);
    assert SlicesOf(frames, k, m);
    OnlyPrefix(frames, i, k);
    OnlyPrefix(frames, i + 1, k);
    assert frames[..i + 1][..i] == frames[..i] && frames[..i + 1][i] == frames[i];
    WholeAtLast(cut, all, k, m, |Only(frames[..i], k)|);
    WholeAtLast(cut, all, k, m, |Only(frames[..i + 1], k)|);
    FirstEmission(t, frames, i, k, m);
  }

  lemma {:induction false} InOnly(frames: seq<Frame>, k: Key)
    ensures forall f | f in frames && f.Id() == k :: f in Only(frames, k)
  {
    if frames != [] {
      InOnly(frames[..|frames| - 1], k);
      assert frames == frames[..|frames| - 1] + [frames[|frames| - 1]];
    }
  }

  // ---- completion on arbitrary traffic

  /**
    * Whatever frames arrive, a partial with its end fixed is complete exactly when the bytes up
    * to that end are there and no byte anywhere lies behind a hole: a stray range past the end
    * withholds completion.
    */
  lemma CompleteUnlessStray(p: Partial)
    requires Sound(p) && p.haveFin && p.totalLen > 0
    ensures IsComplete(p)
       <==> && (forall x: nat | x < p.totalLen :: Covers(p.ranges, x))
            && (forall x: nat, y: nat | Covers(p.ranges, x) && y < x :: Covers(p.ranges, y))
  {
    if IsComplete(p) {
      assert p.ranges == [Span(0, p.ranges[0].hi)];
      InitialSegment(p.ranges, p.ranges[0].hi);
    }
    if (forall x: nat | x < p.totalLen :: Covers(p.ranges, x))
       && (forall x: nat, y: nat | Covers(p.ranges, x) && y < x :: Covers(p.ranges, y)) {
      OneRange(p.ranges, p.totalLen);
    }
  }

  lemma OneRange(ranges: seq<Span>, n: nat)
    requires Canonical(ranges) && n > 0 && forall x: nat | x < n :: Covers(ranges, x)
    requires forall x: nat, y: nat | Covers(ranges, x) && y < x :: Covers(ranges, y)
    ensures |ranges| == 1 && ranges[0].lo == 0 && ranges[0].hi >= n
  {
    assert Covers(ranges, 0) && Covers(ranges, n - 1);
    var last := ranges[|ranges| - 1];
    assert Has(last, last.hi - 1) && Covers(ranges, last.hi - 1);
    forall x: nat ensures Covers(ranges, x) <==> x < last.hi {
      forall i | 0 <= i < |ranges| && Has(ranges[i], x) ensures x < last.hi {
        assert i < |ranges| - 1 ==> ranges[i].hi < last.lo;
      }
      assert x < last.hi - 1 ==> Covers(ranges, x);
    }
    InitialSegment(ranges, last.hi);
  }

  /** A partial built from three fragments: the end at 2, a stray byte at 3, then the missing start. */
  lemma StrayWithholds()
    ensures var end := Frame(Data, 3, 0, 0, 0, 1, None, [8]);
            var stray := Frame(Data, 2, 0, 0, 0, 3, None, [9]);
            var start := Frame(Data, 2, 0, 0, 0, 0, None, [7]);
            var p := Absorb(Absorb(Absorb(Fresh(Key(0, 0)), end), stray), start);
            p.haveFin && p.totalLen == 2 && p.ranges == [Span(0, 2), Span(3, 4)] && !IsComplete(p)
  {
    var end := Frame(Data, 3, 0, 0, 0, 1, None, [8]);
    var stray := Frame(Data, 2, 0, 0, 0, 3, None, [9]);
    var start := Frame(Data, 2, 0, 0, 0, 0, None, [7]);
    assert end.Begin() == 1 && end.End() == 2 && stray.Begin() == 3 && stray.End() == 4;
    assert start.Begin() == 0 && start.End() == 1;
    hide Overwritten, Grown;
    var p := Absorb(Fresh(Key(0, 0)), end);
    assert p.ranges == [Span(1, 2)] && p.totalLen == 2 && p.haveFin;
    var q := Absorb(p, stray);
    assert [Span(1, 2)][1..] == [];
    assert q.ranges == [Span(1, 2), Span(3, 4)] && q.totalLen == 2 && q.haveFin;
    assert q.ranges[1..] == [Span(3, 4)];
    assert Insert([Span(3, 4)], Span(0, 2)) == [Span(0, 2), Span(3, 4)];
  }
}
