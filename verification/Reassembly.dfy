/** Reassembly on values. */
module Reassembly {
  // What reassembler.cpp computes, as a map from message to partial state: byte ranges that
  // coalesce, a buffer that grows, and the frame that completes a message.

  import opened Common
  import opened Frames

  /** A half-open byte range. */
  datatype Span = Span(lo: nat, hi: nat)

  predicate Has(r: Span, x: nat) {
    r.lo <= x < r.hi
  }

  ghost predicate Covers(ranges: seq<Span>, x: nat) {
    exists i :: 0 <= i < |ranges| && Has(ranges[i], x)
  }

  /** Sorted, non-empty ranges with a hole between any two. */
  ghost predicate Canonical(ranges: seq<Span>) {
    && (forall i | 0 <= i < |ranges| :: ranges[i].lo < ranges[i].hi)
    && (forall i, j | 0 <= i < j < |ranges| :: ranges[i].hi < ranges[j].lo)
  }

  /** Insertion that swallows every range it touches. */
  function Insert(ranges: seq<Span>, r: Span): seq<Span> {
    if ranges == [] then [r]
    else if r.hi < ranges[0].lo then [r] + ranges
    else if ranges[0].hi < r.lo then [ranges[0]] + Insert(ranges[1..], r)
    else Insert(ranges[1..], Span(Min(r.lo, ranges[0].lo), Max(r.hi, ranges[0].hi)))
  }

  /** `add_range`: an empty range adds nothing. */
  function AddSpan(ranges: seq<Span>, lo: nat, hi: nat): seq<Span> {
    if hi <= lo then ranges else Insert(ranges, Span(lo, hi))
  }

  lemma {:induction false} CoversCons(first: Span, rest: seq<Span>, x: nat)
    ensures Covers([first] + rest, x) <==> Has(first, x) || Covers(rest, x)
  {
    var all := [first] + rest;
    if Covers(rest, x) {
      var i :| 0 <= i < |rest| && Has(rest[i], x);
      assert Has(all[i + 1], x);
    }
    if Has(first, x) {
      assert Has(all[0], x);
    }
    if Covers(all, x) && !Has(first, x) {
      var i :| 0 <= i < |all| && Has(all[i], x);
      assert Has(rest[i - 1], x);
    }
  }

  lemma {:induction false} InsertCovers(ranges: seq<Span>, r: Span, x: nat)
    requires Canonical(ranges) && r.lo < r.hi
    ensures Covers(Insert(ranges, r), x) <==> Covers(ranges, x) || Has(r, x)
  {
    if ranges == [] {
      CoversCons(r, [], x);
      assert [r] + [] == [r];
    } else {
      var tail := ranges[1..];
      assert ranges == [ranges[0]] + tail;
      CoversCons(ranges[0], tail, x);
      if r.hi < ranges[0].lo {
        CoversCons(r, ranges, x);
      } else if ranges[0].hi < r.lo {
        InsertCovers(tail, r, x);
        CoversCons(ranges[0], Insert(tail, r), x);
      } else {
        InsertCovers(tail, Span(Min(r.lo, ranges[0].lo), Max(r.hi, ranges[0].hi)), x);
      }
    }
  }

  /** Insertion keeps the list canonical and starts no earlier than its inputs. */
  lemma {:induction false} InsertCanonical(ranges: seq<Span>, r: Span)
    requires Canonical(ranges) && r.lo < r.hi
    ensures Canonical(Insert(ranges, r)) && Insert(ranges, r) != []
    ensures Insert(ranges, r)[0].lo == if ranges == [] then r.lo else Min(r.lo, ranges[0].lo)
  {
    if ranges != [] {
      var tail := ranges[1..];
      if r.hi < ranges[0].lo {
      } else if ranges[0].hi < r.lo {
        InsertCanonical(tail, r);
        var rest := Insert(tail, r);
        assert forall j | 0 < j < |rest| :: rest[0].hi < rest[j].lo;
        ConsCanonical(ranges[0], rest);
      } else {
        InsertCanonical(tail, Span(Min(r.lo, ranges[0].lo), Max(r.hi, ranges[0].hi)));
      }
    }
  }

  lemma ConsCanonical(first: Span, rest: seq<Span>)
    requires Canonical(rest) && first.lo < first.hi && (rest != [] ==> first.hi < rest[0].lo)
    ensures Canonical([first] + rest)
  {
    var all := [first] + rest;
    forall i, j | 0 <= i < j < |all| ensures all[i].hi < all[j].lo {
      if i == 0 {
        assert all[j] == rest[j - 1];
        assert rest[0].lo <= rest[j - 1].lo;
      } else {
        assert all[i] == rest[i - 1] && all[j] == rest[j - 1];
      }
    }
  }

  /** A canonical list is determined by the bytes it covers. */
  lemma {:induction false} CoverageDetermines(a: seq<Span>, b: seq<Span>)
    requires Canonical(a) && Canonical(b)
    requires forall x: nat :: Covers(a, x) <==> Covers(b, x)
    ensures a == b
    decreases |a|
  {
    if a == [] || b == [] {
      if a != [] {
        CoversFirst(a);
        assert false;
      }
      if b != [] {
        CoversFirst(b);
        assert false;
      }
    } else {
      FirstStart(a, b);
      FirstStart(b, a);
      FirstEnd(a, b);
      FirstEnd(b, a);
      assert a[0] == b[0];
      var s, t := a[1..], b[1..];
      forall x: nat ensures Covers(s, x) <==> Covers(t, x) {
        TailCovers(a, x);
        TailCovers(b, x);
      }
      CoverageDetermines(s, t);
      assert a == [a[0]] + s && b == [b[0]] + t;
    }
  }

  lemma CoversFirst(a: seq<Span>)
    requires Canonical(a) && a != []
    ensures Covers(a, a[0].lo)
  {
    assert Has(a[0], a[0].lo);
  }

  lemma FirstStart(a: seq<Span>, b: seq<Span>)
    requires Canonical(a) && Canonical(b) && a != [] && b != []
    requires forall x: nat :: Covers(a, x) <==> Covers(b, x)
    ensures b[0].lo <= a[0].lo
  {
    CoversFirst(a);
    var i :| 0 <= i < |b| && Has(b[i], a[0].lo);
    assert b[0].lo <= b[i].lo;
  }

  lemma FirstEnd(a: seq<Span>, b: seq<Span>)
    requires Canonical(a) && Canonical(b) && a != [] && b != [] && a[0].lo == b[0].lo
    requires forall x: nat :: Covers(a, x) <==> Covers(b, x)
    ensures a[0].hi <= b[0].hi
  {
    GapAfterFirst(b);
    assert !Has(a[0], b[0].hi);
  }

  lemma GapAfterFirst(a: seq<Span>)
    requires Canonical(a) && a != []
    ensures !Covers(a, a[0].hi)
  {
    assert forall i | 0 <= i < |a| :: !Has(a[i], a[0].hi);
  }

  lemma TailCovers(a: seq<Span>, x: nat)
    requires Canonical(a) && a != []
    ensures Covers(a[1..], x) <==> Covers(a, x) && !Has(a[0], x)
  {
    assert a == [a[0]] + a[1..];
    CoversCons(a[0], a[1..], x);
    forall i | 0 <= i < |a[1..]| ensures Has(a[1..][i], x) ==> !Has(a[0], x) {
      assert a[0].hi < a[i + 1].lo;
    }
  }

  /** Covering exactly an initial segment takes exactly one range. */
  lemma InitialSegment(a: seq<Span>, n: nat)
    requires Canonical(a) && n > 0
    ensures (forall x: nat :: Covers(a, x) <==> x < n) <==> a == [Span(0, n)]
  {
    var one := [Span(0, n)];
    assert forall x: nat :: x < n ==> Has(one[0], x);
    assert forall x: nat :: Covers(one, x) <==> x < n;
    if forall x: nat :: Covers(a, x) <==> x < n {
      CoverageDetermines(a, one);
    }
  }

  // ---- partial messages

  datatype Message = Message(streamId: u16, msgId: u32, compressed: bool, data: bytes)

  datatype Partial = Partial(streamId: u16, msgId: u32, buffer: bytes, ranges: seq<Span>, highWater: nat,
                             totalLen: nat, haveFin: bool, compressed: bool)
  {
    function Id(): Key {
      Key(streamId, msgId)
    }
  }

  /** What every partial the reassembler holds satisfies. */
  ghost predicate Sound(p: Partial) {
    && Canonical(p.ranges) && |p.buffer| == p.highWater < TWO32 && p.totalLen <= p.highWater
    && (forall i | 0 <= i < |p.ranges| :: p.ranges[i].hi <= p.highWater)
  }

  function Fresh(k: Key): Partial {
    Partial(k.streamId, k.msgId, [], [], 0, 0, false, false)
  }

  function Zeros(n: nat): (z: bytes)
    ensures |z| == n
  {
    seq(n, _ => 0)
  }

  /** `resize`, when the buffer is too short. */
  function Grown(buffer: bytes, size: nat): (r: bytes)
    ensures |r| == Max(|buffer|, size)
  {
    if size > |buffer| then buffer + Zeros(size - |buffer|) else buffer
  }

  /** `copy_n` of what fits from `begin` on. */
  function Overwritten(buffer: bytes, begin: nat, payload: bytes): (r: bytes)
    ensures |r| == |buffer|
  {
    if payload != [] && begin < |buffer| then
      var n := Min(|payload|, |buffer| - begin);
      buffer[..begin] + payload[..n] + buffer[begin + n..]
    else buffer
  }

  predicate IsComplete(p: Partial) {
    && p.haveFin
    && (p.totalLen == 0 || (|p.ranges| == 1 && p.ranges[0].lo == 0 && p.ranges[0].hi >= p.totalLen))
  }

  /** The partial after a frame of its message has been placed in it. */
  function Absorb(p: Partial, f: Frame): Partial {
    var high := Max(p.highWater, f.End());
    p.(compressed := p.compressed || f.Compressed(),
       buffer := Overwritten(Grown(p.buffer, f.End()), f.Begin(), f.payload),
       ranges := AddSpan(p.ranges, f.Begin(), f.End()),
       highWater := high,
       haveFin := p.haveFin || f.Fin(),
       totalLen := if f.Fin() then high else p.totalLen)
  }

  type Table = map<Key, Partial>

  function Current(t: Table, k: Key): Partial {
    if k in t then t[k] else Fresh(k)
  }

  /** `accept_data` on the map of partials: the message the frame completes, if any. */
  function Emitted(t: Table, f: Frame): Option<Message> {
    var p := Absorb(Current(t, f.Id()), f);
    if IsComplete(p) && p.totalLen <= |p.buffer|
    then Some(Message(f.streamId, f.msgId, p.compressed, p.buffer[..p.totalLen])) else None
  }

  function Accepted(t: Table, f: Frame): Table {
    var p := Absorb(Current(t, f.Id()), f);
    if IsComplete(p) then t - {f.Id()} else t[f.Id() := p]
  }

  lemma AbsorbSound(p: Partial, f: Frame)
    requires Sound(p)
    ensures Sound(Absorb(p, f)) && Absorb(p, f).Id() == p.Id()
  {
    var lo, hi := f.Begin(), f.End();
    var q := Absorb(p, f);
    if lo < hi {
      InsertCanonical(p.ranges, Span(lo, hi));
      forall i | 0 <= i < |q.ranges| ensures q.ranges[i].hi <= q.highWater {
        var x := q.ranges[i].hi - 1;
        assert Has(q.ranges[i], x) && Covers(q.ranges, x);
        InsertCovers(p.ranges, Span(lo, hi), x);
        if Covers(p.ranges, x) {
          var j :| 0 <= j < |p.ranges| && Has(p.ranges[j], x);
        }
      }
    }
  }
}
