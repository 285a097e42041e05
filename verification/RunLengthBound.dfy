module RunLengthBound {
  // The header of transform.hpp promises n + ceil(n/128) bytes. Which inputs keep the promise is
  // read off the lengths of their maximal runs of equal bytes, without compressing anything.

  import opened Common
  import opened RunLength

  // ---- the maximal runs of an input

  /** How many bytes at the front equal the first one. */
  function Leading(x: bytes): (n: nat)
    ensures n <= |x| && (x != [] ==> n > 0)
    ensures forall i | 0 <= i < n :: x[i] == x[0]
    ensures n < |x| ==> x != [] && x[n] != x[0]
  {
    if x == [] then 0
    else if |x| == 1 || x[1] != x[0] then 1
    else
      assert forall i | 1 <= i < |x| :: x[1..][i - 1] == x[i];
      1 + Leading(x[1..])
  }

  /** The lengths of the maximal runs, in order. */
  function RunLengths(x: bytes): seq<nat>
    decreases |x|
  {
    if x == [] then [] else [Leading(x)] + RunLengths(x[Leading(x)..])
  }

  /** What one maximal run saves: 126 for every full token, and its remainder's two bytes for more. */
  function SavedBy(length: nat): nat {
    126 * (length / 128) + if length % 128 >= 2 then length % 128 - 2 else 0
  }

  function SavedByAll(lengths: seq<nat>): nat {
    if lengths == [] then 0 else SavedBy(lengths[0]) + SavedByAll(lengths[1..])
  }

  /**
    * The literal tokens of a run list when a stretch of `open` single bytes is under way: a run
    * of one byte joins the stretch, a longer run ends it and leaves its odd byte to the next,
    * and a stretch takes a token for every 128 bytes begun.
    */
  function Stretches(lengths: seq<nat>, open: nat): nat {
    if lengths == [] then Ceiling(open, 128)
    else if lengths[0] == 1 then Stretches(lengths[1..], open + 1)
    else Ceiling(open, 128) + Stretches(lengths[1..], if lengths[0] % 128 == 1 then 1 else 0)
  }

  // ---- the compressor's runs are these

  /** The compressor's scan sees the maximal run, up to one token's worth. */
  lemma {:induction false} ScanSeesRun(x: bytes, n: nat)
    requires 1 <= n <= Leading(x) && n <= MAX_TOKEN
    ensures Run(x, n) == Min(Leading(x), MAX_TOKEN)
    decreases |x| - n
  {
    if n < |x| && x[n] == x[0] && n < MAX_TOKEN {
      ScanSeesRun(x, n + 1);
    }
  }

  /** Bytes off the front of a run leave a shorter run. */
  lemma {:induction false} LeadingAfter(x: bytes, n: nat)
    requires n < Leading(x)
    ensures Leading(x[n..]) == Leading(x) - n
    decreases n
  {
    if n > 0 {
      assert Leading(x) == 1 + Leading(x[1..]);
      LeadingAfter(x[1..], n - 1);
      assert x[1..][n - 1..] == x[n..];
    } else {
      assert x[0..] == x;
    }
  }

  /** One token's worth off the front of a run. */
  lemma RunsAfter(x: bytes, n: nat)
    requires x != [] && n <= Leading(x)
    ensures RunLengths(x[n..])
         == if n == Leading(x) then RunLengths(x)[1..] else [Leading(x) - n] + RunLengths(x)[1..]
  {
    if n < Leading(x) {
      LeadingAfter(x, n);
      assert x[n..][Leading(x) - n..] == x[Leading(x)..];
    }
  }

  /** A full token's worth more in the open stretch is one more token. */
  lemma {:induction false} OpenToken(lengths: seq<nat>, open: nat)
    ensures Stretches(lengths, open + MAX_TOKEN) == 1 + Stretches(lengths, open)
    decreases lengths
  {
    if lengths != [] && lengths[0] == 1 {
      OpenToken(lengths[1..], open + 1);
    }
  }

  /** The compressor writes one literal token for each begun 128 bytes of a stretch of singles. */
  lemma {:induction false} LiteralsAreStretches(x: bytes, lit: nat)
    requires lit <= MAX_TOKEN
    ensures LiteralTokens(x, lit) == Stretches(RunLengths(x), lit)
    decreases |x|
  {
    if x != [] {
      var n, run := Leading(x), Run(x, 1);
      ScanSeesRun(x, 1);
      RunsAfter(x, run);
      if run >= 2 {
        LiteralsAreStretches(x[run..], 0);
        LongRun(n, RunLengths(x)[1..]);
      } else if lit == MAX_TOKEN {
        LiteralsAreStretches(x[1..], 1);
        OpenToken(RunLengths(x)[1..], 1);
      } else {
        LiteralsAreStretches(x[1..], lit + 1);
      }
    }
  }

  /** A long run, taken whole or with one full token off its front. */
  lemma LongRun(n: nat, rest: seq<nat>)
    requires n >= 2
    ensures n > MAX_TOKEN ==>
              Stretches([n - MAX_TOKEN] + rest, 0) == Stretches(rest, if n % 128 == 1 then 1 else 0)
    ensures n > MAX_TOKEN ==> SavedBy(n) == 126 + SavedBy(n - MAX_TOKEN)
  {
    if n > MAX_TOKEN {
      var lengths := [n - MAX_TOKEN] + rest;
      assert lengths[1..] == rest && (n - MAX_TOKEN) % 128 == n % 128;
    }
  }

  lemma SavedByCons(n: nat, rest: seq<nat>)
    ensures SavedByAll([n] + rest) == SavedBy(n) + SavedByAll(rest)
    ensures 2 <= n <= MAX_TOKEN ==> SavedBy(n) == n - 2
    ensures n == 1 ==> SavedBy(n) == 0
  {
    assert ([n] + rest)[1..] == rest;
  }

  /** The runs save what their lengths say. */
  lemma {:induction false} SavedIsSavedByAll(x: bytes)
    ensures Saved(x) == SavedByAll(RunLengths(x))
    decreases |x|
  {
    if x != [] {
      hide SavedBy, SavedByAll, Run;
      var n, run := Leading(x), Run(x, 1);
      ScanSeesRun(x, 1);
      RunsAfter(x, run);
      var rest := RunLengths(x)[1..];
      assert RunLengths(x) == [n] + rest;
      SavedIsSavedByAll(x[run..]);
      SavedByCons(n, rest);
      if n > MAX_TOKEN {
        LongRun(n, rest);
        SavedByCons(n - MAX_TOKEN, rest);
      }
    } else {
      assert SavedByAll([]) == 0;
    }
  }

  // ---- when the promise is kept

  /**
    * The documented bound holds if and only if the stretches of single bytes between longer runs
    * take no more tokens than those runs save and the bound allows.
    */
  lemma DocumentedBoundExactly(x: bytes)
    ensures |Compressed(x)| <= |x| + Ceiling(|x|, 128)
       <==> Stretches(RunLengths(x), 0) <= SavedByAll(RunLengths(x)) + Ceiling(|x|, 128)
  {
    ExactSize(x);
    LiteralsAreStretches(x, 0);
    SavedIsSavedByAll(x);
  }

  function Total(lengths: seq<nat>): nat {
    if lengths == [] then 0 else lengths[0] + Total(lengths[1..])
  }

  lemma {:induction false} TotalIsLength(x: bytes)
    ensures Total(RunLengths(x)) == |x|
    decreases |x|
  {
    if x != [] {
      TotalIsLength(x[Leading(x)..]);
      assert RunLengths(x)[1..] == RunLengths(x[Leading(x)..]);
    }
  }

  lemma CeilingSplits(a: nat, b: nat)
    ensures Ceiling(a, 128) + Ceiling(b, 128) <= Ceiling(a + b, 128) + 1
    ensures Ceiling(a, 128) <= Ceiling(a + b, 128)
  {
  }

  /** Without runs of exactly two bytes every longer run pays for the stretch it ends. */
  lemma {:induction false} RunsPay(lengths: seq<nat>, open: nat)
    requires 2 !in lengths && 0 !in lengths
    ensures Stretches(lengths, open) <= SavedByAll(lengths) + Ceiling(open + Total(lengths), 128)
    decreases lengths
  {
    if lengths != [] {
      var n, rest := lengths[0], lengths[1..];
      if n == 1 {
        RunsPay(rest, open + 1);
      } else {
        var odd := if n % 128 == 1 then 1 else 0;
        RunsPay(rest, odd);
        CeilingSplits(open, odd + Total(rest));
        CeilingSplits(open + odd + Total(rest), n - odd);
        assert SavedBy(n) >= 1;
      }
    }
  }

  lemma {:induction false} RunsAreNotEmpty(x: bytes)
    ensures 0 !in RunLengths(x)
    decreases |x|
  {
    if x != [] {
      RunsAreNotEmpty(x[Leading(x)..]);
    }
  }

  /** The documented bound holds for every input without a maximal run of exactly two equal bytes. */
  lemma NoPairsKeepBound(x: bytes)
    requires 2 !in RunLengths(x)
    ensures |Compressed(x)| <= |x| + Ceiling(|x|, 128)
  {
    RunsAreNotEmpty(x);
    RunsPay(RunLengths(x), 0);
    TotalIsLength(x);
    DocumentedBoundExactly(x);
  }
}
