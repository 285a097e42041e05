/** The run-length transform. */
module RunLength {
  // transform.cpp: the transform, its inverse and its size.

  import opened Common
  import opened Seqs

  const MAX_TOKEN: nat := 128

  // ---- compression

  /** Length of the run of equal bytes at the front, at most one token's worth. */
  function Run(x: bytes, n: nat): (r: nat)
    requires 1 <= n <= |x| && n <= MAX_TOKEN
    ensures n <= r <= |x| && r <= MAX_TOKEN
    ensures (forall i | 0 <= i < n :: x[i] == x[0]) ==> forall i | 0 <= i < r :: x[i] == x[0]
    decreases |x| - n
  {
    if n < |x| && x[n] == x[0] && n < MAX_TOKEN then Run(x, n + 1) else n
  }

  function Literal(lit: bytes): (t: bytes)
    requires |lit| <= MAX_TOKEN
    ensures |t| == if lit == [] then 0 else 1 + |lit|
  {
    if lit == [] then [] else [|lit| - 1] + lit
  }

  function RunToken(value: byte, count: nat): bytes
    requires 1 <= count <= MAX_TOKEN
  {
    [128 + count - 1, value]
  }

  /** The tokens for `x` when the literal bytes `lit` in front of it are still to be written. */
  function Tokens(x: bytes, lit: bytes): bytes
    requires |lit| <= MAX_TOKEN
    decreases |x|
  {
    if x == [] then Literal(lit)
    else
      var run := Run(x, 1);
      if run >= 2 then Literal(lit) + RunToken(x[0], run) + Tokens(x[run..], [])
      else if |lit| == MAX_TOKEN then Literal(lit) + Tokens(x[1..], [x[0]])
      else Tokens(x[1..], lit + [x[0]])
  }

  function Compressed(x: bytes): bytes {
    Tokens(x, [])
  }

  /** The run scan of the source. */
  method RunLengthAt(input: bytes, i: nat) returns (n: nat)
    requires i < |input|
    ensures n == Run(input[i..], 1)
  {
    var v := input[i];
    ghost var x := input[i..];
    n := 1;
    while i + n < |input| && input[i + n] == v && n < MAX_TOKEN
      invariant 1 <= n <= |input| - i && n <= MAX_TOKEN
      invariant Run(x, n) == Run(x, 1)
    {
      assert x[n] == input[i + n] == x[0];
      n := n + 1;
    }
    assert n == |x| || x[n] != x[0] || n == MAX_TOKEN;
  }

  /** `rle_compress`. */
  method Compress(input: bytes) returns (out: bytes)
    ensures out == Compressed(input)
  {
    hide Run, Tokens, Literal, RunToken;
    out := [];
    var i, litStart, litLen := 0, 0, 0;
    assert input[0..] == input && input[0..0] == [];
    while i < |input|
      invariant 0 <= i <= |input| && 0 <= litLen <= MAX_TOKEN && litStart + litLen == i && litStart >= 0
      invariant out + Tokens(input[i..], input[litStart..i]) == Compressed(input)
      decreases |input| - i
    {
      ghost var x, lit := input[i..], input[litStart..i];
      TokensStep(x, lit, out);
      var run := RunLengthAt(input, i);
      if run >= 2 {
        out := FlushLiteral(out, input, litStart, litLen);
        out := out + RunToken(input[i], run);
        assert x[run..] == input[i + run..] && input[i + run..i + run] == [];
        i := i + run;
        litStart := i;
        litLen := 0;
      } else {
        assert x[1..] == input[i + 1..] && x[0] == input[i];
        if litLen == MAX_TOKEN {
          out := FlushLiteral(out, input, litStart, litLen);
          litStart := i;
          litLen := 0;
          assert input[i..i + 1] == [x[0]];
        } else {
          assert input[litStart..i + 1] == lit + [x[0]];
        }
        litLen := litLen + 1;
        i := i + 1;
      }
    }
    assert i == |input| && input[i..] == [];
    NoMore(input[litStart..i]);
    out := FlushLiteral(out, input, litStart, litLen);
  }

  /** One turn of the compressor, with what is already out in front. */
  lemma TokensStep(x: bytes, lit: bytes, out: bytes)
    requires x != [] && |lit| <= MAX_TOKEN
    ensures var run := Run(x, 1);
            out + Tokens(x, lit)
            == if run >= 2 then out + Literal(lit) + RunToken(x[0], run) + Tokens(x[run..], [])
               else if |lit| == MAX_TOKEN then out + Literal(lit) + Tokens(x[1..], [x[0]])
               else out + Tokens(x[1..], lit + [x[0]])
  {
    var run := Run(x, 1);
    hide Literal, RunToken, Run;
    if run >= 2 {
      Regroup4(out, Literal(lit), RunToken(x[0], run), Tokens(x[run..], []));
      Regroup3(Literal(lit), RunToken(x[0], run), Tokens(x[run..], []));
    } else if |lit| == MAX_TOKEN {
      Regroup3(out, Literal(lit), Tokens(x[1..], [x[0]]));
    }
  }

  lemma NoMore(lit: bytes)
    requires |lit| <= MAX_TOKEN
    ensures Tokens([], lit) == Literal(lit)
  {
  }

  /** The pending literal bytes as one token, if there are any. */
  method FlushLiteral(before: bytes, input: bytes, start: nat, len: nat) returns (out: bytes)
    requires start + len <= |input| && len <= MAX_TOKEN
    ensures out == before + Literal(input[start..start + len])
  {
    out := before;
    if len > 0 {
      out := out + [len - 1];
      for k := 0 to len
        invariant out == before + [len - 1] + input[start..start + k]
      {
        assert input[start..start + k + 1] == input[start..start + k] + [input[start + k]];
        out := out + [input[start + k]];
      }
      Regroup3(before, [len - 1], input[start..start + len]);
    }
  }

  // ---- decompression

  datatype Outcome = Done | Malformed | CapExceeded

  datatype Decoded = Decoded(outcome: Outcome, out: bytes)

  function Repeat(value: byte, n: nat): (r: bytes)
    ensures |r| == n
  {
    seq(n, _ => value)
  }

  /** What decoding appends to `out`, token by token, under a cap on the total. */
  function Expand(s: bytes, cap: nat, out: bytes): Decoded
    decreases |s|
  {
    if s == [] then Decoded(Done, out)
    else
      var count := s[0] % 128 + 1;
      if s[0] >= 128 then
        if |s| < 2 then Decoded(Malformed, out)
        else if |out| + count > cap then Decoded(CapExceeded, out)
        else Expand(s[2..], cap, out + Repeat(s[1], count))
      else
        if 1 + count > |s| then Decoded(Malformed, out)
        else if |out| + count > cap then Decoded(CapExceeded, out)
        else Expand(s[1 + count..], cap, out + s[1..1 + count])
  }

  /** `rle_decompress`. */
  method Decompress(data: bytes, cap: nat, before: bytes) returns (r: Decoded)
    ensures r == Expand(data, cap, before)
  {
    var out := before;
    var pos := 0;
    assert data[0..] == data;
    while pos < |data|
      invariant 0 <= pos <= |data| && Expand(data[pos..], cap, out) == Expand(data, cap, before)
      decreases |data| - pos
    {
      ghost var s := data[pos..];
      var control := data[pos];
      pos := pos + 1;
      var count: nat := control % 128 + 1;
      if control >= 128 {
        if pos >= |data| {
          return Decoded(Malformed, out);
        }
        if |out| + count > cap {
          return Decoded(CapExceeded, out);
        }
        out := out + Repeat(data[pos], count);
        assert s[2..] == data[pos + 1..];
        pos := pos + 1;
      } else {
        if pos + count > |data| {
          return Decoded(Malformed, out);
        }
        if |out| + count > cap {
          return Decoded(CapExceeded, out);
        }
        assert s[1..1 + count] == data[pos..pos + count] && s[1 + count..] == data[pos + count..];
        out := out + data[pos..pos + count];
        pos := pos + count;
      }
    }
    r := Decoded(Done, out);
  }

  // ---- the inverse

  lemma LiteralExpands(lit: bytes, k: bytes, cap: nat, out: bytes)
    requires |lit| <= MAX_TOKEN
    ensures Expand(Literal(lit) + k, cap, out)
         == if |out| + |lit| <= cap || lit == [] then Expand(k, cap, out + lit) else Decoded(CapExceeded, out)
  {
    if lit == [] {
      assert Literal(lit) + k == k && out + lit == out;
    } else {
      var s := Literal(lit) + k;
      assert s[0] == |lit| - 1 && s[0] % 128 + 1 == |lit| && |s| == 1 + |lit| + |k|;
      assert s[1..1 + |lit|] == lit && s[1 + |lit|..] == k;
      hide Literal;
    }
  }

  lemma RunExpands(value: byte, count: nat, k: bytes, cap: nat, out: bytes)
    requires 1 <= count <= MAX_TOKEN
    ensures Expand(RunToken(value, count) + k, cap, out)
         == if |out| + count <= cap then Expand(k, cap, out + Repeat(value, count)) else Decoded(CapExceeded, out)
  {
    var s := RunToken(value, count) + k;
    assert s[2..] == k;
  }

  /** Decoding the tokens gives the bytes back when the cap allows, and complains of the cap alone when not. */
  lemma {:induction false} TokensExpand(x: bytes, lit: bytes, cap: nat, out: bytes)
    requires |lit| <= MAX_TOKEN && |out| <= cap
    ensures var r := Expand(Tokens(x, lit), cap, out);
            if |out| + |lit| + |x| <= cap then r == Decoded(Done, out + lit + x) else r.outcome == CapExceeded
    decreases |x|
  {
    if x == [] {
      assert Literal(lit) + [] == Literal(lit);
      LiteralExpands(lit, [], cap, out);
      assert out + lit + x == out + lit;
    } else {
      var run := Run(x, 1);
      if run >= 2 {
        RunThenRest(x, run, lit, cap, out);
        if |out| + |lit| + run <= cap {
          TokensExpand(x[run..], [], cap, out + lit + Repeat(x[0], run));
        }
        hide Expand, Tokens, Run;
        assert out + lit + Repeat(x[0], run) + [] + x[run..] == out + lit + x;
      } else if |lit| == MAX_TOKEN {
        if |out| + |lit| <= cap {
          TokensExpand(x[1..], [x[0]], cap, out + lit);
        }
        FullLiteral(x, lit, cap, out);
      } else {
        TokensExpand(x[1..], lit + [x[0]], cap, out);
        hide Expand, Literal, Run;
        assert out + (lit + [x[0]]) + x[1..] == out + lit + x;
      }
    }
  }

  lemma FullLiteral(x: bytes, lit: bytes, cap: nat, out: bytes)
    requires x != [] && Run(x, 1) == 1 && |lit| == MAX_TOKEN
    ensures Expand(Tokens(x, lit), cap, out)
         == if |out| + |lit| <= cap then Expand(Tokens(x[1..], [x[0]]), cap, out + lit) else Decoded(CapExceeded, out)
    ensures out + lit + [x[0]] + x[1..] == out + lit + x
  {
    assert Tokens(x, lit) == Literal(lit) + Tokens(x[1..], [x[0]]);
    hide Expand, Tokens, Literal, Run;
    LiteralExpands(lit, Tokens(x[1..], [x[0]]), cap, out);
  }

  lemma RunThenRest(x: bytes, run: nat, lit: bytes, cap: nat, out: bytes)
    requires x != [] && run == Run(x, 1) >= 2 && |lit| <= MAX_TOKEN && |out| <= cap
    ensures x == Repeat(x[0], run) + x[run..]
    ensures Expand(Tokens(x, lit), cap, out)
         == if |out| + |lit| + run <= cap then Expand(Tokens(x[run..], []), cap, out + lit + Repeat(x[0], run))
            else Decoded(CapExceeded, if |out| + |lit| <= cap then out + lit else out)
  {
    var k := Tokens(x[run..], []);
    Regroup3(Literal(lit), RunToken(x[0], run), k);
    assert Tokens(x, lit) == Literal(lit) + (RunToken(x[0], run) + k);
    hide Expand, Tokens, Literal, RunToken;
    LiteralExpands(lit, RunToken(x[0], run) + k, cap, out);
    RunExpands(x[0], run, k, cap, out + lit);
    assert lit == [] ==> out + lit == out;
  }

  /** Decompression undoes compression. */
  lemma RleRoundTrip(x: bytes, cap: nat, out: bytes)
    requires |out| + |x| <= cap
    ensures Expand(Compressed(x), cap, out) == Decoded(Done, out + x)
  {
    TokensExpand(x, [], cap, out);
    assert out + [] + x == out + x;
  }

  // ---- arbitrary tokens

  /** The bytes a token stream stands for, None when its last token is cut short. */
  function Meaning(s: bytes): Option<bytes>
    decreases |s|
  {
    if s == [] then Some([])
    else
      var count := s[0] % 128 + 1;
      if s[0] >= 128 then
        if |s| < 2 then None else Prefixed(Repeat(s[1], count), Meaning(s[2..]))
      else
        if 1 + count > |s| then None else Prefixed(s[1..1 + count], Meaning(s[1 + count..]))
  }

  function Prefixed(a: bytes, rest: Option<bytes>): Option<bytes> {
    match rest
    case None => None
    case Some(b) => Some(a + b)
  }

  /** On any input: success exactly when every token is complete and all of it fits, never past the cap. */
  lemma {:induction false} DecodesExactly(s: bytes, cap: nat, out: bytes)
    requires |out| <= cap
    ensures var r := Expand(s, cap, out);
            && out <= r.out && |r.out| <= cap
            && (r.outcome == Done <==> Meaning(s).Some? && |out| + |Meaning(s).value| <= cap)
            && (r.outcome == Done ==> r.out == out + Meaning(s).value)
    decreases |s|
  {
    if s != [] {
      var count := s[0] % 128 + 1;
      if s[0] >= 128 {
        if |s| >= 2 && |out| + count <= cap {
          var token := Repeat(s[1], count);
          DecodesExactly(s[2..], cap, out + token);
          AppendMeaning(out, token, Meaning(s[2..]));
        }
      } else if 1 + count <= |s| && |out| + count <= cap {
        var token := s[1..1 + count];
        DecodesExactly(s[1 + count..], cap, out + token);
        AppendMeaning(out, token, Meaning(s[1 + count..]));
      }
    }
  }

  lemma AppendMeaning(out: bytes, token: bytes, rest: Option<bytes>)
    ensures rest.Some? ==> out + token + rest.value == out + (token + rest.value)
    ensures out <= out + token
  {
  }

  // ---- size

  /** How many literal tokens an input takes, and how many bytes its runs save. */
  function LiteralTokens(x: bytes, lit: nat): nat
    requires lit <= MAX_TOKEN
    decreases |x|
  {
    var flush := if lit == 0 then 0 else 1;
    if x == [] then flush
    else
      var run := Run(x, 1);
      if run >= 2 then flush + LiteralTokens(x[run..], 0)
      else if lit == MAX_TOKEN then flush + LiteralTokens(x[1..], 1)
      else LiteralTokens(x[1..], lit + 1)
  }

  function Saved(x: bytes): nat
    decreases |x|
  {
    if x == [] then 0
    else
      var run := Run(x, 1);
      if run >= 2 then run - 2 + Saved(x[run..]) else Saved(x[1..])
  }

  lemma {:induction false} TokensSize(x: bytes, lit: bytes)
    requires |lit| <= MAX_TOKEN
    ensures |Tokens(x, lit)| + Saved(x) == |lit| + |x| + LiteralTokens(x, |lit|)
    decreases |x|
  {
    if x != [] {
      var run := Run(x, 1);
      if run >= 2 {
        TokensSize(x[run..], []);
      } else if |lit| == MAX_TOKEN {
        TokensSize(x[1..], [x[0]]);
      } else {
        TokensSize(x[1..], lit + [x[0]]);
      }
    }
  }

  /** The exact size: one byte more for every literal token, less what the runs save. */
  lemma ExactSize(x: bytes)
    ensures |Compressed(x)| == |x| + LiteralTokens(x, 0) - Saved(x)
  {
    TokensSize(x, []);
  }

  function Ceiling(n: nat, d: nat): nat
    requires d > 0
  {
    (n + d - 1) / d
  }

  /** "abbcdd" takes eight bytes, one more than promised. */
  lemma DocumentedBoundFails()
    ensures var x: bytes := [97, 98, 98, 99, 100, 100];
            |Compressed(x)| == 8 && |x| + Ceiling(|x|, 128) == 7
  {
    var x: bytes := [97, 98, 98, 99, 100, 100];
    PairStep(97, 98, [99, 100, 100]);
    PairStep(99, 100, []);
    assert [99, 100, 100] == [99, 100, 100] + [];
    assert x == [97, 98, 98] + [99, 100, 100];
    assert Tokens([], []) == [];
  }

  /** A single byte and a pair: four bytes for three. */
  lemma PairStep(a: byte, b: byte, rest: bytes)
    requires a != b && (rest != [] ==> rest[0] != b)
    ensures |Tokens([a, b, b] + rest, [])| == 4 + |Tokens(rest, [])|
  {
    var x := [a, b, b] + rest;
    assert Run(x, 1) == 1;
    var y := x[1..];
    assert y == [b, b] + rest && y[0] == b && y[1] == b;
    assert Run(y, 2) == 2;
    assert Run(y, 1) == 2;
    assert y[2..] == rest;
    assert Tokens(x, []) == Tokens(y, [] + [a]);
  }

  lemma {:induction false} TokensBound(x: bytes, lit: bytes)
    requires |lit| <= MAX_TOKEN
    ensures |Tokens(x, lit)| <= |lit| + |x| + Ceiling(|lit| + |x|, 3)
    decreases |x|
  {
    if x != [] {
      var run := Run(x, 1);
      if run >= 2 {
        TokensBound(x[run..], []);
      } else if |lit| == MAX_TOKEN {
        TokensBound(x[1..], [x[0]]);
      } else {
        TokensBound(x[1..], lit + [x[0]]);
      }
    }
  }

  /** The bound the code does meet, for every input. */
  lemma SizeBound(x: bytes)
    ensures |Compressed(x)| <= |x| + Ceiling(|x|, 3)
  {
    TokensBound(x, []);
  }

  /** A single, a pair, a single, a pair, ... */
  function Worst(n: nat): (x: bytes)
    ensures |x| == n && (n > 0 ==> x[0] == 0)
  {
    if n < 3 then [0, 1][..n] else [0, 1, 1] + Worst(n - 3)
  }

  /** For every length there is an input that takes all of the bound. */
  lemma {:induction false} BoundIsReached(n: nat)
    ensures |Compressed(Worst(n))| == n + Ceiling(n, 3)
  {
    if n >= 3 {
      BoundIsReached(n - 3);
      PairStep(0, 1, Worst(n - 3));
    } else if n == 2 {
      assert Worst(2) == [0, 1];
      assert Run([0, 1], 1) == 1 && [0, 1][1..] == [1];
      assert Run([1], 1) == 1 && [1][1..] == [];
      assert Tokens([0, 1], []) == Tokens([1], [] + [0]) == Tokens([], [0] + [1]);
    } else if n == 1 {
      assert Worst(1) == [0] && [0][1..] == [];
      assert Run([0], 1) == 1;
      assert Tokens([0], []) == Tokens([], [] + [0]);
    }
  }
}
