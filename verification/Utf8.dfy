/** Strict UTF-8. */
module Utf8 {
  // Sections 3 and 4 of RFC 3629. On the byte ranges involved, a shift right by six is a division
  // by 64, a mask with 0x3F a remainder, and an `or` with a lead or continuation marker an addition.

  import opened Common

  const MAX_CODEPOINT: int := 0x10FFFF

  /** A Unicode scalar value: no surrogate, nothing above U+10FFFF. */
  predicate IsScalar(cp: int) {
    0 <= cp <= MAX_CODEPOINT && !(0xD800 <= cp <= 0xDFFF)
  }

  function Encode(cp: int): (s: bytes)
    requires IsScalar(cp)
    ensures 1 <= |s| <= 4
  {
    if cp < 0x80 then [cp]
    else if cp < 0x800 then [0xC0 + cp / 64, 0x80 + cp % 64]
    else if cp < 0x10000 then [0xE0 + cp / 64 / 64, 0x80 + cp / 64 % 64, 0x80 + cp % 64]
    else [0xF0 + cp / 64 / 64 / 64, 0x80 + cp / 64 / 64 % 64, 0x80 + cp / 64 % 64, 0x80 + cp % 64]
  }

  ghost predicate AllScalars(cps: seq<u32>) {
    forall i | 0 <= i < |cps| :: IsScalar(cps[i])
  }

  ghost function EncodeAll(cps: seq<u32>): bytes
    requires AllScalars(cps)
  {
    if cps == [] then [] else Encode(cps[0]) + EncodeAll(cps[1..])
  }

  predicate IsContinuation(b: byte) {
    0x80 <= b < 0xC0
  }

  /** `encode`: false, and nothing appended, exactly on non-scalars. */
  method AppendEncoded(cp: u32, out: bytes) returns (ok: bool, r: bytes)
    ensures ok == IsScalar(cp)
    ensures r == if ok then out + Encode(cp) else out
  {
    if 0xD800 <= cp <= 0xDFFF || cp > MAX_CODEPOINT {
      return false, out;
    }
    r := out;
    if cp < 0x80 {
      r := r + [cp];
    } else if cp < 0x800 {
      r := r + [0xC0 + cp / 64];
      r := r + [0x80 + cp % 64];
    } else if cp < 0x10000 {
      r := r + [0xE0 + cp / 64 / 64];
      r := r + [0x80 + cp / 64 % 64];
      r := r + [0x80 + cp % 64];
    } else {
      r := r + [0xF0 + cp / 64 / 64 / 64];
      r := r + [0x80 + cp / 64 / 64 % 64];
      r := r + [0x80 + cp / 64 % 64];
      r := r + [0x80 + cp % 64];
    }
    ok := true;
  }

  /** The lead byte of a scalar's encoding tells its length and its leading bits. */
  lemma LeadByte(cp: int)
    requires IsScalar(cp)
    ensures var e := Encode(cp);
            && (e[0] < 0x80 <==> |e| == 1) && (|e| == 1 ==> cp == e[0])
            && (0xC0 <= e[0] < 0xE0 <==> |e| == 2) && (0xE0 <= e[0] < 0xF0 <==> |e| == 3)
            && (0xF0 <= e[0] < 0xF8 <==> |e| == 4)
            && forall i | 1 <= i < |e| :: IsContinuation(e[i])
  {
  }

  /** What the lead bits and the first `n` continuation bytes of `s` carry, by Horner's rule. */
  ghost function Payload(lead: int, s: bytes, n: nat): int
    requires n < |s| || n == 0
  {
    if n == 0 then lead else 64 * Payload(lead, s, n - 1) + s[n] % 64
  }

  function LeadMarker(len: nat): int {
    if len == 2 then 0xC0 else if len == 3 then 0xE0 else 0xF0
  }

  function LeadLength(b: byte): nat {
    if 0xC0 <= b < 0xE0 then 2 else if 0xE0 <= b < 0xF0 then 3 else if 0xF0 <= b < 0xF8 then 4 else 0
  }

  /** The smallest scalar that needs `len` bytes: the overlong gate. */
  function MinValue(len: nat): nat {
    if len == 2 then 0x80 else if len == 3 then 0x800 else 0x10000
  }

  lemma EncodedPayload(cp: int, s: bytes)
    requires IsScalar(cp) && cp >= 0x80 && Encode(cp) <= s
    ensures var n := |Encode(cp)|; Payload(s[0] - LeadMarker(n), s, n - 1) == cp
  {
    var e := Encode(cp);
    assert forall i | 0 <= i < |e| :: s[i] == e[i];
    var lead := s[0] - LeadMarker(|e|);
    var h := cp / 64;
    assert cp == 64 * h + s[|e| - 1] % 64;
    if |e| == 2 {
      assert lead == h && Payload(lead, s, 0) == h;
    } else {
      var g := h / 64;
      assert h == 64 * g + s[|e| - 2] % 64;
      if |e| == 3 {
        assert lead == g && Payload(lead, s, 0) == g;
        assert Payload(lead, s, 1) == h;
      } else {
        assert lead == g / 64 && Payload(lead, s, 0) == g / 64;
        assert Payload(lead, s, 1) == g;
        assert Payload(lead, s, 2) == h;
      }
    }
  }

  lemma HornerStep(v: int, high: int, b: byte)
    requires IsContinuation(b) && v == 64 * high + b % 64
    ensures v / 64 == high && 0x80 + v % 64 == b
  {
  }

  lemma ThreeBytes(s: bytes, v: int, h: int)
    requires |s| >= 3 && IsScalar(v) && 0x800 <= v < 0x10000
    requires v / 64 == h && 0x80 + v % 64 == s[2] && 0xE0 + h / 64 == s[0] && 0x80 + h % 64 == s[1]
    ensures Encode(v) == s[..3]
  {
    assert Encode(v) == [s[0], s[1], s[2]];
  }

  lemma FourBytes(s: bytes, v: int, h: int, g: int)
    requires |s| >= 4 && IsScalar(v) && 0x10000 <= v
    requires v / 64 == h && 0x80 + v % 64 == s[3] && h / 64 == g && 0x80 + h % 64 == s[2]
    requires 0xF0 + g / 64 == s[0] && 0x80 + g % 64 == s[1]
    ensures Encode(v) == s[..4]
  {
    assert Encode(v) == [s[0], s[1], s[2], s[3]];
  }

  /** Bytes that carry a scalar too large for a shorter form are that scalar's encoding. */
  lemma PayloadEncodes(s: bytes, len: nat, v: int)
    requires 2 <= len <= |s| && len == LeadLength(s[0])
    requires forall i | 1 <= i < len :: IsContinuation(s[i])
    requires v == Payload(s[0] - LeadMarker(len), s, len - 1) && IsScalar(v) && v >= MinValue(len)
    ensures Encode(v) == s[..len]
  {
    var lead := s[0] - LeadMarker(len);
    assert Payload(lead, s, 0) == lead;
    var v1 := Payload(lead, s, 1);
    HornerStep(v1, lead, s[1]);
    if len == 2 {
      assert Encode(v) == [s[0], s[1]];
    } else {
      var v2 := Payload(lead, s, 2);
      HornerStep(v2, v1, s[2]);
      if len == 3 {
        ThreeBytes(s, v, v1);
      } else {
        HornerStep(v, v2, s[3]);
        FourBytes(s, v, v2, v1);
      }
    }
  }

  /** What the encoding of `c` must look like when it starts a non-ASCII buffer. */
  ghost predicate Carries(data: bytes, c: int)
    requires data != []
  {
    var len := LeadLength(data[0]);
    && 2 <= len <= |data|
    && (forall i | 1 <= i < len :: IsContinuation(data[i]))
    && Payload(data[0] - LeadMarker(len), data, len - 1) == c
    && MinValue(len) <= c
  }

  lemma OnlyCandidate(data: bytes, c: int)
    requires IsScalar(c) && data != [] && data[0] >= 0x80 && Encode(c) <= data
    ensures Carries(data, c)
  {
    LeadByte(c);
    assert forall i | 0 <= i < |Encode(c)| :: data[i] == Encode(c)[i];
    EncodedPayload(c, data);
  }

  /**
    * `decode`: the length and value of the one scalar whose encoding starts the buffer, or
    * 0 when no scalar's encoding does.
    */
  method Decode(data: bytes) returns (n: nat, cp: u32)
    ensures n > 0 ==> IsScalar(cp) && n == |Encode(cp)| && Encode(cp) <= data
    ensures n == 0 ==> forall c: int | IsScalar(c) :: !(Encode(c) <= data)
  {
    if |data| == 0 {
      return 0, 0;
    }
    var b0 := data[0];
    if b0 < 0x80 {
      return 1, b0;
    }
    hide Encode, Payload;
    forall c: int | IsScalar(c) && Encode(c) <= data
      ensures Carries(data, c)
    {
      OnlyCandidate(data, c);
    }
    var len: nat;
    var value: nat;
    var minValue: nat;
    if 0xC0 <= b0 < 0xE0 {
      len, value, minValue := 2, b0 - 0xC0, 0x80;
    } else if 0xE0 <= b0 < 0xF0 {
      len, value, minValue := 3, b0 - 0xE0, 0x800;
    } else if 0xF0 <= b0 < 0xF8 {
      len, value, minValue := 4, b0 - 0xF0, 0x10000;
    } else {
      return 0, 0;
    }
    if |data| < len {
      return 0, 0;
    }
    ghost var lead := value;
    var i := 1;
    while i < len
      invariant 1 <= i <= len
      invariant forall k | 1 <= k < i :: IsContinuation(data[k])
      invariant value == Payload(lead, data, i - 1)
    {
      var bi := data[i];
      if !IsContinuation(bi) {
        return 0, 0;
      }
      value := value * 64 + bi % 64;
      i := i + 1;
    }
    if value < minValue || 0xD800 <= value <= 0xDFFF || value > MAX_CODEPOINT {
      return 0, 0;
    }
    PayloadEncodes(data, len, value);
    return len, value;
  }

  /** No scalar's encoding starts another's: the first scalar of a buffer is determined. */
  lemma PrefixFree(c1: int, c2: int, s: bytes)
    requires IsScalar(c1) && IsScalar(c2) && Encode(c1) <= s && Encode(c2) <= s
    ensures c1 == c2
  {
    LeadByte(c1);
    LeadByte(c2);
    assert s != [] && Encode(c1)[0] == s[0] && Encode(c2)[0] == s[0];
    assert |Encode(c1)| == |Encode(c2)|;
    assert Encode(c1) == s[..|Encode(c1)|] == Encode(c2);
    if c1 >= 0x80 {
      EncodedPayload(c1, s);
      EncodedPayload(c2, s);
    }
  }

  lemma {:induction false} EncodeAllInjective(a: seq<u32>, b: seq<u32>)
    requires AllScalars(a) && AllScalars(b) && EncodeAll(a) == EncodeAll(b)
    ensures a == b
  {
    if a == [] || b == [] {
    } else {
      PrefixFree(a[0], b[0], EncodeAll(a));
      assert EncodeAll(a)[|Encode(a[0])|..] == EncodeAll(a[1..]);
      assert EncodeAll(b)[|Encode(b[0])|..] == EncodeAll(b[1..]);
      EncodeAllInjective(a[1..], b[1..]);
      assert a == [a[0]] + a[1..] && b == [b[0]] + b[1..];
    }
  }

  lemma {:induction false} EncodeAllConcat(a: seq<u32>, b: seq<u32>)
    requires AllScalars(a) && AllScalars(b)
    ensures AllScalars(a + b) && EncodeAll(a + b) == EncodeAll(a) + EncodeAll(b)
  {
    if a == [] {
      assert a + b == b;
    } else {
      EncodeAllConcat(a[1..], b);
      assert (a + b)[0] == a[0] && (a + b)[1..] == a[1..] + b;
      var e, x, y := Encode(a[0]), EncodeAll(a[1..]), EncodeAll(b);
      assert EncodeAll(a + b) == e + (x + y) == (e + x) + y;
    }
  }

  /** A buffer that decodes up to `i` and then shows no scalar is nobody's encoding. */
  lemma Undecodable(s: bytes, done: seq<u32>, i: nat, all: seq<u32>)
    requires AllScalars(done) && AllScalars(all)
    requires i < |s| && EncodeAll(done) == s[..i]
    requires forall c: int | IsScalar(c) :: !(Encode(c) <= s[i..])
    ensures EncodeAll(all) != s
    decreases |done|
  {
    assert i == 0 ==> s[i..] == s;
    if EncodeAll(all) == s && all != [] {
      assert Encode(all[0]) <= s;
      if done != [] {
        assert s[..i] <= s && Encode(done[0]) <= s;
        PrefixFree(done[0], all[0], s);
        var n := |Encode(done[0])|;
        assert s[n..][i - n..] == s[i..];
        assert EncodeAll(done[1..]) == s[..i][n..] == s[n..][..i - n];
        assert EncodeAll(all[1..]) == s[n..];
        Undecodable(s[n..], done[1..], i - n, all[1..]);
      }
    }
  }

  /** `to_codepoints`: the scalars the bytes encode, or false when they encode none. */
  method ToCodepoints(s: bytes) returns (ok: bool, out: seq<u32>)
    ensures AllScalars(out)
    ensures ok ==> EncodeAll(out) == s
    ensures !ok ==> forall cps | AllScalars(cps) :: EncodeAll(cps) != s
  {
    out := [];
    var i := 0;
    while i < |s|
      invariant 0 <= i <= |s| && AllScalars(out) && EncodeAll(out) == s[..i]
    {
      var n, cp := Decode(s[i..]);
      if n == 0 {
        forall cps | AllScalars(cps)
          ensures EncodeAll(cps) != s
        {
          Undecodable(s, out, i, cps);
        }
        return false, out;
      }
      EncodeAllConcat(out, [cp]);
      assert EncodeAll([cp]) == Encode(cp) + [];
      assert s[..i + n] == s[..i] + s[i..][..n];
      out := out + [cp];
      i := i + n;
    }
    ok := true;
  }

  /** `validate` and `count_codepoints` walk the same way; the count is that of the scalars. */
  method CountCodepoints(s: bytes) returns (valid: bool, count: nat)
    ensures valid <==> exists cps :: AllScalars(cps) && EncodeAll(cps) == s
    ensures forall cps | AllScalars(cps) && EncodeAll(cps) == s :: count == |cps|
  {
    ghost var out: seq<u32> := [];
    var i := 0;
    count := 0;
    while i < |s|
      invariant 0 <= i <= |s| && AllScalars(out) && EncodeAll(out) == s[..i] && count == |out|
    {
      var n, cp := Decode(s[i..]);
      if n == 0 {
        forall cps | AllScalars(cps)
          ensures EncodeAll(cps) != s
        {
          Undecodable(s, out, i, cps);
        }
        return false, count;
      }
      EncodeAllConcat(out, [cp]);
      assert EncodeAll([cp]) == Encode(cp) + [];
      assert s[..i + n] == s[..i] + s[i..][..n];
      out := out + [cp];
      i := i + n;
      count := count + 1;
    }
    assert EncodeAll(out) == s;
    forall cps | AllScalars(cps) && EncodeAll(cps) == s
      ensures count == |cps|
    {
      EncodeAllInjective(out, cps);
    }
    valid := true;
  }
}
