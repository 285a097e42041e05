/** Fragment by fragment. */
module FragmentLaw {
  // How encode_message cuts a payload: how many fragments there are, and every field of each, by its
  // place in the sequence.

  import opened Common
  import opened FrameEncoding
  import opened Frames

  /** Fragments of `size` bytes each that `n` bytes take; no bytes take one empty fragment. */
  function CountFor(n: nat, size: nat): nat
    requires size > 0
    decreases n
  {
    if n <= size then 1 else 1 + CountFor(n - size, size)
  }

  /** The number of fragments is the number of sizes begun, and at least one. */
  lemma {:induction false} CountExactly(n: nat, size: nat)
    requires size > 0
    ensures var count := CountFor(n, size);
            count >= 1 && n <= count * size && (count > 1 ==> (count - 1) * size < n)
    decreases n
  {
    if n > size {
      CountExactly(n - size, size);
      var before := CountFor(n - size, size);
      assert (before + 1) * size == before * size + size;
      assert before > 1 ==> before * size == (before - 1) * size + size;
    }
  }

  /** The fragment carries the bytes from `at` on: `size` of them, or what is left. */
  ghost predicate Slice(s: FrameSpec, payload: bytes, at: nat, size: nat, last: bool) {
    && at <= |payload| && s.fragOffset == at % 0x1_0000_0000
    && if last then |payload| <= at + size && s.payload == payload[at..]
       else at + size <= |payload| && s.payload == payload[at..at + size]
  }

  /** Fragment `i` of a message cut from `from` on. */
  ghost predicate StandsAs(s: FrameSpec, p: Plan, from: nat, i: nat, count: nat, firstSeq: u16) {
    && s.kind == Data && s.streamId == p.key.streamId && s.msgId == p.key.msgId && s.withCrc == p.withCrc
    && s.seqNo == (firstSeq + i) % 0x1_0000
    && Slice(s, p.payload, from + i * p.size, p.size, i == count - 1)
    && s.flags == (if i == count - 1 then 1 else 0) + (if |p.payload| > p.size then 2 else 0)
                + (if p.compressed then 4 else 0)
  }

  lemma {:induction false} CutFrom(p: Plan, from: nat, firstSeq: u16, i: nat)
    requires from <= |p.payload| && p.size > 0
    ensures var specs := FragmentsFrom(p, from, firstSeq);
            && |specs| == CountFor(|p.payload| - from, p.size)
            && (i < |specs| ==> StandsAs(specs[i], p, from, i, |specs|, firstSeq))
    decreases |p.payload| - from
  {
    hide StandsAs, Fragment;
    var specs := FragmentsFrom(p, from, firstSeq);
    OneFragment(p, from, firstSeq, |specs|);
    if |p.payload| - from > p.size {
      CutFrom(p, from + p.size, (firstSeq + 1) % TWO16, if i == 0 then 0 else i - 1);
      hide FragmentsFrom, CountFor;
      if 0 < i < |specs| {
        OneFurther(specs[i], p, from, i, |specs|, firstSeq);
      }
    }
  }

  lemma OneFragment(p: Plan, from: nat, firstSeq: u16, count: nat)
    requires from <= |p.payload| && p.size > 0
    ensures count > 0 && (count == 1 <==> |p.payload| - from <= p.size)
        ==> StandsAs(Fragment(p, from, firstSeq), p, from, 0, count, firstSeq)
  {
  }

  lemma OneFurther(s: FrameSpec, p: Plan, from: nat, i: nat, count: nat, firstSeq: u16)
    requires 0 < i < count && StandsAs(s, p, from + p.size, i - 1, count - 1, (firstSeq + 1) % TWO16)
    ensures StandsAs(s, p, from, i, count, firstSeq)
  {
    assert from + p.size + (i - 1) * p.size == from + i * p.size;
    assert ((firstSeq + 1) % TWO16 + (i - 1)) % TWO16 == (firstSeq + i) % TWO16;
  }

  /**
    * Every fragment of a message by its number: its slice of the payload, its place, its sequence
    * number and its flags. The size asked for is brought between one byte and what a frame holds.
    */
  lemma FragmentExactly(key: Key, payload: bytes, maxFragment: nat, firstSeq: u16, compressed: bool, withCrc: bool,
                        i: nat)
    ensures var size := if maxFragment == 0 then 1 else if maxFragment > 65535 then 65535 else maxFragment;
            var specs := Fragments(key, payload, maxFragment, firstSeq, compressed, withCrc);
            && |specs| > 0 && |payload| <= |specs| * size && (|specs| > 1 ==> (|specs| - 1) * size < |payload|)
            && (i < |specs| ==>
                  StandsAs(specs[i], Plan(key, payload, size, compressed, withCrc), 0, i, |specs|, firstSeq))
  {
    hide StandsAs, FragmentsFrom;
    CutFrom(Plan(key, payload, ClampSize(maxFragment), compressed, withCrc), 0, firstSeq, i);
    CountExactly(|payload|, ClampSize(maxFragment));
  }
}
