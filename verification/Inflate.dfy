/**
 The DEFLATE working set of `cap/mod.rs`: a 32 KiB window used as a wrapping ring, and a decompressor
 known only by what one call may do. `Decodes` says what it means for that decompressor to inflate an
 input to a given output when its only memory of the past is the ring.
 */
module Inflate {
  import opened Bytes

  const INFLATE_WINDOW: nat := 32768

  datatype Status = Done | HasMoreOutput | NeedsMoreInput | Failed

  datatype Produced<S> = Produced(status: Status, consumed: nat, out: bytes, next: S)

  /**
   A decompressor: its reset state, one call on remaining input, wrapping window and output position, and
   one call that fills the window from its start without wrapping.
   */
  datatype Codec<!S> = Codec(init: S, step: (S, bytes, bytes, nat) -> Produced<S>, flat: (S, bytes) -> Produced<S>)

  /** Whatever the input, a call consumes no more than there is and never writes past the window. */
  ghost predicate Bounded<S(!new)>(c: Codec<S>) {
    && (forall s: S, input: bytes {:trigger c.flat(s, input)} ::
          c.flat(s, input).consumed <= |input| && |c.flat(s, input).out| <= INFLATE_WINDOW)
    && forall s: S, input: bytes, window: bytes, pos: nat {:trigger c.step(s, input, window, pos)}
      | |window| == INFLATE_WINDOW && pos < INFLATE_WINDOW ::
      c.step(s, input, window, pos).consumed <= |input| && |c.step(s, input, window, pos).out| <= INFLATE_WINDOW - pos
  }

  // ---- The ring ----

  /** The window holds the last `min(n, 32768)` of the first `n` bytes of `out`. */
  ghost predicate Holds(window: bytes, out: bytes, n: nat) {
    && |window| == INFLATE_WINDOW && n <= |out|
    && forall k :: 0 <= k < n && n - INFLATE_WINDOW <= k ==> window[k % INFLATE_WINDOW] == out[k]
  }

  /** `window` with `out` written over it at `pos`. */
  function Overwrite(window: bytes, pos: nat, out: bytes): (w: bytes)
    requires pos + |out| <= |window|
    ensures |w| == |window|
  {
    window[..pos] + out + window[pos + |out|..]
  }

  lemma RingIndex(n: nat, k: int)
    requires 0 <= k && n - INFLATE_WINDOW <= k < n + INFLATE_WINDOW
    ensures var pos := n % INFLATE_WINDOW;
            k % INFLATE_WINDOW == if pos + (k - n) < 0 then pos + (k - n) + INFLATE_WINDOW
                                  else if pos + (k - n) < INFLATE_WINDOW then pos + (k - n)
                                  else pos + (k - n) - INFLATE_WINDOW
  {
    var q := n / INFLATE_WINDOW;
    assert n == q * INFLATE_WINDOW + n % INFLATE_WINDOW;
  }

  /** Appending at the ring position, short of the window end, keeps the ring current. */
  lemma RingAppend(window: bytes, out: bytes, n: nat, more: bytes)
    requires Holds(window, out, n) && n + |more| <= |out| && more == out[n..n + |more|]
    requires n % INFLATE_WINDOW + |more| <= INFLATE_WINDOW
    ensures Holds(Overwrite(window, n % INFLATE_WINDOW, more), out, n + |more|)
  {
    var pos := n % INFLATE_WINDOW;
    var w := Overwrite(window, pos, more);
    forall k | 0 <= k < n + |more| && n + |more| - INFLATE_WINDOW <= k
      ensures w[k % INFLATE_WINDOW] == out[k]
    {
      RingIndex(n, k);
    }
  }

  /** A run that does not pass the window end reads back consecutive bytes of the output. */
  lemma RingRead(window: bytes, out: bytes, n: nat, from: nat, take: nat)
    requires Holds(window, out, n) && from + take <= n && n - INFLATE_WINDOW <= from
    requires from % INFLATE_WINDOW + take <= INFLATE_WINDOW
    ensures from + take <= |out|
    ensures window[from % INFLATE_WINDOW..from % INFLATE_WINDOW + take] == out[from..from + take]
  {
    var start := from % INFLATE_WINDOW;
    forall j | start <= j < start + take
      ensures window[j] == out[from + (j - start)]
    {
      RingIndex(from, from + (j - start));
      assert window[(from + (j - start)) % INFLATE_WINDOW] == out[from + (j - start)];
    }
  }

  // ---- Inflating an input to an output ----

  /**
   `at` relates decompressor states to how much input is consumed and output produced. From a related
   state, with the ring current, a call yields the next bytes of `out` and a related state; it reports
   `Done` only at the end, and otherwise makes progress.
   */
  ghost predicate Decodes<S(!new)>(c: Codec<S>, input: bytes, out: bytes, at: (S, nat, nat) -> bool) {
    && at(c.init, 0, 0)
    && forall s: S, i: nat, n: nat, window: bytes {:trigger at(s, i, n), Holds(window, out, n)}
         | at(s, i, n) && i <= |input| && Holds(window, out, n) ::
         Continues(c, input, out, at, i, n, c.step(s, input[i..], window, n % INFLATE_WINDOW))
  }

  predicate Continues<S>(c: Codec<S>, input: bytes, out: bytes, at: (S, nat, nat) -> bool, i: nat, n: nat,
                         p: Produced<S>) {
    && p.status != Failed
    && i + p.consumed <= |input|
    && n + |p.out| <= |out| && p.out == out[n..n + |p.out|]
    && at(p.next, i + p.consumed, n + |p.out|)
    && (p.status == Done ==> n + |p.out| == |out|)
    && (p.status != Done ==> p.consumed > 0 || p.out != [])
  }

  /** A decompressor that gives all of `content` at once exactly when the window holds it. */
  ghost predicate InflatesWhole<S(!new)>(codec: Codec<S>, input: bytes, content: bytes) {
    var p := codec.flat(codec.init, input);
    if |content| <= INFLATE_WINDOW then p.status == Done && p.out == content else p.status != Done
  }

  /** `InflateCtx`: the window and the decompressor state, lent to the reader. */
  class InflateCtx<S(!new)> {
    const codec: Codec<S>
    const window: array<byte>
    var state: S

    ghost predicate Valid()
      reads this
    {
      window.Length == INFLATE_WINDOW && Bounded(codec)
    }

    constructor (codec: Codec<S>)
      requires Bounded(codec)
      ensures Valid() && this.codec == codec && state == codec.init && fresh(window)
    {
      this.codec := codec;
      window := new byte[INFLATE_WINDOW](_ => 0);
      state := codec.init;
    }

    /** Between components the decompressor is reset and the window reused. */
    method Reset()
      modifies this`state
      ensures state == codec.init
    {
      state := codec.init;
    }

    /** The library call: one step, its output written into the window at `pos`. */
    method Decompress(input: bytes, pos: nat) returns (status: Status, consumed: nat, written: nat)
      requires Valid() && pos < INFLATE_WINDOW
      modifies this`state, window
      ensures Valid()
      ensures var p := codec.step(old(state), input, old(window[..]), pos);
              && status == p.status && consumed == p.consumed <= |input| && written == |p.out| <= INFLATE_WINDOW - pos
              && state == p.next && window[..] == Overwrite(old(window[..]), pos, p.out)
    {
      var p := codec.step(state, input, window[..], pos);
      forall i | 0 <= i < |p.out| {
        window[pos + i] := p.out[i];
      }
      state := p.next;
      return p.status, p.consumed, |p.out|;
    }

    /** The library call on a whole component that is to fit the window. */
    method DecompressFlat(input: bytes) returns (status: Status, written: nat)
      requires Valid()
      modifies this`state, window
      ensures Valid()
      ensures var p := codec.flat(old(state), input);
              && status == p.status && written == |p.out| <= INFLATE_WINDOW
              && state == p.next && window[..written] == p.out
    {
      var p := codec.flat(state, input);
      forall i | 0 <= i < |p.out| {
        window[i] := p.out[i];
      }
      state := p.next;
      return p.status, |p.out|;
    }
  }
}
