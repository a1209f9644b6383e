/**
 LZ77 at token level (section 2 of RFC 1951): a decoder that reads tokens from its input and finds its
 back-references only in the wrapping window meets `Inflate.Decodes` for the unbounded expansion of those
 tokens, however much it chooses to put out per call.
 */
module Lz77 {
  import opened Bytes
  import opened Inflate

  datatype Token = Literal(b: byte) | Copy(len: nat, dist: nat)

  // ---- Unbounded decoding ----

  /** `len` bytes copied one at a time from `dist` back, so a copy may overlap itself. */
  function CopyBack(out: bytes, dist: nat, len: nat): bytes
    requires 1 <= dist <= |out|
    decreases len
  {
    if len == 0 then out else CopyBack(out + [out[|out| - dist]], dist, len - 1)
  }

  /** Distances reach at most 32 KiB back, and never before the start. */
  predicate WellFormed(ts: seq<Token>, n: nat)
    decreases |ts|
  {
    if ts == [] then true
    else
      match ts[0]
      case Literal(_) => WellFormed(ts[1..], n + 1)
      case Copy(len, dist) => 1 <= dist <= INFLATE_WINDOW && dist <= n && WellFormed(ts[1..], n + len)
  }

  lemma {:induction false} CopyBackExtends(out: bytes, dist: nat, len: nat)
    requires 1 <= dist <= |out|
    ensures |CopyBack(out, dist, len)| == |out| + len && out <= CopyBack(out, dist, len)
    decreases len
  {
    if len > 0 {
      CopyBackExtends(out + [out[|out| - dist]], dist, len - 1);
    }
  }

  /** Every byte copied is the one `dist` before it in the output, itself perhaps copied. */
  lemma {:induction false} CopyBackRepeats(out: bytes, dist: nat, len: nat, i: nat)
    requires 1 <= dist <= |out| <= i < |out| + len
    ensures i < |CopyBack(out, dist, len)| && CopyBack(out, dist, len)[i] == CopyBack(out, dist, len)[i - dist]
    decreases len
  {
    var next := out + [out[|out| - dist]];
    CopyBackExtends(out, dist, len);
    CopyBackExtends(next, dist, len - 1);
    if i > |out| {
      CopyBackRepeats(next, dist, len - 1, i);
    } else {
      assert CopyBack(out, dist, len)[i] == next[i] && CopyBack(out, dist, len)[i - dist] == next[i - dist];
    }
  }

  /** The expansion of tokens after the output so far. */
  function Expand(ts: seq<Token>, out: bytes): bytes
    requires WellFormed(ts, |out|)
    decreases |ts|
  {
    if ts == [] then out
    else
      match ts[0]
      case Literal(b) => Expand(ts[1..], out + [b])
      case Copy(len, dist) =>
        CopyBackExtends(out, dist, len);
        Expand(ts[1..], CopyBack(out, dist, len))
  }

  lemma {:induction false} ExpandExtends(ts: seq<Token>, out: bytes)
    requires WellFormed(ts, |out|)
    ensures out <= Expand(ts, out)
    decreases |ts|
  {
    if ts != [] {
      match ts[0]
      case Literal(b) => ExpandExtends(ts[1..], out + [b]);
      case Copy(len, dist) =>
        CopyBackExtends(out, dist, len);
        ExpandExtends(ts[1..], CopyBack(out, dist, len));
    }
  }

  // ---- Decoding in the ring ----

  /** Tokens without the finished copies at their head. */
  function Skip(ts: seq<Token>): (r: seq<Token>)
    ensures |r| <= |ts| && (r != [] && r[0].Copy? ==> r[0].len > 0)
  {
    if ts != [] && ts[0].Copy? && ts[0].len == 0 then Skip(ts[1..]) else ts
  }

  /** The next output byte, found in the ring, and the tokens left after it. */
  function NextByte(ts: seq<Token>, window: bytes, pos: nat): (byte, seq<Token>)
    requires ts != [] && |window| == INFLATE_WINDOW && pos < INFLATE_WINDOW
  {
    match ts[0]
    case Literal(b) => (b, ts[1..])
    case Copy(len, dist) =>
      (window[(pos - dist) % INFLATE_WINDOW], [Copy(if len > 0 then len - 1 else 0, dist)] + ts[1..])
  }

  /** Decode up to `limit` bytes, or to the window end: the bytes, and the tokens left. */
  function Fill(ts: seq<Token>, window: bytes, pos: nat, limit: nat): (r: (bytes, seq<Token>))
    requires |window| == INFLATE_WINDOW && pos <= INFLATE_WINDOW
    ensures |r.0| <= INFLATE_WINDOW - pos
    decreases INFLATE_WINDOW - pos
  {
    var todo := Skip(ts);
    if todo == [] || pos == INFLATE_WINDOW || limit == 0 then ([], todo)
    else
      var (b, rest) := NextByte(todo, window, pos);
      var (bs, left) := Fill(rest, window[pos := b], pos + 1, limit - 1);
      ([b] + bs, left)
  }

  // ---- Tokens as bytes ----

  /** Tokens in a plain byte form, standing for their Huffman codes. */
  function TokenBytes(ts: seq<Token>): bytes {
    if ts == [] then []
    else
      (match ts[0]
       case Literal(b) => [0, b]
       case Copy(len, dist) => [1] + ToBigEndian(len, 4) + ToBigEndian(dist, 4))
      + TokenBytes(ts[1..])
  }

  function ReadTokens(input: bytes): seq<Token>
    decreases |input|
  {
    if |input| >= 2 && input[0] == 0 then [Literal(input[1])] + ReadTokens(input[2..])
    else if |input| >= 9 && input[0] == 1 then
      [Copy(FromBigEndian(input[1..5]), FromBigEndian(input[5..9]))] + ReadTokens(input[9..])
    else []
  }

  /** Copies whose fields fit. */
  predicate Encodable(ts: seq<Token>) {
    forall t :: t in ts && t.Copy? ==> t.len < Pow256(4) && t.dist < Pow256(4)
  }

  lemma {:induction false} TokensRead(ts: seq<Token>)
    requires Encodable(ts)
    ensures ReadTokens(TokenBytes(ts)) == ts
  {
    if ts != [] {
      var rest := TokenBytes(ts[1..]);
      TokensRead(ts[1..]);
      match ts[0]
      case Literal(b) =>
        assert TokenBytes(ts)[2..] == rest;
      case Copy(len, dist) =>
        assert ts[0] in ts;
        BigEndianRoundTrip(len, 4);
        BigEndianRoundTrip(dist, 4);
        var input := TokenBytes(ts);
        assert input == [1] + ToBigEndian(len, 4) + ToBigEndian(dist, 4) + rest;
        assert input[1..5] == ToBigEndian(len, 4) && input[5..9] == ToBigEndian(dist, 4) && input[9..] == rest;
    }
  }

  // ---- The decoder ----

  datatype Decoder = Fresh | Running(left: seq<Token>)

  /** How many bytes more than one a call puts out. */
  type Pace = (seq<Token>, nat) -> nat

  /** One call: the first reads the tokens, each puts out some bytes short of the window end. */
  function Step(pace: Pace, s: Decoder, input: bytes, window: bytes, pos: nat): Produced<Decoder> {
    if |window| != INFLATE_WINDOW || pos >= INFLATE_WINDOW then Produced(Failed, 0, [], s)
    else
      var ts := if s.Fresh? then ReadTokens(input) else s.left;
      var (bs, left) := Fill(ts, window, pos, pace(ts, pos) + 1);
      Produced(if left == [] then Done else HasMoreOutput, if s.Fresh? then |input| else 0, bs, Running(left))
  }

  /** One call that fills the window from its start. */
  function Flat(s: Decoder, input: bytes): Produced<Decoder> {
    var ts := if s.Fresh? then ReadTokens(input) else s.left;
    var (bs, left) := Fill(ts, Zeros(INFLATE_WINDOW), 0, INFLATE_WINDOW);
    Produced(if left == [] then Done else HasMoreOutput, |input|, bs, Running(left))
  }

  /** One decoder for every input. */
  function TokenCodec(pace: Pace): Codec<Decoder> {
    Codec(Fresh, (s, input, window, pos) => Step(pace, s, input, window, pos), (s, input) => Flat(s, input))
  }

  lemma TokenCodecBounded(pace: Pace)
    ensures Bounded(TokenCodec(pace))
  {
  }

  /** Remaining tokens that still expand the first `n` bytes to the whole output. */
  predicate Remaining(ts: seq<Token>, n: nat, out: bytes) {
    n <= |out| && WellFormed(ts, n) && Expand(ts, out[..n]) == out
  }

  lemma {:induction false} SkipKeeps(ts: seq<Token>, n: nat, out: bytes)
    requires Remaining(ts, n, out)
    ensures Remaining(Skip(ts), n, out)
  {
    if ts != [] && ts[0].Copy? && ts[0].len == 0 {
      SkipKeeps(ts[1..], n, out);
    }
  }

  /** The byte found in the ring is the next byte of the unbounded output. */
  lemma NextByteIsRight(ts: seq<Token>, window: bytes, n: nat, out: bytes)
    requires Remaining(ts, n, out) && ts != [] && (ts[0].Copy? ==> ts[0].len > 0)
    requires Holds(window, out, n)
    ensures var (b, rest) := NextByte(ts, window, n % INFLATE_WINDOW);
            n < |out| && b == out[n] && Remaining(rest, n + 1, out)
  {
    var sofar := out[..n];
    match ts[0]
    case Literal(b) =>
      ExpandExtends(ts[1..], sofar + [b]);
      assert out[n] == b && out[..n + 1] == sofar + [b];
    case Copy(len, dist) =>
      var b := sofar[n - dist];
      RingIndex(n, n - dist);
      assert (n % INFLATE_WINDOW - dist) % INFLATE_WINDOW == (n - dist) % INFLATE_WINDOW;
      CopyBackExtends(sofar + [b], dist, len - 1);
      ExpandExtends(ts[1..], CopyBack(sofar + [b], dist, len - 1));
      assert out[n] == b && out[..n + 1] == sofar + [b];
      var rest := [Copy(len - 1, dist)] + ts[1..];
      assert rest[0] == Copy(len - 1, dist) && rest[1..] == ts[1..];
  }

  lemma DoneAtEnd(n: nat, out: bytes)
    ensures Remaining([], n, out) ==> n == |out|
  {
  }

  lemma HoldsWithin(window: bytes, out: bytes, n: nat)
    requires Holds(window, out, n)
    ensures |window| == INFLATE_WINDOW && n <= |out|
  {
  }

  lemma SliceFront(out: bytes, n: nat, b: byte, bs: bytes)
    requires n + 1 + |bs| <= |out| && out[n] == b && out[n + 1..n + 1 + |bs|] == bs
    ensures out[n..n + |[b] + bs|] == [b] + bs
  {
  }

  lemma RingPush(window: bytes, out: bytes, n: nat, b: byte)
    requires Holds(window, out, n) && n < |out| && out[n] == b
    ensures Holds(window[n % INFLATE_WINDOW := b], out, n + 1)
    ensures n % INFLATE_WINDOW + 1 < INFLATE_WINDOW ==> (n + 1) % INFLATE_WINDOW == n % INFLATE_WINDOW + 1
  {
    RingAppend(window, out, n, [b]);
    assert Overwrite(window, n % INFLATE_WINDOW, [b]) == window[n % INFLATE_WINDOW := b];
    RingIndex(n, n + 1);
  }

  lemma {:induction false} FillIsRight(ts: seq<Token>, window: bytes, n: nat, pos: nat, limit: nat, out: bytes)
    requires Remaining(ts, n, out) && Holds(window, out, n)
    requires pos <= INFLATE_WINDOW && (pos < INFLATE_WINDOW ==> pos == n % INFLATE_WINDOW)
    ensures var (bs, left) := Fill(ts, window, pos, limit);
            && n + |bs| <= |out| && bs == out[n..n + |bs|]
            && Remaining(left, n + |bs|, out)
            && (left == [] ==> n + |bs| == |out|)
            && (left != [] && pos < INFLATE_WINDOW && limit > 0 ==> bs != [])
    decreases INFLATE_WINDOW - pos
  {
    hide Remaining, Holds, Skip, NextByte, Fill;
    SkipKeeps(ts, n, out);
    DoneAtEnd(n, out);
    HoldsWithin(window, out, n);
    FillUnfolds(ts, window, pos, limit);
    var todo := Skip(ts);
    if todo != [] && pos < INFLATE_WINDOW && limit > 0 {
      var b, rest := NextByte(todo, window, pos).0, NextByte(todo, window, pos).1;
      NextByteIsRight(todo, window, n, out);
      RingPush(window, out, n, b);
      FillIsRight(rest, window[pos := b], n + 1, pos + 1, limit - 1, out);
      SliceFront(out, n, b, Fill(rest, window[pos := b], pos + 1, limit - 1).0);
    } else {
      assert out[n..n] == [];
    }
  }

  lemma FillUnfolds(ts: seq<Token>, window: bytes, pos: nat, limit: nat)
    requires |window| == INFLATE_WINDOW && pos <= INFLATE_WINDOW
    ensures var todo := Skip(ts);
            Fill(ts, window, pos, limit)
            == if todo == [] || pos == INFLATE_WINDOW || limit == 0 then ([], todo)
               else
                 var (b, rest) := NextByte(todo, window, pos);
                 var r := Fill(rest, window[pos := b], pos + 1, limit - 1);
                 ([b] + r.0, r.1)
  {
    hide Skip, NextByte;
  }

  /** Where a decoder that read `ts` is, after putting out `n` bytes. */
  function DecoderAt(out: bytes): (Decoder, nat, nat) -> bool {
    (s: Decoder, i: nat, n: nat) =>
      match s
      case Fresh => i == 0 && n == 0
      case Running(left) => Remaining(left, n, out) && (left != [] || n == |out|)
  }

  /**
   Decoding into the wrapping ring equals decoding into an unbounded sequence: for every well-formed
   token list read from the input, and every pace of putting it out.
   */
  lemma RingDecodesTokens(pace: Pace, ts: seq<Token>)
    requires WellFormed(ts, 0) && Encodable(ts)
    ensures Decodes(TokenCodec(pace), TokenBytes(ts), Expand(ts, []), DecoderAt(Expand(ts, [])))
  {
    hide Remaining, Holds, Fill, Expand, WellFormed, ReadTokens, TokenBytes, Continues, Step, Flat;
    var out, input, codec := Expand(ts, []), TokenBytes(ts), TokenCodec(pace);
    var at := DecoderAt(out);
    forall s: Decoder, i: nat, n: nat, window: bytes | at(s, i, n) && i <= |input| && Holds(window, out, n)
      ensures Continues(codec, input, out, at, i, n, codec.step(s, input[i..], window, n % INFLATE_WINDOW))
    {
      StepContinues(pace, ts, s, i, n, window);
    }
  }

  lemma StepContinues(pace: Pace, ts: seq<Token>, s: Decoder, i: nat, n: nat, window: bytes)
    requires WellFormed(ts, 0) && Encodable(ts) && i <= |TokenBytes(ts)|
    requires DecoderAt(Expand(ts, []))(s, i, n) && Holds(window, Expand(ts, []), n)
    ensures Continues(TokenCodec(pace), TokenBytes(ts), Expand(ts, []), DecoderAt(Expand(ts, [])), i, n,
                      Step(pace, s, TokenBytes(ts)[i..], window, n % INFLATE_WINDOW))
  {
    hide Remaining, Holds, Fill, Expand, WellFormed, ReadTokens, TokenBytes, Encodable;
    var out, input := Expand(ts, []), TokenBytes(ts);
    var left := if s.Fresh? then ts else s.left;
    TokensRead(ts);
    StartsRemaining(ts);
    HoldsWithin(window, out, n);
    assert s.Fresh? ==> input[i..] == input;
    FillIsRight(left, window, n, n % INFLATE_WINDOW, pace(left, n % INFLATE_WINDOW) + 1, out);
  }

  lemma StartsRemaining(ts: seq<Token>)
    requires WellFormed(ts, 0)
    ensures Remaining(ts, 0, Expand(ts, []))
  {
    assert Expand(ts, [])[..0] == [];
  }

  /** A call stops short of its limit and of the window end only when no tokens are left. */
  lemma {:induction false} FillFills(ts: seq<Token>, window: bytes, pos: nat, limit: nat)
    requires |window| == INFLATE_WINDOW && pos <= INFLATE_WINDOW
    ensures var (bs, left) := Fill(ts, window, pos, limit);
            left != [] ==> (|bs| == limit || pos + |bs| == INFLATE_WINDOW) && (left[0].Copy? ==> left[0].len > 0)
    decreases INFLATE_WINDOW - pos
  {
    hide NextByte, Fill;
    FillUnfolds(ts, window, pos, limit);
    var todo := Skip(ts);
    if todo != [] && pos < INFLATE_WINDOW && limit > 0 {
      var next := NextByte(todo, window, pos);
      FillFills(next.1, window[pos := next.0], pos + 1, limit - 1);
    }
  }

  /** Tokens that are left, with a byte to give, mean there is more output. */
  lemma MoreRemains(ts: seq<Token>, n: nat, out: bytes)
    requires Remaining(ts, n, out) && ts != [] && (ts[0].Copy? ==> ts[0].len > 0)
    ensures n < |out|
  {
    match ts[0]
    case Literal(b) => ExpandExtends(ts[1..], out[..n] + [b]);
    case Copy(len, dist) =>
      CopyBackExtends(out[..n], dist, len);
      ExpandExtends(ts[1..], CopyBack(out[..n], dist, len));
  }

  /** The same decoder, filling the window from its start, gives at once exactly what fits it. */
  lemma FlatDecodesTokens(pace: Pace, ts: seq<Token>)
    requires WellFormed(ts, 0) && Encodable(ts)
    ensures InflatesWhole(TokenCodec(pace), TokenBytes(ts), Expand(ts, []))
  {
    hide Fill, Expand, WellFormed, ReadTokens, TokenBytes, Encodable, Remaining;
    var out, window := Expand(ts, []), Zeros(INFLATE_WINDOW);
    TokensRead(ts);
    StartsRemaining(ts);
    FillIsRight(ts, window, 0, 0, INFLATE_WINDOW, out);
    FillFills(ts, window, 0, INFLATE_WINDOW);
    var (bs, left) := Fill(ts, window, 0, INFLATE_WINDOW);
    assert out[0..|bs|] == out[..|bs|];
    if left != [] {
      MoreRemains(left, |bs|, out);
    } else {
      assert out[..|out|] == out;
    }
  }
}
