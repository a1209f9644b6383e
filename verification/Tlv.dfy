/**
 BER-TLV parsing and encoding (`tlv.rs`). Functions say what a byte string denotes and how a list of
 objects is written; the methods are the source's cursor loops, proved against them.
 */
module TlvCodec {
  import opened Bytes
  import opened Wrappers

  const MAX_TLVS: nat := 64
  const TAG_MAX_OCTETS: nat := 4
  /** Octets in the source's `usize`: four or eight, depending on the target. */
  type PointerWidth = n: nat | n == 4 || n == 8 witness 8
  const USIZE_OCTETS: PointerWidth

  datatype RawTlv = Tlv(tag: nat, value: bytes)

  /** A `u32` tag and a value whose length a `usize` holds. */
  predicate Fits(t: RawTlv) {
    t.tag < Pow256(TAG_MAX_OCTETS) && |t.value| < Pow256(USIZE_OCTETS)
  }

  type Tlv = t: RawTlv | Fits(t) witness Tlv(0, [])

  datatype TlvError = Truncated | BadLength | TooMany | Overflow

  // ---- What a byte string denotes ----

  /** A leading octet whose low five bits are all set announces further tag octets. */
  predicate ContinuesTag(b: byte) {
    b % 32 == 31
  }

  lemma ContinuesTagIs(b: byte)
    ensures ContinuesTag(b) <==> And(b, 0x1F) == 0x1F
  {
    LowBitsMasked(b, 5);
    assert Pow2(5) == 0x20;
  }

  function TagAt(s: bytes): Result<(nat, nat), TlvError> {
    if s == [] then Err(Truncated)
    else if ContinuesTag(s[0]) then TagFrom(s, s[0], 1)
    else Ok((s[0], 1))
  }

  /** The tag whose first `octets` octets denote `tag`, with its total octet count. */
  function TagFrom(s: bytes, tag: nat, octets: nat): (r: Result<(nat, nat), TlvError>)
    decreases |s| - octets
  {
    if octets >= |s| then Err(Truncated)
    else if octets + 1 > TAG_MAX_OCTETS then Err(BadLength)
    else if s[octets] < 0x80 then Ok((256 * tag + s[octets], octets + 1))
    else TagFrom(s, 256 * tag + s[octets], octets + 1)
  }

  function LengthAt(s: bytes): Result<(nat, nat), TlvError> {
    if s == [] then Err(Truncated)
    else if s[0] < 0x80 then Ok((s[0], 1))
    else
      var count := s[0] - 0x80;
      if count == 0 || count > USIZE_OCTETS then Err(BadLength)
      else if |s| < 1 + count then Err(Truncated)
      else Ok((FromBigEndian(s[1..1 + count]), 1 + count))
  }

  /** The object at the head of `s` and the bytes it occupies. */
  function ObjectAt(s: bytes): (r: Result<(Tlv, nat), TlvError>)
    ensures r.Ok? ==> 0 < r.value.1 <= |s|
  {
    TagBounds(s);
    var (tag, n) :- TagAt(s);
    LengthBounds(s[n..]);
    var (len, m) :- LengthAt(s[n..]);
    if n + m + len > |s| then Err(Truncated)
    else Ok((Tlv(tag, s[n + m..n + m + len]), n + m + len))
  }

  function ObjectsIn(s: bytes, room: nat): (r: Result<seq<Tlv>, TlvError>)
    ensures r.Ok? ==> |r.value| <= room
    decreases |s|
  {
    if s == [] then Ok([])
    else
      var (t, n) :- ObjectAt(s);
      if room == 0 then Err(TooMany)
      else
        var rest :- ObjectsIn(s[n..], room - 1);
        Ok([t] + rest)
  }

  /** The top-level objects of a byte string. */
  function TlvsOf(s: bytes): (r: Result<seq<Tlv>, TlvError>)
    ensures r.Ok? ==> |r.value| <= MAX_TLVS
  {
    ObjectsIn(s, MAX_TLVS)
  }

  // ---- How objects are written ----

  /** A number in its fewest big-endian octets; zero takes one. */
  function MinimalOctets(n: nat): (o: bytes)
    ensures |o| > 0
  {
    if n < 256 then [n] else MinimalOctets(n / 256) + [n % 256]
  }

  function LengthOctets(n: nat): bytes
    requires n < Pow256(USIZE_OCTETS)
  {
    if n < 0x80 then [n]
    else
      MinimalOctetsBound(n, USIZE_OCTETS);
      [0x80 + |MinimalOctets(n)|] + MinimalOctets(n)
  }

  /** Identifier octets of one to four octets (section 8.1.2 of ITU-T X.690). */
  predicate IsTagString(o: bytes) {
    && 1 <= |o| <= 4
    && (if And(o[0], 0x1F) == 0x1F then
          |o| >= 2 && o[|o| - 1] < 0x80 && forall i :: 1 <= i < |o| - 1 ==> o[i] >= 0x80
        else |o| == 1)
  }

  /** The tag is the number of some identifier octets. */
  predicate WellFormed(t: Tlv) {
    IsTagString(MinimalOctets(t.tag))
  }

  function ObjectBytes(t: Tlv): bytes {
    MinimalOctets(t.tag) + LengthOctets(|t.value|) + t.value
  }

  function EncodingOf(ts: seq<Tlv>): bytes {
    if ts == [] then [] else ObjectBytes(ts[0]) + EncodingOf(ts[1..])
  }

  // ---- Octet lemmas ----

  lemma {:induction false} MinimalOctetsBound(n: nat, width: nat)
    requires n < Pow256(width) && width > 0
    ensures |MinimalOctets(n)| <= width
  {
    if n >= 256 {
      MinimalOctetsBound(n / 256, width - 1);
    }
  }

  lemma {:induction false} MinimalOctetsDenote(n: nat)
    ensures FromBigEndian(MinimalOctets(n)) == n
  {
    var o := MinimalOctets(n);
    if n < 256 {
      assert o[..|o| - 1] == [];
    } else {
      MinimalOctetsDenote(n / 256);
      assert o[..|o| - 1] == MinimalOctets(n / 256);
    }
  }

  /** No octets denote the same number in less space than the minimal ones. */
  lemma {:induction false} MinimalOctetsLeast(o: bytes)
    requires o != []
    ensures |MinimalOctets(FromBigEndian(o))| <= |o|
    ensures |o| == 1 || o[0] != 0 ==> MinimalOctets(FromBigEndian(o)) == o
  {
    var front, last := o[..|o| - 1], o[|o| - 1];
    assert o == front + [last];
    if front != [] {
      MinimalOctetsLeast(front);
      assert FromBigEndian(o) / 256 == FromBigEndian(front) && FromBigEndian(o) % 256 == last;
      if o[0] != 0 {
        FromBigEndianPositive(front);
      }
    } else {
      assert FromBigEndian(front) == 0;
    }
  }

  lemma FromBigEndianSnoc(o: bytes, b: byte)
    ensures FromBigEndian(o + [b]) == 256 * FromBigEndian(o) + b
  {
    assert (o + [b])[..|o|] == o;
  }

  lemma {:induction false} FromBigEndianPositive(o: bytes)
    requires o != [] && o[0] != 0
    ensures FromBigEndian(o) > 0
  {
    if |o| > 1 {
      FromBigEndianPositive(o[..|o| - 1]);
    }
  }

  lemma {:induction false} FromBigEndianBound(o: bytes)
    ensures FromBigEndian(o) < Pow256(|o|)
  {
    if o != [] {
      FromBigEndianBound(o[..|o| - 1]);
    }
  }

  lemma Pow256Monotone(a: nat, b: nat)
    requires a <= b
    ensures Pow256(a) <= Pow256(b)
  {
    if a < b {
      Pow256Monotone(a, b - 1);
    }
  }

  // ---- Tags and lengths: reading inverts writing ----

  lemma {:induction false} TagFromReads(o: bytes, rest: bytes, tag: nat, octets: nat)
    requires IsTagString(o) && 1 <= octets < |o|
    requires tag == FromBigEndian(o[..octets])
    ensures TagFrom(o + rest, tag, octets) == Ok((FromBigEndian(o), |o|))
    decreases |o| - octets
  {
    assert o[..octets + 1][..octets] == o[..octets];
    if octets + 1 < |o| {
      TagFromReads(o, rest, 256 * tag + o[octets], octets + 1);
    } else {
      assert o[..octets + 1] == o;
    }
  }

  lemma TagReads(o: bytes, rest: bytes)
    requires IsTagString(o)
    ensures TagAt(o + rest) == Ok((FromBigEndian(o), |o|))
  {
    assert o[..1] == [o[0]] && o[..1][..0] == [];
    ContinuesTagIs(o[0]);
    if ContinuesTag(o[0]) {
      TagFromReads(o, rest, o[0], 1);
    } else {
      assert o == o[..1];
    }
  }

  lemma {:induction false} TagFromShape(s: bytes, tag: nat, octets: nat)
    requires 1 <= octets <= |s| && octets <= TAG_MAX_OCTETS && ContinuesTag(s[0])
    requires forall i :: 1 <= i < octets ==> s[i] >= 0x80
    requires tag == FromBigEndian(s[..octets])
    ensures var r := TagFrom(s, tag, octets);
            r.Ok? ==> r.value.1 <= |s| && IsTagString(s[..r.value.1]) && r.value.0 == FromBigEndian(s[..r.value.1])
    decreases |s| - octets
  {
    ContinuesTagIs(s[0]);
    if octets < |s| && octets + 1 <= TAG_MAX_OCTETS {
      assert s[..octets + 1][..octets] == s[..octets];
      if s[octets] >= 0x80 {
        TagFromShape(s, 256 * tag + s[octets], octets + 1);
      }
    }
  }

  /** The tag reader accepts exactly the identifier octets of the standard. */
  lemma TagBounds(s: bytes)
    ensures var r := TagAt(s);
            r.Ok? ==> r.value.1 <= |s| && IsTagString(s[..r.value.1]) && r.value.0 == FromBigEndian(s[..r.value.1])
    ensures TagAt(s).Ok? ==> TagAt(s).value.0 < Pow256(TAG_MAX_OCTETS)
  {
    if s != [] {
      assert s[..1] == [s[0]] && s[..1][..0] == [];
      ContinuesTagIs(s[0]);
      if ContinuesTag(s[0]) {
        TagFromShape(s, s[0], 1);
      }
      if TagAt(s).Ok? {
        var n := TagAt(s).value.1;
        FromBigEndianBound(s[..n]);
        Pow256Monotone(n, TAG_MAX_OCTETS);
      }
    }
  }

  lemma LengthReads(n: nat, rest: bytes)
    requires n < Pow256(USIZE_OCTETS)
    ensures LengthAt(LengthOctets(n) + rest) == Ok((n, |LengthOctets(n)|))
  {
    if n >= 0x80 {
      MinimalOctetsBound(n, USIZE_OCTETS);
      MinimalOctetsDenote(n);
      var o := MinimalOctets(n);
      assert (LengthOctets(n) + rest)[1..1 + |o|] == o;
    }
  }

  lemma LengthBounds(s: bytes)
    ensures var r := LengthAt(s);
            r.Ok? ==> r.value.0 < Pow256(USIZE_OCTETS) && r.value.1 <= |s|
  {
    Pow256Monotone(1, USIZE_OCTETS);
    if LengthAt(s).Ok? && s[0] >= 0x80 {
      var m := LengthAt(s).value.1;
      FromBigEndianBound(s[1..m]);
      Pow256Monotone(m - 1, USIZE_OCTETS);
    }
  }

  /** Whatever form a length was read in, writing it back is no longer. */
  lemma LengthShrinks(s: bytes)
    requires LengthAt(s).Ok?
    ensures LengthAt(s).value.0 < Pow256(USIZE_OCTETS)
    ensures |LengthOctets(LengthAt(s).value.0)| <= LengthAt(s).value.1 <= |s|
  {
    LengthBounds(s);
    if s[0] >= 0x80 {
      MinimalOctetsLeast(s[1..LengthAt(s).value.1]);
    }
  }

  // ---- Objects ----

  lemma ObjectReads(t: Tlv, rest: bytes)
    requires WellFormed(t)
    ensures ObjectAt(ObjectBytes(t) + rest) == Ok((t, |ObjectBytes(t)|))
  {
    var tag, len := MinimalOctets(t.tag), LengthOctets(|t.value|);
    var s := ObjectBytes(t) + rest;
    assert s == tag + (len + (t.value + rest));
    TagReads(tag, len + (t.value + rest));
    MinimalOctetsDenote(t.tag);
    assert s[|tag|..] == len + (t.value + rest);
    LengthReads(|t.value|, t.value + rest);
    assert s[|tag| + |len|..|tag| + |len| + |t.value|] == t.value;
  }

  /** A parsed object is well formed, and its canonical form is no longer than what was read. */
  lemma ObjectShrinks(s: bytes)
    requires ObjectAt(s).Ok?
    ensures var (t, n) := ObjectAt(s).value;
            WellFormed(t) && |ObjectBytes(t)| <= n
  {
    TagBounds(s);
    var (tag, n) := TagAt(s).value;
    LengthShrinks(s[n..]);
    var o := s[..n];
    ContinuesTagIs(o[0]);
    assert ContinuesTag(o[0]) ==> o[0] != 0;
    MinimalOctetsLeast(o);
  }

  lemma TagAtExtends(a: bytes, b: bytes)
    requires TagAt(a).Ok?
    ensures TagAt(a + b) == TagAt(a)
  {
    TagBounds(a);
    var n := TagAt(a).value.1;
    assert a + b == a[..n] + (a[n..] + b);
    TagReads(a[..n], a[n..] + b);
  }

  lemma LengthAtExtends(a: bytes, b: bytes)
    requires LengthAt(a).Ok?
    ensures LengthAt(a + b) == LengthAt(a)
  {
    LengthBounds(a);
    if a[0] >= 0x80 {
      var m := LengthAt(a).value.1;
      assert (a + b)[1..m] == a[1..m];
    }
  }

  /** An object read from a prefix is read the same from any longer string. */
  lemma ObjectAtExtends(a: bytes, b: bytes)
    requires ObjectAt(a).Ok?
    ensures ObjectAt(a + b) == ObjectAt(a)
  {
    hide TagAt, LengthAt;
    TagBounds(a);
    TagBounds(a + b);
    TagAtExtends(a, b);
    var n := TagAt(a).value.1;
    assert (a + b)[n..] == a[n..] + b;
    LengthBounds(a[n..]);
    LengthAtExtends(a[n..], b);
    var (len, m) := LengthAt(a[n..]).value;
    assert (a + b)[n + m..n + m + len] == a[n + m..n + m + len];
  }

  // ---- Lists of objects ----

  lemma {:induction false} ParseEncodeRoom(ts: seq<Tlv>, room: nat)
    requires |ts| <= room && forall t :: t in ts ==> WellFormed(t)
    ensures ObjectsIn(EncodingOf(ts), room) == Ok(ts)
  {
    hide ObjectAt, ObjectBytes;
    if ts == [] {
      assert EncodingOf(ts) == [];
    } else {
      var first, rest := ObjectBytes(ts[0]), EncodingOf(ts[1..]);
      ObjectReads(ts[0], rest);
      assert EncodingOf(ts) == first + rest != [];
      assert (first + rest)[|first|..] == rest;
      ParseEncodeRoom(ts[1..], room - 1);
      assert [ts[0]] + ts[1..] == ts;
    }
  }

  /** Parsing inverts encoding on every list of at most 64 well-formed objects. */
  lemma ParseEncode(ts: seq<Tlv>)
    requires |ts| <= MAX_TLVS && forall t :: t in ts ==> WellFormed(t)
    ensures TlvsOf(EncodingOf(ts)) == Ok(ts)
  {
    ParseEncodeRoom(ts, MAX_TLVS);
  }

  lemma {:induction false} ParsedShrinks(s: bytes, room: nat)
    requires ObjectsIn(s, room).Ok?
    ensures forall t :: t in ObjectsIn(s, room).value ==> WellFormed(t)
    ensures |EncodingOf(ObjectsIn(s, room).value)| <= |s|
    decreases |s|
  {
    if s != [] {
      ObjectShrinks(s);
      var (t, n) := ObjectAt(s).value;
      ParsedShrinks(s[n..], room - 1);
      assert ObjectsIn(s, room).value[1..] == ObjectsIn(s[n..], room - 1).value;
    }
  }

  /**
   Re-encoding what was parsed gives a string no longer than the input that parses to the same
   objects and is its own re-encoding.
   */
  lemma EncodeParse(s: bytes)
    requires TlvsOf(s).Ok?
    ensures forall t :: t in TlvsOf(s).value ==> WellFormed(t)
    ensures |EncodingOf(TlvsOf(s).value)| <= |s|
    ensures TlvsOf(EncodingOf(TlvsOf(s).value)) == TlvsOf(s)
  {
    ParsedShrinks(s, MAX_TLVS);
    ParseEncode(TlvsOf(s).value);
  }

  lemma PrependNothing(r: Result<seq<Tlv>, TlvError>)
    ensures Prepend([], r) == r
  {
    if r.Ok? {
      assert [] + r.value == r.value;
    }
  }

  lemma {:induction false} ParseConcatRoom(a: bytes, b: bytes, room: nat)
    requires ObjectsIn(a, room).Ok?
    ensures ObjectsIn(a + b, room) == Prepend(ObjectsIn(a, room).value, ObjectsIn(b, room - |ObjectsIn(a, room).value|))
    decreases |a|
  {
    hide ObjectAt;
    if a == [] {
      assert a + b == b;
      PrependNothing(ObjectsIn(b, room));
    } else {
      ObjectAtExtends(a, b);
      var (t, n) := ObjectAt(a).value;
      assert (a + b)[n..] == a[n..] + b;
      ParseConcatRoom(a[n..], b, room - 1);
      var xs := ObjectsIn(a[n..], room - 1).value;
      var ys := ObjectsIn(b, room - 1 - |xs|);
      assert ObjectsIn(a, room).value == [t] + xs;
      if ys.Ok? {
        assert [t] + (xs + ys.value) == ([t] + xs) + ys.value;
      }
    }
  }

  function Prepend(ts: seq<Tlv>, r: Result<seq<Tlv>, TlvError>): Result<seq<Tlv>, TlvError> {
    if r.Ok? then Ok(ts + r.value) else r
  }

  lemma {:induction false} MoreRoom(s: bytes, room: nat, room': nat)
    requires room <= room' && ObjectsIn(s, room').Ok?
    ensures ObjectsIn(s, room) == if |ObjectsIn(s, room').value| <= room then ObjectsIn(s, room') else Err(TooMany)
    decreases |s|
  {
    if s != [] && room > 0 {
      var (t, n) := ObjectAt(s).value;
      MoreRoom(s[n..], room - 1, room' - 1);
    }
  }

  /** Parses of concatenations concatenate, up to the 64-object bound and no further. */
  lemma ParseConcat(a: bytes, b: bytes)
    requires TlvsOf(a).Ok? && TlvsOf(b).Ok?
    ensures TlvsOf(a + b) == if |TlvsOf(a).value| + |TlvsOf(b).value| <= MAX_TLVS
                             then Ok(TlvsOf(a).value + TlvsOf(b).value) else Err(TooMany)
  {
    hide ObjectsIn;
    ParseConcatRoom(a, b, MAX_TLVS);
    MoreRoom(b, MAX_TLVS - |TlvsOf(a).value|, MAX_TLVS);
  }

  // ---- The cursor loops ----

  /** `parse_tag`: the tag at `pos`, and the cursor behind it. */
  method ParseTag(input: bytes, pos: nat) returns (r: Result<nat, TlvError>, next: nat)
    requires pos <= |input|
    ensures r.Ok? == TagAt(input[pos..]).Ok?
    ensures r.Ok? ==> next <= |input| && TagAt(input[pos..]) == Ok((r.value, next - pos))
    ensures r.Err? ==> TagAt(input[pos..]) == Err(r.error)
  {
    ghost var s := input[pos..];
    next := pos;
    if next >= |input| {
      return Err(Truncated), next;
    }
    var b0 := input[next];
    next := next + 1;
    var tag: nat := b0;
    if ContinuesTag(b0) {
      var octets := 1;
      while true
        invariant 1 <= octets <= TAG_MAX_OCTETS && next == pos + octets <= |input|
        invariant TagAt(s) == TagFrom(s, tag, octets)
        decreases |input| - next
      {
        if next >= |input| {
          return Err(Truncated), next;
        }
        var b := input[next];
        assert b == s[octets];
        next := next + 1;
        octets := octets + 1;
        if octets > TAG_MAX_OCTETS {
          return Err(BadLength), next;
        }
        tag := 256 * tag + b;
        if b < 0x80 {
          break;
        }
      }
    }
    return Ok(tag), next;
  }

  /** `parse_len`: the definite length at `pos`, and the cursor behind it. */
  method ParseLen(input: bytes, pos: nat) returns (r: Result<nat, TlvError>, next: nat)
    requires pos <= |input|
    ensures r.Ok? == LengthAt(input[pos..]).Ok?
    ensures r.Ok? ==> next <= |input| && LengthAt(input[pos..]) == Ok((r.value, next - pos))
    ensures r.Err? ==> LengthAt(input[pos..]) == Err(r.error)
  {
    ghost var s := input[pos..];
    next := pos;
    if next >= |input| {
      return Err(Truncated), next;
    }
    var b0 := input[next];
    next := next + 1;
    if b0 < 0x80 {
      return Ok(b0), next;
    }
    var count: nat := b0 - 0x80;
    if count == 0 || count > USIZE_OCTETS {
      return Err(BadLength), next;
    }
    var len: nat := 0;
    for i := 0 to count
      invariant next == pos + 1 + i <= |input|
      invariant len == FromBigEndian(s[1..1 + i])
    {
      if next >= |input| {
        return Err(Truncated), next;
      }
      assert s[1..2 + i] == s[1..1 + i] + [input[next]];
      FromBigEndianSnoc(s[1..1 + i], input[next]);
      len := 256 * len + input[next];
      next := next + 1;
    }
    return Ok(len), next;
  }

  /** One pass of the `parse` loop: the object at `pos`, and the cursor behind it. */
  method ParseObject(input: bytes, pos: nat) returns (r: Result<Tlv, TlvError>, next: nat)
    requires pos <= |input|
    ensures r.Ok? == ObjectAt(input[pos..]).Ok?
    ensures r.Ok? ==> pos < next <= |input| && ObjectAt(input[pos..]) == Ok((r.value, next - pos))
    ensures r.Err? ==> ObjectAt(input[pos..]) == Err(r.error)
  {
    hide TagAt, LengthAt;
    ghost var s := input[pos..];
    var tag, afterTag := ParseTag(input, pos);
    if tag.Err? {
      return Err(tag.error), pos;
    }
    assert input[afterTag..] == s[afterTag - pos..];
    var len, start := ParseLen(input, afterTag);
    if len.Err? {
      return Err(len.error), pos;
    }
    next := start + len.value;
    if next > |input| {
      return Err(Truncated), pos;
    }
    TagBounds(s);
    LengthBounds(s[afterTag - pos..]);
    var t: Tlv := Tlv(tag.value, input[start..next]);
    SliceOfSuffix(input, pos, start, next);
    return Ok(t), next;
  }

  /** One more object parsed, with room for it. */
  lemma ObjectsStep(s: bytes, out: seq<Tlv>, t: Tlv, n: nat, room: nat)
    requires s != [] && room > 0 && 0 < n <= |s| && ObjectAt(s) == Ok((t, n))
    ensures Prepend(out, ObjectsIn(s, room)) == Prepend(out + [t], ObjectsIn(s[n..], room - 1))
  {
    hide ObjectAt;
    var rest := ObjectsIn(s[n..], room - 1);
    if rest.Ok? {
      assert out + ([t] + rest.value) == (out + [t]) + rest.value;
    }
  }

  lemma ObjectsStop(s: bytes, out: seq<Tlv>, room: nat)
    ensures s == [] ==> Prepend(out, ObjectsIn(s, room)) == Ok(out)
    ensures s != [] && ObjectAt(s).Err? ==> Prepend(out, ObjectsIn(s, room)) == Err(ObjectAt(s).error)
    ensures s != [] && ObjectAt(s).Ok? && room == 0 ==> Prepend(out, ObjectsIn(s, room)) == Err(TooMany)
  {
    hide ObjectAt;
    assert out + [] == out;
  }

  /** `parse`: the top-level objects, or the first error in input order. */
  method Parse(input: bytes) returns (r: Result<seq<Tlv>, TlvError>)
    ensures r == TlvsOf(input)
  {
    hide ObjectAt, ObjectsIn, Prepend;
    var out: seq<Tlv> := [];
    var pos := 0;
    assert input[0..] == input;
    PrependNothing(ObjectsIn(input, MAX_TLVS));
    while pos < |input|
      invariant pos <= |input| && |out| <= MAX_TLVS
      invariant TlvsOf(input) == Prepend(out, ObjectsIn(input[pos..], MAX_TLVS - |out|))
    {
      var t, end := ParseObject(input, pos);
      ObjectsStop(input[pos..], out, MAX_TLVS - |out|);
      if t.Err? {
        return Err(t.error);
      }
      if |out| == MAX_TLVS {
        return Err(TooMany);
      }
      ObjectsStep(input[pos..], out, t.value, end - pos, MAX_TLVS - |out|);
      assert input[pos..][end - pos..] == input[end..];
      out := out + [t.value];
      pos := end;
    }
    ObjectsStop(input[pos..], out, MAX_TLVS - |out|);
    return Ok(out);
  }

  /** `after` is `before` with `src` written over it at `pos`. */
  predicate Wrote(before: bytes, after: bytes, pos: nat, src: bytes) {
    pos + |src| <= |before| && after == before[..pos] + src + before[pos + |src|..]
  }

  lemma WroteNothing(before: bytes)
    ensures Wrote(before, before, 0, [])
  {
  }

  lemma WroteTwice(before: bytes, between: bytes, after: bytes, pos: nat, x: bytes, y: bytes)
    requires Wrote(before, between, pos, x) && Wrote(between, after, pos + |x|, y)
    ensures Wrote(before, after, pos, x + y)
  {
    assert between[..pos + |x|] == before[..pos] + x;
    assert between[pos + |x| + |y|..] == before[pos + |x + y|..];
  }

  /** `write_bytes`: copy `src` to `out` at `pos` if it fits. */
  method WriteBytes(out: array<byte>, pos: nat, src: bytes) returns (r: Result<nat, TlvError>)
    requires pos <= out.Length
    modifies out
    ensures r.Ok? <==> pos + |src| <= out.Length
    ensures r.Ok? ==> r.value == pos + |src|
    ensures r.Err? ==> r.error == Overflow
    ensures r.Ok? ==> Wrote(old(out[..]), out[..], pos, src)
    ensures r.Err? ==> out[..] == old(out[..])
  {
    var end := pos + |src|;
    if end > out.Length {
      return Err(Overflow);
    }
    forall i | 0 <= i < |src| {
      out[pos + i] := src[i];
    }
    return Ok(end);
  }

  /** The `position` of the first non-zero octet, or the last position. */
  method FirstSignificant(octets: bytes) returns (start: nat)
    requires octets != []
    ensures start < |octets|
    ensures forall i :: 0 <= i < start ==> octets[i] == 0
    ensures octets[start] != 0 || start == |octets| - 1
  {
    start := 0;
    while start < |octets| - 1 && octets[start] == 0
      invariant start < |octets|
      invariant forall i :: 0 <= i < start ==> octets[i] == 0
    {
      start := start + 1;
    }
  }

  /** Dropping the leading zeros of a fixed-width form leaves the minimal octets. */
  lemma {:induction false} StrippedIsMinimal(o: bytes, start: nat)
    requires start < |o|
    requires forall i :: 0 <= i < start ==> o[i] == 0
    requires o[start] != 0 || start == |o| - 1
    ensures MinimalOctets(FromBigEndian(o)) == o[start..]
  {
    LeadingZerosDenoteNothing(o, start);
    MinimalOctetsLeast(o[start..]);
  }

  lemma {:induction false} LeadingZerosDenoteNothing(o: bytes, start: nat)
    requires start <= |o|
    requires forall i :: 0 <= i < start ==> o[i] == 0
    ensures FromBigEndian(o) == FromBigEndian(o[start..])
  {
    if start < |o| {
      var front := o[..|o| - 1];
      LeadingZerosDenoteNothing(front, start);
      assert o[start..][..|o| - start - 1] == front[start..];
    } else if o != [] {
      LeadingZerosDenoteNothing(o[..|o| - 1], start - 1);
      assert o[..|o| - 1][start - 1..] == [];
    }
  }

  /** `write_tag`: a `u32` tag in its significant octets. */
  method WriteTag(tag: nat, out: array<byte>, pos: nat) returns (r: Result<nat, TlvError>)
    requires tag < Pow256(TAG_MAX_OCTETS) && pos <= out.Length
    modifies out
    ensures r.Ok? <==> pos + |MinimalOctets(tag)| <= out.Length
    ensures r.Ok? ==> r.value == pos + |MinimalOctets(tag)|
    ensures r.Err? ==> r.error == Overflow
    ensures r.Ok? ==> Wrote(old(out[..]), out[..], pos, MinimalOctets(tag))
  {
    var octets := ToBigEndian(tag, TAG_MAX_OCTETS);
    var start := FirstSignificant(octets);
    BigEndianRoundTrip(tag, TAG_MAX_OCTETS);
    StrippedIsMinimal(octets, start);
    r := WriteBytes(out, pos, octets[start..]);
  }

  /** `write_len`: the minimal definite form. */
  method WriteLen(len: nat, out: array<byte>, pos: nat) returns (r: Result<nat, TlvError>)
    requires len < Pow256(USIZE_OCTETS) && pos <= out.Length
    modifies out
    ensures r.Ok? <==> pos + |LengthOctets(len)| <= out.Length
    ensures r.Ok? ==> r.value == pos + |LengthOctets(len)|
    ensures r.Err? ==> r.error == Overflow
    ensures r.Ok? ==> Wrote(old(out[..]), out[..], pos, LengthOctets(len))
  {
    hide Wrote;
    if len < 0x80 {
      r := WriteBytes(out, pos, [len]);
      return;
    }
    var octets := ToBigEndian(len, USIZE_OCTETS);
    var start := FirstSignificant(octets);
    BigEndianRoundTrip(len, USIZE_OCTETS);
    StrippedIsMinimal(octets, start);
    var body := octets[start..];
    var lead: bytes := [0x80 + |body|];
    assert LengthOctets(len) == lead + body;
    hide LengthOctets, MinimalOctets, FromBigEndian, ToBigEndian;
    ghost var before := out[..];
    var next :- WriteBytes(out, pos, lead);
    ghost var between := out[..];
    r := WriteBytes(out, next, body);
    if r.Ok? {
      WroteTwice(before, between, out[..], pos, lead, body);
    }
  }

  lemma ThreeParts(t: Tlv)
    ensures ObjectBytes(t) == MinimalOctets(t.tag) + LengthOctets(|t.value|) + t.value
  {
  }

  /** One pass of the `encode` loop: tag, length and value of one object. */
  method WriteObject(item: Tlv, out: array<byte>, pos: nat) returns (r: Result<nat, TlvError>)
    requires pos <= out.Length
    modifies out
    ensures r.Ok? <==> pos + |ObjectBytes(item)| <= out.Length
    ensures r.Ok? ==> r.value == pos + |ObjectBytes(item)|
    ensures r.Err? ==> r.error == Overflow
    ensures r.Ok? ==> Wrote(old(out[..]), out[..], pos, ObjectBytes(item))
  {
    hide Wrote, ObjectBytes, MinimalOctets, LengthOctets, Pow256, IsTagString;
    ghost var tag, len := MinimalOctets(item.tag), LengthOctets(|item.value|);
    ThreeParts(item);
    ghost var before := out[..];
    var afterTag :- WriteTag(item.tag, out, pos);
    ghost var tagged := out[..];
    var start :- WriteLen(|item.value|, out, afterTag);
    ghost var measured := out[..];
    WroteTwice(before, tagged, measured, pos, tag, len);
    r := WriteBytes(out, start, item.value);
    if r.Ok? {
      WroteTwice(before, measured, out[..], pos, tag + len, item.value);
    }
  }

  /** `encode`: exactly the canonical encoding, or `Overflow` when it does not fit. */
  method Encode(items: seq<Tlv>, out: array<byte>) returns (r: Result<nat, TlvError>)
    modifies out
    ensures r == if |EncodingOf(items)| <= out.Length then Ok(|EncodingOf(items)|) else Err(Overflow)
    ensures r.Ok? ==> Wrote(old(out[..]), out[..], 0, EncodingOf(items))
  {
    hide ObjectBytes, Wrote;
    var pos := 0;
    assert items[..0] == [];
    WroteNothing(out[..]);
    for i := 0 to |items|
      invariant pos == |EncodingOf(items[..i])| <= out.Length
      invariant Wrote(old(out[..]), out[..], 0, EncodingOf(items[..i]))
    {
      EncodingSnoc(items[..i], items[i]);
      assert items[..i] + [items[i]] == items[..i + 1];
      EncodingPrefix(items, i + 1);
      ghost var before := out[..];
      ghost var done := EncodingOf(items[..i]);
      pos :- WriteObject(items[i], out, pos);
      WroteTwice(old(out[..]), before, out[..], 0, done, ObjectBytes(items[i]));
    }
    assert items[..|items|] == items;
    return Ok(pos);
  }

  lemma {:induction false} EncodingAppend(xs: seq<Tlv>, ys: seq<Tlv>)
    ensures EncodingOf(xs + ys) == EncodingOf(xs) + EncodingOf(ys)
  {
    if xs == [] {
      assert xs + ys == ys;
    } else {
      assert (xs + ys)[0] == xs[0] && (xs + ys)[1..] == xs[1..] + ys;
      EncodingAppend(xs[1..], ys);
    }
  }

  lemma EncodingSnoc(xs: seq<Tlv>, y: Tlv)
    ensures EncodingOf(xs + [y]) == EncodingOf(xs) + ObjectBytes(y)
  {
    EncodingAppend(xs, [y]);
    assert EncodingOf([y]) == ObjectBytes(y);
  }

  lemma EncodingPrefix(items: seq<Tlv>, i: nat)
    requires i <= |items|
    ensures |EncodingOf(items[..i])| <= |EncodingOf(items)|
  {
    assert items == items[..i] + items[i..];
    EncodingAppend(items[..i], items[i..]);
  }
}
