/**
 The streaming Load File Data Block of `cap/mod.rs`: a resumable reader that hands out `C4`, a BER
 length and the components in order, across any buffer boundaries, with compressed components passing
 through the wrapping window.
 */
module Cap {
  import opened Bytes
  import opened Wrappers
  import opened Inflate
  import opened LoadFile

  datatype CompCursor = CompCursor(inPos: nat, produced: nat, emitted: nat, done: bool, started: bool)

  const FRESH_CURSOR: CompCursor := CompCursor(0, 0, 0, false, false)

  // ---- What there is to hand out ----

  /** What the reader could hand out of each component, and for a deflated one where its decompressor is. */
  datatype Plan<!S> = Plan(outs: seq<bytes>, ats: seq<(S, nat, nat) -> bool>)

  /** A deflated entry has its data, which inflates to `out`; a stored one is reached as far as declared. */
  ghost predicate FeedsOne<S(!new)>(codec: Codec<S>, zip: bytes, loc: CompLoc, out: bytes, at: (S, nat, nat) -> bool) {
    && ReachesOne(zip, Some(loc), out)
    && (loc.coding == METHOD_DEFLATE ==>
          HasData(zip, loc) && Decodes(codec, zip[loc.dataOff..loc.dataOff + loc.compSize], out, at))
  }

  ghost predicate Feeds<S(!new)>(codec: Codec<S>, zip: bytes, locs: Locs, plan: Plan<S>) {
    && Reaches(zip, locs, plan.outs) && |plan.ats| == LFDB_COMPONENTS
    && forall i :: 0 <= i < LFDB_COMPONENTS && locs[i].Some? ==>
         FeedsOne(codec, zip, locs[i].value, plan.outs[i], plan.ats[i])
  }

  /** A cursor, with decompressor and window as they are, is somewhere in `content`. */
  ghost predicate Tracks<S(!new)>(c: CompCursor, state: S, window: bytes, coding: nat, content: bytes,
                                  at: (S, nat, nat) -> bool) {
    && c.emitted <= |content|
    && (coding == METHOD_DEFLATE ==>
          if c.started then
            && at(state, c.inPos, c.produced)
            && Holds(window, content, c.produced)
            && (c.done ==> c.produced == |content|)
          else c == FRESH_CURSOR)
  }

  /** The archive feeds `plan`, and the cursor tracks its component. */
  ghost predicate Tracking<S(!new)>(codec: Codec<S>, zip: bytes, locs: Locs, plan: Plan<S>, comp: nat,
                                    c: CompCursor, state: S, window: bytes) {
    && Feeds(codec, zip, locs, plan) && comp <= LFDB_COMPONENTS
    && (comp < LFDB_COMPONENTS && locs[comp].Some? ==>
          Tracks(c, state, window, locs[comp].value.coding, plan.outs[comp], plan.ats[comp]))
  }

  lemma TrackingPlan<S(!new)>(codec: Codec<S>, zip: bytes, locs: Locs, plan: Plan<S>, comp: nat, c: CompCursor, st: S,
                              w: bytes)
    requires Tracking(codec, zip, locs, plan, comp, c, st, w)
    ensures |plan.outs| == |plan.ats| == |locs| == LFDB_COMPONENTS
    ensures comp < LFDB_COMPONENTS && locs[comp].Some? ==>
              && FeedsOne(codec, zip, locs[comp].value, plan.outs[comp], plan.ats[comp])
              && Tracks(c, st, w, locs[comp].value.coding, plan.outs[comp], plan.ats[comp])
  {
  }

  lemma TrackingMoves<S(!new)>(codec: Codec<S>, zip: bytes, locs: Locs, plan: Plan<S>, comp: nat,
                               c: CompCursor, st: S, w: bytes, c': CompCursor, st': S, w': bytes)
    requires Tracking(codec, zip, locs, plan, comp, c, st, w) && comp < LFDB_COMPONENTS
    requires |plan.outs| == |plan.ats| == |locs| == LFDB_COMPONENTS
    requires locs[comp].Some? ==> Tracks(c', st', w', locs[comp].value.coding, plan.outs[comp], plan.ats[comp])
    ensures Tracking(codec, zip, locs, plan, comp, c', st', w')
  {
  }

  lemma TrackingAdvances<S(!new)>(codec: Codec<S>, zip: bytes, locs: Locs, plan: Plan<S>, comp: nat, c: CompCursor,
                                  st: S, w: bytes)
    requires Tracking(codec, zip, locs, plan, comp, c, st, w) && comp < LFDB_COMPONENTS
    ensures Tracking(codec, zip, locs, plan, comp + 1, FRESH_CURSOR, st, w)
  {
  }

  // ---- The reader ----

  class LoadFileDataBlock {
    const zip: bytes
    const locs: Locs
    const header: bytes
    var headerEmitted: nat
    var comp: nat
    var cursor: CompCursor

    /** Every component starts inside the archive, as the ZIP walk checks. */
    predicate Located() {
      forall i :: 0 <= i < |locs| && locs[i].Some? ==> locs[i].value.dataOff <= |zip|
    }

    /** All positions are in range, whatever the archive says. */
    ghost predicate Valid()
      reads this
    {
      && |locs| == LFDB_COMPONENTS && Located() && header == HeaderBytes(ContentLen(locs))
      && comp <= LFDB_COMPONENTS && headerEmitted <= |header|
      && CursorValid()
      && (headerEmitted < |header| ==> comp == 0 && cursor == FRESH_CURSOR)
    }

    ghost predicate CursorValid()
      requires comp <= |locs|
      reads this
    {
      if comp < |locs| && locs[comp].Some? then
        var loc := locs[comp].value;
        && cursor.inPos <= loc.compSize
        && if loc.coding == METHOD_DEFLATE then cursor.emitted <= cursor.produced <= cursor.emitted + INFLATE_WINDOW
           else cursor.emitted <= loc.uncompSize && loc.dataOff + cursor.emitted <= |zip|
      else cursor == FRESH_CURSOR
    }

    /** `CapFile::lfdb`. */
    constructor (zip: bytes, locs: Locs)
      requires |locs| == LFDB_COMPONENTS
      requires forall i :: 0 <= i < LFDB_COMPONENTS && locs[i].Some? ==> locs[i].value.dataOff <= |zip|
      ensures Valid() && this.zip == zip && this.locs == locs
      ensures Place() == START && cursor == FRESH_CURSOR
    {
      this.zip := zip;
      this.locs := locs;
      header := HeaderBytes(ContentLen(locs));
      headerEmitted := 0;
      comp := 0;
      cursor := FRESH_CURSOR;
    }

    /** `len`: the framed length the LOAD loop counts against. */
    function Len(): nat {
      |header| + ContentLen(locs)
    }

    /** How far the reader is. */
    function Place(): Spot
      reads this
    {
      Spot(headerEmitted, comp, cursor.emitted)
    }

    /** The archive feeds `plan`, and reader, decompressor and window are somewhere in it together. */
    ghost predicate On<S(!new)>(infl: InflateCtx<S>, plan: Plan<S>)
      requires Valid()
      reads this, infl, infl.window
    {
      Tracking(infl.codec, zip, locs, plan, comp, cursor, infl.state, infl.window[..])
    }

    /** The current component has nothing more to give, whatever it declared. */
    predicate Drained()
      reads this
    {
      && comp < |locs| && locs[comp].Some?
      && var loc := locs[comp].value;
         if loc.coding == METHOD_DEFLATE then cursor.started && cursor.done && cursor.produced == cursor.emitted
         else cursor.emitted >= loc.uncompSize || loc.dataOff + cursor.emitted >= |zip|
    }

    /** Every later call hands out nothing: all is out, or a component fell short. */
    predicate Stuck()
      reads this
    {
      headerEmitted >= |header|
      && (comp >= LFDB_COMPONENTS || (Drained() && cursor.emitted < locs[comp].value.uncompSize))
    }

    /** Start over; the next deflate component resets the decompressor itself. */
    method Reset()
      requires Valid()
      modifies this
      ensures Valid() && Place() == START && cursor == FRESH_CURSOR
    {
      comp := 0;
      cursor := FRESH_CURSOR;
      headerEmitted := 0;
    }

    /** A reader at its start is on every plan its archive feeds, whatever the decompressor was left doing. */
    lemma StartsOn<S(!new)>(infl: InflateCtx<S>, plan: Plan<S>)
      requires Valid() && Place() == START && cursor == FRESH_CURSOR
      requires Feeds(infl.codec, zip, locs, plan)
      ensures On(infl, plan)
    {
    }

    /** Hand out header bytes not yet emitted. */
    method EmitHeader(out: array<byte>) returns (take: nat)
      requires Valid()
      modifies this`headerEmitted, out
      ensures Valid() && headerEmitted == old(headerEmitted) + take
      ensures take == if |header| - old(headerEmitted) <= out.Length then |header| - old(headerEmitted) else out.Length
      ensures out[..take] == header[old(headerEmitted)..headerEmitted]
    {
      take := if |header| - headerEmitted <= out.Length then |header| - headerEmitted else out.Length;
      forall i | 0 <= i < take {
        out[i] := header[headerEmitted + i];
      }
      headerEmitted := headerEmitted + take;
    }

    /** Copy the next slice of a component straight from the ZIP. */
    method EmitStored<S(!new)>(loc: CompLoc, ghost infl: InflateCtx<S>, out: array<byte>, w: nat,
                               ghost content: bytes, ghost at: (S, nat, nat) -> bool)
      returns (take: nat)
      requires Valid() && comp < LFDB_COMPONENTS && locs[comp] == Some(loc) && loc.coding != METHOD_DEFLATE
      requires headerEmitted == |header| && w <= out.Length
      modifies this`cursor, out
      ensures Valid() && cursor == old(cursor).(emitted := old(cursor).emitted + take)
      ensures w + take <= out.Length && loc.dataOff + cursor.emitted <= |zip|
      ensures out[..] == Overwrite(old(out[..]), w,
                                   zip[loc.dataOff + old(cursor).emitted..loc.dataOff + cursor.emitted])
      ensures Kept(old(out[..]), out[..], w)
      ensures take < out.Length - w ==> Drained()
      ensures old(Drained()) ==> take == 0
      ensures FeedsOne(infl.codec, zip, loc, content, at)
              && Tracks(old(cursor), infl.state, infl.window[..], loc.coding, content, at) ==>
                && Tracks(cursor, infl.state, infl.window[..], loc.coding, content, at)
                && Matches(out[..], w, content, old(cursor.emitted), take)
                && (take == out.Length - w || cursor.emitted == |content|)
    {
      hide Located, Overwrite, FeedsOne, Tracks, Kept, Matches;
      ghost var before, e0 := out[..], cursor.emitted;
      var start := loc.dataOff + cursor.emitted;
      take := loc.uncompSize - cursor.emitted;
      if out.Length - w < take {
        take := out.Length - w;
      }
      if |zip| - start < take {
        take := |zip| - start;
      }
      CopyOut(out, w, zip[start..start + take]);
      cursor := cursor.(emitted := cursor.emitted + take);
      StoredMatches(zip, loc, content, at, infl.codec, before, out[..], w, e0, take);
      StoredTracks(cursor, infl.state, infl.window[..], loc.coding, content, at);
    }

    /** Drive the decompressor once, appending its output in the window. */
    method Pump<S(!new)>(loc: CompLoc, infl: InflateCtx<S>, ghost content: bytes, ghost at: (S, nat, nat) -> bool)
      returns (r: Result<(), CapError>)
      requires Valid() && infl.Valid() && comp < LFDB_COMPONENTS && locs[comp] == Some(loc)
      requires loc.coding == METHOD_DEFLATE && cursor.started && !cursor.done && cursor.produced == cursor.emitted
      modifies this`cursor, infl`state, infl.window
      ensures Valid()
      ensures cursor.emitted == old(cursor.emitted) && cursor.started && old(cursor.inPos) <= cursor.inPos
      ensures r.Ok? ==> cursor.done || cursor.inPos > old(cursor.inPos) || cursor.produced > cursor.emitted
      ensures r.Err? ==> r.error == InflateFailed
      ensures FeedsOne(infl.codec, zip, loc, content, at)
              && Tracks(old(cursor), old(infl.state), old(infl.window[..]), loc.coding, content, at) ==>
                r.Ok? && Tracks(cursor, infl.state, infl.window[..], loc.coding, content, at)
    {
      hide Located, Decodes, Holds, Bounded;
      var compEnd := loc.dataOff + loc.compSize;
      if compEnd > |zip| || loc.dataOff + cursor.inPos > compEnd {
        return Err(InflateFailed);
      }
      var input := zip[loc.dataOff + cursor.inPos..compEnd];
      ghost var whole := zip[loc.dataOff..compEnd];
      assert whole[cursor.inPos..] == input;
      var ringPos := cursor.produced % INFLATE_WINDOW;
      if FeedsOne(infl.codec, zip, loc, content, at)
        && Tracks(cursor, infl.state, infl.window[..], loc.coding, content, at) {
        PumpContinues(infl.codec, whole, content, at, infl.state, cursor.inPos, cursor.produced, infl.window[..]);
      }
      var status, consumed, written := infl.Decompress(input, ringPos);
      cursor := cursor.(inPos := cursor.inPos + consumed, produced := cursor.produced + written);
      match status
      case Done =>
        cursor := cursor.(done := true);
        return Ok(());
      case Failed =>
        return Err(InflateFailed);
      case _ =>
        if consumed == 0 && written == 0 {
          return Err(InflateFailed);
        }
        return Ok(());
    }

    /** The next run of pending bytes, up to the window end or the room left. */
    method Pending<S(!new)>(infl: InflateCtx<S>, room: nat, ghost coding: nat, ghost content: bytes,
                            ghost at: (S, nat, nat) -> bool)
      returns (run: bytes)
      requires infl.Valid() && cursor.started && coding == METHOD_DEFLATE
      requires cursor.emitted < cursor.produced <= cursor.emitted + INFLATE_WINDOW && room > 0
      ensures 0 < |run| <= room && cursor.emitted + |run| <= cursor.produced
      ensures Tracks(cursor, infl.state, infl.window[..], coding, content, at) ==>
                && cursor.emitted + |run| <= |content|
                && run == content[cursor.emitted..cursor.emitted + |run|]
                && Tracks(cursor.(emitted := cursor.emitted + |run|), infl.state, infl.window[..], coding, content, at)
    {
      var start := cursor.emitted % INFLATE_WINDOW;
      var take := cursor.produced - cursor.emitted;
      if room < take {
        take := room;
      }
      if INFLATE_WINDOW - start < take {
        take := INFLATE_WINDOW - start;
      }
      run := infl.window[start..start + take];
      if Tracks(cursor, infl.state, infl.window[..], coding, content, at) {
        RingRead(infl.window[..], content, cursor.produced, cursor.emitted, take);
        assert infl.window[..][start..start + take] == run;
      }
    }

    /** Reset the decompressor before the first byte of a component. */
    method StartComponent<S(!new)>(loc: CompLoc, infl: InflateCtx<S>, ghost content: bytes,
                                   ghost at: (S, nat, nat) -> bool)
      requires Valid() && infl.Valid() && comp < LFDB_COMPONENTS && locs[comp] == Some(loc)
      requires loc.coding == METHOD_DEFLATE
      requires headerEmitted == |header|
      modifies this`cursor, infl`state
      ensures Valid() && cursor == old(cursor).(started := true)
      ensures FeedsOne(infl.codec, zip, loc, content, at)
              && Tracks(old(cursor), old(infl.state), infl.window[..], loc.coding, content, at) ==>
                Tracks(cursor, infl.state, infl.window[..], loc.coding, content, at)
    {
      StartTracked(infl, zip, loc, content, at);
      hide Located, Holds, FeedsOne;
      if !cursor.started {
        infl.Reset();
        cursor := cursor.(started := true);
      }
    }

    /** Inflate the next slice of a component through the ring. */
    method EmitDeflate<S(!new)>(loc: CompLoc, infl: InflateCtx<S>, out: array<byte>, w0: nat,
                                ghost content: bytes, ghost at: (S, nat, nat) -> bool)
      returns (r: Result<nat, CapError>)
      requires Valid() && infl.Valid() && comp < LFDB_COMPONENTS && locs[comp] == Some(loc)
      requires headerEmitted == |header| && loc.coding == METHOD_DEFLATE && w0 <= out.Length && out != infl.window
      modifies this`cursor, infl`state, infl.window, out
      ensures Valid()
      ensures r.Err? ==> r.error == InflateFailed && Kept(old(out[..]), out[..], w0)
      ensures r.Ok? ==>
                && cursor.emitted == old(cursor.emitted) + r.value
                && Kept(old(out[..]), out[..], w0) && w0 + r.value <= out.Length
      ensures r.Ok? && r.value < out.Length - w0 ==> Drained()
      ensures old(Drained()) ==> r.Ok? && r.value == 0 && cursor == old(cursor)
      ensures FeedsOne(infl.codec, zip, loc, content, at)
              && Tracks(old(cursor), old(infl.state), old(infl.window[..]), loc.coding, content, at) ==>
                && r.Ok? && Tracks(cursor, infl.state, infl.window[..], loc.coding, content, at)
                && Matches(out[..], w0, content, old(cursor.emitted), r.value)
                && (r.value == out.Length - w0 || cursor.emitted == |content|)
    {
      ghost var g := Goal(loc.coding, content, at, out[..], w0, cursor.emitted,
                          && FeedsOne(infl.codec, zip, loc, content, at)
                          && Tracks(cursor, infl.state, infl.window[..], loc.coding, content, at));
      StartComponent(loc, infl, content, at);
      assert Underway(g, cursor, infl.state, infl.window[..], out[..], w0);
      hide Located, FeedsOne, Tracks, Bounded, Underway;
      var w := w0;
      var stop := false;
      while w < out.Length && !stop
        invariant Valid() && cursor.started && w0 <= w <= out.Length
        invariant Underway(g, cursor, infl.state, infl.window[..], out[..], w)
        invariant stop ==> cursor.done && cursor.produced == cursor.emitted
        invariant old(Drained()) ==> w == w0 && cursor == old(cursor)
        decreases !stop, out.Length - w, if cursor.produced == cursor.emitted then 1 else 0,
                  loc.compSize - cursor.inPos, if cursor.done then 0 else 1
      {
        if cursor.produced == cursor.emitted {
          stop := cursor.done;
          if !stop {
            var pumped := PumpOn(loc, infl, g, out[..], w);
            if pumped.Err? {
              UnderwayKept(g, cursor, infl.state, infl.window[..], out[..], w);
              return Err(pumped.error);
            }
            stop := cursor.produced == cursor.emitted && cursor.done;
          }
        } else {
          w := EmitRun(loc, infl, out, w, g);
        }
      }
      UnderwayKept(g, cursor, infl.state, infl.window[..], out[..], w);
      return Ok(w - w0);
    }

    /** Pump once in the middle of a slice. */
    method PumpOn<S(!new)>(loc: CompLoc, infl: InflateCtx<S>, ghost g: Goal<S>, ghost o: bytes, ghost w: nat)
      returns (r: Result<(), CapError>)
      requires Valid() && infl.Valid() && comp < LFDB_COMPONENTS && locs[comp] == Some(loc)
      requires loc.coding == METHOD_DEFLATE && cursor.started && !cursor.done && cursor.produced == cursor.emitted
      requires Underway(g, cursor, infl.state, infl.window[..], o, w) && g.coding == loc.coding
      requires g.tracked ==> FeedsOne(infl.codec, zip, loc, g.content, g.at)
      modifies this`cursor, infl`state, infl.window
      ensures Valid() && cursor.started && cursor.emitted == old(cursor.emitted) && old(cursor.inPos) <= cursor.inPos
      ensures r.Ok? ==> cursor.done || cursor.inPos > old(cursor.inPos) || cursor.produced > cursor.emitted
      ensures r.Err? ==> r.error == InflateFailed && !g.tracked
      ensures Underway(g, cursor, infl.state, infl.window[..], o, w)
    {
      hide Located, FeedsOne, Tracks, Bounded, Matches, Kept;
      r := Pump(loc, infl, g.content, g.at);
    }

    /** Copy one pending run to the output. */
    method EmitRun<S(!new)>(loc: CompLoc, infl: InflateCtx<S>, out: array<byte>, w: nat, ghost g: Goal<S>)
      returns (w': nat)
      requires Valid() && infl.Valid() && comp < LFDB_COMPONENTS && locs[comp] == Some(loc)
      requires loc.coding == METHOD_DEFLATE && cursor.started && cursor.emitted < cursor.produced
      requires w < out.Length && out != infl.window && g.coding == loc.coding
      requires Underway(g, cursor, infl.state, infl.window[..], out[..], w)
      modifies this`cursor, out
      ensures Valid() && w < w' <= out.Length
      ensures cursor == old(cursor).(emitted := cursor.emitted) && cursor.emitted <= cursor.produced
      ensures Underway(g, cursor, infl.state, infl.window[..], out[..], w')
    {
      hide Located, Tracks, Matches, Kept, Bounded, Overwrite;
      var run := Pending(infl, out.Length - w, loc.coding, g.content, g.at);
      ghost var before := out[..];
      CopyOut(out, w, run);
      KeptThrough(g.before, before, out[..], g.w0, w, run);
      if g.tracked {
        MatchesGrow(before, out[..], g.w0, g.content, g.e0, w - g.w0, run);
      }
      cursor := cursor.(emitted := cursor.emitted + |run|);
      w' := w + |run|;
    }

    /** The next slice of the current component, stored or deflated. */
    method EmitSlice<S(!new)>(loc: CompLoc, infl: InflateCtx<S>, out: array<byte>, w: nat, ghost plan: Plan<S>)
      returns (r: Result<nat, CapError>)
      requires Valid() && infl.Valid() && comp < LFDB_COMPONENTS && locs[comp] == Some(loc)
      requires headerEmitted == |header| && w <= out.Length && out != infl.window
      modifies this`cursor, infl`state, infl.window, out
      ensures Valid()
      ensures r.Err? ==> r.error == InflateFailed && Kept(old(out[..]), out[..], w)
      ensures r.Ok? ==> w + r.value <= out.Length && Kept(old(out[..]), out[..], w)
                        && cursor.emitted == old(cursor.emitted) + r.value
      ensures r.Ok? && r.value < out.Length - w ==> Drained()
      ensures old(Drained()) ==> r.Ok? && r.value == 0 && cursor == old(cursor)
      ensures old(On(infl, plan)) ==>
                && r.Ok? && On(infl, plan) && |plan.outs| == LFDB_COMPONENTS
                && Matches(out[..], w, plan.outs[comp], old(cursor.emitted), r.value)
                && (r.value == out.Length - w || cursor.emitted == |plan.outs[comp]|)
    {
      hide Tracking, Located, FeedsOne, Tracks, Kept, Matches, Drained, Overwrite;
      ghost var on, c0, st0, win0 := On(infl, plan), cursor, infl.state, infl.window[..];
      if on {
        TrackingPlan(infl.codec, zip, locs, plan, comp, cursor, infl.state, infl.window[..]);
      }
      ghost var content, at := if on then plan.outs[comp] else [], if on then plan.ats[comp] else (_, _, _) => false;
      if loc.coding == METHOD_DEFLATE {
        r := EmitDeflate(loc, infl, out, w, content, at);
      } else {
        var take := EmitStored(loc, infl, out, w, content, at);
        assert old(Drained()) ==> cursor == c0;
        r := Ok(take);
      }
      if on {
        TrackingMoves(infl.codec, zip, locs, plan, comp, c0, st0, win0, cursor, infl.state, infl.window[..]);
      }
    }

    /** Past the current component, with a fresh cursor. */
    method Advance<S(!new)>(ghost infl: InflateCtx<S>, ghost plan: Plan<S>)
      requires Valid() && comp < LFDB_COMPONENTS && headerEmitted == |header|
      modifies this`comp, this`cursor
      ensures Valid() && comp == old(comp) + 1 && cursor == FRESH_CURSOR
      ensures old(On(infl, plan)) ==> On(infl, plan)
    {
      hide Tracking;
      if On(infl, plan) {
        TrackingAdvances(infl.codec, zip, locs, plan, comp, cursor, infl.state, infl.window[..]);
      }
      comp := comp + 1;
      cursor := FRESH_CURSOR;
    }

    /**
     `next_block`: fill `out` with what comes next. A short block is the last: nothing follows it,
     whatever the archive. On a plan, the block is what is dealt from where the reader is.
     */
    method NextBlock<S(!new)>(infl: InflateCtx<S>, out: array<byte>, ghost plan: Plan<S>)
      returns (r: Result<nat, CapError>)
      requires Valid() && infl.Valid() && out != infl.window
      modifies this, infl`state, infl.window, out
      ensures Valid()
      ensures r.Err? ==> r.error == InflateFailed
      ensures r.Ok? ==> r.value <= out.Length
      ensures r.Ok? && r.value < out.Length ==> Stuck()
      ensures old(Stuck()) ==> r.Ok? && r.value == 0 && Stuck()
      ensures old(On(infl, plan)) ==>
                && r.Ok? && On(infl, plan) && |plan.outs| == LFDB_COMPONENTS
                && (out[..r.value], Place()) == Deal(locs, plan.outs, old(Place()), out.Length)
    {
      hide Tracking, Located, Kept, Matches, DealFrom, Deal, Dealt, HeaderBytes, ContentLen;
      ghost var on, stuck := On(infl, plan), Stuck();
      if on {
        TrackingPlan(infl.codec, zip, locs, plan, comp, cursor, infl.state, infl.window[..]);
      }
      ghost var goal := if on then Deal(locs, plan.outs, Place(), out.Length) else ([], START);
      var written: nat := 0;
      if |header| - headerEmitted > 0 {
        written := HeaderPart(infl, out, plan);
      } else if on {
        DealtNothing(locs, plan.outs, goal, out[..], comp, cursor.emitted);
      }
      var stop := false;
      while written < out.Length && !stop
        invariant Valid() && written <= out.Length
        invariant written < out.Length ==> headerEmitted == |header|
        invariant on ==> On(infl, plan)
        invariant on && headerEmitted == |header| ==>
                  Dealt(locs, plan.outs, goal, out[..], written, comp, cursor.emitted)
        invariant on && headerEmitted < |header| ==> goal == (out[..written], Place())
        invariant stop && written < out.Length ==> Stuck()
        invariant stop && on ==> goal == (out[..written], Place())
        invariant stuck ==> Stuck() && written == 0
        decreases !stop, LFDB_COMPONENTS - comp, out.Length - written
      {
        var loc := if comp < LFDB_COMPONENTS then locs[comp] else None;
        if loc.None? {
          if comp >= LFDB_COMPONENTS {
            stop := true;
            if on {
              DealtAll(locs, plan.outs, goal, out[..], written, comp, cursor.emitted);
            }
          } else {
            if on {
              DealtAbsent(locs, plan.outs, goal, out[..], written, comp, cursor.emitted);
            }
            Advance(infl, plan);
          }
        } else {
          ghost var before, e0 := out[..], cursor.emitted;
          var emitted := EmitSlice(loc.value, infl, out, written, plan);
          if emitted.Err? {
            return Err(emitted.error);
          }
          if on {
            DealtSlice(locs, plan.outs, goal, before, out[..], written, comp, e0, emitted.value);
          }
          written := written + emitted.value;
          if cursor.emitted >= loc.value.uncompSize {
            Advance(infl, plan);
          } else if emitted.value == 0 {
            stop := true;
          }
        }
      }
      if on && headerEmitted == |header| && !stop {
        DealtFull(locs, plan.outs, goal, out[..], comp, cursor.emitted);
      }
      return Ok(written);
    }

    /** The header part of a block. */
    method HeaderPart<S(!new)>(infl: InflateCtx<S>, out: array<byte>, ghost plan: Plan<S>) returns (take: nat)
      requires Valid() && out != infl.window && headerEmitted < |header|
      modifies this`headerEmitted, out
      ensures Valid() && take <= out.Length && (take < out.Length ==> headerEmitted == |header|)
      ensures old(On(infl, plan)) ==>
                && On(infl, plan) && |plan.outs| == LFDB_COMPONENTS
                && var goal := Deal(locs, plan.outs, old(Place()), out.Length);
                   && (headerEmitted == |header| ==> Dealt(locs, plan.outs, goal, out[..], take, comp, cursor.emitted))
                   && (headerEmitted < |header| ==> goal == (out[..take], Place()))
    {
      hide Tracking, DealFrom;
      ghost var on, from, win0 := On(infl, plan), headerEmitted, infl.window[..];
      take := EmitHeader(out);
      assert infl.window[..] == win0;
      if on {
        TrackingPlan(infl.codec, zip, locs, plan, comp, cursor, infl.state, infl.window[..]);
        assert out[..][..take] == out[..take] && header[from..|header|] == header[from..];
      }
    }
  }

  // ---- What has been dealt of a block ----

  /** `goal` is the `w` bytes in the buffer and what the rest of it is still to get. */
  predicate Dealt(locs: Locs, outs: seq<bytes>, goal: (bytes, Spot), o: bytes, w: nat, comp: nat, e: nat)
    requires |locs| == |outs| && w <= |o|
  {
    var (more, spot) := DealFrom(locs, outs, comp, e, |o| - w);
    goal == (o[..w] + more, spot)
  }

  lemma DealtNothing(locs: Locs, outs: seq<bytes>, goal: (bytes, Spot), o: bytes, comp: nat, e: nat)
    requires |locs| == |outs| && goal == Deal(locs, outs, Spot(|HeaderBytes(ContentLen(locs))|, comp, e), |o|)
    ensures Dealt(locs, outs, goal, o, 0, comp, e)
  {
    hide DealFrom;
    assert o[..0] + goal.0 == goal.0;
  }

  lemma DealtFull(locs: Locs, outs: seq<bytes>, goal: (bytes, Spot), o: bytes, comp: nat, e: nat)
    requires |locs| == |outs| && Dealt(locs, outs, goal, o, |o|, comp, e)
    ensures goal == (o[..|o|], Spot(|HeaderBytes(ContentLen(locs))|, comp, e))
  {
    assert o[..|o|] + [] == o[..|o|];
  }

  lemma DealtAll(locs: Locs, outs: seq<bytes>, goal: (bytes, Spot), o: bytes, w: nat, comp: nat, e: nat)
    requires |locs| == |outs| && w <= |o| && comp >= |locs| && Dealt(locs, outs, goal, o, w, comp, e)
    ensures goal == (o[..w], Spot(|HeaderBytes(ContentLen(locs))|, comp, e))
  {
    assert o[..w] + [] == o[..w];
  }

  lemma DealtAbsent(locs: Locs, outs: seq<bytes>, goal: (bytes, Spot), o: bytes, w: nat, comp: nat, e: nat)
    requires |locs| == |outs| && w < |o| && comp < |locs| && locs[comp].None? && Dealt(locs, outs, goal, o, w, comp, e)
    ensures Dealt(locs, outs, goal, o, w, comp + 1, 0)
  {
  }

  /** A slice of the component extends what has been dealt, and ends the deal if nothing came of it. */
  lemma DealtSlice(locs: Locs, outs: seq<bytes>, goal: (bytes, Spot), before: bytes, o: bytes, w: nat, comp: nat,
                   e: nat, n: nat)
    requires |locs| == |outs| && comp < |locs| && locs[comp].Some? && w < |before|
    requires Dealt(locs, outs, goal, before, w, comp, e)
    requires Kept(before, o, w) && Matches(o, w, outs[comp], e, n) && (n == |o| - w || e + n == |outs[comp]|)
    ensures w + n <= |o|
    ensures if e + n >= Declared(locs[comp]) then Dealt(locs, outs, goal, o, w + n, comp + 1, 0)
            else Dealt(locs, outs, goal, o, w + n, comp, e + n)
    ensures n == 0 && e < Declared(locs[comp]) ==> goal == (o[..w], Spot(|HeaderBytes(ContentLen(locs))|, comp, e))
  {
    hide DealFrom;
    var piece := outs[comp][e..e + n];
    DealSlice(locs, outs, comp, e, |o| - w, n);
    assert o[..w + n] == o[..w] + piece;
    var (comp', e') := if e + n >= Declared(locs[comp]) then (comp + 1, 0) else (comp, e + n);
    var more := DealFrom(locs, outs, comp', e', |o| - (w + n)).0;
    assert o[..w] + (piece + more) == (o[..w] + piece) + more;
    if n == 0 && e < Declared(locs[comp]) {
      DealStall(locs, outs, comp, e, |o| - w);
      assert o[..w] + [] == o[..w];
    }
  }

  // ---- Writing into the buffer ----

  /** What one `emit_deflate` call is about: the component, the buffer as it was, and where it began. */
  datatype Goal<!S> = Goal(coding: nat, content: bytes, at: (S, nat, nat) -> bool, before: bytes, w0: nat, e0: nat,
                           tracked: bool)

  /** The call has written up to `w`, nothing before `w0`, and, if tracked, the content's next bytes. */
  ghost predicate Underway<S(!new)>(g: Goal<S>, c: CompCursor, st: S, window: bytes, o: bytes, w: nat) {
    && g.w0 <= w && Kept(g.before, o, g.w0)
    && c.started && c.emitted == g.e0 + (w - g.w0)
    && (g.tracked ==> Tracks(c, st, window, g.coding, g.content, g.at) && Matches(o, g.w0, g.content, g.e0, w - g.w0))
  }

  lemma UnderwayKept<S(!new)>(g: Goal<S>, c: CompCursor, st: S, window: bytes, o: bytes, w: nat)
    requires Underway(g, c, st, window, o, w)
    ensures g.w0 <= w && Kept(g.before, o, g.w0) && c.emitted == g.e0 + (w - g.w0)
    ensures g.tracked ==>
              Tracks(c, st, window, g.coding, g.content, g.at) && Matches(o, g.w0, g.content, g.e0, w - g.w0)
    ensures g.tracked && g.coding == METHOD_DEFLATE && c.done && c.produced == c.emitted ==> c.emitted == |g.content|
  {
  }

  /** Copy `src` to `out` at `w`. */
  method CopyOut(out: array<byte>, w: nat, src: bytes)
    requires w + |src| <= out.Length
    modifies out
    ensures out[..] == Overwrite(old(out[..]), w, src)
  {
    forall i | 0 <= i < |src| {
      out[w + i] := src[i];
    }
  }

  /** The first `w0` bytes of a buffer are as they were. */
  predicate Kept(before: bytes, after: bytes, w0: nat) {
    |before| == |after| && w0 <= |after| && before[..w0] == after[..w0]
  }

  lemma KeptThrough(o: bytes, before: bytes, after: bytes, w0: nat, w: nat, run: bytes)
    requires Kept(o, before, w0) && w0 <= w && w + |run| <= |before| && after == Overwrite(before, w, run)
    ensures Kept(o, after, w0)
  {
    assert after[..w0] == before[..w0];
  }

  /** Resetting the decompressor starts tracking an unstarted component. */
  lemma StartTracked<S(!new)>(infl: InflateCtx<S>, zip: bytes, loc: CompLoc, content: bytes, at: (S, nat, nat) -> bool)
    requires infl.Valid() && loc.coding == METHOD_DEFLATE
    ensures FeedsOne(infl.codec, zip, loc, content, at) ==>
              at(infl.codec.init, 0, 0) && Holds(infl.window[..], content, 0)
  {
  }

  /** A call from a tracked state continues the content and keeps the ring current. */
  lemma PumpContinues<S(!new)>(codec: Codec<S>, whole: bytes, content: bytes, at: (S, nat, nat) -> bool,
                               st: S, i: nat, n: nat, window: bytes)
    requires Bounded(codec) && Decodes(codec, whole, content, at)
    requires at(st, i, n) && i <= |whole| && Holds(window, content, n)
    ensures var p := codec.step(st, whole[i..], window, n % INFLATE_WINDOW);
            && Continues(codec, whole, content, at, i, n, p)
            && |p.out| <= INFLATE_WINDOW - n % INFLATE_WINDOW
            && Holds(Overwrite(window, n % INFLATE_WINDOW, p.out), content, n + |p.out|)
  {
    RingAppend(window, content, n, codec.step(st, whole[i..], window, n % INFLATE_WINDOW).out);
  }

  /** The `n` bytes written at `w0` are the content from `e0` on. */
  predicate Matches(out: bytes, w0: nat, content: bytes, e0: nat, n: nat) {
    w0 + n <= |out| && e0 + n <= |content| && out[w0..w0 + n] == content[e0..e0 + n]
  }

  lemma MatchesGrow(before: bytes, after: bytes, w0: nat, content: bytes, e0: nat, n: nat, run: bytes)
    requires Matches(before, w0, content, e0, n)
    requires w0 + n + |run| <= |before| && after == Overwrite(before, w0 + n, run)
    requires e0 + n + |run| <= |content| && run == content[e0 + n..e0 + n + |run|]
    ensures Matches(after, w0, content, e0, n + |run|)
  {
    assert after[w0..w0 + n] == before[w0..w0 + n];
    assert after[w0 + n..w0 + n + |run|] == run;
    assert after[w0..w0 + n + |run|] == after[w0..w0 + n] + run;
    assert content[e0..e0 + n + |run|] == content[e0..e0 + n] + run;
  }

  /** A stored slice is the content's next bytes. */
  lemma StoredMatches<S(!new)>(zip: bytes, loc: CompLoc, content: bytes, at: (S, nat, nat) -> bool, codec: Codec<S>,
                               before: bytes, after: bytes, w: nat, e0: nat, take: nat)
    requires loc.coding != METHOD_DEFLATE && loc.dataOff + e0 + take <= |zip| && e0 + take <= loc.uncompSize
    requires w + take <= |before| && after == Overwrite(before, w, zip[loc.dataOff + e0..loc.dataOff + e0 + take])
    ensures Kept(before, after, w)
    ensures FeedsOne(codec, zip, loc, content, at) ==>
              && Matches(after, w, content, e0, take)
              && |content| == if loc.dataOff + loc.uncompSize <= |zip| then loc.uncompSize else |zip| - loc.dataOff
  {
    assert after[w..w + take] == zip[loc.dataOff + e0..loc.dataOff + e0 + take];
    if FeedsOne(codec, zip, loc, content, at) {
      var end := if loc.dataOff + loc.uncompSize <= |zip| then loc.dataOff + loc.uncompSize else |zip|;
      assert content == zip[loc.dataOff..end] && loc.dataOff + e0 + take <= end;
      SliceOfSlice(zip, loc.dataOff, end, e0, e0 + take);
    }
  }

  lemma StoredTracks<S(!new)>(c: CompCursor, st: S, w: bytes, coding: nat, content: bytes, at: (S, nat, nat) -> bool)
    requires coding != METHOD_DEFLATE
    ensures Tracks(c, st, w, coding, content, at) <==> c.emitted <= |content|
  {
  }
}
