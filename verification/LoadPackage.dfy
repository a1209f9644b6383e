/**
 `load_package` (`workflow/ssd.rs`): parse the CAP, check its size, INSTALL [for load], then stream the
 framed load file to the card in numbered LOAD blocks.
 */
module LoadPackage {
  import opened Bytes
  import opened Wrappers
  import opened Aid
  import opened Inflate
  import opened LoadFile
  import opened Cap
  import opened CapStream
  import opened CapParse
  import opened Apdu
  import opened CardStatus
  import TlvCodec
  import Zip

  /** 256 block numbers of `LOAD_BLOCK_DATA` bytes. */
  const MAX_LOAD_BYTES: nat := 256 * LOAD_BLOCK_DATA
  const HASH_MAX: nat := 64

  const SW_WRONG_DATA: nat := 0x6A80

  datatype LoadError =
    | InCap(error: CapError) | LoadTooLarge | InBuild | InTransport
    | ResidentSdNotFound | PackageAidExists | Refused(sw: nat) | BadTarget

  type Chunk = c: bytes | 0 < |c| <= LOAD_BLOCK_DATA witness [0]

  /** The LOAD commands for chunks sent in order, of a load file of `total` bytes. */
  function Commands(chunks: seq<Chunk>, total: nat): (cs: seq<bytes>)
    ensures |cs| == |chunks|
  {
    if chunks == [] then []
    else
      var k := |chunks| - 1;
      Commands(chunks[..k], total) + [LoadApdu(k % 256, |Flatten(chunks)| >= total, chunks[k])]
  }

  /** The card answered 9000. */
  predicate Agreed(script: seq<Answer>, i: nat) {
    AnswerAt(script, i).Ok? && AnswerAt(script, i).value.1 == SW_OK
  }

  /** One LOAD block, and the card's answer to it. */
  method SendBlock(session: Session, blockNo: byte, last: bool, chunk: Chunk) returns (r: Result<(), LoadError>)
    modifies session
    ensures session.next == old(session.next) + 1
    ensures session.sent == old(session.sent) + [LoadApdu(blockNo, last, chunk)]
    ensures r.Ok? <==> Agreed(session.script, old(session.next))
    ensures r.Err? ==> r.error == InTransport || r.error.Refused?
  {
    var capdu := LoadBlock(blockNo, last, chunk);
    var answer := session.Transmit(capdu.value);
    if answer.Err? {
      return Err(InTransport);
    }
    if answer.value.1 != SW_OK {
      return Err(Refused(answer.value.1));
    }
    return Ok(());
  }

  /** From answer `from` on, `n` answers were all 9000. */
  predicate AllAgreed(script: seq<Answer>, from: nat, n: nat) {
    forall i :: from <= i < from + n ==> Agreed(script, i)
  }

  /** No block but the last sent reached the end of the load file. */
  predicate InOrder(chunks: seq<Chunk>, total: nat) {
    chunks != [] ==> |Flatten(chunks[..|chunks| - 1])| < total
  }

  /** The session has carried the LOAD commands for `chunks`, and nothing else. */
  predicate Exchanged(sent0: seq<bytes>, next0: nat, sent: seq<bytes>, next: nat, chunks: seq<Chunk>, total: nat) {
    next == next0 + |chunks| && sent == sent0 + Commands(chunks, total) && InOrder(chunks, total)
  }

  lemma OneMoreExchange(sent0: seq<bytes>, next0: nat, sent: seq<bytes>, next: nat, chunks: seq<Chunk>, total: nat,
                        chunk: Chunk)
    requires Exchanged(sent0, next0, sent, next, chunks, total) && |Flatten(chunks)| < total
    ensures Exchanged(sent0, next0, sent + [LoadApdu(|chunks| % 256, |Flatten(chunks)| + |chunk| >= total, chunk)],
                      next + 1, chunks + [chunk], total)
  {
    OneMoreChunk(chunks, chunk, total);
  }

  lemma OneMoreChunk(chunks: seq<Chunk>, chunk: Chunk, total: nat)
    requires |Flatten(chunks)| < total
    ensures |Flatten(chunks + [chunk])| == |Flatten(chunks)| + |chunk|
    ensures InOrder(chunks + [chunk], total)
    ensures Commands(chunks + [chunk], total)
         == Commands(chunks, total) + [LoadApdu(|chunks| % 256, |Flatten(chunks)| + |chunk| >= total, chunk)]
  {
    FlattenSnoc(chunks, chunk);
    assert (chunks + [chunk])[..|chunks|] == chunks;
  }

  /** Every chunk but the last is full. */
  predicate FullButLast(chunks: seq<bytes>) {
    forall k :: 0 <= k < |chunks| - 1 ==> |chunks[k]| == LOAD_BLOCK_DATA
  }

  lemma {:induction false} FullLength(chunks: seq<bytes>)
    requires forall k :: 0 <= k < |chunks| ==> |chunks[k]| == LOAD_BLOCK_DATA
    ensures |Flatten(chunks)| == LOAD_BLOCK_DATA * |chunks|
  {
    if chunks != [] {
      FullLength(chunks[1..]);
    }
  }

  /** Within the size gate at most 256 blocks go out, whatever the archive holds. */
  lemma AtMost256(chunks: seq<Chunk>, total: nat)
    requires FullButLast(chunks) && InOrder(chunks, total) && total <= MAX_LOAD_BYTES
    ensures |chunks| <= 256
  {
    hide Flatten;
    if chunks != [] {
      FullLength(chunks[..|chunks| - 1]);
    }
  }

  // ---- The LOAD loop ----

  /** `n` buffers of the LOAD size. */
  function LoadBuffers(n: nat): (sizes: seq<nat>)
    ensures |sizes| == n
  {
    seq(n, _ => LOAD_BLOCK_DATA)
  }

  /** The chunks are the first blocks of a pass over the plan, and the reader is just past them. */
  ghost predicate OnPass<S(!new)>(lfdb: LoadFileDataBlock, infl: InflateCtx<S>, plan: Plan<S>, chunks: seq<bytes>)
    requires lfdb.Valid()
    reads lfdb, infl, infl.window
  {
    && |plan.outs| == |lfdb.locs| && lfdb.On(infl, plan)
    && chunks == DealAll(lfdb.locs, plan.outs, START, LoadBuffers(|chunks|))
    && lfdb.Place() == After(lfdb.locs, plan.outs, START, LoadBuffers(|chunks|))
  }

  /** A pass made one buffer longer. */
  lemma {:induction false} PassSnoc(locs: Locs, outs: seq<bytes>, p: Spot, n: nat)
    requires |locs| == |outs|
    ensures var (block, next) := Deal(locs, outs, After(locs, outs, p, LoadBuffers(n)), LOAD_BLOCK_DATA);
            && DealAll(locs, outs, p, LoadBuffers(n + 1)) == DealAll(locs, outs, p, LoadBuffers(n)) + [block]
            && After(locs, outs, p, LoadBuffers(n + 1)) == next
    decreases n
  {
    hide Deal;
    assert LoadBuffers(n + 1)[0] == LOAD_BLOCK_DATA && LoadBuffers(n + 1)[1..] == LoadBuffers(n);
    if n == 0 {
      assert LoadBuffers(0) == [];
    } else {
      assert LoadBuffers(n)[0] == LOAD_BLOCK_DATA && LoadBuffers(n)[1..] == LoadBuffers(n - 1);
      PassSnoc(locs, outs, Deal(locs, outs, p, LOAD_BLOCK_DATA).1, n - 1);
    }
  }

  /** The next LOAD-sized piece of the stream. */
  method ReadChunk<S(!new)>(lfdb: LoadFileDataBlock, infl: InflateCtx<S>, out: array<byte>, ghost plan: Plan<S>,
                            ghost chunks: seq<Chunk>)
    returns (r: Result<bytes, CapError>)
    requires lfdb.Valid() && infl.Valid() && out != infl.window && out.Length == LOAD_BLOCK_DATA
    modifies lfdb, infl`state, infl.window, out
    ensures lfdb.Valid()
    ensures r.Ok? ==> |r.value| <= LOAD_BLOCK_DATA
    ensures r.Ok? && |r.value| < LOAD_BLOCK_DATA ==> lfdb.Stuck()
    ensures old(lfdb.Stuck()) ==> r.Ok? && r.value == []
    ensures old(OnPass(lfdb, infl, plan, chunks)) ==> r.Ok? && OnPass(lfdb, infl, plan, chunks + [r.value])
  {
    hide Tracking, Deal, DealAll, After;
    ghost var on := OnPass(lfdb, infl, plan, chunks);
    var n := lfdb.NextBlock(infl, out, plan);
    if n.Err? {
      return Err(n.error);
    }
    r := Ok(out[..n.value]);
    if on {
      PassSnoc(lfdb.locs, plan.outs, START, |chunks|);
    }
  }

  /** The session has carried the LOAD commands for `chunks`, each answered 9000. */
  predicate Carried(script: seq<Answer>, sent0: seq<bytes>, next0: nat, sent: seq<bytes>, next: nat, chunks: seq<Chunk>,
                    total: nat) {
    Exchanged(sent0, next0, sent, next, chunks, total) && AllAgreed(script, next0, |chunks|)
  }

  /** One pass of the loop with a chunk to send. */
  method SendChunk(session: Session, blockNo: byte, last: bool, chunk: Chunk,
                   ghost sent0: seq<bytes>, ghost next0: nat, ghost chunks: seq<Chunk>, ghost total: nat)
    returns (r: Result<(), LoadError>)
    requires Carried(session.script, sent0, next0, session.sent, session.next, chunks, total)
    requires blockNo == |chunks| % 256 && |Flatten(chunks)| < total && (last <==> |Flatten(chunks)| + |chunk| >= total)
    modifies session
    ensures r.Ok? ==> Carried(session.script, sent0, next0, session.sent, session.next, chunks + [chunk], total)
    ensures r.Err? ==>
              && !r.error.InCap?
              && Exchanged(sent0, next0, session.sent, session.next, chunks + [chunk], total)
              && AllAgreed(session.script, next0, |chunks|) && !Agreed(session.script, next0 + |chunks|)
  {
    hide Flatten, Commands, LoadApdu, InOrder;
    ghost var sent, next := session.sent, session.next;
    r := SendBlock(session, blockNo, last, chunk);
    OneMoreExchange(sent0, next0, sent, next, chunks, total, chunk);
  }

  lemma CarriedExchanged(script: seq<Answer>, sent0: seq<bytes>, next0: nat, sent: seq<bytes>, next: nat,
                         chunks: seq<Chunk>, total: nat)
    requires Carried(script, sent0, next0, sent, next, chunks, total)
    ensures Exchanged(sent0, next0, sent, next, chunks, total) && AllAgreed(script, next0, |chunks|)
  {
  }

  /** The LOAD loop. */
  method SendBlocks<S(!new)>(lfdb: LoadFileDataBlock, infl: InflateCtx<S>, session: Session, ghost plan: Plan<S>)
    returns (r: Result<nat, LoadError>, ghost chunks: seq<Chunk>)
    requires lfdb.Valid() && infl.Valid() && lfdb.Place() == START
    modifies lfdb, infl`state, infl.window, session
    ensures Exchanged(old(session.sent), old(session.next), session.sent, session.next, chunks, lfdb.Len())
    ensures FullButLast(chunks)
    ensures r.Ok? ==> r.value == |chunks| && AllAgreed(session.script, old(session.next), |chunks|)
    ensures r.Err? && !r.error.InCap? ==>
              && chunks != [] && AllAgreed(session.script, old(session.next), |chunks| - 1)
              && !Agreed(session.script, old(session.next) + |chunks| - 1)
    ensures old(lfdb.On(infl, plan)) ==>
              && |plan.outs| == |lfdb.locs|
              && chunks == DealAll(lfdb.locs, plan.outs, START, LoadBuffers(|chunks|))
              && (r.Err? ==> !r.error.InCap?)
              && (r.Ok? ==> Finished(lfdb.locs, plan.outs, chunks))
  {
    hide DealAll, After, Commands, Flatten, InOrder, ContentLen, HeaderBytes, Agreed, LoadApdu, OnPass, Exchanged,
         Tracking, FullButLast, AllAgreed, Carried, Finished, LoadBuffers, FramedLen;
    ghost var on := lfdb.On(infl, plan);
    chunks := [];
    var total := lfdb.Len();
    ghost var next0, sent0 := session.next, session.sent;
    NoChunks(lfdb, infl, plan, total, session.script, sent0, next0);
    var out := new byte[LOAD_BLOCK_DATA](_ => 0);
    var sent: nat := 0;
    var blocksSent: nat := 0;
    var blockNo: byte := 0;
    var done := false;
    while !done
      invariant lfdb.Valid()
      invariant blocksSent == |chunks| && blockNo == |chunks| % 256 && sent == |Flatten(chunks)|
      invariant Carried(session.script, sent0, next0, session.sent, session.next, chunks, total)
      invariant FullButLast(chunks) && (chunks != [] && |chunks[|chunks| - 1]| < LOAD_BLOCK_DATA ==> lfdb.Stuck())
      invariant !done ==> sent < total && (on ==> OnPass(lfdb, infl, plan, chunks))
      invariant done && on ==> |plan.outs| == |lfdb.locs| && Finished(lfdb.locs, plan.outs, chunks)
      decreases !done, total - sent
    {
      var chunk := ReadChunk(lfdb, infl, out, plan, chunks);
      if on {
        PassPlan(lfdb, infl, plan, chunks + [chunk.value]);
      }
      if chunk.Err? {
        CarriedExchanged(session.script, sent0, next0, session.sent, session.next, chunks, total);
        return Err(InCap(chunk.error)), chunks;
      }
      var n := |chunk.value|;
      if n == 0 {
        done := true;
        if on {
          EndedFinished(lfdb.locs, plan.outs, chunks);
        }
      } else {
        FlattenSnoc(chunks, chunk.value);
        OneMoreFull(chunks, chunk.value);
        sent := sent + n;
        done := sent >= total;
        var ok := SendChunk(session, blockNo, done, chunk.value, sent0, next0, chunks, total);
        chunks := chunks + [chunk.value];
        if on && done {
          FullFinished(lfdb.locs, plan.outs, chunks);
        }
        if ok.Err? {
          return Err(ok.error), chunks;
        }
        blockNo := (blockNo + 1) % 256;
        blocksSent := blocksSent + 1;
      }
    }
    CarriedExchanged(session.script, sent0, next0, session.sent, session.next, chunks, total);
    if on {
      FinishedPass(lfdb.locs, plan.outs, chunks);
    }
    return Ok(blocksSent), chunks;
  }

  /** The chunks are a pass that reached the announced length, or that has nothing after it. */
  ghost predicate Finished(locs: Locs, outs: seq<bytes>, chunks: seq<bytes>)
    requires |locs| == |outs|
  {
    && chunks == DealAll(locs, outs, START, LoadBuffers(|chunks|))
    && (|Flatten(chunks)| >= FramedLen(locs)
        || DealAll(locs, outs, START, LoadBuffers(|chunks| + 1)) == chunks + [[]])
  }

  lemma NoChunks<S(!new)>(lfdb: LoadFileDataBlock, infl: InflateCtx<S>, plan: Plan<S>, total: nat,
                             script: seq<Answer>, sent0: seq<bytes>, next0: nat)
    requires lfdb.Valid() && lfdb.Place() == START
    ensures Flatten([]) == [] && Carried(script, sent0, next0, sent0, next0, [], total) && FullButLast([])
    ensures lfdb.On(infl, plan) ==> OnPass(lfdb, infl, plan, [])
  {
    hide Tracking;
    assert LoadBuffers(0) == [];
    if lfdb.On(infl, plan) {
      OnFeeds(lfdb, infl, plan);
    }
  }

  lemma PassPlan<S(!new)>(lfdb: LoadFileDataBlock, infl: InflateCtx<S>, plan: Plan<S>, chunks: seq<bytes>)
    requires lfdb.Valid() && OnPass(lfdb, infl, plan, chunks)
    ensures |plan.outs| == |lfdb.locs| && chunks == DealAll(lfdb.locs, plan.outs, START, LoadBuffers(|chunks|))
    ensures lfdb.On(infl, plan) && FramedLen(lfdb.locs) == lfdb.Len()
  {
  }

  lemma EndedFinished(locs: Locs, outs: seq<bytes>, chunks: seq<bytes>)
    requires |locs| == |outs| && chunks + [[]] == DealAll(locs, outs, START, LoadBuffers(|chunks| + 1))
    ensures Finished(locs, outs, chunks)
  {
    hide Deal, DealAll, After;
    PassSnoc(locs, outs, START, |chunks|);
    assert (chunks + [[]])[..|chunks|] == chunks;
    assert DealAll(locs, outs, START, LoadBuffers(|chunks|)) == (chunks + [[]])[..|chunks|];
  }

  lemma FullFinished(locs: Locs, outs: seq<bytes>, chunks: seq<bytes>)
    requires |locs| == |outs| && chunks == DealAll(locs, outs, START, LoadBuffers(|chunks|))
    requires |Flatten(chunks)| >= FramedLen(locs)
    ensures Finished(locs, outs, chunks)
  {
  }

  lemma FinishedPass(locs: Locs, outs: seq<bytes>, chunks: seq<bytes>)
    requires |locs| == |outs| && Finished(locs, outs, chunks)
    ensures chunks == DealAll(locs, outs, START, LoadBuffers(|chunks|))
  {
  }

  lemma OneMoreFull(chunks: seq<bytes>, chunk: bytes)
    requires FullButLast(chunks) && (chunks != [] ==> |chunks[|chunks| - 1]| == LOAD_BLOCK_DATA)
    ensures FullButLast(chunks + [chunk])
  {
  }

  // ---- The whole operation ----

  datatype LoadReport = LoadReport(packageAid: bytes, size: nat, hash: bytes, blockCount: nat, target: bytes)

  /** What is ready to be sent: the CAP, and INSTALL [for load]. */
  datatype Ready = Ready(cap: CapFile, install: bytes)

  function InstallApdu(cap: CapFile, target: bytes, hash: bytes): bytes
    requires |InstallData(cap.packageAid, target, hash)| <= 255
  {
    ShortApdu(0x84, 0xE6, 0x02, 0x00, InstallData(cap.packageAid, target, hash), true)
  }

  /** What happens before anything is sent. */
  function Prepared<S>(codec: Codec<S>, zip: bytes, target: bytes, hash: bytes): (r: Result<Ready, LoadError>)
    ensures r.Ok? ==> CapOf(codec, zip) == Ok(r.value.cap) && |r.value.cap.locs| == LFDB_COMPONENTS
    ensures r.Ok? ==> FramedLen(r.value.cap.locs) <= MAX_LOAD_BYTES
  {
    var cap := CapOf(codec, zip);
    if cap.Err? then Err(InCap(cap.error))
    else if FramedLen(cap.value.locs) > MAX_LOAD_BYTES then Err(LoadTooLarge)
    else if |InstallData(cap.value.packageAid, target, hash)| > 255 then Err(InBuild)
    else Ok(Ready(cap.value, InstallApdu(cap.value, target, hash)))
  }

  /** Everything up to the first command. */
  method Prepare<S(!new)>(zip: bytes, target: bytes, hash: bytes, infl: InflateCtx<S>)
    returns (r: Result<Ready, LoadError>)
    requires infl.Valid()
    modifies infl`state, infl.window
    ensures infl.Valid() && r == Prepared(infl.codec, zip, target, hash)
    ensures r.Ok? ==> Zip.AllInside(zip, r.value.cap.locs)
  {
    hide CapOf, HeaderBytes, ContentLen, InstallData, ShortApdu, Zip.AllInside;
    var cap := ParseCap(zip, infl);
    if cap.Err? {
      return Err(InCap(cap.error));
    }
    var total := FramedLen(cap.value.locs);
    if total > MAX_LOAD_BYTES {
      return Err(LoadTooLarge);
    }
    var install := InstallForLoad(cap.value.packageAid, target, hash);
    if install.Err? {
      return Err(InBuild);
    }
    return Ok(Ready(cap.value, install.value));
  }

  /** How the answer to INSTALL [for load] stops the operation, if it does. */
  function InstallRefusal(script: seq<Answer>, i: nat): Option<LoadError> {
    var a := AnswerAt(script, i);
    if a.Err? then Some(InTransport)
    else if a.value.1 == SW_OK then None
    else if a.value.1 == SW_REF_NOT_FOUND then Some(ResidentSdNotFound)
    else if a.value.1 == SW_WRONG_DATA then Some(PackageAidExists)
    else Some(Refused(a.value.1))
  }

  /** By the two bytes of the answer: 90 00 goes on, 6A 88 and 6A 80 have names, and the rest is passed on. */
  lemma InstallAnswers(script: seq<Answer>, i: nat, data: bytes, sw1: byte, sw2: byte)
    requires i < |script| && |data| <= 256 && script[i] == Answered(data + [sw1, sw2])
    ensures InstallRefusal(script, i)
         == if sw1 == 0x90 && sw2 == 0x00 then None
            else if sw1 == 0x6A && sw2 == 0x88 then Some(ResidentSdNotFound)
            else if sw1 == 0x6A && sw2 == 0x80 then Some(PackageAidExists)
            else Some(Refused(256 * sw1 + sw2))
  {
  }

  method TransmitInstall(session: Session, install: bytes) returns (refusal: Option<LoadError>)
    modifies session
    ensures session.next == old(session.next) + 1 && session.sent == old(session.sent) + [install]
    ensures refusal == InstallRefusal(session.script, old(session.next))
  {
    var answer := session.Transmit(install);
    if answer.Err? {
      return Some(InTransport);
    }
    match answer.value.1
    case 0x9000 => return None;
    case 0x6A88 => return Some(ResidentSdNotFound);
    case 0x6A80 => return Some(PackageAidExists);
    case other => return Some(Refused(other));
  }

  /**
   The report of a finished load. The hash and the target are only now checked against their bounds: one
   that is too long, or is not an AID, is reported after the whole file has been loaded.
   */
  function Report(cap: CapFile, target: bytes, hash: bytes, loop: Result<nat, LoadError>)
    : Result<LoadReport, LoadError>
  {
    if loop.Err? then Err(loop.error)
    else if |hash| > HASH_MAX then Err(InBuild)
    else if !IsAid(target) then Err(BadTarget)
    else Ok(LoadReport(cap.packageAid, FramedLen(cap.locs), hash, loop.value, target))
  }

  /** A finished load is reported as one exactly under a hash of at most 64 bytes and a target that is an AID. */
  lemma ReportExactly(cap: CapFile, target: bytes, hash: bytes, loop: Result<nat, LoadError>)
    ensures var r := Report(cap, target, hash, loop);
            && (r.Ok? <==> loop.Ok? && |hash| <= 64 && 5 <= |target| <= 16)
            && (loop.Err? ==> r.Err? && r.error == loop.error)
            && (loop.Ok? && |hash| > 64 ==> r == Err(InBuild))
            && (loop.Ok? && |hash| <= 64 && !(5 <= |target| <= 16) ==> r == Err(BadTarget))
  {
  }

  /**
   How the LOAD loop went: the session carried exactly the commands for `chunks`, all full but the last; it
   failed only on the stream or on the answer to its last command; and of a planned archive the chunks are
   the stream's first blocks, all of them if the loop did not fail.
   */
  ghost predicate Looped<S(!new)>(codec: Codec<S>, zip: bytes, locs: Locs, plan: Plan<S>, script: seq<Answer>,
                                  sent0: seq<bytes>, next0: nat, sent: seq<bytes>, next: nat,
                                  chunks: seq<Chunk>, loop: Result<nat, LoadError>) {
    && Exchanged(sent0, next0, sent, next, chunks, FramedLen(locs)) && FullButLast(chunks)
    && (loop.Ok? ==> loop.value == |chunks| && AllAgreed(script, next0, |chunks|))
    && (loop.Err? && !loop.error.InCap? ==> chunks != [] && !Agreed(script, next0 + |chunks| - 1))
    && (Feeds(codec, zip, locs, plan) ==>
          && |plan.outs| == |locs|
          && chunks == DealAll(locs, plan.outs, START, LoadBuffers(|chunks|))
          && (loop.Err? ==> !loop.error.InCap?)
          && (loop.Ok? ==> Finished(locs, plan.outs, chunks)))
  }

  /** Stream a parsed CAP from its start. */
  method StreamCap<S(!new)>(zip: bytes, locs: Locs, infl: InflateCtx<S>, session: Session, ghost plan: Plan<S>)
    returns (loop: Result<nat, LoadError>, ghost chunks: seq<Chunk>)
    requires infl.Valid() && |locs| == LFDB_COMPONENTS && Zip.AllInside(zip, locs)
    modifies infl`state, infl.window, session
    ensures Looped(infl.codec, zip, locs, plan, session.script, old(session.sent), old(session.next),
                   session.sent, session.next, chunks, loop)
  {
    hide Feeds, HeaderBytes, ContentLen, DealAll, Finished, Flatten, Tracking, Agreed, AllAgreed, Exchanged,
         FullButLast;
    infl.Reset();
    var lfdb := new LoadFileDataBlock(zip, locs);
    if Feeds(infl.codec, zip, locs, plan) {
      lfdb.StartsOn(infl, plan);
    }
    loop, chunks := SendBlocks(lfdb, infl, session, plan);
  }

  /** `load_package`. `loop` is how the LOAD loop ended, if it was reached. */
  method Load<S(!new)>(zip: bytes, target: bytes, hash: bytes, infl: InflateCtx<S>, session: Session,
                       ghost plan: Plan<S>)
    returns (r: Result<LoadReport, LoadError>, ghost chunks: seq<Chunk>, ghost loop: Result<nat, LoadError>)
    requires infl.Valid()
    modifies infl`state, infl.window, session
    ensures var ready := Prepared(infl.codec, zip, target, hash);
            ready.Err? ==> r.Err? && r.error == ready.error && session.sent == old(session.sent)
    ensures var ready := Prepared(infl.codec, zip, target, hash);
            var refusal := InstallRefusal(session.script, old(session.next));
            ready.Ok? && refusal.Some? ==>
              r.Err? && r.error == refusal.value && session.sent == old(session.sent) + [ready.value.install]
    ensures var ready := Prepared(infl.codec, zip, target, hash);
            ready.Ok? && InstallRefusal(session.script, old(session.next)).None? ==>
              && r == Report(ready.value.cap, target, hash, loop)
              && Looped(infl.codec, zip, ready.value.cap.locs, plan, session.script,
                        old(session.sent) + [ready.value.install],
                        old(session.next) + 1, session.sent, session.next, chunks, loop)
  {
    hide Prepared, InstallRefusal, Looped, Report;
    chunks, loop := [], Ok(0);
    var ready := Prepare(zip, target, hash, infl);
    if ready.Err? {
      return Err(ready.error), chunks, loop;
    }
    var cap := ready.value.cap;
    var refusal := TransmitInstall(session, ready.value.install);
    if refusal.Some? {
      return Err(refusal.value), chunks, loop;
    }
    var count: Result<nat, LoadError>;
    count, chunks := StreamCap(zip, cap.locs, infl, session, plan);
    loop := count;
    r := Report(cap, target, hash, count);
  }

  // ---- What was sent ----

  lemma {:induction false} CommandAt(chunks: seq<Chunk>, total: nat, k: nat)
    requires k < |chunks|
    ensures Commands(chunks, total)[k] == LoadApdu(k % 256, |Flatten(chunks[..k + 1])| >= total, chunks[k])
  {
    var last := |chunks| - 1;
    if k == last {
      assert chunks[..k + 1] == chunks;
    } else {
      CommandAt(chunks[..last], total, k);
      assert chunks[..last][..k + 1] == chunks[..k + 1];
    }
  }

  lemma {:induction false} FlattenGrows(chunks: seq<bytes>, j: nat, k: nat)
    requires j <= k <= |chunks|
    ensures |Flatten(chunks[..j])| <= |Flatten(chunks[..k])|
  {
    if j < k {
      FlattenGrows(chunks, j, k - 1);
      assert chunks[..k] == chunks[..k - 1] + [chunks[k - 1]];
      FlattenSnoc(chunks[..k - 1], chunks[k - 1]);
    }
  }

  /** P1 of a LOAD command says whether it is the last block, P2 is its number. */
  predicate IsBlock(c: bytes, number: nat, last: bool) {
    |c| >= 4 && c[0] == 0x84 && c[1] == 0xE8 && c[2] == (if last then 0x80 else 0x00) && c[3] == number
  }

  /**
   Whatever the archive and the card: at most 256 blocks go out, numbered 0, 1, 2 and so on without repeat,
   and a block carries the last-block mark exactly when it is the final one and the announced length is out.
   */
  lemma BlocksNumberedAndMarked(chunks: seq<Chunk>, total: nat, k: nat)
    requires FullButLast(chunks) && InOrder(chunks, total) && total <= MAX_LOAD_BYTES && k < |chunks|
    ensures |chunks| <= 256
    ensures IsBlock(Commands(chunks, total)[k], k, k == |chunks| - 1 && |Flatten(chunks)| >= total)
  {
    hide Flatten, Commands;
    AtMost256(chunks, total);
    CommandAt(chunks, total, k);
    assert chunks[..|chunks|] == chunks;
    if k < |chunks| - 1 {
      FlattenGrows(chunks, k + 1, |chunks| - 1);
    }
  }

  // ---- When the last block is marked ----

  lemma {:induction false} LongerPass(locs: Locs, outs: seq<bytes>, m: nat, n: nat)
    requires |locs| == |outs| && m <= n
    ensures DealAll(locs, outs, START, LoadBuffers(m)) <= DealAll(locs, outs, START, LoadBuffers(n))
    ensures |Flatten(DealAll(locs, outs, START, LoadBuffers(m)))|
         <= |Flatten(DealAll(locs, outs, START, LoadBuffers(n)))|
    decreases n
  {
    hide DealAll, Deal, After;
    if m < n {
      LongerPass(locs, outs, m, n - 1);
      PassSnoc(locs, outs, START, n - 1);
      var blocks := DealAll(locs, outs, START, LoadBuffers(n - 1));
      FlattenSnoc(blocks, Deal(locs, outs, After(locs, outs, START, LoadBuffers(n - 1)), LOAD_BLOCK_DATA).0);
    }
  }

  /** Once an empty block comes, more blocks add nothing. */
  lemma {:induction false} EndedPass(locs: Locs, outs: seq<bytes>, chunks: seq<bytes>, n: nat)
    requires |locs| == |outs| && |chunks| <= n
    requires chunks == DealAll(locs, outs, START, LoadBuffers(|chunks|))
    requires DealAll(locs, outs, START, LoadBuffers(|chunks| + 1)) == chunks + [[]]
    ensures Flatten(DealAll(locs, outs, START, LoadBuffers(n))) == Flatten(chunks)
    decreases n
  {
    hide DealAll, Deal, After;
    if |chunks| < n {
      EndedPass(locs, outs, chunks, n - 1);
      PassSnoc(locs, outs, START, n - 1);
      var blocks := DealAll(locs, outs, START, LoadBuffers(n - 1));
      var block := Deal(locs, outs, After(locs, outs, START, LoadBuffers(n - 1)), LOAD_BLOCK_DATA).0;
      LongerPass(locs, outs, |chunks| + 1, n);
      var all := DealAll(locs, outs, START, LoadBuffers(n));
      assert all[|chunks|] == [];
      if n > |chunks| + 1 {
        BlocksFull(locs, outs, START, LoadBuffers(n), |chunks|, n - 1);
      }
      assert block == all[n - 1] == [];
      FlattenSnoc(blocks, block);
    }
  }

  /** A finished load reaches the announced length exactly when any longer pass in LOAD blocks does. */
  lemma ReachedInPass(locs: Locs, outs: seq<bytes>, chunks: seq<Chunk>, n: nat)
    requires |locs| == |outs| && Finished(locs, outs, chunks) && |chunks| <= n
    ensures |Flatten(chunks)| >= FramedLen(locs) <==> |Stream(locs, outs, LoadBuffers(n))| >= FramedLen(locs)
  {
    hide DealAll, Deal, After, Flatten, HeaderBytes, ContentLen;
    LongerPass(locs, outs, |chunks|, n);
    if |Flatten(chunks)| < FramedLen(locs) {
      EndedPass(locs, outs, chunks, n);
    }
  }

  lemma {:induction false} LoadBuffersSum(n: nat)
    ensures Positive(LoadBuffers(n)) && Sum(LoadBuffers(n)) == LOAD_BLOCK_DATA * n
  {
    if n > 0 {
      assert LoadBuffers(n)[1..] == LoadBuffers(n - 1);
      LoadBuffersSum(n - 1);
    }
  }

  // ---- How far LOAD blocks reach, in sizes alone ----

  /** The end of the LOAD block that the `n`th byte of the stream falls in. */
  function BlockEnd(n: nat): nat {
    (n + LOAD_BLOCK_DATA - 1) / LOAD_BLOCK_DATA * LOAD_BLOCK_DATA
  }

  /**
   Where a component of `size` bytes that begins at byte `p` of the stream ends: past all of it if it is no
   longer than declared, and otherwise no later than the block in which the declared bytes are out.
   */
  function StretchEnd(p: nat, size: nat, declared: nat): (q: nat)
    ensures p <= q
  {
    var due := Max(declared, 1);
    BlockEndIsPast(p + due);
    if size <= due then p + size else Min(p + size, BlockEnd(p + due))
  }

  lemma BlockEndIsPast(n: nat)
    ensures n <= BlockEnd(n)
  {
  }

  /** Where the stream ends when components of these sizes go out from byte `p` on. */
  function StreamEnd(locs: Locs, sizes: seq<nat>, comp: nat, p: nat): (q: nat)
    requires |locs| == |sizes|
    ensures p <= q
    decreases |locs| - comp
  {
    if comp >= |locs| then p
    else if locs[comp].None? then StreamEnd(locs, sizes, comp + 1, p)
    else
      var q := StretchEnd(p, sizes[comp], Declared(locs[comp]));
      if q - p >= Declared(locs[comp]) then StreamEnd(locs, sizes, comp + 1, q) else q
  }

  /** The sizes of what is reached. */
  function SizesOf(outs: seq<bytes>): (sizes: seq<nat>)
    ensures |sizes| == |outs|
  {
    seq(|outs|, i requires 0 <= i < |outs| => |outs[i]|)
  }

  /** The buffer boundaries of a load are the block ends. */
  lemma {:induction false} BoundaryIsBlockEnd(n: nat, p: nat, d: nat)
    requires d > 0 && p + d <= LOAD_BLOCK_DATA * n
    ensures p + Boundary(Spend(LoadBuffers(n), p), d) == BlockEnd(p + d)
    decreases n
  {
    hide BlockEnd, Sum, Positive;
    var rest := LoadBuffers(n - 1);
    assert LoadBuffers(n)[0] == LOAD_BLOCK_DATA && LoadBuffers(n)[1..] == rest;
    if p >= LOAD_BLOCK_DATA {
      BoundaryIsBlockEnd(n - 1, p - LOAD_BLOCK_DATA, d);
      NextBlockEnd(p + d);
    } else {
      var room := LOAD_BLOCK_DATA - p;
      assert Spend(LoadBuffers(n), p) == [room] + rest;
      if d <= room {
        FirstBlockEnd(p + d);
      } else {
        assert ([room] + rest)[1..] == rest;
        LoadBuffersSum(n - 1);
        SpendNothing(rest);
        BoundaryIsBlockEnd(n - 1, 0, d - room);
        NextBlockEnd(p + d);
      }
    }
  }

  lemma FirstBlockEnd(n: nat)
    requires 0 < n <= LOAD_BLOCK_DATA
    ensures BlockEnd(n) == LOAD_BLOCK_DATA
  {
  }

  lemma NextBlockEnd(n: nat)
    requires n >= LOAD_BLOCK_DATA
    ensures BlockEnd(n) == LOAD_BLOCK_DATA + BlockEnd(n - LOAD_BLOCK_DATA)
  {
    assert (n - 223 + 222) / 223 == (n + 222) / 223 - 1;
  }

  lemma StretchLenIs(n: nat, p: nat, size: nat, declared: nat)
    requires StretchEnd(p, size, declared) <= LOAD_BLOCK_DATA * n
    ensures p + StretchLen(size, declared, Spend(LoadBuffers(n), p)) == StretchEnd(p, size, declared)
  {
    hide Spend, Boundary, Sum, BlockEnd;
    var due := Max(declared, 1);
    LoadBuffersSum(n);
    SpendSum(LoadBuffers(n), p);
    if size > due {
      BlockEndIsPast(p + due);
      BoundaryIsBlockEnd(n, p, due);
    }
  }

  /** What a pass in LOAD blocks hands out from byte `p` on ends where the sizes say. */
  lemma {:induction false} PassEnds(locs: Locs, outs: seq<bytes>, comp: nat, p: nat, n: nat)
    requires |locs| == |outs| && StreamEnd(locs, SizesOf(outs), comp, p) <= LOAD_BLOCK_DATA * n
    ensures p + |Flatten(Stretches(locs, outs, comp, 0, Spend(LoadBuffers(n), p)))|
         == StreamEnd(locs, SizesOf(outs), comp, p)
    decreases |locs| - comp
  {
    hide Spend, StretchLen, StretchEnd, Stretches, LoadBuffers, Sum;
    var room := Spend(LoadBuffers(n), p);
    if comp >= |locs| {
      RestPastEnd(locs, outs, comp, 0, room);
    } else if locs[comp].None? {
      PassEnds(locs, outs, comp + 1, p, n);
      StretchesAbsent(locs, outs, comp, room);
    } else {
      var declared := Declared(locs[comp]);
      var q := StretchEnd(p, |outs[comp]|, declared);
      StretchLenIs(n, p, |outs[comp]|, declared);
      StretchesUnfold(locs, outs, comp, 0, room);
      LoadBuffersSum(n);
      SpendTwice(LoadBuffers(n), p, q - p);
      if q - p >= declared {
        PassEnds(locs, outs, comp + 1, q, n);
      }
    }
  }

  /** How far a load of components of these sizes gets. */
  function LoadReach(locs: Locs, sizes: seq<nat>): nat
    requires |locs| == |sizes|
  {
    StreamEnd(locs, sizes, 0, |HeaderBytes(ContentLen(locs))|)
  }

  /**
   A finished load has its last block marked if and only if, by the sizes declared and inflated to or
   available, its blocks reach the announced length.
   */
  lemma MarkedExactly(locs: Locs, outs: seq<bytes>, chunks: seq<Chunk>)
    requires |locs| == |outs| && Finished(locs, outs, chunks)
    ensures |Flatten(chunks)| >= FramedLen(locs) <==> LoadReach(locs, SizesOf(outs)) >= FramedLen(locs)
  {
    hide DealAll, Flatten, HeaderBytes, ContentLen, Finished, StreamEnd, Stretches, Spend, Sum;
    var h, reach := |HeaderBytes(ContentLen(locs))|, LoadReach(locs, SizesOf(outs));
    var n := Max(|chunks|, reach);
    LoadBuffersSum(n);
    ReachedInPass(locs, outs, chunks, n);
    PassEnds(locs, outs, 0, h, n);
    StreamIsStretches(locs, outs, LoadBuffers(n));
  }

  /** When nothing is too long, the last block is marked exactly when nothing is too short either. */
  lemma MarkedWhenNothingTooLong(locs: Locs, outs: seq<bytes>, chunks: seq<Chunk>)
    requires |locs| == |outs| && Finished(locs, outs, chunks) && |chunks| <= 256 && FramedLen(locs) <= MAX_LOAD_BYTES
    requires forall i :: 0 <= i < |locs| ==> |outs[i]| <= Declared(locs[i]) && (locs[i].None? ==> outs[i] == [])
    ensures |Flatten(chunks)| >= FramedLen(locs) <==> forall i :: 0 <= i < |locs| ==> |outs[i]| == Declared(locs[i])
  {
    hide DealAll, Deal, After, Flatten, HeaderBytes, ContentLen, Finished, Whole, Steady, Sum;
    ReachedInPass(locs, outs, chunks, 256);
    LoadBuffersSum(256);
    ShortSteady(locs, outs, 0);
    assert locs[0..] == locs;
    SteadyStream(locs, outs, LoadBuffers(256));
    assert FramedLen(locs) == |HeaderBytes(ContentLen(locs))| + ContentLen(locs);
  }

  lemma {:induction false} ShortSteady(locs: Locs, outs: seq<bytes>, comp: nat)
    requires |locs| == |outs| && comp <= |locs|
    requires forall i :: comp <= i < |locs| ==> |outs[i]| <= Declared(locs[i]) && (locs[i].None? ==> outs[i] == [])
    ensures Steady(locs, outs, comp) && |Whole(locs, outs, comp)| <= ContentLen(locs[comp..])
    ensures |Whole(locs, outs, comp)| == ContentLen(locs[comp..]) <==>
            forall i :: comp <= i < |locs| ==> |outs[i]| == Declared(locs[i])
    decreases |locs| - comp
  {
    if comp < |locs| {
      ShortSteady(locs, outs, comp + 1);
      assert locs[comp..][0] == locs[comp] && locs[comp..][1..] == locs[comp + 1..];
    }
  }

  // ---- What the card received ----

  /** Where component `i` is announced to be in what the card receives. */
  function AnnouncedAt(locs: Locs, i: nat): nat
    requires i <= |locs|
  {
    |HeaderBytes(ContentLen(locs))| + ContentLen(locs[..i])
  }

  /** Component `i` of what was received, cut out by the declared sizes. */
  function ReceivedPart(locs: Locs, received: bytes, i: nat): bytes
    requires i < |locs| && FramedLen(locs) <= |received|
  {
    AnnouncedWithin(locs, i);
    received[AnnouncedAt(locs, i)..AnnouncedAt(locs, i) + Declared(locs[i])]
  }

  lemma {:induction false} ContentLenSplits(locs: Locs, i: nat)
    requires i <= |locs|
    ensures ContentLen(locs) == ContentLen(locs[..i]) + ContentLen(locs[i..])
  {
    if i > 0 {
      ContentLenSplits(locs[1..], i - 1);
      assert locs[1..][..i - 1] == locs[..i][1..] && locs[1..][i - 1..] == locs[i..];
    } else {
      assert locs[..0] == [] && locs[0..] == locs;
    }
  }

  lemma AnnouncedWithin(locs: Locs, i: nat)
    requires i < |locs|
    ensures AnnouncedAt(locs, i) + Declared(locs[i]) <= FramedLen(locs)
  {
    ContentLenSplits(locs, i);
    assert locs[i..][0] == locs[i];
  }

  /** The last block is marked, and every component received is its entry's own data. */
  predicate LoadedAsDeclared(zip: bytes, locs: Locs, outs: seq<bytes>, received: bytes) {
    && |locs| == |outs| && |received| >= FramedLen(locs)
    && forall i :: 0 <= i < |locs| && locs[i].Some? ==>
         HasData(zip, locs[i].value) && ReceivedPart(locs, received, i) == OwnData(zip, locs[i].value, outs[i])
  }

  /** A finished load of a complete archive sends exactly the header and the components. */
  lemma CompleteSent(zip: bytes, locs: Locs, outs: seq<bytes>, chunks: seq<Chunk>)
    requires Reaches(zip, locs, outs) && Complete(zip, locs, outs) && FramedLen(locs) <= MAX_LOAD_BYTES
    requires Finished(locs, outs, chunks) && |chunks| <= 256
    ensures Flatten(chunks) == Framed(locs, outs) && |Flatten(chunks)| == FramedLen(locs)
  {
    hide DealAll, Deal, After, Flatten, HeaderBytes, ContentLen, Complete, Reaches, Sum;
    LoadBuffersSum(256);
    ReachesSizes(zip, locs, outs);
    CompleteStream(zip, locs, outs, LoadBuffers(256));
    ReachedInPass(locs, outs, chunks, 256);
    LongerPass(locs, outs, |chunks|, 256);
    PrefixJoins(chunks, DealAll(locs, outs, START, LoadBuffers(256)));
  }

  lemma PrefixJoins(xs: seq<bytes>, ys: seq<bytes>)
    requires xs <= ys
    ensures Flatten(xs) <= Flatten(ys)
  {
    FlattenAppend(xs, ys[|xs|..]);
    assert xs + ys[|xs|..] == ys;
  }

  lemma {:induction false} PartOfFramed(locs: Locs, outs: seq<bytes>, i: nat)
    requires |locs| == |outs| && i < |locs| && forall j :: 0 <= j < |locs| ==> |outs[j]| == Declared(locs[j])
    ensures |Framed(locs, outs)| == FramedLen(locs)
    ensures ReceivedPart(locs, Framed(locs, outs), i) == outs[i]
  {
    DeclaredLength(locs, outs);
    DeclaredLength(locs[..i], outs[..i]);
    AnnouncedWithin(locs, i);
    FlattenAppend(outs[..i], outs[i..]);
    assert outs[..i] + outs[i..] == outs;
    var header, front, rest := HeaderBytes(ContentLen(locs)), Flatten(outs[..i]), Flatten(outs[i + 1..]);
    assert Flatten(outs[i..]) == outs[i] + rest;
    assert Framed(locs, outs) == (header + front) + (outs[i] + rest);
    assert ReceivedPart(locs, Framed(locs, outs), i)
      == ((header + front) + (outs[i] + rest))[|header + front|..|header + front| + |outs[i]|];
  }

  /**
   A finished load delivers the CAP if and only if every component is entire: the last block is marked and
   each component the card cuts out by the announced sizes is the entry's own data.
   */
  lemma LoadedExactly(zip: bytes, locs: Locs, outs: seq<bytes>, chunks: seq<Chunk>)
    requires Reaches(zip, locs, outs) && FramedLen(locs) <= MAX_LOAD_BYTES
    requires Finished(locs, outs, chunks) && |chunks| <= 256
    ensures LoadedAsDeclared(zip, locs, outs, Flatten(chunks)) <==> Complete(zip, locs, outs)
  {
    hide Finished, Flatten, HeaderBytes, ContentLen, Reaches;
    ReachesSizes(zip, locs, outs);
    if Complete(zip, locs, outs) {
      CompleteSent(zip, locs, outs, chunks);
      forall i | 0 <= i < |locs|
        ensures |outs[i]| == Declared(locs[i])
        ensures locs[i].Some? ==> HasData(zip, locs[i].value) && outs[i] == OwnData(zip, locs[i].value, outs[i])
      {
        CompleteReached(zip, locs, outs, i);
      }
      forall i | 0 <= i < |locs|
        ensures ReceivedPart(locs, Flatten(chunks), i) == outs[i]
      {
        PartOfFramed(locs, outs, i);
      }
    }
    if LoadedAsDeclared(zip, locs, outs, Flatten(chunks)) {
      forall i | 0 <= i < |locs| && locs[i].Some?
        ensures Entire(zip, locs[i].value, outs[i])
      {
        AnnouncedWithin(locs, i);
        assert |ReceivedPart(locs, Flatten(chunks), i)| == Declared(locs[i]);
      }
    }
  }

  /** What the card received of a complete archive, put together, is one object: tag C4, and the components in order. */
  lemma ReceivedIsTheLoadFile(locs: Locs, outs: seq<bytes>, chunks: seq<Chunk>)
    requires |locs| == |outs| && forall i :: 0 <= i < |locs| ==> |outs[i]| == Declared(locs[i])
    requires ContentLen(locs) < 0x100_0000 && Flatten(chunks) == Framed(locs, outs)
    ensures TlvCodec.TlvsOf(Flatten(chunks)) == Ok([TlvCodec.Tlv(0xC4, Flatten(outs))])
  {
    var n, value := ContentLen(locs), Flatten(outs);
    DeclaredLength(locs, outs);
    SixteenMegabytes();
    HeaderIsBer(n);
    var t: TlvCodec.Tlv := TlvCodec.Tlv(0xC4, value);
    assert TlvCodec.MinimalOctets(0xC4) == [0xC4];
    assert TlvCodec.EncodingOf([t]) == TlvCodec.ObjectBytes(t) == Framed(locs, outs);
    TlvCodec.ParseEncode([t]);
  }

  lemma SixteenMegabytes()
    ensures 0x100_0000 <= Pow256(TlvCodec.USIZE_OCTETS)
    ensures 0xC4 < Pow256(TlvCodec.TAG_MAX_OCTETS)
  {
    assert Pow256(3) == 0x100_0000;
    TlvCodec.Pow256Monotone(3, TlvCodec.USIZE_OCTETS);
    TlvCodec.Pow256Monotone(3, TlvCodec.TAG_MAX_OCTETS);
  }

  // ---- End to end ----

  /** The number of LOAD blocks a stream takes. */
  function BlockCount(total: nat): nat {
    (total + LOAD_BLOCK_DATA - 1) / LOAD_BLOCK_DATA
  }

  lemma CountInOrder(chunks: seq<Chunk>, total: nat)
    requires FullButLast(chunks) && InOrder(chunks, total)
    ensures |chunks| <= BlockCount(total)
  {
    hide Flatten;
    if chunks != [] {
      FullLength(chunks[..|chunks| - 1]);
      var n := |chunks|;
      assert 223 * (n - 1) < total;
      assert n - 1 < (total + 222) / 223;
    }
  }

  lemma CountExactly(chunks: seq<Chunk>)
    requires FullButLast(chunks)
    ensures |chunks| == BlockCount(|Flatten(chunks)|)
  {
    hide Flatten;
    if chunks == [] {
      FlattenNil();
    } else {
      var n := |chunks|;
      FullLength(chunks[..n - 1]);
      FlattenSnoc(chunks[..n - 1], chunks[n - 1]);
      assert chunks[..n - 1] + [chunks[n - 1]] == chunks;
      assert 223 * (n - 1) < |Flatten(chunks)| <= 223 * n;
    }
  }

  /** A card that agrees often enough lets the loop finish. */
  lemma LoopFinishes(script: seq<Answer>, next: nat, chunks: seq<Chunk>, total: nat, loop: Result<nat, LoadError>)
    requires AllAgreed(script, next, BlockCount(total)) && FullButLast(chunks) && InOrder(chunks, total)
    requires loop.Err? ==> chunks != [] && !Agreed(script, next + |chunks| - 1)
    ensures loop.Ok?
  {
    hide Agreed, InOrder, FullButLast;
    CountInOrder(chunks, total);
    if chunks != [] {
      assert Agreed(script, next + |chunks| - 1);
    }
  }

  /**
   A whole load: success; ceil(size / 223) blocks, at most 256, full but for the last, numbered 0, 1, 2 and so
   on, the last-block mark on exactly the last; and what they carry is header and components, and parses to one
   object, tag C4, holding every component's own data in order.
   */
  predicate LoadedInFull(zip: bytes, ready: Ready, target: bytes, hash: bytes, outs: seq<bytes>,
                         sent0: seq<bytes>, sent: seq<bytes>, r: Result<LoadReport, LoadError>, chunks: seq<Chunk>) {
    var locs, total := ready.cap.locs, FramedLen(ready.cap.locs);
    && r == Ok(LoadReport(ready.cap.packageAid, total, hash, BlockCount(total), target))
    && |chunks| == BlockCount(total) <= 256
    && sent == sent0 + [ready.install] + Commands(chunks, total)
    && (forall k :: 0 <= k < |chunks| ==> IsBlock(Commands(chunks, total)[k], k, k == |chunks| - 1))
    && FullButLast(chunks)
    && TlvCodec.TlvsOf(Flatten(chunks)) == Ok([TlvCodec.Tlv(0xC4, Flatten(outs))])
    && |outs| == |locs| && Flatten(chunks) == Framed(locs, outs)
    && forall i :: 0 <= i < |outs| ==> OwnOne(zip, locs[i], outs[i], outs[i])
  }

  lemma CompleteLoadsInFull<S(!new)>(codec: Codec<S>, zip: bytes, ready: Ready, target: bytes, hash: bytes,
                                     plan: Plan<S>,
                                     script: seq<Answer>, sent0: seq<bytes>, next0: nat, sent: seq<bytes>, next: nat,
                                     chunks: seq<Chunk>, loop: Result<nat, LoadError>)
    requires FramedLen(ready.cap.locs) <= MAX_LOAD_BYTES && |hash| <= HASH_MAX && IsAid(target)
    requires Feeds(codec, zip, ready.cap.locs, plan) && Complete(zip, ready.cap.locs, plan.outs)
    requires AllAgreed(script, next0, BlockCount(FramedLen(ready.cap.locs)))
    requires Looped(codec, zip, ready.cap.locs, plan, script, sent0 + [ready.install], next0, sent, next, chunks, loop)
    ensures LoadedInFull(zip, ready, target, hash, plan.outs, sent0, sent, Report(ready.cap, target, hash, loop),
                         chunks)
  {
    hide Feeds, Complete, Finished, Flatten, FramedLen, AllAgreed, Agreed, FullButLast, InOrder, DealAll, Commands,
         IsBlock, TlvCodec.TlvsOf, BlockCount, OwnOne, IsAid;
    var locs, total := ready.cap.locs, FramedLen(ready.cap.locs);
    FeedsReaches(codec, zip, locs, plan);
    LoopFinishes(script, next0, chunks, total, loop);
    AtMost256(chunks, total);
    CompleteSent(zip, locs, plan.outs, chunks);
    CountExactly(chunks);
    forall k | 0 <= k < |chunks|
      ensures IsBlock(Commands(chunks, total)[k], k, k == |chunks| - 1)
    {
      BlocksNumberedAndMarked(chunks, total, k);
    }
    CompleteParses(zip, locs, plan.outs, chunks);
  }

  /** LOAD end to end: an accepted archive that is complete, and a card answering 9000, make a whole load. */
  method LoadComplete<S(!new)>(zip: bytes, target: bytes, hash: bytes, infl: InflateCtx<S>, session: Session,
                               ghost ready: Ready, ghost plan: Plan<S>)
    returns (r: Result<LoadReport, LoadError>, ghost chunks: seq<Chunk>)
    requires infl.Valid() && Prepared(infl.codec, zip, target, hash) == Ok(ready)
    requires Feeds(infl.codec, zip, ready.cap.locs, plan) && Complete(zip, ready.cap.locs, plan.outs)
    requires |hash| <= HASH_MAX && IsAid(target)
    requires AllAgreed(session.script, session.next, 1 + BlockCount(FramedLen(ready.cap.locs)))
    modifies infl`state, infl.window, session
    ensures LoadedInFull(zip, ready, target, hash, plan.outs, old(session.sent), session.sent, r, chunks)
  {
    hide Prepared, Feeds, Complete, FramedLen, AllAgreed, BlockCount, IsAid, LoadedInFull, Looped, Report;
    ghost var sent0, next0 := session.sent, session.next;
    AgreedFirst(session.script, next0, BlockCount(FramedLen(ready.cap.locs)));
    PreparedFits(infl.codec, zip, target, hash);
    ghost var loop: Result<nat, LoadError>;
    r, chunks, loop := Load(zip, target, hash, infl, session, plan);
    CompleteLoadsInFull(infl.codec, zip, ready, target, hash, plan, session.script, sent0, next0 + 1,
                        session.sent, session.next, chunks, loop);
  }

  lemma PreparedFits<S>(codec: Codec<S>, zip: bytes, target: bytes, hash: bytes)
    ensures var ready := Prepared(codec, zip, target, hash);
            ready.Ok? ==> FramedLen(ready.value.cap.locs) <= MAX_LOAD_BYTES
  {
  }

  lemma FeedsReaches<S(!new)>(codec: Codec<S>, zip: bytes, locs: Locs, plan: Plan<S>)
    requires Feeds(codec, zip, locs, plan)
    ensures Reaches(zip, locs, plan.outs) && |locs| == |plan.outs| == LFDB_COMPONENTS
  {
  }

  lemma AgreedFirst(script: seq<Answer>, next: nat, n: nat)
    requires AllAgreed(script, next, 1 + n)
    ensures InstallRefusal(script, next).None? && AllAgreed(script, next + 1, n)
  {
    assert Agreed(script, next);
  }

  lemma CompleteParses(zip: bytes, locs: Locs, outs: seq<bytes>, chunks: seq<Chunk>)
    requires Reaches(zip, locs, outs) && Complete(zip, locs, outs) && FramedLen(locs) <= MAX_LOAD_BYTES
    requires Finished(locs, outs, chunks) && |chunks| <= 256
    ensures |locs| == |outs|
    ensures TlvCodec.TlvsOf(Flatten(chunks)) == Ok([TlvCodec.Tlv(0xC4, Flatten(outs))])
    ensures forall i :: 0 <= i < |outs| ==> OwnOne(zip, locs[i], outs[i], outs[i])
  {
    hide Finished, Reaches, Complete, HeaderBytes, TlvCodec.TlvsOf, HasData, OwnData;
    CompleteSent(zip, locs, outs, chunks);
    ReachesSizes(zip, locs, outs);
    forall i | 0 <= i < |locs|
      ensures |outs[i]| == Declared(locs[i]) && OwnOne(zip, locs[i], outs[i], outs[i])
    {
      CompleteReached(zip, locs, outs, i);
      ReachesHere(zip, locs, outs, i);
    }
    ReceivedIsTheLoadFile(locs, outs, chunks);
  }
}
