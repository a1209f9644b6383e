/**
 LOAD over a secure channel: what a card in step with the host recovers from the blocks of a load is the
 load file, whatever the protocol, mode and level.
 */
module LoadChannel {
  import opened Bytes
  import opened Wrappers
  import opened Crypto
  import opened Scp
  import opened Apdu
  import opened LoadFile
  import opened CapStream
  import opened LoadPackage
  import Scp03
  import Scp03Channel
  import Scp02
  import Scp02Channel
  import TlvCodec

  const DONE: StatusWord := [0x90, 0x00]

  /** The exchanges of a load whose every block the card answers 9000, with any data. */
  function Exchanges(commands: seq<bytes>, replies: seq<bytes>): (xs: seq<Exchange>)
    requires |commands| == |replies|
    ensures |xs| == |commands|
  {
    seq(|commands|, k requires 0 <= k < |commands| => Exchange(commands[k], replies[k], DONE))
  }

  /** The data fields the card recovered, joined. */
  function DataSeen(outcomes: seq<Outcome>): bytes {
    if outcomes == [] then []
    else (if outcomes[0].Completed? then outcomes[0].seenByCard.data else []) + DataSeen(outcomes[1..])
  }

  predicate AllCompleted(outcomes: seq<Outcome>) {
    forall o :: o in outcomes ==> o.Completed?
  }

  predicate Carries(command: bytes, chunk: Chunk) {
    exists n: byte, last: bool :: command == LoadApdu(n, last, chunk)
  }

  /** A list of LOAD commands, and the chunks they carry. */
  predicate Carry(commands: seq<bytes>, chunks: seq<Chunk>) {
    |commands| == |chunks|
    && forall k :: 0 <= k < |commands| ==> Carries(commands[k], chunks[k])
  }

  lemma CommandsCarry(chunks: seq<Chunk>, total: nat)
    ensures Carry(Commands(chunks, total), chunks)
  {
    forall k | 0 <= k < |chunks|
      ensures Carries(Commands(chunks, total)[k], chunks[k])
    {
      CommandAt(chunks, total, k);
      var n: byte, last := k % 256, |Flatten(chunks[..k + 1])| >= total;
      assert Commands(chunks, total)[k] == LoadApdu(n, last, chunks[k]);
    }
  }

  lemma CarryHead(commands: seq<bytes>, chunks: seq<Chunk>, replies: seq<bytes>) returns (n: byte, last: bool)
    requires Carry(commands, chunks) && commands != [] && |commands| == |replies|
    ensures commands[0] == LoadApdu(n, last, chunks[0]) && Carry(commands[1..], chunks[1..])
    ensures Split(commands[0]) == Ok(Command(0x84, 0xE8, if last then 0x80 else 0x00, n, chunks[0], [0x00]))
    ensures Exchanges(commands, replies)[0] == Exchange(commands[0], replies[0], DONE)
    ensures Exchanges(commands, replies)[1..] == Exchanges(commands[1..], replies[1..])
  {
    assert Carries(commands[0], chunks[0]);
    n, last :| commands[0] == LoadApdu(n, last, chunks[0]);
    SplitReadsBuilt(0x84, 0xE8, if last then 0x80 else 0x00, n, chunks[0], true);
  }

  lemma {:induction false} IdealLoad03(level: byte, mode: Scp03.ScpMode, counter: nat, commands: seq<bytes>,
                                       chunks: seq<Chunk>, replies: seq<bytes>)
    requires |commands| == |chunks| == |replies| && Carry(commands, chunks)
    requires counter + |commands| < Scp03.COUNTER_LIMIT
    ensures var outcomes := Scp03Channel.Ideal(level, mode, counter, Exchanges(commands, replies));
            AllCompleted(outcomes) && |outcomes| == |commands| && DataSeen(outcomes) == Flatten(chunks)
    decreases |commands|
  {
    hide Split, LoadApdu, Scp03.Accepts, Carry, Exchanges, Scp03Channel.Refusal, DONE;
    if commands != [] {
      var n, last := CarryHead(commands, chunks, replies);
      LoadBlockAlwaysAccepted(level, mode, counter, n, last, chunks[0]);
      IdealLoad03(level, mode, counter + 1, commands[1..], chunks[1..], replies[1..]);
      var outcomes := Scp03Channel.Ideal(level, mode, counter, Exchanges(commands, replies));
      assert outcomes[1..] == Scp03Channel.Ideal(level, mode, counter + 1, Exchanges(commands[1..], replies[1..]));
    }
  }

  lemma {:induction false} IdealLoad02(level: byte, commands: seq<bytes>, chunks: seq<Chunk>, replies: seq<bytes>)
    requires |commands| == |chunks| == |replies| && Carry(commands, chunks)
    ensures var outcomes := Scp02Channel.Ideal(level, Exchanges(commands, replies));
            AllCompleted(outcomes) && |outcomes| == |commands| && DataSeen(outcomes) == Flatten(chunks)
    decreases |commands|
  {
    hide Split, LoadApdu, Scp02.Accepts, Carry, Exchanges, DONE;
    if commands != [] {
      var n, last := CarryHead(commands, chunks, replies);
      LoadBlockAlwaysAccepted(level, Scp03.S8, 0, n, last, chunks[0]);
      IdealLoad02(level, commands[1..], chunks[1..], replies[1..]);
      var outcomes := Scp02Channel.Ideal(level, Exchanges(commands, replies));
      assert outcomes[1..] == Scp02Channel.Ideal(level, Exchanges(commands[1..], replies[1..]));
    }
  }

  /**
   Over SCP03, in every mode and at every level, a card in step recovers the whole load file of a complete
   archive as one C4 object, whatever data it answers with.
   */
  lemma LoadFileArrives03(s: Suite, slot: Scp03.Slot, card: Scp03Channel.Card, zip: bytes, locs: Locs, outs: seq<bytes>,
                          chunks: seq<Chunk>, replies: seq<bytes>)
    requires Scp03Channel.InStep(slot, card) && slot.authed && slot.counter + |chunks| < Scp03.COUNTER_LIMIT
    requires Reaches(zip, locs, outs) && Complete(zip, locs, outs) && FramedLen(locs) <= MAX_LOAD_BYTES
    requires Finished(locs, outs, chunks) && |chunks| <= 256 && |replies| == |chunks|
    requires forall reply :: reply in replies ==>
              Scp03Channel.ReplyLen(slot.level, slot.mode, |reply|, DONE) + 2 <= RAPDU_MAX
    ensures var outcomes := Scp03Channel.Run(s, slot, card, Exchanges(Commands(chunks, FramedLen(locs)), replies)).2;
            && AllCompleted(outcomes) && |outcomes| == |chunks|
            && TlvCodec.TlvsOf(DataSeen(outcomes)) == Ok([TlvCodec.Tlv(0xC4, Flatten(outs))])
  {
    hide Commands, Scp03Channel.Run, Scp03Channel.Ideal, Carry, TlvCodec.TlvsOf, Finished, Complete, Reaches, FramedLen,
         Scp03Channel.ReplyLen, Flatten;
    CommandsCarry(chunks, FramedLen(locs));
    var commands := Commands(chunks, FramedLen(locs));
    Scp03Channel.Lockstep(s, slot, card, Exchanges(commands, replies));
    IdealLoad03(slot.level, slot.mode, slot.counter, commands, chunks, replies);
    CompleteParses(zip, locs, outs, chunks);
  }

  /** And over SCP02, at every level. */
  lemma LoadFileArrives02(s: Suite, slot: Scp02.Slot, card: Scp02Channel.Card, zip: bytes, locs: Locs, outs: seq<bytes>,
                          chunks: seq<Chunk>, replies: seq<bytes>)
    requires Scp02Channel.InStep(slot, card) && slot.authed
    requires Reaches(zip, locs, outs) && Complete(zip, locs, outs) && FramedLen(locs) <= MAX_LOAD_BYTES
    requires Finished(locs, outs, chunks) && |chunks| <= 256 && |replies| == |chunks|
    requires forall reply :: reply in replies ==> |reply| <= Scp02Channel.ReplyMax(slot.level)
    ensures var outcomes := Scp02Channel.Run(s, slot, card, Exchanges(Commands(chunks, FramedLen(locs)), replies)).2;
            && AllCompleted(outcomes) && |outcomes| == |chunks|
            && TlvCodec.TlvsOf(DataSeen(outcomes)) == Ok([TlvCodec.Tlv(0xC4, Flatten(outs))])
  {
    hide Commands, Scp02Channel.Run, Scp02Channel.Ideal, Carry, TlvCodec.TlvsOf, Finished, Complete, Reaches, FramedLen,
         Scp02Channel.ReplyMax, Flatten;
    CommandsCarry(chunks, FramedLen(locs));
    var commands := Commands(chunks, FramedLen(locs));
    Scp02Channel.Lockstep(s, slot, card, Exchanges(commands, replies));
    IdealLoad02(slot.level, commands, chunks, replies);
    CompleteParses(zip, locs, outs, chunks);
  }
}
