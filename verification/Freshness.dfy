/**
 Freshness of SCP03's command ICVs. What goes on the wire is encrypted under pairwise distinct ICVs. A wrap
 that is refused once its data is encrypted leaves the counter where it was, so its ICV can be used again;
 this says exactly when, and that nothing of it is ever sent.
 */
module Freshness {
  import opened Bytes
  import opened Wrappers
  import opened Crypto
  import opened Scp
  import opened Apdu
  import opened Scp03

  // ---- Commands put on the wire ----

  /** The counter blocks under the ICVs of the commands that wrapping `capdus` one after another puts on the wire. */
  function WireIcvBlocks(s: Suite, slot: Slot, capdus: seq<bytes>): seq<bytes>
    decreases |capdus|
  {
    if capdus == [] then []
    else
      match Wrap(s, slot, capdus[0])
      case Err(_) => WireIcvBlocks(s, slot, capdus[1..])
      case Ok((_, slot')) =>
        (if Encrypts(slot, Split(capdus[0]).value.data) then [CounterBlock(slot.counter + 1, false)] else [])
        + WireIcvBlocks(s, slot', capdus[1..])
  }

  lemma CounterBlocksDiffer(m: nat, n: nat, response: bool)
    requires m < COUNTER_LIMIT && n < COUNTER_LIMIT && m != n
    ensures CounterBlock(m, response) != CounterBlock(n, response)
  {
    if CounterBlock(m, response) == CounterBlock(n, response) {
      assert ToBigEndian(m, 4) == CounterBlock(m, response)[12..];
      assert ToBigEndian(n, 4) == CounterBlock(n, response)[12..];
      ToBigEndianInjective(m, n, 4);
    }
  }

  /** Every such block is the block of a counter above the starting one, in increasing order. */
  lemma {:induction false} WireIcvCounters(s: Suite, slot: Slot, capdus: seq<bytes>) returns (counters: seq<nat>)
    ensures var blocks := WireIcvBlocks(s, slot, capdus);
            && |counters| == |blocks|
            && (forall i :: 0 <= i < |blocks| ==> blocks[i] == CounterBlock(counters[i], false))
            && (forall i :: 0 <= i < |blocks| ==> slot.counter < counters[i] < COUNTER_LIMIT)
            && (forall i, j :: 0 <= i < j < |blocks| ==> counters[i] < counters[j])
    decreases |capdus|
  {
    hide WireBody, CommandMac, Header;
    if capdus == [] {
      counters := [];
    } else {
      match Wrap(s, slot, capdus[0])
      case Err(_) =>
        counters := WireIcvCounters(s, slot, capdus[1..]);
      case Ok((_, slot')) =>
        counters := WireIcvCounters(s, slot', capdus[1..]);
        if Encrypts(slot, Split(capdus[0]).value.data) {
          counters := [slot.counter + 1] + counters;
        }
    }
  }

  /**
   Freshness on the wire: in every run of wraps the blocks under the ICVs of the commands put on the wire
   are pairwise distinct, so are the ICVs themselves, and none is a response block.
   */
  lemma WireIcvFreshness(s: Suite, slot: Slot, capdus: seq<bytes>)
    ensures var blocks := WireIcvBlocks(s, slot, capdus);
            && (forall i, j :: 0 <= i < j < |blocks| ==>
                  blocks[i] != blocks[j] && s.aes.enc(slot.sEnc, blocks[i]) != s.aes.enc(slot.sEnc, blocks[j]))
            && (forall i, n: nat :: 0 <= i < |blocks| ==>
                  blocks[i] != CounterBlock(n, true) && blocks[i] != ToBigEndian(n, BLOCK)[0 := 0x80])
  {
    hide WireIcvBlocks, CounterBlock, Wrap;
    var blocks := WireIcvBlocks(s, slot, capdus);
    var counters := WireIcvCounters(s, slot, capdus);
    forall i, j | 0 <= i < j < |blocks|
      ensures blocks[i] != blocks[j] && s.aes.enc(slot.sEnc, blocks[i]) != s.aes.enc(slot.sEnc, blocks[j])
    {
      CounterBlocksDiffer(counters[i], counters[j], false);
      assert s.aes.dec(slot.sEnc, s.aes.enc(slot.sEnc, blocks[i])) == blocks[i];
      assert s.aes.dec(slot.sEnc, s.aes.enc(slot.sEnc, blocks[j])) == blocks[j];
    }
    forall i, n: nat | 0 <= i < |blocks|
      ensures blocks[i] != CounterBlock(n, true) && blocks[i] != ToBigEndian(n, BLOCK)[0 := 0x80]
    {
      FirstBytes(counters[i], n);
    }
  }

  /** A command block begins with 00 and a response block with 80, however the counter is written. */
  lemma FirstBytes(m: nat, n: nat)
    ensures CounterBlock(m, false) != CounterBlock(n, true)
    ensures CounterBlock(m, false) != ToBigEndian(n, BLOCK)[0 := 0x80]
  {
    assert CounterBlock(m, false)[0] == 0x00 && CounterBlock(n, true)[0] == 0x80;
    assert ToBigEndian(n, BLOCK)[0 := 0x80][0] == 0x80;
  }

  // ---- Every encryption, refused commands included ----

  /** One wrap: whether it encrypts data, the counter it does so under, and whether anything is sent. */
  datatype Attempt = Attempt(encrypts: bool, counter: nat, sent: bool)

  /** The wrap gets as far as encrypting; only the length of what results can still refuse it. */
  predicate Prepares(slot: Slot, capdu: bytes) {
    Split(capdu).Ok? && slot.counter + 1 < COUNTER_LIMIT && Encrypts(slot, Split(capdu).value.data)
  }

  function SlotAfter(s: Suite, slot: Slot, capdu: bytes): Slot {
    var r := Wrap(s, slot, capdu);
    if r.Ok? then r.value.1 else slot
  }

  function Attempts(s: Suite, slot: Slot, capdus: seq<bytes>): (at: seq<Attempt>)
    ensures |at| == |capdus|
    decreases |capdus|
  {
    if capdus == [] then []
    else
      [Attempt(Prepares(slot, capdus[0]), slot.counter + 1, Wrap(s, slot, capdus[0]).Ok?)]
      + Attempts(s, SlotAfter(s, slot, capdus[0]), capdus[1..])
  }

  function SentIn(at: seq<Attempt>): nat {
    if at == [] then 0 else (if at[0].sent then 1 else 0) + SentIn(at[1..])
  }

  /** An encrypting wrap is refused only for its length, its data being encrypted by then. */
  lemma RefusedForLength(s: Suite, slot: Slot, capdu: bytes)
    requires Prepares(slot, capdu)
    ensures WireBody(s, slot, Split(capdu).value.data)
         == CbcEncrypt(s.aes, slot.sEnc, s.aes.enc(slot.sEnc, CounterBlock(slot.counter + 1, false)),
                       Pad(BLOCK, Split(capdu).value.data))
    ensures Wrap(s, slot, capdu).Err? ==>
              Wrap(s, slot, capdu).error == WrappedLcTooLong || Wrap(s, slot, capdu).error == BufferOverflow
  {
  }

  /** Once authenticated, the counter of an attempt is the starting one, one more, and the commands sent before it. */
  lemma {:induction false} AuthedCounters(s: Suite, slot: Slot, capdus: seq<bytes>, j: nat)
    requires slot.authed && j < |capdus|
    ensures Attempts(s, slot, capdus)[j].counter == slot.counter + 1 + SentIn(Attempts(s, slot, capdus)[..j])
    decreases |capdus|
  {
    hide Wrap, Prepares;
    var at := Attempts(s, slot, capdus);
    if j == 0 {
      assert at[..0] == [];
    } else {
      if Wrap(s, slot, capdus[0]).Ok? {
        WrapKeepsLevel(s, slot, capdus[0]);
      }
      AuthedCounters(s, SlotAfter(s, slot, capdus[0]), capdus[1..], j - 1);
      assert at[..j][1..] == Attempts(s, SlotAfter(s, slot, capdus[0]), capdus[1..])[..j - 1];
    }
  }

  lemma EncryptsAuthed(slot: Slot, capdu: bytes)
    ensures Prepares(slot, capdu) ==> slot.authed && slot.counter + 1 < COUNTER_LIMIT
  {
    hide Split;
  }

  lemma {:induction false} CountersFrom(s: Suite, slot: Slot, capdus: seq<bytes>, i: nat, j: nat)
    requires i <= j < |capdus| && Attempts(s, slot, capdus)[i].encrypts
    ensures var at := Attempts(s, slot, capdus);
            at[i].counter < COUNTER_LIMIT && at[j].counter == at[i].counter + SentIn(at[i..j])
    decreases |capdus|
  {
    hide Wrap, Split, SentIn, Encrypts;
    var at := Attempts(s, slot, capdus);
    if i == 0 {
      EncryptsAuthed(slot, capdus[0]);
      AuthedCounters(s, slot, capdus, j);
      assert at[0..j] == at[..j];
    } else {
      var rest := Attempts(s, SlotAfter(s, slot, capdus[0]), capdus[1..]);
      CountersFrom(s, SlotAfter(s, slot, capdus[0]), capdus[1..], i - 1, j - 1);
      assert at[i..j] == rest[i - 1..j - 1];
    }
  }

  lemma {:induction false} NoneSent(at: seq<Attempt>)
    ensures SentIn(at) == 0 <==> forall k :: 0 <= k < |at| ==> !at[k].sent
  {
    if at != [] {
      NoneSent(at[1..]);
      assert forall k :: 0 < k < |at| ==> at[k] == at[1..][k - 1];
      assert forall k :: 0 <= k < |at| - 1 ==> at[1..][k] == at[k + 1];
    }
  }

  /**
   Two encrypting wraps use one counter block, and so one ICV, if and only if the first was refused after
   its data was encrypted and nothing was sent from there up to the second.
   */
  lemma BlockRepeatsExactly(s: Suite, slot: Slot, capdus: seq<bytes>, i: nat, j: nat)
    requires i < j < |capdus|
    requires Attempts(s, slot, capdus)[i].encrypts && Attempts(s, slot, capdus)[j].encrypts
    ensures var at := Attempts(s, slot, capdus);
            CounterBlock(at[i].counter, false) == CounterBlock(at[j].counter, false)
            <==> forall k :: i <= k < j ==> !at[k].sent
  {
    hide Attempts, CounterBlock;
    var at := Attempts(s, slot, capdus);
    CountersFrom(s, slot, capdus, i, j);
    CountersFrom(s, slot, capdus, j, j);
    NoneSent(at[i..j]);
    assert forall k :: i <= k < j ==> at[k] == at[i..j][k - i];
    assert forall k :: 0 <= k < j - i ==> at[i..j][k] == at[i + k];
    if at[i].counter != at[j].counter {
      CounterBlocksDiffer(at[i].counter, at[j].counter, false);
    }
  }

  /**
   Under C-DECRYPTION with 16-byte MACs, 224 bytes are encrypted and then refused; ten bytes wrapped next are
   encrypted under the same block.
   */
  lemma RefusedBlockComesBack(s: Suite, slot: Slot, long: bytes, short: bytes)
    requires slot.authed && slot.mode.S16? && And(slot.level, 0x02) != 0 && slot.counter < 0xFFFF_FFFE
    requires |long| == 224 && |short| == 10
    ensures var at := Attempts(s, slot,
                               [ShortApdu(0x84, 0xE2, 0, 0, long, false), ShortApdu(0x84, 0xE2, 0, 0, short, false)]);
            && at[0].encrypts && !at[0].sent && at[1].encrypts && at[1].sent
            && CounterBlock(at[0].counter, false) == CounterBlock(at[1].counter, false)
  {
    hide Wrap;
    var first, second := ShortApdu(0x84, 0xE2, 0, 0, long, false), ShortApdu(0x84, 0xE2, 0, 0, short, false);
    SplitReadsBuilt(0x84, 0xE2, 0, 0, long, false);
    SplitReadsBuilt(0x84, 0xE2, 0, 0, short, false);
    LevelBits(slot.level);
    AcceptedExactly(s, slot, first);
    AcceptedExactly(s, slot, second);
    assert [first, second][1..] == [second];
  }

  // ---- What is sent ----

  /** The wire commands of a run, and the slot it leaves. */
  function Wires(s: Suite, slot: Slot, capdus: seq<bytes>): (seq<bytes>, Slot)
    decreases |capdus|
  {
    if capdus == [] then ([], slot)
    else
      match Wrap(s, slot, capdus[0])
      case Err(_) => Wires(s, slot, capdus[1..])
      case Ok((wire, slot')) =>
        var (wires, end) := Wires(s, slot', capdus[1..]);
        ([wire] + wires, end)
  }

  /** The run without the commands it refuses. */
  function Unrefused(s: Suite, slot: Slot, capdus: seq<bytes>): seq<bytes>
    decreases |capdus|
  {
    if capdus == [] then []
    else
      (if Wrap(s, slot, capdus[0]).Ok? then [capdus[0]] else [])
        + Unrefused(s, SlotAfter(s, slot, capdus[0]), capdus[1..])
  }

  /** Nothing of a refused command is sent or kept: leaving it out changes no wire command and no later state. */
  lemma {:induction false} RefusedLeavesNoTrace(s: Suite, slot: Slot, capdus: seq<bytes>)
    ensures Wires(s, slot, capdus) == Wires(s, slot, Unrefused(s, slot, capdus))
    decreases |capdus|
  {
    hide Wrap;
    if capdus != [] {
      var rest := Unrefused(s, SlotAfter(s, slot, capdus[0]), capdus[1..]);
      RefusedLeavesNoTrace(s, SlotAfter(s, slot, capdus[0]), capdus[1..]);
      if Wrap(s, slot, capdus[0]).Ok? {
        assert Unrefused(s, slot, capdus)[0] == capdus[0] && Unrefused(s, slot, capdus)[1..] == rest;
      } else {
        assert Unrefused(s, slot, capdus) == rest;
      }
    }
  }
}
