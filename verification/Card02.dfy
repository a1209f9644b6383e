/**
 The card at the opening of an SCP02 channel, written from sections E.4.1, E.4.2, E.4.4 and E.5.1 of the GlobalPlatform
 Card Specification v2.3.1. The host opens a channel to such a card, and to no other.
 */
module Card02 {
  import opened Bytes
  import opened Wrappers
  import opened Crypto
  import opened Scp
  import opened Keys
  import opened SessionTable
  import opened Backend
  import opened ScpOpen
  import Scp02
  import Scp02Channel

  datatype Peer = Peer(kdd: bytes, kvn: byte, enc: bytes, mac: bytes, dek: bytes, counter: bytes, random: bytes)

  predicate Conforms(p: Peer) {
    |p.kdd| == 10 && |p.enc| == |p.mac| == |p.dek| == 16 && |p.counter| == 2 && |p.random| == 6
  }

  /** Levels by `i`: R-MAC only where the implementation has it, 15 and 55. */
  function Supported(i: byte): byte {
    if i == 0x15 || i == 0x55 then 0x13 else 0x03
  }

  // ---- Its keys and cryptograms ----

  /** Triple DES with two keys on one block. */
  function Ede(s: Suite, key: bytes, block: bytes): (c: bytes)
    requires |key| == 16 && |block| == 8
    ensures |c| == 8
  {
    s.des.enc(key[..8], s.des.dec(key[8..], s.des.enc(key[..8], block)))
  }

  /** A session key: two blocks of CBC over the constant, the counter and twelve zeros. */
  function SessionKey(s: Suite, key: bytes, c1: byte, c2: byte, counter: bytes): (k: bytes)
    requires |key| == 16 && |counter| == 2
    ensures |k| == 16
  {
    var first := Ede(s, key, [c1, c2, counter[0], counter[1], 0, 0, 0, 0]);
    first + Ede(s, key, first)
  }

  function SEnc(s: Suite, p: Peer): (k: bytes)
    requires Conforms(p)
    ensures |k| == 16
  {
    SessionKey(s, p.enc, 0x01, 0x82, p.counter)
  }

  function SMac(s: Suite, p: Peer): (k: bytes)
    requires Conforms(p)
    ensures |k| == 16
  {
    SessionKey(s, p.mac, 0x01, 0x01, p.counter)
  }

  function SRmac(s: Suite, p: Peer): (k: bytes)
    requires Conforms(p)
    ensures |k| == 16
  {
    SessionKey(s, p.mac, 0x01, 0x02, p.counter)
  }

  function SDek(s: Suite, p: Peer): (k: bytes)
    requires Conforms(p)
    ensures |k| == 16
  {
    SessionKey(s, p.dek, 0x01, 0x81, p.counter)
  }

  /** A cryptogram: the last of three CBC blocks over two challenges and the padding. */
  function Cryptogram(s: Suite, key: bytes, first: bytes, second: bytes): (c: bytes)
    requires |key| == 16 && |first| == 8 && |second| == 8
    ensures |c| == 8
  {
    var one := Ede(s, key, first);
    var two := Ede(s, key, XorBlock(one, second));
    Ede(s, key, XorBlock(two, [0x80, 0, 0, 0, 0, 0, 0, 0]))
  }

  function CardCryptogram(s: Suite, p: Peer, host: bytes): (c: bytes)
    requires Conforms(p) && |host| == 8
    ensures |c| == 8
  {
    Cryptogram(s, SEnc(s, p), host, p.counter + p.random)
  }

  function HostCryptogram(s: Suite, p: Peer, host: bytes): (c: bytes)
    requires Conforms(p) && |host| == 8
    ensures |c| == 8
  {
    Cryptogram(s, SEnc(s, p), p.counter + p.random, host)
  }

  /** Its answer to INITIALIZE UPDATE with challenge `host`. */
  function Answer(s: Suite, p: Peer, host: bytes): bytes
    requires Conforms(p) && |host| == 8
  {
    p.kdd + [p.kvn, 0x02] + p.counter + p.random + CardCryptogram(s, p, host)
  }

  /** The card after that answer, waiting for EXTERNAL AUTHENTICATE. */
  function Waiting(s: Suite, p: Peer): Scp02Channel.Card
    requires Conforms(p)
  {
    Scp02Channel.Card(SEnc(s, p), SMac(s, p), SRmac(s, p), None, [0, 0, 0, 0, 0, 0, 0, 0], None, 0, false)
  }

  // ---- The host's derivations are the card's ----

  lemma TdesIsEde(s: Suite, key: bytes, block: bytes)
    requires |key| == 16 && |block| == 8
    ensures Tdes(s.des).enc(key, block) == Ede(s, key, block)
  {
  }

  /** Two blocks of CBC from a zero IV. */
  lemma TwoBlocks(c: Cipher, key: bytes, a: bytes, b: bytes)
    requires c.size == 8 && |a| == |b| == 8
    ensures var first := c.enc(key, a);
            |first| == 8 && CbcEncrypt(c, key, Zeros(8), a + b) == first + c.enc(key, XorBlock(first, b))
  {
    XorBlockZero(a);
    var msg := a + b;
    assert msg[..8] == a && msg[8..] == b && b[..8] == b && b[8..] == [];
    var first := c.enc(key, a);
    assert CbcEncrypt(c, key, c.enc(key, XorBlock(first, b)), []) == [];
    assert CbcEncrypt(c, key, first, b) == c.enc(key, XorBlock(first, b)) + [];
  }

  lemma XorWithZeros(b: bytes)
    ensures XorBlock(b, Zeros(|b|)) == b
  {
  }

  lemma KeysAgree(s: Suite, key: Scp02.Key16, c1: byte, c2: byte, counter: bytes)
    requires |counter| == 2
    ensures Scp02Key(s, key, [c1, c2], counter) == SessionKey(s, key, c1, c2, counter)
  {
    hide CbcEncrypt, Tdes;
    var a := [c1, c2, counter[0], counter[1], 0, 0, 0, 0];
    var input := [c1, c2] + counter + Zeros(12);
    assert input == a + Zeros(8);
    TwoBlocks(Tdes(s.des), key, a, Zeros(8));
    TdesIsEde(s, key, a);
    var first := Ede(s, key, a);
    XorWithZeros(first);
    TdesIsEde(s, key, first);
  }

  lemma CryptogramsAgree(s: Suite, key: bytes, first: bytes, second: bytes)
    requires |key| == 16 && |first| == |second| == 8
    ensures TdesCbcMac(s.des, key, Zeros(8), first + second) == Cryptogram(s, key, first, second)
  {
    hide Tdes;
    var c, mark := Tdes(s.des), [0x80, 0, 0, 0, 0, 0, 0, 0];
    assert Pad(DES_BLOCK, first + second) == first + second + mark;
    var msg := first + second + mark;
    assert msg[..8] == first && msg[8..] == second + mark;
    assert (second + mark)[..8] == second && (second + mark)[8..] == mark;
    assert mark[..8] == mark && mark[8..] == [];
    XorBlockZero(first);
    TdesIsEde(s, key, first);
    var one := Ede(s, key, first);
    TdesIsEde(s, key, XorBlock(one, second));
    var two := Ede(s, key, XorBlock(one, second));
    TdesIsEde(s, key, XorBlock(two, mark));
    assert CbcMac(c, key, Zeros(8), msg) == CbcMac(c, key, one, second + mark);
    assert CbcMac(c, key, one, second + mark) == CbcMac(c, key, two, mark);
    assert CbcMac(c, key, two, mark) == CbcMac(c, key, Ede(s, key, XorBlock(two, mark)), []);
  }

  // ---- The host opens to such a card, and to no other ----

  predicate Suits(keys: KeyTable, encKey: nat, macKey: nat, dekKey: nat, i: byte, kvnExpected: byte, requested: byte,
                  host: bytes, p: Peer)
  {
    && Conforms(p) && |host| == 8
    && TdesKey(keys, encKey) == Ok(p.enc) && TdesKey(keys, macKey) == Ok(p.mac) && TdesKey(keys, dekKey) == Ok(p.dek)
    && (kvnExpected == 0x00 || kvnExpected == p.kvn)
    && And(requested, Supported(i)) != 0
  }

  /** The slot such a card stands opposite to. */
  function SlotFor(s: Suite, p: Peer): Scp02.Slot
    requires Conforms(p)
  {
    Scp02.FreshSlot(SEnc(s, p), SMac(s, p), SRmac(s, p), SDek(s, p))
  }

  lemma AnswerReads(s: Suite, p: Peer, host: bytes)
    requires Conforms(p) && |host| == 8
    ensures ParseIu02(Answer(s, p, host)) == Ok(Iu02(p.kvn, p.counter, p.random, CardCryptogram(s, p, host)))
  {
    hide CardCryptogram;
    var a := Answer(s, p, host);
    assert |a| == 28 && a[10] == p.kvn && a[11] == 0x02;
    assert a[12..14] == p.counter && a[14..20] == p.random && a[20..28] == CardCryptogram(s, p, host);
  }

  lemma DerivesTheCardsKeys(s: Suite, keys: KeyTable, encKey: nat, macKey: nat, dekKey: nat, p: Peer)
    requires Conforms(p)
    requires TdesKey(keys, encKey) == Ok(p.enc) && TdesKey(keys, macKey) == Ok(p.mac)
    requires TdesKey(keys, dekKey) == Ok(p.dek)
    ensures Scp02Derived(s, keys, encKey, macKey, dekKey, p.counter) == Ok(SlotFor(s, p))
  {
    hide Scp02Key, SessionKey;
    KeysAgree(s, p.enc, 0x01, 0x82, p.counter);
    KeysAgree(s, p.mac, 0x01, 0x01, p.counter);
    KeysAgree(s, p.mac, 0x01, 0x02, p.counter);
    KeysAgree(s, p.dek, 0x01, 0x81, p.counter);
  }

  lemma GenuineOpens(s: Suite, keys: KeyTable, table: Table<Scp02.Slot>, encKey: nat, macKey: nat, dekKey: nat, i: byte,
                     kvnExpected: byte, requested: byte, host: bytes, p: Peer)
    requires Suits(keys, encKey, macKey, dekKey, i, kvnExpected, requested, host, p) && FirstFree(table, 0).Some?
    ensures Opens02(s, keys, table, encKey, macKey, dekKey, i, kvnExpected, requested, host, Answer(s, p, host))
    ensures DerivedSlot02(s, keys, table, encKey, macKey, dekKey, kvnExpected, Answer(s, p, host)) == SlotFor(s, p)
  {
    hide Answer, Cryptogram, TdesCbcMac, ParseIu02, Scp02Derived, SEnc, SMac, SRmac, SDek, TdesKey;
    AnswerReads(s, p, host);
    DerivesTheCardsKeys(s, keys, encKey, macKey, dekKey, p);
    CryptogramsAgree(s, SEnc(s, p), host, p.counter + p.random);
  }

  lemma OnlyGenuineOpens(s: Suite, keys: KeyTable, table: Table<Scp02.Slot>, encKey: nat, macKey: nat, dekKey: nat,
                         i: byte, kvnExpected: byte, requested: byte, host: bytes, answer: bytes) returns (p: Peer)
    requires |host| == 8
    requires Opens02(s, keys, table, encKey, macKey, dekKey, i, kvnExpected, requested, host, answer)
    ensures Suits(keys, encKey, macKey, dekKey, i, kvnExpected, requested, host, p) && answer == Answer(s, p, host)
  {
    hide Cryptogram, TdesCbcMac, SessionKey, Scp02Key, And;
    var iu := ParseIu02(answer).value;
    p := Peer(answer[..10], iu.kvn, TdesKey(keys, encKey).value, TdesKey(keys, macKey).value,
              TdesKey(keys, dekKey).value, iu.seqCounter, iu.cardChallenge);
    DerivesTheCardsKeys(s, keys, encKey, macKey, dekKey, p);
    CryptogramsAgree(s, SEnc(s, p), host, p.counter + p.random);
    assert answer == answer[..10] + [answer[10], answer[11]] + answer[12..14] + answer[14..20] + answer[20..28];
  }

  /** What `Begin02` wraps for such a card is what the card expects. */
  lemma OpenedToCard(s: Suite, i: byte, requested: byte, host: bytes, p: Peer)
    requires Conforms(p) && |host| == 8 && And(requested, Supported(i)) != 0
    ensures Cap(Allowed02(i), requested) == Ok(And(requested, Supported(i)))
    ensures var level := And(requested, Supported(i));
            var iu := Iu02(p.kvn, p.counter, p.random, CardCryptogram(s, p, host));
            var w := Scp02.Wrap(s, SlotFor(s, p), Ea02(s, SlotFor(s, p), level, host, iu));
            && w.Ok?
            && var seen := Scp02Channel.Receive(s, Waiting(s, p), w.value.0);
               && seen.Some?
               && seen.value.0 == Command(0x84, 0x82, level, 0x00, HostCryptogram(s, p, host), [])
               && Scp02Channel.InStep(w.value.1, seen.value.1)
               && seen.value.1.authed && seen.value.1.level == level
  {
    hide Scp02.Wrap, Scp02Channel.Receive, EaPlaintext, Split, SEnc, SMac, SRmac, SDek, Cryptogram, TdesCbcMac, And;
    var level, slot := And(requested, Supported(i)), SlotFor(s, p);
    var iu := Iu02(p.kvn, p.counter, p.random, CardCryptogram(s, p, host));
    CryptogramsAgree(s, slot.sEnc, p.counter + p.random, host);
    EaWraps02(s, slot, level, host, iu);
    EaSplits(level, Cryptogram02(s, slot, p.counter + p.random, host));
    assert Zeros(8) == [0, 0, 0, 0, 0, 0, 0, 0];
    Scp02Channel.CommandArrives(s, slot, Waiting(s, p), Ea02(s, slot, level, host, iu));
    SecureClaSets(0x84);
  }

  /**
   A whole opening, as for SCP03: it succeeds exactly when a slot is free and the answer is that of a card that
   fits, which then accepts the EXTERNAL AUTHENTICATE and is in step, at the level asked for and supported.
   */
  method Open(backend: RustCryptoBackend, encKey: nat, macKey: nat, dekKey: nat, i: byte, kvnExpected: byte,
              requested: byte, host: bytes, answer: bytes)
    returns (r: Result<(ScpState, bytes), OpenError>, ghost p: Peer)
    requires backend.Valid() && |host| == 8
    modifies backend`scp02Sessions
    ensures backend.Valid()
    ensures (exists h :: 0 <= h < |old(backend.scp02Sessions)| && old(backend.scp02Sessions)[h].None?) ==>
              forall q ::
                (Suits(backend.keys, encKey, macKey, dekKey, i, kvnExpected, requested, host, q)
                 && answer == Answer(backend.suite, q, host)) ==> r.Ok?
    ensures r.Ok? ==>
              && Suits(backend.keys, encKey, macKey, dekKey, i, kvnExpected, requested, host, p)
              && answer == Answer(backend.suite, p, host)
              && var (state, ea) := r.value;
                 var level := And(requested, Supported(i));
                 && state == ScpState(state.session, i, level, p.kvn)
                 && state.session < |backend.scp02Sessions|
                 && old(backend.scp02Sessions)[state.session].None? && backend.scp02Sessions[state.session].Some?
                 && backend.scp02Sessions
                    == old(backend.scp02Sessions)[state.session := backend.scp02Sessions[state.session]]
                 && backend.scp02Sessions[state.session].value.sDek == SDek(backend.suite, p)
                 && var seen := Scp02Channel.Receive(backend.suite, Waiting(backend.suite, p), ea);
                    && seen.Some?
                    && seen.value.0 == Command(0x84, 0x82, level, 0x00, HostCryptogram(backend.suite, p, host), [])
                    && Scp02Channel.InStep(backend.scp02Sessions[state.session].value, seen.value.1)
                    && seen.value.1.authed && seen.value.1.level == level
  {
    hide Opens02, Scp02.Wrap, Scp02Channel.Receive, Answer, Ea02, EaPlaintext, Waiting, Split, ParseIu02, Supported,
         Allowed02, And, SEnc, SMac, SRmac, SDek, Cryptogram;
    ghost var table, s, keys := backend.scp02Sessions, backend.suite, backend.keys;
    forall q | Suits(keys, encKey, macKey, dekKey, i, kvnExpected, requested, host, q) && answer == Answer(s, q, host)
               && FirstFree(table, 0).Some?
      ensures Opens02(s, keys, table, encKey, macKey, dekKey, i, kvnExpected, requested, host, answer)
    {
      GenuineOpens(s, keys, table, encKey, macKey, dekKey, i, kvnExpected, requested, host, q);
    }
    r := Begin02(backend, encKey, macKey, dekKey, i, kvnExpected, requested, host, answer);
    if r.Ok? {
      p := OnlyGenuineOpens(s, keys, table, encKey, macKey, dekKey, i, kvnExpected, requested, host, answer);
      GenuineOpens(s, keys, table, encKey, macKey, dekKey, i, kvnExpected, requested, host, p);
      AnswerReads(s, p, host);
      OpenedToCard(s, i, requested, host, p);
      WrapKeepsDek(s, SlotFor(s, p), Ea02(s, SlotFor(s, p), r.value.0.securityLevel, host, ParseIu02(answer).value));
    } else {
      p := Peer([], 0, [], [], [], [], []);
    }
  }

  lemma WrapKeepsDek(s: Suite, slot: Scp02.Slot, capdu: bytes)
    ensures var w := Scp02.Wrap(s, slot, capdu);
            w.Ok? ==> w.value.1.sDek == slot.sDek
  {
    hide MacAlgorithm3, Scp02.WireBody, Scp02.Stripped, Scp02.MacInput, Scp02.NextIcv, Split;
  }
}
