/**
 The card at the opening of an SCP03 channel, written from sections 4.1.5, 6.2.1, 6.2.2 and 7.1.1 of GlobalPlatform
 Amendment D: what it answers to INITIALIZE UPDATE, what keys it holds then, and what it expects of
 EXTERNAL AUTHENTICATE. The host opens a channel to such a card, and to no other.
 */
module Card03 {
  import opened Bytes
  import opened Wrappers
  import opened Crypto
  import opened Scp
  import opened Keys
  import opened SessionTable
  import opened Backend
  import opened ScpOpen
  import Scp03
  import Scp03Channel

  /** What a card was made with, and the number it draws if its challenges are random. */
  datatype Peer = Peer(kdd: bytes, kvn: byte, i: byte, enc: bytes, mac: bytes, random: bytes, counter: bytes)

  // ---- Its parameter `i` ----

  predicate Long(i: byte) {
    And(i, 0x08) != 0
  }

  predicate PseudoRandom(i: byte) {
    And(i, 0x10) != 0
  }

  function FieldSize(i: byte): nat {
    if Long(i) then 16 else 8
  }

  /** The levels a card with `i` supports: 01 and 02 always, 10 with bit 20, 20 with bit 40. */
  function Supported(i: byte): byte {
    if And(i, 0x40) != 0 then (if And(i, 0x20) != 0 then 0x33 else 0x23)
    else if And(i, 0x20) != 0 then 0x13 else 0x03
  }

  predicate Conforms(p: Peer) {
    && |p.kdd| == 10 && |p.counter| == 3 && |p.random| == FieldSize(p.i)
    && (|p.enc| == 16 || |p.enc| == 24 || |p.enc| == 32) && |p.mac| == |p.enc|
    && And(p.i, 0x87) == 0 && (And(p.i, 0x40) != 0 ==> And(p.i, 0x20) != 0)
  }

  // ---- Its keys and cryptograms ----

  /** The PRF input: an eleven-byte zero label and the constant, a separator, L in bits, the counter and the context. */
  function Prf(constant: byte, l1: byte, l2: byte, n: byte, context: bytes): bytes {
    [0, 0, 0, 0, 0, 0, 0, 0, 0, 0, 0, constant, 0x00, l1, l2, n] + context
  }

  /** A session key as long as the static key: one PRF block, or two of which a 24-byte key takes one and a half. */
  function SessionKey(s: Suite, key: bytes, constant: byte, context: bytes): bytes {
    if |key| == 16 then s.cmac(key, Prf(constant, 0x00, 0x80, 0x01, context))
    else if |key| == 24 then
      s.cmac(key, Prf(constant, 0x00, 0xC0, 0x01, context)) + s.cmac(key, Prf(constant, 0x00, 0xC0, 0x02, context))[..8]
    else
      s.cmac(key, Prf(constant, 0x01, 0x00, 0x01, context)) + s.cmac(key, Prf(constant, 0x01, 0x00, 0x02, context))
  }

  /** A derived value of 16 or 8 bytes. */
  function Value(s: Suite, key: bytes, constant: byte, i: byte, context: bytes): bytes {
    if Long(i) then s.cmac(key, Prf(constant, 0x00, 0x80, 0x01, context))
    else s.cmac(key, Prf(constant, 0x00, 0x40, 0x01, context))[..8]
  }

  function Challenge(s: Suite, p: Peer, aid: bytes): bytes {
    if PseudoRandom(p.i) then Value(s, p.enc, 0x02, p.i, p.counter + aid) else p.random
  }

  function SEnc(s: Suite, p: Peer, host: bytes, aid: bytes): bytes {
    SessionKey(s, p.enc, 0x04, host + Challenge(s, p, aid))
  }

  function SMac(s: Suite, p: Peer, host: bytes, aid: bytes): bytes {
    SessionKey(s, p.mac, 0x06, host + Challenge(s, p, aid))
  }

  function SRmac(s: Suite, p: Peer, host: bytes, aid: bytes): bytes {
    SessionKey(s, p.mac, 0x07, host + Challenge(s, p, aid))
  }

  function CardCryptogram(s: Suite, p: Peer, host: bytes, aid: bytes): bytes {
    Value(s, SMac(s, p, host, aid), 0x00, p.i, host + Challenge(s, p, aid))
  }

  function HostCryptogram(s: Suite, p: Peer, host: bytes, aid: bytes): bytes {
    Value(s, SMac(s, p, host, aid), 0x01, p.i, host + Challenge(s, p, aid))
  }

  /** Its answer to INITIALIZE UPDATE with challenge `host`, selected as `aid`. */
  function Answer(s: Suite, p: Peer, host: bytes, aid: bytes): bytes {
    p.kdd + [p.kvn, 0x03, p.i] + Challenge(s, p, aid) + CardCryptogram(s, p, host, aid)
    + (if PseudoRandom(p.i) then p.counter else [])
  }

  /** The card after that answer, waiting for EXTERNAL AUTHENTICATE. */
  function Waiting(s: Suite, p: Peer, host: bytes, aid: bytes): Scp03Channel.Card {
    Scp03Channel.Card(SEnc(s, p, host, aid), SMac(s, p, host, aid), SRmac(s, p, host, aid),
                      if Long(p.i) then Scp03.S16 else Scp03.S8,
                      [0, 0, 0, 0, 0, 0, 0, 0, 0, 0, 0, 0, 0, 0, 0, 0], 0, 0, false)
  }

  // ---- The host's derivations are the card's ----

  lemma InputAgrees(constant: byte, lBits: nat, i: nat, context: bytes)
    requires lBits < 0x1_0000 && 0 < i < 256
    ensures KdfInput(constant, lBits, i, context) == Prf(constant, lBits / 256, lBits % 256, i, context)
  {
    assert ToBigEndian(lBits, 2) == ToBigEndian(lBits / 256, 1) + [lBits % 256];
    assert ToBigEndian(lBits / 256, 1) == ToBigEndian(lBits / 256 / 256, 0) + [lBits / 256 % 256];
    assert Zeros(11) == [0, 0, 0, 0, 0, 0, 0, 0, 0, 0, 0];
  }

  /** One or two PRF blocks. */
  lemma OutputUnfolds(s: Suite, key: bytes, constant: byte, lBits: nat, context: bytes, len: nat)
    requires 0 < len <= 32
    ensures var one := s.cmac(key, KdfInput(constant, lBits, 1, context));
            var two := s.cmac(key, KdfInput(constant, lBits, 2, context));
            KdfOutput(s, key, constant, lBits, context, len) == if len <= 16 then one[..len] else one + two[..len - 16]
  {
    hide KdfInput;
    var one := s.cmac(key, KdfInput(constant, lBits, 1, context));
    var two := s.cmac(key, KdfInput(constant, lBits, 2, context));
    var first := KdfStream(s, key, constant, lBits, context, 1);
    assert KdfStream(s, key, constant, lBits, context, 0) == [];
    assert first == [] + one;
    if len <= 16 {
      assert (len + 15) / 16 == 1;
    } else {
      assert (len + 15) / 16 == 2;
      assert KdfStream(s, key, constant, lBits, context, 2) == first + two;
    }
  }

  lemma KeysAgree(s: Suite, key: bytes, constant: byte, context: bytes)
    requires |key| == 16 || |key| == 24 || |key| == 32
    ensures Scp03Key(s, key, constant, context) == SessionKey(s, key, constant, context)
  {
    hide KdfInput, KdfOutput, Prf;
    InputAgrees(constant, 8 * |key|, 1, context);
    InputAgrees(constant, 8 * |key|, 2, context);
    OutputUnfolds(s, key, constant, 8 * |key|, context, |key|);
  }

  lemma ValuesAgree(s: Suite, key: bytes, constant: byte, i: byte, mode: Scp03.ScpMode, context: bytes)
    requires mode == if Long(i) then Scp03.S16 else Scp03.S8
    ensures KdfOutput(s, key, constant, mode.LBits(), context, mode.FieldLen()) == Value(s, key, constant, i, context)
    ensures |Value(s, key, constant, i, context)| == FieldSize(i) == mode.FieldLen()
  {
    hide KdfInput, KdfOutput, Prf;
    InputAgrees(constant, mode.LBits(), 1, context);
    OutputUnfolds(s, key, constant, mode.LBits(), context, mode.FieldLen());
  }

  /** The host reads `i` as the card means it. */
  lemma ParametersAgree(i: byte)
    ensures HasBit(i, I_S16) <==> Long(i)
    ensures HasBit(i, I_PSEUDO_RANDOM) <==> PseudoRandom(i)
    ensures ISupported(i) <==> And(i, 0x87) == 0 && (And(i, 0x40) != 0 ==> And(i, 0x20) != 0)
    ensures Allowed03(i) == Supported(i)
  {
    hide And;
    IBits(i);
    Reserved(i);
  }

  lemma IBits(i: byte)
    ensures i / 0x08 % 2 == 1 <==> And(i, 0x08) != 0
    ensures i / 0x10 % 2 == 1 <==> And(i, 0x10) != 0
    ensures i / 0x20 % 2 == 1 <==> And(i, 0x20) != 0
    ensures i / 0x40 % 2 == 1 <==> And(i, 0x40) != 0
  {
    BitIsMask(i, 3);
    BitIsMask(i, 4);
    BitIsMask(i, 5);
    BitIsMask(i, 6);
    assert Pow2(3) == 0x08 && Pow2(4) == 0x10 && Pow2(5) == 0x20 && Pow2(6) == 0x40;
    hide AndNat, Pow2;
  }

  lemma AndIsZero(a: nat, b: nat)
    ensures AndNat(a, b) == 0 <==> !(a % 2 == 1 && b % 2 == 1) && AndNat(a / 2, b / 2) == 0
  {
  }

  /** The reserved bits are 01, 02, 04 and 80. */
  lemma Reserved(i: byte)
    ensures And(i, 0x87) == 0 <==> i % 8 == 0 && i < 0x80
  {
    AndIsZero(i, 0x87);
    AndIsZero(i / 2, 0x43);
    AndIsZero(i / 2 / 2, 0x21);
    BitIsMask(i / 2 / 2 / 2, 4);
    assert Pow2(4) == 0x10;
    hide AndNat, Pow2;
    Eighths(i);
  }

  lemma Eighths(i: byte)
    ensures i / 2 / 2 / 2 / 16 % 2 == 0 <==> i < 0x80
    ensures i % 2 == 0 && i / 2 % 2 == 0 && i / 2 / 2 % 2 == 0 <==> i % 8 == 0
  {
  }

  // ---- The host opens to such a card, and to no other ----

  /** What the host knows of a card, and what it asks of it, fit the card. */
  predicate Suits(keys: KeyTable, encKey: nat, macKey: nat, kvnExpected: byte, requested: byte, host: bytes, aid: bytes,
                  p: Peer)
  {
    && Conforms(p) && AesKey(keys, encKey) == Ok(p.enc) && AesKey(keys, macKey) == Ok(p.mac)
    && (kvnExpected == 0x00 || kvnExpected == p.kvn)
    && And(requested, Supported(p.i)) != 0
    && |host| == FieldSize(p.i) && (PseudoRandom(p.i) ==> |aid| <= 16)
  }

  function ModeFor(p: Peer): Scp03.ScpMode {
    if Long(p.i) then Scp03.S16 else Scp03.S8
  }

  function IuOf(s: Suite, p: Peer, host: bytes, aid: bytes): IuResponse {
    IuResponse(p.kvn, p.i, ModeFor(p), Challenge(s, p, aid), CardCryptogram(s, p, host, aid),
               if PseudoRandom(p.i) then Some(p.counter) else None)
  }

  lemma Sizes(s: Suite, p: Peer, host: bytes, aid: bytes)
    requires Conforms(p)
    ensures |Challenge(s, p, aid)| == |CardCryptogram(s, p, host, aid)| == FieldSize(p.i) == ModeFor(p).FieldLen()
    ensures |HostCryptogram(s, p, host, aid)| == FieldSize(p.i)
  {
    hide Value;
    var context := host + Challenge(s, p, aid);
    ValuesAgree(s, p.enc, 0x02, p.i, ModeFor(p), p.counter + aid);
    ValuesAgree(s, SMac(s, p, host, aid), 0x00, p.i, ModeFor(p), context);
    ValuesAgree(s, SMac(s, p, host, aid), 0x01, p.i, ModeFor(p), context);
  }

  /** The host reads the card's answer field by field. */
  lemma AnswerReads(s: Suite, p: Peer, host: bytes, aid: bytes)
    requires Conforms(p)
    ensures ParseIuResponse(Answer(s, p, host, aid)) == Ok(IuOf(s, p, host, aid))
  {
    hide Challenge, CardCryptogram, ParseIuResponse, ISupported, And;
    Sizes(s, p, host, aid);
    ParametersAgree(p.i);
    IuReads(p.kdd, IuOf(s, p, host, aid));
  }

  /** Under the card's keys the host derives the card's session keys. */
  lemma DerivesTheCardsKeys(s: Suite, keys: KeyTable, encKey: nat, macKey: nat, kvnExpected: byte, requested: byte,
                            host: bytes, aid: bytes, p: Peer)
    requires Suits(keys, encKey, macKey, kvnExpected, requested, host, aid, p)
    ensures Scp03Derived(s, keys, encKey, macKey, ModeFor(p), host, Challenge(s, p, aid))
         == Ok(Scp03.FreshSlot(SEnc(s, p, host, aid), SMac(s, p, host, aid), SRmac(s, p, host, aid), ModeFor(p)))
  {
    hide Scp03Key, SessionKey, Challenge;
    Sizes(s, p, host, aid);
    var context := host + Challenge(s, p, aid);
    KeysAgree(s, p.enc, 0x04, context);
    KeysAgree(s, p.mac, 0x06, context);
    KeysAgree(s, p.mac, 0x07, context);
  }

  /** The card the host then waits for is the card that waits for the host. */
  lemma SlotsAgree(s: Suite, p: Peer, host: bytes, aid: bytes)
    ensures var slot :=
              Scp03.FreshSlot(SEnc(s, p, host, aid), SMac(s, p, host, aid), SRmac(s, p, host, aid), ModeFor(p));
            Scp03Channel.FreshCard(slot) == Waiting(s, p, host, aid)
              && Scp03Channel.InStep(slot, Waiting(s, p, host, aid))
  {
    hide SEnc, SMac, SRmac;
    assert Zeros(16) == [0, 0, 0, 0, 0, 0, 0, 0, 0, 0, 0, 0, 0, 0, 0, 0];
  }

  /** The host's checks of a derived slot are that the answer is this card's. */
  lemma ChecksAgree(s: Suite, keys: KeyTable, encKey: nat, slot: Scp03.Slot, host: bytes, aid: bytes, p: Peer)
    requires Conforms(p) && AesKey(keys, encKey) == Ok(p.enc)
    requires slot.mode == ModeFor(p) && slot.sMac == SMac(s, p, host, aid)
    requires PseudoRandom(p.i) ==> |aid| <= 16
    ensures Genuine03(s, keys, encKey, slot, host, aid, IuOf(s, p, host, aid))
    ensures Cryptogram03(s, slot, DC_HOST_CRYPTO, host, Challenge(s, p, aid)) == HostCryptogram(s, p, host, aid)
  {
    hide KdfOutput, Value, SMac;
    var context := host + Challenge(s, p, aid);
    ValuesAgree(s, slot.sMac, 0x00, p.i, ModeFor(p), context);
    ValuesAgree(s, slot.sMac, 0x01, p.i, ModeFor(p), context);
    ValuesAgree(s, p.enc, 0x02, p.i, ModeFor(p), p.counter + aid);
  }

  /** To a card that fits, the channel opens, in a slot that holds the card's session keys. */
  lemma GenuineOpens(s: Suite, keys: KeyTable, table: Table<Scp03.Slot>, encKey: nat, macKey: nat, kvnExpected: byte,
                     requested: byte, host: bytes, aid: bytes, p: Peer)
    requires Suits(keys, encKey, macKey, kvnExpected, requested, host, aid, p) && FirstFree(table, 0).Some?
    ensures Opens03(s, keys, table, encKey, macKey, kvnExpected, requested, host, aid, Answer(s, p, host, aid))
    ensures DerivedSlot03(s, keys, table, encKey, macKey, kvnExpected, host, Answer(s, p, host, aid))
         == Scp03.FreshSlot(SEnc(s, p, host, aid), SMac(s, p, host, aid), SRmac(s, p, host, aid), ModeFor(p))
  {
    hide Genuine03, Answer, SEnc, SMac, SRmac, Challenge, CardCryptogram, Scp03Derived, ParseIuResponse;
    AnswerReads(s, p, host, aid);
    DerivesTheCardsKeys(s, keys, encKey, macKey, kvnExpected, requested, host, aid, p);
    ParametersAgree(p.i);
    var slot := Scp03.FreshSlot(SEnc(s, p, host, aid), SMac(s, p, host, aid), SRmac(s, p, host, aid), ModeFor(p));
    ChecksAgree(s, keys, encKey, slot, host, aid, p);
  }

  /** And an answer to which it opens is that of such a card. */
  lemma OnlyGenuineOpens(s: Suite, keys: KeyTable, table: Table<Scp03.Slot>, encKey: nat, macKey: nat,
                         kvnExpected: byte, requested: byte, host: bytes, aid: bytes, answer: bytes) returns (p: Peer)
    requires Opens03(s, keys, table, encKey, macKey, kvnExpected, requested, host, aid, answer)
    ensures Suits(keys, encKey, macKey, kvnExpected, requested, host, aid, p) && answer == Answer(s, p, host, aid)
  {
    hide Value, SessionKey, Scp03Key, KdfOutput, And;
    var iu := ParseIuResponse(answer).value;
    ParametersAgree(iu.iParam);
    p := Peer(answer[..10], iu.kvn, iu.iParam, AesKey(keys, encKey).value, AesKey(keys, macKey).value,
              iu.cardChallenge, if iu.seqCounter.Some? then iu.seqCounter.value else [0, 0, 0]);
    var context := host + iu.cardChallenge;
    ValuesAgree(s, p.enc, 0x02, p.i, iu.mode, p.counter + aid);
    assert Challenge(s, p, aid) == iu.cardChallenge;
    KeysAgree(s, p.mac, 0x06, context);
    ValuesAgree(s, SMac(s, p, host, aid), 0x00, p.i, iu.mode, context);
    assert CardCryptogram(s, p, host, aid) == iu.cardCryptogram;
    AnswerJoins(answer, iu);
  }

  /** A parsed answer is its fields joined. */
  lemma AnswerJoins(answer: bytes, iu: IuResponse)
    requires ParseIuResponse(answer) == Ok(iu)
    ensures |answer| >= 13 && answer[10] == iu.kvn && answer[12] == iu.iParam
    ensures answer == answer[..10] + [iu.kvn, 0x03, iu.iParam] + iu.cardChallenge + iu.cardCryptogram
                      + (if HasBit(iu.iParam, I_PSEUDO_RANDOM) then iu.seqCounter.value else [])
  {
    var n := iu.mode.FieldLen();
    assert answer[..13] == answer[..10] + [iu.kvn, 0x03, iu.iParam];
    assert answer == answer[..13] + answer[13..13 + n] + answer[13 + n..13 + 2 * n] + answer[13 + 2 * n..];
  }

  /**
   A whole opening. It succeeds exactly when a slot is free and the answer is that of a card that fits. The level
   is then what was asked for and the card supports, and the card accepts the EXTERNAL AUTHENTICATE: it sees
   `84 82 level 00` with the cryptogram it expects, and is in step with the slot.
   */
  method Open(backend: RustCryptoBackend, encKey: nat, macKey: nat, kvnExpected: byte, requested: byte, host: bytes,
              aid: bytes, answer: bytes)
    returns (r: Result<(ScpState, bytes), OpenError>, ghost p: Peer)
    requires backend.Valid()
    modifies backend`sessions
    ensures backend.Valid()
    ensures (exists h :: 0 <= h < |old(backend.sessions)| && old(backend.sessions)[h].None?) ==>
              forall q ::
                (Suits(backend.keys, encKey, macKey, kvnExpected, requested, host, aid, q)
                 && answer == Answer(backend.suite, q, host, aid)) ==> r.Ok?
    ensures r.Ok? ==>
              && Suits(backend.keys, encKey, macKey, kvnExpected, requested, host, aid, p)
              && answer == Answer(backend.suite, p, host, aid)
              && var (state, ea) := r.value;
                 var level := And(requested, Supported(p.i));
                 && state == ScpState(state.session, p.i, level, p.kvn)
                 && state.session < |backend.sessions|
                 && old(backend.sessions)[state.session].None? && backend.sessions[state.session].Some?
                 && backend.sessions == old(backend.sessions)[state.session := backend.sessions[state.session]]
                 && var seen := Scp03Channel.Receive(backend.suite, Waiting(backend.suite, p, host, aid), ea);
                    && seen.Some?
                    && seen.value.0 == Command(0x84, 0x82, level, 0x00, HostCryptogram(backend.suite, p, host, aid), [])
                    && Scp03Channel.InStep(backend.sessions[state.session].value, seen.value.1)
                    && seen.value.1.authed && seen.value.1.level == level && seen.value.1.counter == 0
  {
    hide Opens03, Genuine03, Scp03.Wrap, Scp03Channel.Receive, Scp03Channel.FreshCard, Answer, Ea03, EaPlaintext,
         Waiting, Split, ParseIuResponse, Supported, Suits, Conforms, Allowed03, And;
    ghost var table, s, keys := backend.sessions, backend.suite, backend.keys;
    forall q | Suits(keys, encKey, macKey, kvnExpected, requested, host, aid, q) && answer == Answer(s, q, host, aid)
               && FirstFree(table, 0).Some?
      ensures Opens03(s, keys, table, encKey, macKey, kvnExpected, requested, host, aid, answer)
    {
      GenuineOpens(s, keys, table, encKey, macKey, kvnExpected, requested, host, aid, q);
    }
    r := Begin03(backend, encKey, macKey, kvnExpected, requested, host, aid, answer);
    if r.Ok? {
      p := OnlyGenuineOpens(s, keys, table, encKey, macKey, kvnExpected, requested, host, aid, answer);
      OpenedToCard(s, keys, table, encKey, macKey, kvnExpected, requested, host, aid, p);
    } else {
      p := Peer([], 0, 0, [], [], [], []);
    }
  }

  /** What `Begin03` wraps for such a card is what the card expects. */
  lemma OpenedToCard(s: Suite, keys: KeyTable, table: Table<Scp03.Slot>, encKey: nat, macKey: nat, kvnExpected: byte,
                     requested: byte, host: bytes, aid: bytes, p: Peer)
    requires Suits(keys, encKey, macKey, kvnExpected, requested, host, aid, p) && FirstFree(table, 0).Some?
    ensures ParseIuResponse(Answer(s, p, host, aid)) == Ok(IuOf(s, p, host, aid))
    ensures Derives03(s, keys, table, encKey, macKey, kvnExpected, host, Answer(s, p, host, aid))
    ensures Cap(Allowed03(p.i), requested) == Ok(And(requested, Supported(p.i)))
    ensures var slot := DerivedSlot03(s, keys, table, encKey, macKey, kvnExpected, host, Answer(s, p, host, aid));
            var level := And(requested, Supported(p.i));
            var w := Scp03.Wrap(s, slot, Ea03(s, slot, level, host, Challenge(s, p, aid)));
            && w.Ok?
            && var seen := Scp03Channel.Receive(s, Waiting(s, p, host, aid), w.value.0);
               && seen.Some?
               && seen.value.0 == Command(0x84, 0x82, level, 0x00, HostCryptogram(s, p, host, aid), [])
               && Scp03Channel.InStep(w.value.1, seen.value.1)
               && seen.value.1.authed && seen.value.1.level == level && seen.value.1.counter == 0
  {
    hide Scp03.Wrap, Scp03Channel.Receive, Scp03Channel.FreshCard, Answer, EaPlaintext, Split, SEnc, SMac, SRmac,
         Challenge, CardCryptogram, HostCryptogram, Waiting, Cryptogram03, ParseIuResponse, Genuine03;
    AnswerReads(s, p, host, aid);
    GenuineOpens(s, keys, table, encKey, macKey, kvnExpected, requested, host, aid, p);
    ParametersAgree(p.i);
    SlotsAgree(s, p, host, aid);
    var slot := DerivedSlot03(s, keys, table, encKey, macKey, kvnExpected, host, Answer(s, p, host, aid));
    var level := And(requested, Supported(p.i));
    ChecksAgree(s, keys, encKey, slot, host, aid, p);
    EaWraps03(s, slot, level, host, Challenge(s, p, aid));
    EaSplits(level, Cryptogram03(s, slot, DC_HOST_CRYPTO, host, Challenge(s, p, aid)));
    Scp03Channel.AuthenticationLatches(s, slot.sEnc, slot.sMac, slot.sRmac, slot.mode,
                                       Ea03(s, slot, level, host, Challenge(s, p, aid)));
    ExternalAuthenticateClass();
  }

  lemma ExternalAuthenticateClass()
    ensures Or(0x84, 0x04) == 0x84
  {
    SecureClaSets(0x84);
  }

  /** A level keeps the C-MAC bit exactly when it was asked for: levels without it are agreed too. */
  lemma CMacBitAsRequested(requested: byte, i: byte)
    ensures And(And(requested, Supported(i)), 0x01) != 0 <==> And(requested, 0x01) != 0
  {
    AndHalves(requested, Supported(i));
    BitIsMask(And(requested, Supported(i)), 0);
    BitIsMask(requested, 0);
    assert Pow2(0) == 0x01;
  }
}
