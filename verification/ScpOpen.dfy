/**
 Opening a channel: the INITIALIZE UPDATE response, the cap on the security level, and the host side
 of `begin` (`scp/scp03.rs`, `scp/scp02.rs`).
 */
module ScpOpen {
  import opened Bytes
  import opened Wrappers
  import opened Crypto
  import opened Scp
  import opened Keys
  import opened SessionTable
  import opened Backend
  import Scp03
  import Scp02
  import Scp03Channel
  import Scp02Channel

  const SCP_ID_SCP03: byte := 0x03
  const SCP_ID_SCP02: byte := 0x02
  const I_S16: byte := 0x08
  const I_PSEUDO_RANDOM: byte := 0x10
  const I_RMAC: byte := 0x20
  const I_RENC: byte := 0x40
  const IU_PREFIX_LEN: nat := 13

  datatype OpenError =
    | ScpProtocolUnsupported
    | NoCommonSecurityLevel
    | KvnMismatch
    | CardCryptogramFail
    | CardChallengeFail
    | BackendFailed(error: BackendError)

  // ---- Security levels as sets of bits ----

  /** Every bit of `a` is a bit of `b`. */
  ghost predicate SubsetOf(a: byte, b: byte) {
    forall k: nat :: BitAt(a, k) ==> BitAt(b, k)
  }

  lemma AndIsSubset(a: byte, b: byte)
    ensures SubsetOf(And(a, b), a) && SubsetOf(And(a, b), b)
  {
    forall k: nat
      ensures BitAt(And(a, b), k) ==> BitAt(a, k) && BitAt(b, k)
    {
      AndBits(a, b, k);
    }
  }

  // ---- SCP03 ----

  /** Only the size, pseudo-random, R-MAC and R-ENC bits, and R-ENC only with R-MAC. */
  predicate ISupported(i: byte) {
    && i % 8 == 0 && i < 0x80
    && (HasBit(i, I_RENC) ==> HasBit(i, I_RMAC))
  }

  function ModeOf(i: byte): Scp03.ScpMode {
    if HasBit(i, I_S16) then Scp03.S16 else Scp03.S8
  }

  datatype IuResponse = IuResponse(
    kvn: byte, iParam: byte, mode: Scp03.ScpMode, cardChallenge: bytes, cardCryptogram: bytes,
    seqCounter: Option<bytes>)

  function ParseIuResponse(s: bytes): (r: Result<IuResponse, OpenError>)
    ensures r.Ok? ==> |r.value.cardChallenge| == |r.value.cardCryptogram| == r.value.mode.FieldLen()
    ensures r.Ok? && r.value.seqCounter.Some? ==> |r.value.seqCounter.value| == 3
  {
    if |s| < IU_PREFIX_LEN || s[11] != SCP_ID_SCP03 then Err(ScpProtocolUnsupported)
    else if !ISupported(s[12]) then Err(NoCommonSecurityLevel)
    else
      var mode, pseudo := ModeOf(s[12]), HasBit(s[12], I_PSEUDO_RANDOM);
      var field := mode.FieldLen();
      if |s| != IU_PREFIX_LEN + 2 * field + (if pseudo then 3 else 0) then Err(ScpProtocolUnsupported)
      else
        Ok(IuResponse(s[10], s[12], mode, s[13..13 + field], s[13 + field..13 + 2 * field],
                      if pseudo then Some(s[13 + 2 * field..]) else None))
  }

  /** The response a card with these parameters sends. */
  function IuBytes(kdd: bytes, iu: IuResponse): bytes {
    kdd + [iu.kvn, SCP_ID_SCP03, iu.iParam] + iu.cardChallenge + iu.cardCryptogram
    + (if iu.seqCounter.Some? then iu.seqCounter.value else [])
  }

  /** Parsing reads back exactly what a conforming card sends. */
  lemma IuReads(kdd: bytes, iu: IuResponse)
    requires |kdd| == 10 && ISupported(iu.iParam) && iu.mode == ModeOf(iu.iParam)
    requires |iu.cardChallenge| == |iu.cardCryptogram| == iu.mode.FieldLen()
    requires iu.seqCounter.Some? <==> HasBit(iu.iParam, I_PSEUDO_RANDOM)
    requires iu.seqCounter.Some? ==> |iu.seqCounter.value| == 3
    ensures ParseIuResponse(IuBytes(kdd, iu)) == Ok(iu)
  {
    var s, field := IuBytes(kdd, iu), iu.mode.FieldLen();
    assert s[13..13 + field] == iu.cardChallenge;
    assert s[13 + field..13 + 2 * field] == iu.cardCryptogram;
    assert s[13 + 2 * field..] == if iu.seqCounter.Some? then iu.seqCounter.value else [];
  }

  /** Levels the card's `i` allows over SCP03. */
  function Allowed03(i: byte): byte {
    0x03 + (if HasBit(i, I_RMAC) then 0x10 else 0) + (if HasBit(i, I_RENC) then 0x20 else 0)
  }

  function Cap(allowed: byte, requested: byte): Result<byte, OpenError> {
    if And(requested, allowed) == 0 then Err(NoCommonSecurityLevel) else Ok(And(requested, allowed))
  }

  /** What a capped level is: not empty, asked for, and allowed; everything both agree on is kept. */
  lemma CapIsIntersection(allowed: byte, requested: byte)
    ensures Cap(allowed, requested).Ok? ==>
              var level := Cap(allowed, requested).value;
              level != 0 && SubsetOf(level, requested) && SubsetOf(level, allowed)
    ensures Cap(allowed, requested).Ok? ==>
              forall k: nat :: BitAt(requested, k) && BitAt(allowed, k) ==> BitAt(Cap(allowed, requested).value, k)
    ensures Cap(allowed, requested).Err? <==> And(requested, allowed) == 0
  {
    AndIsSubset(requested, allowed);
    forall k: nat
      ensures BitAt(requested, k) && BitAt(allowed, k) ==> BitAt(And(requested, allowed), k)
    {
      AndBits(requested, allowed, k);
    }
  }

  datatype ScpState = ScpState(session: nat, iParam: byte, securityLevel: byte, kvn: byte)

  /** EXTERNAL AUTHENTICATE before its MAC. */
  function EaPlaintext(level: byte, hostCryptogram: bytes): bytes
    requires |hostCryptogram| <= 255
  {
    [0x84, EXTERNAL_AUTHENTICATE, level, 0x00, |hostCryptogram|] + hostCryptogram
  }

  lemma EaSplits(level: byte, hostCryptogram: bytes)
    requires |hostCryptogram| <= 255
    ensures Split(EaPlaintext(level, hostCryptogram))
         == Ok(Command(0x84, EXTERNAL_AUTHENTICATE, level, 0x00, hostCryptogram, []))
  {
    var capdu := EaPlaintext(level, hostCryptogram);
    assert capdu[5..5 + |hostCryptogram|] == hostCryptogram;
    assert capdu[5 + |hostCryptogram|..] == [];
  }

  /** A card or host cryptogram: the KDF under S-MAC over both challenges. */
  function Cryptogram03(s: Suite, slot: Scp03.Slot, constant: byte, host: bytes, card: bytes): (c: bytes)
    ensures |c| == slot.mode.FieldLen()
  {
    KdfOutput(s, slot.sMac, constant, slot.mode.LBits(), host + card, slot.mode.FieldLen())
  }

  /** The card proved knowledge of the keys, and any pseudo-random challenge derives from its counter. */
  predicate Genuine03(s: Suite, keys: KeyTable, encKey: nat, slot: Scp03.Slot, host: bytes, aid: bytes,
                      iu: IuResponse) {
    && iu.cardCryptogram == Cryptogram03(s, slot, DC_CARD_CRYPTO, host, iu.cardChallenge)
    && (iu.seqCounter.Some? ==>
          && |iu.seqCounter.value| == 3 && |aid| <= 16 && AesKey(keys, encKey).Ok?
          && iu.cardChallenge == KdfOutput(s, AesKey(keys, encKey).value, DC_CARD_CHALLENGE, iu.mode.LBits(),
                                           iu.seqCounter.value + aid, iu.mode.FieldLen()))
  }

  /** What is wrong with an answer once keys are derived: the first check that fails. */
  function CheckFailure03(s: Suite, keys: KeyTable, encKey: nat, slot: Scp03.Slot, host: bytes, aid: bytes,
                          iu: IuResponse): OpenError
  {
    if iu.cardCryptogram != Cryptogram03(s, slot, 0x00, host, iu.cardChallenge) then CardCryptogramFail
    else if Genuine03(s, keys, encKey, slot, host, aid, iu) then NoCommonSecurityLevel
    else if |aid| > 16 then BackendFailed(ContextTooLong)
    else if AesKey(keys, encKey).Err? then BackendFailed(AesKey(keys, encKey).error)
    else CardChallengeFail
  }

  /** Why `begin` fails: the card's answer, its key version, the derivation, or a check of its proof and level. */
  function OpenFailure03(s: Suite, keys: KeyTable, table: Table<Scp03.Slot>, encKey: nat, macKey: nat,
                         kvnExpected: byte, host: bytes, aid: bytes, iuResponse: bytes): OpenError
  {
    var parsed := ParseIuResponse(iuResponse);
    if parsed.Err? then parsed.error
    else if kvnExpected != 0x00 && parsed.value.kvn != kvnExpected then KvnMismatch
    else
      var derived := Scp03Derived(s, keys, encKey, macKey, parsed.value.mode, host, parsed.value.cardChallenge);
      if derived.Err? then BackendFailed(derived.error)
      else if FirstFree(table, 0).None? then BackendFailed(TableFull)
      else CheckFailure03(s, keys, encKey, derived.value, host, aid, parsed.value)
  }

  /** EXTERNAL AUTHENTICATE for a fresh slot. */
  function Ea03(s: Suite, slot: Scp03.Slot, level: byte, host: bytes, card: bytes): bytes {
    EaPlaintext(level, Cryptogram03(s, slot, DC_HOST_CRYPTO, host, card))
  }

  /** The first wrap of a fresh slot never fails, and latches the level. */
  lemma EaWraps03(s: Suite, slot: Scp03.Slot, level: byte, host: bytes, card: bytes)
    requires slot == Scp03.FreshSlot(slot.sEnc, slot.sMac, slot.sRmac, slot.mode)
    ensures var r := Scp03.Wrap(s, slot, Ea03(s, slot, level, host, card));
            && r.Ok?
            && r.value.1 == slot.(chain := r.value.1.chain, level := level, authed := true)
  {
    EaSplits(level, Cryptogram03(s, slot, DC_HOST_CRYPTO, host, card));
  }

  /** `begin` gets as far as deriving session keys and taking a slot. */
  predicate Derives03(s: Suite, keys: KeyTable, table: Table<Scp03.Slot>, encKey: nat, macKey: nat,
                      kvnExpected: byte, host: bytes, iuResponse: bytes)
  {
    && ParseIuResponse(iuResponse).Ok?
    && var iu := ParseIuResponse(iuResponse).value;
    && (kvnExpected == 0x00 || iu.kvn == kvnExpected)
    && Scp03Derived(s, keys, encKey, macKey, iu.mode, host, iu.cardChallenge).Ok?
    && FirstFree(table, 0).Some?
  }

  /** The slot it then holds. */
  function DerivedSlot03(s: Suite, keys: KeyTable, table: Table<Scp03.Slot>, encKey: nat, macKey: nat,
                         kvnExpected: byte, host: bytes, iuResponse: bytes): (slot: Scp03.Slot)
    requires Derives03(s, keys, table, encKey, macKey, kvnExpected, host, iuResponse)
    ensures slot == Scp03.FreshSlot(slot.sEnc, slot.sMac, slot.sRmac, slot.mode)
    ensures slot.mode == ParseIuResponse(iuResponse).value.mode
  {
    var iu := ParseIuResponse(iuResponse).value;
    Scp03Derived(s, keys, encKey, macKey, iu.mode, host, iu.cardChallenge).value
  }

  /** `begin` succeeds under exactly these conditions on the card's answer. */
  predicate Opens03(s: Suite, keys: KeyTable, table: Table<Scp03.Slot>, encKey: nat, macKey: nat,
                    kvnExpected: byte, requested: byte, host: bytes, aid: bytes, iuResponse: bytes)
  {
    && Derives03(s, keys, table, encKey, macKey, kvnExpected, host, iuResponse)
    && var iu := ParseIuResponse(iuResponse).value;
    && Genuine03(s, keys, encKey, DerivedSlot03(s, keys, table, encKey, macKey, kvnExpected, host, iuResponse), host,
                 aid, iu)
    && Cap(Allowed03(iu.iParam), requested).Ok?
  }

  /**
   What follows the derivation: check the card's proof, cap the level, wrap EXTERNAL AUTHENTICATE in the
   slot just taken. A failed check leaves the slot as derived.
   */
  method Authenticate03(backend: RustCryptoBackend, session: nat, ghost slot: Scp03.Slot, encKey: nat, requested: byte,
                        host: bytes, invokerAid: bytes, iu: IuResponse)
    returns (r: Result<(ScpState, bytes), OpenError>)
    requires backend.Valid() && session < |backend.sessions| && backend.sessions[session] == Some(slot)
    requires slot == Scp03.FreshSlot(slot.sEnc, slot.sMac, slot.sRmac, slot.mode) && slot.mode == iu.mode
    requires |host| == |iu.cardChallenge| == iu.mode.FieldLen()
    requires iu.seqCounter.Some? ==> |iu.seqCounter.value| == 3
    modifies backend`sessions
    ensures backend.Valid()
    ensures r.Ok? <==> Genuine03(backend.suite, backend.keys, encKey, slot, host, invokerAid, iu)
                       && Cap(Allowed03(iu.iParam), requested).Ok?
    ensures r.Err? ==>
              && backend.sessions == old(backend.sessions)
              && r.error == CheckFailure03(backend.suite, backend.keys, encKey, slot, host, invokerAid, iu)
    ensures r.Ok? ==>
              var (state, ea) := r.value;
              var wrapped := Scp03.Wrap(backend.suite, slot,
                                        Ea03(backend.suite, slot, state.securityLevel, host, iu.cardChallenge));
              && state == ScpState(session, iu.iParam, state.securityLevel, iu.kvn)
              && Cap(Allowed03(iu.iParam), requested) == Ok(state.securityLevel)
              && wrapped.Ok? && ea == wrapped.value.0
              && backend.sessions == old(backend.sessions)[session := Some(wrapped.value.1)]
              && wrapped.value.1 == slot.(chain := wrapped.value.1.chain, level := state.securityLevel, authed := true)
  {
    hide KdfOutput, Scp03.Wrap, EaPlaintext, Scp03Key, AesKey, And, Allowed03;
    var expected := backend.Scp03Cryptogram(session, host, iu.cardChallenge, DC_CARD_CRYPTO);
    if expected.value != iu.cardCryptogram {
      return Err(CardCryptogramFail);
    }
    if iu.seqCounter.Some? {
      var challenge := backend.Scp03PseudoCardChallenge(encKey, iu.mode, iu.seqCounter.value, invokerAid);
      if challenge.Err? {
        return Err(BackendFailed(challenge.error));
      }
      if challenge.value != iu.cardChallenge {
        return Err(CardChallengeFail);
      }
    }
    var level := Cap(Allowed03(iu.iParam), requested);
    if level.Err? {
      return Err(level.error);
    }
    var hostCryptogram := backend.Scp03Cryptogram(session, host, iu.cardChallenge, DC_HOST_CRYPTO);
    var eaPlain := EaPlaintext(level.value, hostCryptogram.value);
    EaWraps03(backend.suite, slot, level.value, host, iu.cardChallenge);
    EaIsLong(level.value, hostCryptogram.value);
    var wrapped := backend.Scp03WrapCommand(session, eaPlain);
    return Ok((ScpState(session, iu.iParam, level.value, iu.kvn), wrapped.value));
  }

  /**
   `begin` over SCP03. It succeeds exactly when the card is genuine; then the core state and the
   backend slot hold one level and the wire command is the wrapped EXTERNAL AUTHENTICATE. A failed open
   changes nothing if it fails before keys are derived, and otherwise leaves the first free slot held by
   a session that was never authenticated.
   */
  method Begin03(backend: RustCryptoBackend, encKey: nat, macKey: nat, kvnExpected: byte, requested: byte,
                 host: bytes, invokerAid: bytes, iuResponse: bytes)
    returns (r: Result<(ScpState, bytes), OpenError>)
    requires backend.Valid()
    modifies backend`sessions
    ensures backend.Valid()
    ensures r.Ok? <==> Opens03(backend.suite, backend.keys, old(backend.sessions), encKey, macKey,
                               kvnExpected, requested, host, invokerAid, iuResponse)
    ensures r.Ok? ==>
              var (state, ea) := r.value;
              var iu := ParseIuResponse(iuResponse).value;
              var slot := DerivedSlot03(backend.suite, backend.keys, old(backend.sessions), encKey, macKey, kvnExpected,
                                        host, iuResponse);
              var wrapped := Scp03.Wrap(backend.suite, slot,
                                        Ea03(backend.suite, slot, state.securityLevel, host, iu.cardChallenge));
              && Some(state.session) == FirstFree(old(backend.sessions), 0)
              && state == ScpState(state.session, iu.iParam, state.securityLevel, iu.kvn)
              && Cap(Allowed03(iu.iParam), requested) == Ok(state.securityLevel)
              && wrapped.Ok? && ea == wrapped.value.0
              && backend.sessions == old(backend.sessions)[state.session := Some(wrapped.value.1)]
              && wrapped.value.1 == slot.(chain := wrapped.value.1.chain, level := state.securityLevel, authed := true)
    ensures r.Err? ==>
              r.error == OpenFailure03(backend.suite, backend.keys, old(backend.sessions), encKey, macKey, kvnExpected,
                                       host, invokerAid, iuResponse)
    ensures r.Err? ==>
              backend.sessions
              == if Derives03(backend.suite, backend.keys, old(backend.sessions), encKey, macKey, kvnExpected, host,
                              iuResponse) then
                   old(backend.sessions)[FirstFree(old(backend.sessions), 0).value :=
                     Some(DerivedSlot03(backend.suite, backend.keys, old(backend.sessions), encKey, macKey, kvnExpected,
                                        host, iuResponse))]
                 else old(backend.sessions)
  {
    hide KdfOutput, Scp03.Wrap, EaPlaintext, Scp03Key, AesKey, And, Ea03, Genuine03, Allowed03, Cap, CheckFailure03;
    var parsed := ParseIuResponse(iuResponse);
    if parsed.Err? {
      return Err(parsed.error);
    }
    var iu := parsed.value;
    if kvnExpected != 0x00 && iu.kvn != kvnExpected {
      return Err(KvnMismatch);
    }
    var derived := backend.Scp03DeriveSession(encKey, macKey, iu.mode, host, iu.cardChallenge);
    if derived.Err? {
      return Err(BackendFailed(derived.error));
    }
    var session := derived.value;
    ghost var slot := backend.sessions[session].value;
    r := Authenticate03(backend, session, slot, encKey, requested, host, invokerAid, iu);
  }

  lemma EaIsLong(level: byte, hostCryptogram: bytes)
    requires |hostCryptogram| <= 255
    ensures |EaPlaintext(level, hostCryptogram)| >= 4
  {
  }

  /**
   After a successful open the level is not empty, was requested and is allowed, and a card holding
   the same keys accepts the EXTERNAL AUTHENTICATE, finds the host cryptogram it expects, and is in step.
   */
  lemma OpenedInStep03(s: Suite, slot: Scp03.Slot, iParam: byte, requested: byte, host: bytes, card: bytes)
    requires slot == Scp03.FreshSlot(slot.sEnc, slot.sMac, slot.sRmac, slot.mode)
    requires Cap(Allowed03(iParam), requested).Ok?
    ensures var level := Cap(Allowed03(iParam), requested).value;
            var w := Scp03.Wrap(s, slot, Ea03(s, slot, level, host, card));
            && level != 0 && SubsetOf(level, requested) && SubsetOf(level, Allowed03(iParam))
            && w.Ok?
            && var seen := Scp03Channel.Receive(s, Scp03Channel.FreshCard(slot), w.value.0);
            && seen.Some?
            && seen.value.0.data == Cryptogram03(s, slot, DC_HOST_CRYPTO, host, card)
            && Scp03Channel.InStep(w.value.1, seen.value.1)
            && w.value.1.level == level
  {
    hide Scp03.Wrap, Scp03Channel.Receive, Split, EaPlaintext, Cap;
    var level := Cap(Allowed03(iParam), requested).value;
    CapIsIntersection(Allowed03(iParam), requested);
    EaWraps03(s, slot, level, host, card);
    EaSplits(level, Cryptogram03(s, slot, DC_HOST_CRYPTO, host, card));
    Scp03Channel.AuthenticationLatches(s, slot.sEnc, slot.sMac, slot.sRmac, slot.mode,
                                       Ea03(s, slot, level, host, card));
  }

  // ---- SCP02 ----

  datatype Iu02 = Iu02(kvn: byte, seqCounter: bytes, cardChallenge: bytes, cardCryptogram: bytes)

  function ParseIu02(s: bytes): (r: Result<Iu02, OpenError>)
    ensures r.Ok? ==> |r.value.seqCounter| == 2 && |r.value.cardChallenge| == 6 && |r.value.cardCryptogram| == 8
  {
    if |s| != 28 || s[11] != SCP_ID_SCP02 then Err(ScpProtocolUnsupported)
    else Ok(Iu02(s[10], s[12..14], s[14..20], s[20..28]))
  }

  /** Levels SCP02 allows: R-MAC only for `i` 15 and 55, response encryption never. */
  function Allowed02(i: byte): byte {
    if i == 0x15 || i == 0x55 then 0x13 else 0x03
  }

  /** The triple-DES MAC of both challenges, in the order of the direction. */
  function Cryptogram02(s: Suite, slot: Scp02.Slot, head: bytes, tail: bytes): (c: bytes)
    ensures |c| == DES_BLOCK
  {
    TdesCbcMac(s.des, slot.sEnc, Zeros(8), head + tail)
  }

  /** EXTERNAL AUTHENTICATE for a fresh slot; the card challenge is extended by the sequence counter. */
  function Ea02(s: Suite, slot: Scp02.Slot, level: byte, host: bytes, iu: Iu02): bytes {
    EaPlaintext(level, Cryptogram02(s, slot, iu.seqCounter + iu.cardChallenge, host))
  }

  lemma EaWraps02(s: Suite, slot: Scp02.Slot, level: byte, host: bytes, iu: Iu02)
    requires slot == Scp02.FreshSlot(slot.sEnc, slot.sMac, slot.sRmac, slot.sDek)
    ensures var r := Scp02.Wrap(s, slot, Ea02(s, slot, level, host, iu));
            && r.Ok?
            && r.value.1 == slot.(icv := r.value.1.icv, icvValid := true, ricv := r.value.1.icv,
                                  level := level, authed := true)
  {
    EaSplits(level, Cryptogram02(s, slot, iu.seqCounter + iu.cardChallenge, host));
  }

  predicate Derives02(s: Suite, keys: KeyTable, table: Table<Scp02.Slot>, encKey: nat, macKey: nat, dekKey: nat,
                      kvnExpected: byte, iuResponse: bytes)
  {
    && ParseIu02(iuResponse).Ok?
    && var iu := ParseIu02(iuResponse).value;
    && (kvnExpected == 0x00 || iu.kvn == kvnExpected)
    && Scp02Derived(s, keys, encKey, macKey, dekKey, iu.seqCounter).Ok?
    && FirstFree(table, 0).Some?
  }

  function DerivedSlot02(s: Suite, keys: KeyTable, table: Table<Scp02.Slot>, encKey: nat, macKey: nat, dekKey: nat,
                         kvnExpected: byte, iuResponse: bytes): (slot: Scp02.Slot)
    requires Derives02(s, keys, table, encKey, macKey, dekKey, kvnExpected, iuResponse)
    ensures slot == Scp02.FreshSlot(slot.sEnc, slot.sMac, slot.sRmac, slot.sDek)
  {
    Scp02Derived(s, keys, encKey, macKey, dekKey, ParseIu02(iuResponse).value.seqCounter).value
  }

  predicate Opens02(s: Suite, keys: KeyTable, table: Table<Scp02.Slot>, encKey: nat, macKey: nat, dekKey: nat,
                    iParam: byte, kvnExpected: byte, requested: byte, host: bytes, iuResponse: bytes)
  {
    && Derives02(s, keys, table, encKey, macKey, dekKey, kvnExpected, iuResponse)
    && var iu := ParseIu02(iuResponse).value;
    && iu.cardCryptogram
       == Cryptogram02(s, DerivedSlot02(s, keys, table, encKey, macKey, dekKey, kvnExpected, iuResponse),
                                         host, iu.seqCounter + iu.cardChallenge)
    && Cap(Allowed02(iParam), requested).Ok?
  }

  function CheckFailure02(s: Suite, slot: Scp02.Slot, host: bytes, iu: Iu02): OpenError {
    if iu.cardCryptogram != Cryptogram02(s, slot, host, iu.seqCounter + iu.cardChallenge) then CardCryptogramFail
    else NoCommonSecurityLevel
  }

  /** Why `begin` fails over SCP02. */
  function OpenFailure02(s: Suite, keys: KeyTable, table: Table<Scp02.Slot>, encKey: nat, macKey: nat, dekKey: nat,
                         kvnExpected: byte, host: bytes, iuResponse: bytes): OpenError
  {
    var parsed := ParseIu02(iuResponse);
    if parsed.Err? then parsed.error
    else if kvnExpected != 0x00 && parsed.value.kvn != kvnExpected then KvnMismatch
    else
      var derived := Scp02Derived(s, keys, encKey, macKey, dekKey, parsed.value.seqCounter);
      if derived.Err? then BackendFailed(derived.error)
      else if FirstFree(table, 0).None? then BackendFailed(TableFull)
      else CheckFailure02(s, derived.value, host, parsed.value)
  }

  /** What follows the derivation over SCP02. */
  method Authenticate02(backend: RustCryptoBackend, session: nat, ghost slot: Scp02.Slot, iParam: byte, requested: byte,
                        host: bytes, iu: Iu02)
    returns (r: Result<(ScpState, bytes), OpenError>)
    requires backend.Valid() && session < |backend.scp02Sessions| && backend.scp02Sessions[session] == Some(slot)
    requires slot == Scp02.FreshSlot(slot.sEnc, slot.sMac, slot.sRmac, slot.sDek)
    requires |host| == 8 && |iu.seqCounter| + |iu.cardChallenge| == 8
    modifies backend`scp02Sessions
    ensures backend.Valid()
    ensures r.Ok? <==> iu.cardCryptogram == Cryptogram02(backend.suite, slot, host, iu.seqCounter + iu.cardChallenge)
                       && Cap(Allowed02(iParam), requested).Ok?
    ensures r.Err? ==>
              && backend.scp02Sessions == old(backend.scp02Sessions)
              && r.error == CheckFailure02(backend.suite, slot, host, iu)
    ensures r.Ok? ==>
              var (state, ea) := r.value;
              var wrapped := Scp02.Wrap(backend.suite, slot, Ea02(backend.suite, slot, state.securityLevel, host, iu));
              && state == ScpState(session, iParam, state.securityLevel, iu.kvn)
              && Cap(Allowed02(iParam), requested) == Ok(state.securityLevel)
              && wrapped.Ok? && ea == wrapped.value.0
              && backend.scp02Sessions == old(backend.scp02Sessions)[session := Some(wrapped.value.1)]
              && wrapped.value.1.authed && wrapped.value.1.level == state.securityLevel
              && wrapped.value.1.icvValid && wrapped.value.1.ricv == wrapped.value.1.icv
  {
    hide TdesCbcMac, Scp02.Wrap, EaPlaintext, Scp02Key, TdesKey, And, Allowed02;
    var cardCh8 := iu.seqCounter + iu.cardChallenge;
    var expected := backend.Scp02Cryptogram(session, host, cardCh8);
    if expected.value != iu.cardCryptogram {
      return Err(CardCryptogramFail);
    }
    var level := Cap(Allowed02(iParam), requested);
    if level.Err? {
      return Err(level.error);
    }
    var hostCryptogram := backend.Scp02Cryptogram(session, cardCh8, host);
    var eaPlain := EaPlaintext(level.value, hostCryptogram.value);
    EaWraps02(backend.suite, slot, level.value, host, iu);
    EaIsLong(level.value, hostCryptogram.value);
    var wrapped := backend.Scp02WrapCommand(session, eaPlain);
    return Ok((ScpState(session, iParam, level.value, iu.kvn), wrapped.value));
  }

  /** `begin` over SCP02, with the same guarantees. */
  method Begin02(backend: RustCryptoBackend, encKey: nat, macKey: nat, dekKey: nat, iParam: byte, kvnExpected: byte,
                 requested: byte, host: bytes, iuResponse: bytes)
    returns (r: Result<(ScpState, bytes), OpenError>)
    requires backend.Valid() && |host| == 8
    modifies backend`scp02Sessions
    ensures backend.Valid()
    ensures r.Ok? <==> Opens02(backend.suite, backend.keys, old(backend.scp02Sessions), encKey, macKey, dekKey,
                               iParam, kvnExpected, requested, host, iuResponse)
    ensures r.Ok? ==>
              var (state, ea) := r.value;
              var iu := ParseIu02(iuResponse).value;
              var slot := DerivedSlot02(backend.suite, backend.keys, old(backend.scp02Sessions), encKey, macKey, dekKey,
                                        kvnExpected, iuResponse);
              var wrapped := Scp02.Wrap(backend.suite, slot, Ea02(backend.suite, slot, state.securityLevel, host, iu));
              && Some(state.session) == FirstFree(old(backend.scp02Sessions), 0)
              && state == ScpState(state.session, iParam, state.securityLevel, iu.kvn)
              && Cap(Allowed02(iParam), requested) == Ok(state.securityLevel)
              && wrapped.Ok? && ea == wrapped.value.0
              && backend.scp02Sessions == old(backend.scp02Sessions)[state.session := Some(wrapped.value.1)]
              && wrapped.value.1.authed && wrapped.value.1.level == state.securityLevel
              && wrapped.value.1.icvValid && wrapped.value.1.ricv == wrapped.value.1.icv
    ensures r.Err? ==>
              r.error == OpenFailure02(backend.suite, backend.keys, old(backend.scp02Sessions), encKey, macKey, dekKey,
                                       kvnExpected, host, iuResponse)
    ensures r.Err? ==>
              backend.scp02Sessions
              == if Derives02(backend.suite, backend.keys, old(backend.scp02Sessions), encKey, macKey, dekKey,
                              kvnExpected, iuResponse) then
                   old(backend.scp02Sessions)[FirstFree(old(backend.scp02Sessions), 0).value :=
                     Some(DerivedSlot02(backend.suite, backend.keys, old(backend.scp02Sessions), encKey, macKey, dekKey,
                                        kvnExpected, iuResponse))]
                 else old(backend.scp02Sessions)
  {
    hide TdesCbcMac, Scp02.Wrap, EaPlaintext, Scp02Key, TdesKey, And, Ea02, Cryptogram02, Allowed02, Cap,
         CheckFailure02;
    var parsed := ParseIu02(iuResponse);
    if parsed.Err? {
      return Err(parsed.error);
    }
    var iu := parsed.value;
    if kvnExpected != 0x00 && iu.kvn != kvnExpected {
      return Err(KvnMismatch);
    }
    var derived := backend.Scp02DeriveSession(encKey, macKey, dekKey, iu.seqCounter);
    if derived.Err? {
      return Err(BackendFailed(derived.error));
    }
    var session := derived.value;
    ghost var slot := backend.scp02Sessions[session].value;
    r := Authenticate02(backend, session, slot, iParam, requested, host, iu);
  }

  /** The SCP02 counterpart of `OpenedInStep03`; the R-MAC chain starts from the C-MAC just sent. */
  lemma OpenedInStep02(s: Suite, slot: Scp02.Slot, iParam: byte, requested: byte, host: bytes, iu: Iu02)
    requires slot == Scp02.FreshSlot(slot.sEnc, slot.sMac, slot.sRmac, slot.sDek)
    requires Cap(Allowed02(iParam), requested).Ok?
    ensures var level := Cap(Allowed02(iParam), requested).value;
            var w := Scp02.Wrap(s, slot, Ea02(s, slot, level, host, iu));
            && level != 0 && SubsetOf(level, requested) && SubsetOf(level, Allowed02(iParam))
            && w.Ok?
            && var seen := Scp02Channel.Receive(s, Scp02Channel.FreshCard(slot), w.value.0);
            && seen.Some?
            && seen.value.0.data == Cryptogram02(s, slot, iu.seqCounter + iu.cardChallenge, host)
            && Scp02Channel.InStep(w.value.1, seen.value.1)
            && w.value.1.level == level && w.value.1.ricv == w.value.1.icv
  {
    hide Scp02.Wrap, Scp02Channel.Receive, Split, EaPlaintext, Cap;
    var level := Cap(Allowed02(iParam), requested).value;
    CapIsIntersection(Allowed02(iParam), requested);
    EaWraps02(s, slot, level, host, iu);
    EaSplits(level, Cryptogram02(s, slot, iu.seqCounter + iu.cardChallenge, host));
    Scp02Channel.CommandArrives(s, slot, Scp02Channel.FreshCard(slot), Ea02(s, slot, level, host, iu));
  }

  // ---- The level never changes while the session lives ----

  predicate AtLevel03(slot: Scp03.Slot, level: byte, mode: Scp03.ScpMode) {
    slot.authed && slot.level == level && slot.mode == mode
  }

  /** Whatever is wrapped or unwrapped later, EXTERNAL AUTHENTICATE included, the level stays. */
  lemma LevelFixed03(s: Suite, t: Table<Scp03.Slot>, ops: seq<Op<Scp03.Slot>>, h: nat, level: byte, mode: Scp03.ScpMode)
    requires h < |t| && t[h].Some? && AtLevel03(t[h].value, level, mode)
    requires !Reopens(h, Run(Scp03Engine(s), t, ops).1)
    ensures var t' := Run(Scp03Engine(s), t, ops).0;
            t'[h].Some? ==> AtLevel03(t'[h].value, level, mode)
  {
    var inv := (slot: Scp03.Slot) => AtLevel03(slot, level, mode);
    forall slot: Scp03.Slot, capdu: bytes | inv(slot) && Scp03Engine(s).wrap(slot, capdu).Ok?
      ensures inv(Scp03Engine(s).wrap(slot, capdu).value.1)
    {
      Scp03.WrapKeepsLevel(s, slot, capdu);
    }
    InvariantKept(Scp03Engine(s), t, ops, h, inv);
  }

  // ---- The counter counts ----

  /** How many wraps of session `h` a history completed. */
  function Wraps(h: nat, ops: seq<Op<Scp03.Slot>>, replies: seq<Reply>): nat
    requires |ops| == |replies|
  {
    if ops == [] then 0
    else
      (if ops[0].Wrap? && ops[0].handle == h && replies[0].Produced? then 1 else 0) + Wraps(h, ops[1..], replies[1..])
  }

  /** The counter a session has reached: every wrap counts but the one that authenticates. */
  function CounterAfter(slot: Scp03.Slot, wraps: nat): nat {
    if slot.authed || wraps == 0 then slot.counter + wraps else slot.counter + wraps - 1
  }

  /**
   In every history, lost and failed responses and other sessions included, the counter of a live session
   is the number of wraps it completed since authentication; so it never wraps around.
   */
  lemma {:induction false} CounterCounts(s: Suite, t: Table<Scp03.Slot>, ops: seq<Op<Scp03.Slot>>, h: nat)
    requires h < |t| && t[h].Some? && !Reopens(h, Run(Scp03Engine(s), t, ops).1)
    ensures var (t', replies) := Run(Scp03Engine(s), t, ops);
            t'[h].Some? ==>
              t'[h].value.counter == CounterAfter(t[h].value, Wraps(h, ops, replies)) < Scp03.COUNTER_LIMIT
    decreases |ops|
  {
    hide Scp03.Wrap, Scp03.Unwrap;
    if ops != [] {
      var (t1, reply) := Step(Scp03Engine(s), t, ops[0]);
      var (t', replies) := Run(Scp03Engine(s), t, ops);
      assert replies[0] == reply && replies[1..] == Run(Scp03Engine(s), t1, ops[1..]).1;
      CounterSteps(s, t, ops[0], h);
      if t1[h].Some? {
        CounterCounts(s, t1, ops[1..], h);
      } else {
        DeadStaysDead(Scp03Engine(s), t1, ops[1..], h);
      }
    }
  }

  lemma CounterSteps(s: Suite, t: Table<Scp03.Slot>, op: Op<Scp03.Slot>, h: nat)
    requires h < |t| && t[h].Some?
    ensures var (t1, reply) := Step(Scp03Engine(s), t, op);
            var counted := op.Wrap? && op.handle == h && reply.Produced?;
            t1[h].Some? && reply != Opened(h) ==>
              && t1[h].value.counter == t[h].value.counter + (if counted && t[h].value.authed then 1 else 0)
              && t1[h].value.authed == (t[h].value.authed || counted)
  {
    hide Scp03.WireBody, Scp03.CommandMac, Scp03.Header, Split, Scp03.Unwrap;
  }

  predicate AtLevel02(slot: Scp02.Slot, level: byte) {
    slot.authed && slot.icvValid && slot.level == level
  }

  lemma LevelFixed02(s: Suite, t: Table<Scp02.Slot>, ops: seq<Op<Scp02.Slot>>, h: nat, level: byte)
    requires h < |t| && t[h].Some? && AtLevel02(t[h].value, level)
    requires !Reopens(h, Run(Scp02Engine(s), t, ops).1)
    ensures var t' := Run(Scp02Engine(s), t, ops).0;
            t'[h].Some? ==> AtLevel02(t'[h].value, level)
  {
    hide CbcEncrypt, MacAlgorithm3, Split, Scp02.WireBody, Scp02.UnwrapRmac;
    InvariantKept(Scp02Engine(s), t, ops, h, (slot: Scp02.Slot) => AtLevel02(slot, level));
  }
}
