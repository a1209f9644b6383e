/**
 The software backend (`lib.rs` with the trait implementations of `scp03.rs` and `scp02.rs`): one
 object holding the key table and both session tables, updated by every call. Each method is proved
 to do to its table exactly what `SessionTable.Step` does with the protocol's engine.
 */
module Backend {
  import opened Bytes
  import opened Wrappers
  import opened Crypto
  import opened Scp
  import opened Keys
  import opened SessionTable
  import Scp03
  import Scp02

  const ENC_KEY_BLOCK_MAX: nat := 32
  /** Capacity of the C-MAC input. */
  const MAC_INPUT_MAX: nat := 320

  function Scp03Engine(s: Suite): Engine<Scp03.Slot> {
    Engine((slot, capdu) => Scp03.Wrap(s, slot, capdu),
           (slot, rapdu) =>
             var r := Scp03.Unwrap(s, slot, rapdu);
             if r.Ok? then Ok((r.value, slot)) else Err(r.error))
  }

  function Scp02Engine(s: Suite): Engine<Scp02.Slot> {
    Engine((slot, capdu) => Scp02.Wrap(s, slot, capdu), (slot, rapdu) => Scp02.Unwrap(s, slot, rapdu))
  }

  function AsReply(r: Result<bytes, BackendError>): Reply {
    if r.Ok? then Produced(r.value) else Failed(r.error)
  }

  // ---- Key derivation ----

  const DC_CARD_CRYPTO: byte := 0x00
  const DC_HOST_CRYPTO: byte := 0x01
  const DC_CARD_CHALLENGE: byte := 0x02
  const DC_S_ENC: byte := 0x04
  const DC_S_MAC: byte := 0x06
  const DC_S_RMAC: byte := 0x07

  /** One SCP03 session key, as long as the static key it comes from. */
  function Scp03Key(s: Suite, key: bytes, constant: byte, context: bytes): bytes {
    KdfOutput(s, key, constant, 8 * |key|, context, |key|)
  }

  /** The slot a successful SCP03 derivation opens. */
  function Scp03Derived(s: Suite, keys: KeyTable, encKey: nat, macKey: nat, mode: Scp03.ScpMode, host: bytes,
                        card: bytes)
    : Result<Scp03.Slot, BackendError>
  {
    if |host| != mode.FieldLen() || |card| != mode.FieldLen() then Err(ChallengeLength)
    else
      var enc :- AesKey(keys, encKey);
      var mac :- AesKey(keys, macKey);
      if |enc| != |mac| then Err(KeyLengthsDiffer)
      else
        Ok(Scp03.FreshSlot(
             Scp03Key(s, enc, DC_S_ENC, host + card),
             Scp03Key(s, mac, DC_S_MAC, host + card),
             Scp03Key(s, mac, DC_S_RMAC, host + card), mode))
  }

  /** One SCP02 session key: constant, sequence counter and zeros under triple DES. */
  function Scp02Key(s: Suite, base: Scp02.Key16, constant: bytes, seqCounter: bytes): (k: Scp02.Key16)
    requires |constant| == 2 && |seqCounter| == 2
  {
    var input := constant + seqCounter + Zeros(12);
    CbcLengthOf16(s, base, input);
    CbcEncrypt(Tdes(s.des), base, Zeros(8), input)
  }

  lemma CbcLengthOf16(s: Suite, base: bytes, input: bytes)
    requires |input| == 16
    ensures |CbcEncrypt(Tdes(s.des), base, Zeros(8), input)| == 16
  {
    AlignedIsMod(16, DES_BLOCK);
    CbcLength(Tdes(s.des), base, Zeros(8), input);
  }

  function Scp02Derived(s: Suite, keys: KeyTable, encKey: nat, macKey: nat, dekKey: nat, seqCounter: bytes)
    : Result<Scp02.Slot, BackendError>
    requires |seqCounter| == 2
  {
    var enc :- TdesKey(keys, encKey);
    var mac :- TdesKey(keys, macKey);
    var dek :- TdesKey(keys, dekKey);
    Ok(Scp02.FreshSlot(
         Scp02Key(s, enc, [0x01, 0x82], seqCounter),
         Scp02Key(s, mac, [0x01, 0x01], seqCounter),
         Scp02Key(s, mac, [0x01, 0x02], seqCounter),
         Scp02Key(s, dek, [0x01, 0x81], seqCounter)))
  }

  // ---- PUT KEY payloads ----

  /** A key as SCP03 encrypts it: padded only when it is not whole blocks. */
  function Scp03Plaintext(key: bytes): bytes {
    if |key| % BLOCK == 0 then key else Pad(BLOCK, key)
  }

  function Scp03Payload(s: Suite, dek: bytes, key: bytes): bytes {
    CbcEncrypt(s.aes, dek, Zeros(BLOCK), Scp03Plaintext(key))
  }

  /** Independent blocks under triple DES. */
  function EcbEncrypt(c: Cipher, key: bytes, msg: bytes): bytes
    decreases |msg|
  {
    if |msg| < c.size then [] else c.enc(key, msg[..c.size]) + EcbEncrypt(c, key, msg[c.size..])
  }

  lemma {:induction false} EcbSnoc(c: Cipher, key: bytes, front: bytes, block: bytes)
    requires Aligned(|front|, c.size) && |block| == c.size
    ensures EcbEncrypt(c, key, front + block) == EcbEncrypt(c, key, front) + c.enc(key, block)
    decreases |front|
  {
    if |front| == 0 {
      assert front + block == block && block[..c.size] == block && block[c.size..] == [];
    } else {
      assert (front + block)[..c.size] == front[..c.size];
      assert (front + block)[c.size..] == front[c.size..] + block;
      EcbSnoc(c, key, front[c.size..], block);
    }
  }

  // ---- Buffers ----

  /** Copy into scratch space, pad and encrypt in place. */
  method PadAndEncrypt(c: Cipher, key: bytes, iv: bytes, data: bytes, scratch: array<byte>) returns (ct: bytes)
    requires c.size == BLOCK || c.size == DES_BLOCK
    requires |iv| == c.size && PaddedLen(c.size, |data|) <= scratch.Length
    modifies scratch
    ensures ct == CbcEncrypt(c, key, iv, Pad(c.size, data))
  {
    forall i | 0 <= i < |data| {
      scratch[i] := data[i];
    }
    assert scratch[..|data|] == data;
    var padded := PadInPlace(c.size, scratch, |data|);
    assert scratch[..padded.value] == Pad(c.size, data);
    PaddedAligned(c.size, |data|);
    CbcEncryptInPlace(c, key, iv, scratch, padded.value);
    ct := scratch[..padded.value];
  }

  /** A push onto a bounded vector. */
  method PushOnto(v: bytes, src: bytes, capacity: nat) returns (r: Result<bytes, BackendError>)
    ensures r.Ok? <==> |v| + |src| <= capacity
    ensures r.Ok? ==> r.value == v + src
    ensures r.Err? ==> r.error == BufferOverflow
  {
    if |v| + |src| > capacity {
      return Err(BufferOverflow);
    }
    return Ok(v + src);
  }

  /** The wire command on a bounded vector; only an over-long Le does not fit. */
  method Assemble(header: bytes, body: bytes, mac: bytes, le: bytes) returns (r: Result<bytes, BackendError>)
    requires |header| == 5 && |body| + |mac| <= 255
    ensures r.Ok? <==> |header + body + mac + le| <= CAPDU_MAX
    ensures r.Ok? ==> r.value == header + body + mac + le
    ensures r.Err? ==> r.error == BufferOverflow
  {
    var out := PushOnto([], header, CAPDU_MAX);
    out := PushOnto(out.value, body, CAPDU_MAX);
    out := PushOnto(out.value, mac, CAPDU_MAX);
    assert out.value == header + body + mac;
    r := PushOnto(out.value, le, CAPDU_MAX);
  }

  /** A push onto a bounded vector whose result is ignored: an overflow drops the bytes. */
  function PushIgnored(v: bytes, src: bytes, capacity: nat): bytes {
    if |v| + |src| <= capacity then v + src else v
  }

  class RustCryptoBackend {
    const suite: Suite
    var keys: KeyTable
    var sessions: Table<Scp03.Slot>
    var scp02Sessions: Table<Scp02.Slot>

    predicate Valid()
      reads this
    {
      |keys| == MAX_KEY_SLOTS && |sessions| == |scp02Sessions| == MAX_SESSION_SLOTS
    }

    constructor (suite: Suite)
      ensures Valid() && this.suite == suite
      ensures |keys| == |sessions| == |scp02Sessions| == 16
      ensures keys == seq(MAX_KEY_SLOTS, _ => None)
      ensures sessions == seq(MAX_SESSION_SLOTS, _ => None)
      ensures scp02Sessions == seq(MAX_SESSION_SLOTS, _ => None)
    {
      this.suite := suite;
      keys := seq(MAX_KEY_SLOTS, _ => None);
      sessions := seq(MAX_SESSION_SLOTS, _ => None);
      scp02Sessions := seq(MAX_SESSION_SLOTS, _ => None);
    }

    // ---- SCP03 ----

    /** The `position` of the first free slot. */
    static method FindFree<S>(t: Table<S>) returns (r: Option<nat>)
      ensures r == FirstFree(t, 0)
    {
      var i := 0;
      while i < |t|
        invariant i <= |t| && FirstFree(t, 0) == FirstFree(t, i)
      {
        if t[i].None? {
          return Some(i);
        }
        i := i + 1;
      }
      return None;
    }

    method SessionKey(key: bytes, constant: byte, context: bytes) returns (k: bytes)
      requires |context| <= 32 && |key| <= KEY_BYTES_MAX
      ensures k == Scp03Key(suite, key, constant, context)
    {
      var out := new byte[|key|](_ => 0);
      var r := Kdf(suite, key, constant, 8 * |key|, context, out);
      k := out[..];
    }

    method Scp03DeriveSession(encKey: nat, macKey: nat, mode: Scp03.ScpMode, host: bytes, card: bytes)
      returns (r: Result<nat, BackendError>)
      requires Valid()
      modifies this`sessions
      ensures Valid()
      ensures match Scp03Derived(suite, keys, encKey, macKey, mode, host, card)
              case Err(e) => r == Err(e) && sessions == old(sessions)
              case Ok(slot) =>
                var (t, reply) := Step(Scp03Engine(suite), old(sessions), Derive(slot));
                sessions == t && reply == if r.Ok? then Opened(r.value) else Failed(r.error)
    {
      if |host| != mode.FieldLen() || |card| != mode.FieldLen() {
        return Err(ChallengeLength);
      }
      var context := host + card;
      var enc :- AesKey(keys, encKey);
      var mac :- AesKey(keys, macKey);
      if |enc| != |mac| {
        return Err(KeyLengthsDiffer);
      }
      var sEnc := SessionKey(enc, DC_S_ENC, context);
      var sMac := SessionKey(mac, DC_S_MAC, context);
      var sRmac := SessionKey(mac, DC_S_RMAC, context);
      var idx := FindFree(sessions);
      if idx.None? {
        return Err(TableFull);
      }
      sessions := sessions[idx.value := Some(Scp03.FreshSlot(sEnc, sMac, sRmac, mode))];
      return Ok(idx.value);
    }

    /** `scp03_card_cryptogram` and `scp03_host_cryptogram`, by derivation constant. */
    method Scp03Cryptogram(h: nat, host: bytes, card: bytes, constant: byte) returns (r: Result<bytes, BackendError>)
      requires Valid()
      ensures r.Ok? <==> |host + card| <= 32 && SlotAt(sessions, h).Some?
      ensures r.Ok? ==>
                var slot := SlotAt(sessions, h).value;
                r.value == KdfOutput(suite, slot.sMac, constant, slot.mode.LBits(), host + card, slot.mode.FieldLen())
      ensures r.Err? ==> r.error == if |host + card| > 32 then ContextTooLong else SessionInvalid
    {
      var context := host + card;
      if |context| > 32 {
        return Err(ContextTooLong);
      }
      if SlotAt(sessions, h).None? {
        return Err(SessionInvalid);
      }
      var slot := SlotAt(sessions, h).value;
      var out := new byte[slot.mode.FieldLen()](_ => 0);
      var k := Kdf(suite, slot.sMac, constant, slot.mode.LBits(), context, out);
      return Ok(out[..]);
    }

    method Scp03PseudoCardChallenge(encKey: nat, mode: Scp03.ScpMode, seqCounter: bytes, aid: bytes)
      returns (r: Result<bytes, BackendError>)
      requires Valid() && |seqCounter| == 3
      ensures r.Ok? <==> |aid| <= 16 && AesKey(keys, encKey).Ok?
      ensures r.Ok? ==>
                r.value == KdfOutput(suite, AesKey(keys, encKey).value, DC_CARD_CHALLENGE, mode.LBits(),
                                     seqCounter + aid, mode.FieldLen())
      ensures r.Err? ==> r.error == if |aid| > 16 then ContextTooLong else AesKey(keys, encKey).error
    {
      var context := seqCounter + aid;
      if |context| > 19 {
        return Err(ContextTooLong);
      }
      var enc :- AesKey(keys, encKey);
      var out := new byte[mode.FieldLen()](_ => 0);
      var k := Kdf(suite, enc, DC_CARD_CHALLENGE, mode.LBits(), context, out);
      return Ok(out[..]);
    }

    /** Encrypt command data in scratch space under the counter's ICV. */
    method Scp03EncryptData(slot: Scp03.Slot, counter: nat, data: bytes) returns (body: bytes)
      requires |data| <= 255
      ensures body == CbcEncrypt(suite.aes, slot.sEnc, Scp03.Icv(suite, slot.sEnc, counter, false), Pad(BLOCK, data))
    {
      var scratch := new byte[CAPDU_MAX](_ => 0);
      var icv := EcbBlock(suite.aes, slot.sEnc, Scp03.CounterBlock(counter, false));
      body := PadAndEncrypt(suite.aes, slot.sEnc, icv, data, scratch);
    }

    /** The C-MAC input is pushed onto a bounded vector, which chaining value, header and body always fit. */
    method Scp03CommandMac(slot: Scp03.Slot, header: bytes, body: bytes) returns (mac: bytes)
      requires |header| == 5 && |body| <= 255
      ensures mac == Scp03.CommandMac(suite, slot, header, body)
    {
      var macIn := PushOnto([], slot.chain, MAC_INPUT_MAX);
      macIn := PushOnto(macIn.value, header, MAC_INPUT_MAX);
      macIn := PushOnto(macIn.value, body, MAC_INPUT_MAX);
      assert macIn.value == slot.chain + header + body;
      mac := suite.cmac(slot.sMac, macIn.value);
    }

    method Scp03WrapCommand(h: nat, capdu: bytes) returns (r: Result<bytes, BackendError>)
      requires Valid()
      modifies this`sessions
      ensures Valid()
      ensures (sessions, AsReply(r)) == Step(Scp03Engine(suite), old(sessions), Wrap(h, capdu))
    {
      hide CbcEncrypt, Pad, Scp03.CommandMac, Split;
      StoreUnchanged(sessions, h);
      if |capdu| < 4 {
        return Err(HeaderTooShort);
      }
      if SlotAt(sessions, h).None? {
        return Err(SessionInvalid);
      }
      var slot := SlotAt(sessions, h).value;
      var chain, counter, level := slot.chain, slot.counter, slot.level;
      var macLen := slot.mode.FieldLen();

      var c :- Split(capdu);
      var body := c.data;
      if slot.authed {
        if counter + 1 >= Scp03.COUNTER_LIMIT {
          return Err(CounterOverflow);
        }
        counter := counter + 1;
        if HasBit(level, Scp03.SL_CENC) && c.data != [] {
          body := Scp03EncryptData(slot, counter, c.data);
        }
      } else {
        if c.ins != EXTERNAL_AUTHENTICATE {
          return Err(FirstNotExternalAuthenticate);
        }
        level := c.p1;
      }
      assert body == Scp03.WireBody(suite, slot, c.data);

      if |body| + macLen > 255 {
        return Err(WrappedLcTooLong);
      }
      var header := Scp03.Header(c, |body| + macLen);
      var full := Scp03CommandMac(slot, header, body);
      chain := full;
      var assembled := Assemble(header, body, full[..macLen], c.le);
      if assembled.Err? {
        return Err(assembled.error);
      }
      var out := assembled.value;
      assert Scp03.Wrap(suite, slot, capdu)
          == Ok((out, slot.(chain := chain, counter := counter, level := level, authed := true)));
      sessions := sessions[h := Some(slot.(chain := chain, counter := counter, level := level, authed := true))];
      return Ok(out);
    }

    /** Verify and strip the R-MAC of one response. */
    method Scp03Verify(slot: Scp03.Slot, body: bytes, sw: StatusWord) returns (r: Result<bytes, BackendError>)
      ensures r == Scp03.Verified(suite, slot, body, sw)
    {
      if !(HasBit(slot.level, Scp03.SL_RMAC) && Scp03.SwIsProtected(sw)) {
        return Ok(body);
      }
      var macLen := slot.mode.FieldLen();
      if |body| < macLen {
        return Err(RmacMissing);
      }
      var data, rmac := body[..|body| - macLen], body[|body| - macLen..];
      var macIn := slot.chain + data + sw;
      if |macIn| > RAPDU_MAX + Scp03.MAC_CHAIN_LEN {
        return Err(BufferOverflow);
      }
      var full := suite.cmac(slot.sRmac, macIn);
      if full[..macLen] != rmac {
        return Err(RmacMismatch);
      }
      return Ok(data);
    }

    /** Decrypt one response in scratch space. */
    method Scp03Decrypt(slot: Scp03.Slot, data: bytes, sw: StatusWord) returns (r: Result<bytes, BackendError>)
      ensures r == Scp03.Decrypted(suite, slot, data, sw)
    {
      if !(HasBit(slot.level, Scp03.SL_RENC) && Scp03.SwIsProtected(sw) && data != []) {
        return Ok(data);
      }
      if |data| % BLOCK != 0 {
        return Err(ResponseUnaligned);
      }
      var icv := EcbBlock(suite.aes, slot.sEnc, Scp03.CounterBlock(slot.counter, true));
      if |data| > RAPDU_MAX {
        return Err(ResponseTooLarge);
      }
      AlignedIsMod(|data|, BLOCK);
      CbcLength(suite.aes, slot.sEnc, icv, data);
      var plain := CbcDecrypt(suite.aes, slot.sEnc, icv, data);
      var n := UnpadScan(plain);
      if n.Err? {
        return Err(BadPadding);
      }
      return Ok(plain[..n.value]);
    }

    method Scp03UnwrapResponse(h: nat, rapdu: bytes) returns (r: Result<bytes, BackendError>)
      requires Valid()
      modifies this`sessions
      ensures Valid()
      ensures (sessions, AsReply(r)) == Step(Scp03Engine(suite), old(sessions), Unwrap(h, rapdu))
    {
      StoreUnchanged(sessions, h);
      if SlotAt(sessions, h).None? {
        return Err(SessionInvalid);
      }
      var slot := SlotAt(sessions, h).value;
      if !slot.authed {
        r := Err(Unauthenticated);
      } else if |rapdu| < 2 {
        r := Err(ResponseTooShort);
      } else {
        var body, sw := rapdu[..|rapdu| - 2], rapdu[|rapdu| - 2..];
        r := Scp03Verify(slot, body, sw);
        if r.Ok? {
          r := Scp03Decrypt(slot, r.value, sw);
        }
        if r.Ok? {
          r := if |r.value| + 2 > RAPDU_MAX then Err(BufferOverflow) else Ok(r.value + sw);
        }
      }
      assert r == Scp03.Unwrap(suite, slot, rapdu);
      if r.Err? {
        sessions := sessions[h := None];
      }
    }

    method Scp03CloseSession(h: nat)
      requires Valid()
      modifies this`sessions
      ensures Valid()
      ensures sessions == Step(Scp03Engine(suite), old(sessions), Close(h)).0
    {
      if h < |sessions| {
        sessions := sessions[h := None];
      }
    }

    method Scp03EncryptPutKeyPayload(dek: nat, newKey: nat) returns (r: Result<bytes, BackendError>)
      requires Valid()
      ensures r.Ok? <==> AesKey(keys, dek).Ok? && AesKey(keys, newKey).Ok?
      ensures r.Ok? ==> r.value == Scp03Payload(suite, AesKey(keys, dek).value, AesKey(keys, newKey).value)
    {
      var dekBytes :- AesKey(keys, dek);
      var nk :- AesKey(keys, newKey);
      var scratch := new byte[ENC_KEY_BLOCK_MAX](_ => 0);
      var iv := Zeros(BLOCK);
      if |nk| % BLOCK == 0 {
        forall i | 0 <= i < |nk| {
          scratch[i] := nk[i];
        }
        assert scratch[..|nk|] == nk;
        AlignedIsMod(|nk|, BLOCK);
        CbcEncryptInPlace(suite.aes, dekBytes, iv, scratch, |nk|);
        return Ok(scratch[..|nk|]);
      }
      var ct := PadAndEncrypt(suite.aes, dekBytes, iv, nk, scratch);
      return Ok(ct);
    }

    // ---- SCP02 ----

    method Scp02DeriveSession(encKey: nat, macKey: nat, dekKey: nat, seqCounter: bytes)
      returns (r: Result<nat, BackendError>)
      requires Valid() && |seqCounter| == 2
      modifies this`scp02Sessions
      ensures Valid()
      ensures match Scp02Derived(suite, keys, encKey, macKey, dekKey, seqCounter)
              case Err(e) => r == Err(e) && scp02Sessions == old(scp02Sessions)
              case Ok(slot) =>
                var (t, reply) := Step(Scp02Engine(suite), old(scp02Sessions), Derive(slot));
                scp02Sessions == t && reply == if r.Ok? then Opened(r.value) else Failed(r.error)
    {
      var slot :- Scp02Derived(suite, keys, encKey, macKey, dekKey, seqCounter);
      var idx := FindFree(scp02Sessions);
      if idx.None? {
        return Err(TableFull);
      }
      scp02Sessions := scp02Sessions[idx.value := Some(slot)];
      return Ok(idx.value);
    }

    /** `scp02_cryptogram`: the triple-DES MAC of both challenges. */
    method Scp02Cryptogram(h: nat, head: bytes, tail: bytes) returns (r: Result<bytes, BackendError>)
      requires Valid() && |head| == |tail| == 8
      ensures r.Ok? <==> SlotAt(scp02Sessions, h).Some?
      ensures r.Ok? ==> r.value == TdesCbcMac(suite.des, SlotAt(scp02Sessions, h).value.sEnc, Zeros(8), head + tail)
      ensures r.Err? ==> r.error == SessionInvalid
    {
      if SlotAt(scp02Sessions, h).None? {
        return Err(SessionInvalid);
      }
      var slot := SlotAt(scp02Sessions, h).value;
      var scratch := new byte[24](_ => 0);
      var mac := TdesMac(suite.des, slot.sEnc, Zeros(8), head + tail, scratch);
      return Ok(mac.value);
    }

    /** The Retail MAC of a command under the chained ICV. */
    method Scp02CommandMac(slot: Scp02.Slot, c: Command) returns (cmac: bytes)
      requires |c.data| + 8 <= 255
      ensures cmac == MacAlgorithm3(suite.des, slot.sMac,
                                    Scp02.NextIcv(suite, slot.sMac, slot.icv, slot.icvValid), Scp02.MacInput(c))
      ensures |cmac| == DES_BLOCK
    {
      var icv := Zeros(DES_BLOCK);
      if slot.icvValid {
        icv := EcbBlock(suite.des, slot.sMac[..DES_BLOCK], slot.icv);
      }
      var scratch := new byte[5 + 255 + DES_BLOCK](_ => 0);
      var mac := RetailMac(suite.des, slot.sMac, icv, Scp02.MacInput(c), scratch);
      cmac := mac.value;
    }

    /** Three pushes whose results the source ignores; none of them can fail. */
    static method AccumulateCommand(c: Command) returns (buf: bytes)
      requires |c.data| <= 255
      ensures buf == Scp02.Stripped(c) && |buf| <= Scp02.SCP02_RMAC_BUF_MAX
    {
      buf := [];
      buf := PushIgnored(buf, [c.cla - c.cla % 8, c.ins, c.p1, c.p2], Scp02.SCP02_RMAC_BUF_MAX);
      buf := PushIgnored(buf, [|c.data|], Scp02.SCP02_RMAC_BUF_MAX);
      buf := PushIgnored(buf, c.data, Scp02.SCP02_RMAC_BUF_MAX);
    }

    method Scp02WrapCommand(h: nat, capdu: bytes) returns (r: Result<bytes, BackendError>)
      requires Valid()
      modifies this`scp02Sessions
      ensures Valid()
      ensures (scp02Sessions, AsReply(r)) == Step(Scp02Engine(suite), old(scp02Sessions), Wrap(h, capdu))
    {
      hide CbcEncrypt, Pad, MacAlgorithm3, Tdes, Scp02.NextIcv, Scp02.MacInput, Scp02.Stripped;
      StoreUnchanged(scp02Sessions, h);
      if |capdu| < 4 {
        return Err(HeaderTooShort);
      }
      if SlotAt(scp02Sessions, h).None? {
        return Err(SessionInvalid);
      }
      var slot := SlotAt(scp02Sessions, h).value;
      var c :- Split(capdu);
      if !slot.authed && c.ins != EXTERNAL_AUTHENTICATE {
        return Err(FirstNotExternalAuthenticate);
      }
      if |c.data| + 8 > 255 {
        return Err(WrappedLcTooLong);
      }
      var cmac := Scp02CommandMac(slot, c);
      var body := c.data;
      if slot.authed && HasBit(slot.level, Scp02.SL_CDEC) && c.data != [] {
        var scratch := new byte[CAPDU_MAX](_ => 0);
        body := PadAndEncrypt(Tdes(suite.des), slot.sEnc, Zeros(8), c.data, scratch);
      }
      assert body == Scp02.WireBody(suite, slot, c.data);
      if |body| + 8 > 255 {
        return Err(WrappedLcTooLong);
      }
      var out := [SecureCla(c.cla), c.ins, c.p1, c.p2, |body| + 8] + body + cmac;

      var latched := if slot.authed then slot.level else c.p1;
      var ricv := if slot.authed then slot.ricv else cmac;
      var rmacBuf := slot.rmacBuf;
      if slot.authed && HasBit(latched, Scp02.SL_RMAC) {
        rmacBuf := AccumulateCommand(c);
      }
      var after: Scp02.Slot := slot.(icv := cmac, icvValid := true, level := latched,
                         ricv := ricv, rmacBuf := rmacBuf, authed := true);
      assert Scp02.Wrap(suite, slot, capdu) == Ok((out, after));
      scp02Sessions := scp02Sessions[h := Some(after)];
      return Ok(out);
    }

    /** `unwrap_rmac`. */
    method Scp02VerifyRmac(slot: Scp02.Slot, rapdu: bytes) returns (r: Result<(bytes, bytes), BackendError>)
      requires |rapdu| >= 2
      ensures r == Scp02.UnwrapRmac(suite, slot, rapdu)
    {
      var body, sw := rapdu[..|rapdu| - 2], rapdu[|rapdu| - 2..];
      if |body| < 8 {
        return Err(RmacMissing);
      }
      var respLen := |body| - 8;
      var data, received := body[..respLen], body[respLen..];
      var input := slot.rmacBuf + [respLen % 256] + data + sw;
      if |input| > Scp02.SCP02_RMAC_BUF_MAX + 3 {
        return Err(BufferOverflow);
      }
      var scratch := new byte[Scp02.SCP02_RMAC_BUF_MAX + 3 + DES_BLOCK](_ => 0);
      var mac := RetailMac(suite.des, slot.sRmac, slot.ricv, input, scratch);
      if mac.value != received {
        return Err(RmacMismatch);
      }
      if |data| + 2 > RAPDU_MAX {
        return Err(BufferOverflow);
      }
      return Ok((data + sw, mac.value));
    }

    method Scp02UnwrapResponse(h: nat, rapdu: bytes) returns (r: Result<bytes, BackendError>)
      requires Valid()
      modifies this`scp02Sessions
      ensures Valid()
      ensures (scp02Sessions, AsReply(r)) == Step(Scp02Engine(suite), old(scp02Sessions), Unwrap(h, rapdu))
    {
      StoreUnchanged(scp02Sessions, h);
      if SlotAt(scp02Sessions, h).None? {
        return Err(SessionInvalid);
      }
      var slot := SlotAt(scp02Sessions, h).value;
      var ricv := slot.ricv;
      if !slot.authed {
        r := Err(Unauthenticated);
      } else if |rapdu| < 2 {
        r := Err(ResponseTooShort);
      } else if HasBit(slot.level, Scp02.SL_RMAC) {
        var v := Scp02VerifyRmac(slot, rapdu);
        if v.Ok? {
          r, ricv := Ok(v.value.0), v.value.1;
        } else {
          r := Err(v.error);
        }
      } else if |rapdu| > RAPDU_MAX {
        r := Err(BufferOverflow);
      } else {
        r := Ok(rapdu);
      }
      if r.Ok? {
        scp02Sessions := scp02Sessions[h := Some(slot.(ricv := ricv, rmacBuf := []))];
      } else {
        scp02Sessions := scp02Sessions[h := None];
      }
    }

    method Scp02CloseSession(h: nat)
      requires Valid()
      modifies this`scp02Sessions
      ensures Valid()
      ensures scp02Sessions == Step(Scp02Engine(suite), old(scp02Sessions), Close(h)).0
    {
      if h < |scp02Sessions| {
        scp02Sessions := scp02Sessions[h := None];
      }
    }

    /** PUT KEY under the session's own DEK, one independent block at a time. */
    method Scp02EncryptPutKeyPayload(h: nat, newKey: nat) returns (r: Result<bytes, BackendError>)
      requires Valid()
      ensures r.Ok? <==> SlotAt(scp02Sessions, h).Some? && TdesKey(keys, newKey).Ok?
      ensures r.Ok? ==>
                r.value == EcbEncrypt(Tdes(suite.des), SlotAt(scp02Sessions, h).value.sDek, TdesKey(keys, newKey).value)
    {
      if SlotAt(scp02Sessions, h).None? {
        return Err(SessionInvalid);
      }
      var dek := SlotAt(scp02Sessions, h).value.sDek;
      var nk :- TdesKey(keys, newKey);
      var out: bytes := [];
      var i := 0;
      while i < |nk|
        invariant 0 <= i <= |nk| == 16 && i % DES_BLOCK == 0
        invariant out == EcbEncrypt(Tdes(suite.des), dek, nk[..i])
      {
        var block := nk[i..i + DES_BLOCK];
        var enc := EcbBlock(Tdes(suite.des), dek, block);
        AlignedIsMod(i, DES_BLOCK);
        EcbSnoc(Tdes(suite.des), dek, nk[..i], block);
        assert nk[..i] + block == nk[..i + DES_BLOCK];
        out := out + enc;
        i := i + DES_BLOCK;
      }
      assert nk[..i] == nk;
      return Ok(out);
    }
  }
}
