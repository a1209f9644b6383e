/**
 SCP03 secure messaging (`scp03.rs`): what one wrap and one unwrap do to a session slot, as functions
 of the slot. The methods that update the session table are in `Backend`.
 */
module Scp03 {
  import opened Bytes
  import opened Wrappers
  import opened Crypto
  import opened Scp

  const SL_CENC: byte := 0x02
  const SL_RMAC: byte := 0x10
  const SL_RENC: byte := 0x20
  const MAC_CHAIN_LEN: nat := 16
  /** One past the largest command counter, a `u32`. */
  const COUNTER_LIMIT: nat := 0x1_0000_0000

  datatype ScpMode = S8 | S16 {
    /** Challenge, cryptogram and appended-MAC length. */
    function FieldLen(): nat {
      if S8? then 8 else 16
    }

    /** Derived length in bits of a challenge or cryptogram. */
    function LBits(): nat {
      if S8? then 0x40 else 0x80
    }
  }

  datatype RawSlot = Slot(
    sEnc: bytes, sMac: bytes, sRmac: bytes, mode: ScpMode,
    chain: bytes, counter: nat, level: byte, authed: bool)

  type Slot = s: RawSlot | |s.chain| == MAC_CHAIN_LEN && s.counter < COUNTER_LIMIT
    witness Slot([], [], [], S8, Zeros(16), 0, 0, false)

  /** The slot `derive` stores: pre-authentication, zero chain and counter. */
  function FreshSlot(sEnc: bytes, sMac: bytes, sRmac: bytes, mode: ScpMode): Slot {
    Slot(sEnc, sMac, sRmac, mode, Zeros(MAC_CHAIN_LEN), 0, 0, false)
  }

  /** The block encrypted to give a CBC ICV. */
  function CounterBlock(counter: nat, response: bool): (b: bytes)
    ensures |b| == BLOCK
  {
    [if response then 0x80 else 0x00] + Zeros(11) + ToBigEndian(counter, 4)
  }

  function Icv(s: Suite, key: bytes, counter: nat, response: bool): (b: bytes)
    ensures |b| == BLOCK
  {
    s.aes.enc(key, CounterBlock(counter, response))
  }

  // ---- Wrap ----

  /** C-DECRYPTION applies once authenticated, at a level that asks for it, to non-empty data. */
  predicate Encrypts(slot: Slot, data: bytes) {
    slot.authed && HasBit(slot.level, SL_CENC) && data != []
  }

  function WireBody(s: Suite, slot: Slot, data: bytes): bytes {
    if Encrypts(slot, data) then
      CbcEncrypt(s.aes, slot.sEnc, Icv(s, slot.sEnc, slot.counter + 1, false), Pad(BLOCK, data))
    else data
  }

  function CommandMac(s: Suite, slot: Slot, header: bytes, body: bytes): (mac: bytes)
    ensures |mac| == BLOCK
  {
    s.cmac(slot.sMac, slot.chain + header + body)
  }

  function Header(c: Command, lc: byte): bytes {
    [SecureCla(c.cla), c.ins, c.p1, c.p2, lc]
  }

  /** The wire command and the slot it leaves, or the reason nothing changes. */
  function Wrap(s: Suite, slot: Slot, capdu: bytes): Result<(bytes, Slot), BackendError> {
    var c :- Split(capdu);
    if slot.authed && slot.counter + 1 >= COUNTER_LIMIT then Err(CounterOverflow)
    else if !slot.authed && c.ins != EXTERNAL_AUTHENTICATE then Err(FirstNotExternalAuthenticate)
    else
      var body := WireBody(s, slot, c.data);
      var macLen := slot.mode.FieldLen();
      if |body| + macLen > 255 then Err(WrappedLcTooLong)
      else
        var header := Header(c, |body| + macLen);
        var mac := CommandMac(s, slot, header, body);
        var wire := header + body + mac[..macLen] + c.le;
        if |wire| > CAPDU_MAX then Err(BufferOverflow)
        else
          Ok((wire, slot.(chain := mac,
                          counter := if slot.authed then slot.counter + 1 else slot.counter,
                          level := if slot.authed then slot.level else c.p1,
                          authed := true)))
  }

  // ---- Unwrap ----

  /** Only 9000 and the warnings 62xx and 63xx are protected. */
  predicate SwIsProtected(sw: StatusWord) {
    sw == [0x90, 0x00] || sw[0] == 0x62 || sw[0] == 0x63
  }

  function ResponseMac(s: Suite, slot: Slot, data: bytes, sw: bytes): (mac: bytes)
    ensures |mac| == BLOCK
  {
    s.cmac(slot.sRmac, slot.chain + data + sw)
  }

  /** Verify and strip the R-MAC where one is due. */
  function Verified(s: Suite, slot: Slot, body: bytes, sw: StatusWord): Result<bytes, BackendError> {
    if HasBit(slot.level, SL_RMAC) && SwIsProtected(sw) then
      var macLen := slot.mode.FieldLen();
      if |body| < macLen then Err(RmacMissing)
      else
        var data := body[..|body| - macLen];
        if |data| + 2 > RAPDU_MAX then Err(BufferOverflow)
        else if ResponseMac(s, slot, data, sw)[..macLen] != body[|body| - macLen..] then Err(RmacMismatch)
        else Ok(data)
    else Ok(body)
  }

  /** Decrypt and unpad where R-ENC is due. */
  function Decrypted(s: Suite, slot: Slot, data: bytes, sw: StatusWord): Result<bytes, BackendError> {
    if HasBit(slot.level, SL_RENC) && SwIsProtected(sw) && data != [] then
      if |data| % BLOCK != 0 then Err(ResponseUnaligned)
      else if |data| > RAPDU_MAX then Err(ResponseTooLarge)
      else
        match Unpad(CbcDecrypt(s.aes, slot.sEnc, Icv(s, slot.sEnc, slot.counter, true), data))
        case None => Err(BadPadding)
        case Some(plain) => Ok(plain)
    else Ok(data)
  }

  function Unwrap(s: Suite, slot: Slot, rapdu: bytes): (r: Result<bytes, BackendError>)
    ensures r.Ok? ==> 2 <= |r.value| <= RAPDU_MAX && 2 <= |rapdu| && r.value[|r.value| - 2..] == rapdu[|rapdu| - 2..]
  {
    if !slot.authed then Err(Unauthenticated)
    else if |rapdu| < 2 then Err(ResponseTooShort)
    else
      var body, sw := rapdu[..|rapdu| - 2], rapdu[|rapdu| - 2..];
      var data :- Verified(s, slot, body, sw);
      var plain :- Decrypted(s, slot, data, sw);
      if |plain| + 2 > RAPDU_MAX then Err(BufferOverflow)
      else Ok(plain + sw)
  }

  // ---- What a short APDU can carry ----

  /** The bits of a level: 02 C-DECRYPTION, 10 R-MAC, 20 R-ENCRYPTION. */
  lemma LevelBits(level: byte)
    ensures HasBit(level, SL_CENC) <==> And(level, 0x02) != 0
    ensures HasBit(level, SL_RMAC) <==> And(level, 0x10) != 0
    ensures HasBit(level, SL_RENC) <==> And(level, 0x20) != 0
  {
    BitIsMask(level, 1);
    BitIsMask(level, 4);
    BitIsMask(level, 5);
    assert Pow2(1) == 0x02 && Pow2(4) == 0x10 && Pow2(5) == 0x20;
  }

  /** Length of the command data field on the wire, before the MAC. */
  function BodyLen(level: byte, dataLen: nat): nat {
    if And(level, 0x02) != 0 && dataLen > 0 then 16 * (dataLen / 16 + 1) else dataLen
  }

  /** Length of a MAC on the wire. */
  function MacLen(mode: ScpMode): nat {
    match mode
    case S8 => 8
    case S16 => 16
  }

  /** Everything acceptance depends on in an authenticated session; no key and no chain. */
  predicate Accepts(level: byte, mode: ScpMode, counter: nat, capdu: bytes) {
    && Split(capdu).Ok?
    && counter < 0xFFFF_FFFF
    && BodyLen(level, |Split(capdu).value.data|) + MacLen(mode) <= 255
    && 5 + BodyLen(level, |Split(capdu).value.data|) + MacLen(mode) + |Split(capdu).value.le| <= 261
  }

  lemma WireBodyLen(s: Suite, slot: Slot, data: bytes)
    requires slot.authed
    ensures |WireBody(s, slot, data)| == BodyLen(slot.level, |data|)
  {
    LevelBits(slot.level);
    if Encrypts(slot, data) {
      PaddedAligned(BLOCK, |data|);
      CbcLength(s.aes, slot.sEnc, Icv(s, slot.sEnc, slot.counter + 1, false), Pad(BLOCK, data));
    }
  }

  /** An authenticated session accepts a command exactly when it fits a short APDU. */
  lemma AcceptedExactly(s: Suite, slot: Slot, capdu: bytes)
    requires slot.authed
    ensures Wrap(s, slot, capdu).Ok? <==> Accepts(slot.level, slot.mode, slot.counter, capdu)
  {
    hide WireBody, CommandMac, Split, BodyLen;
    if Split(capdu).Ok? {
      WireBodyLen(s, slot, Split(capdu).value.data);
    }
  }

  /**
   The bound in bytes for a well-formed command with at most one Le byte: 247 and 239 in the clear,
   239 and 223 under C-DECRYPTION, for 8- and 16-byte MACs.
   */
  lemma ShortApduBound(s: Suite, slot: Slot, capdu: bytes)
    requires slot.authed && slot.counter < 0xFFFF_FFFF
    requires Split(capdu).Ok? && |Split(capdu).value.le| <= 1
    ensures Wrap(s, slot, capdu).Ok? <==>
              |Split(capdu).value.data| <= (if And(slot.level, 0x02) != 0
                                            then (if slot.mode.S8? then 239 else 223)
                                            else (if slot.mode.S8? then 247 else 239))
  {
    AcceptedExactly(s, slot, capdu);
  }

  // ---- Invariants of one step ----

  /** An authenticated slot keeps its keys, mode and level, whatever is wrapped. */
  lemma WrapKeepsLevel(s: Suite, slot: Slot, capdu: bytes)
    requires slot.authed && Wrap(s, slot, capdu).Ok?
    ensures var after := Wrap(s, slot, capdu).value.1;
            after == slot.(chain := after.chain, counter := slot.counter + 1)
  {
  }
}
