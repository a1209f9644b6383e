/** SCP02 secure messaging (`scp02.rs`): what one wrap and one unwrap do to a session slot. */
module Scp02 {
  import opened Bytes
  import opened Wrappers
  import opened Crypto
  import opened Scp

  const SL_CDEC: byte := 0x02
  const SL_RMAC: byte := 0x10
  const SCP02_KEY_LEN: nat := 16
  const MAC_LEN: nat := 8
  const SCP02_RMAC_BUF_MAX: nat := CAPDU_MAX + RAPDU_MAX

  datatype RawSlot = Slot(
    sEnc: bytes, sMac: bytes, sRmac: bytes, sDek: bytes,
    icv: bytes, icvValid: bool, ricv: bytes, rmacBuf: bytes, level: byte, authed: bool)

  type Slot = s: RawSlot |
      && |s.sEnc| == |s.sMac| == |s.sRmac| == |s.sDek| == SCP02_KEY_LEN
      && |s.icv| == |s.ricv| == DES_BLOCK
      && |s.rmacBuf| <= SCP02_RMAC_BUF_MAX
    witness Slot(Zeros(16), Zeros(16), Zeros(16), Zeros(16), Zeros(8), false, Zeros(8), [], 0, false)

  /** A two-key triple DES key. */
  type Key16 = k: bytes | |k| == SCP02_KEY_LEN witness Zeros(16)

  function FreshSlot(sEnc: Key16, sMac: Key16, sRmac: Key16, sDek: Key16): Slot {
    Slot(sEnc, sMac, sRmac, sDek, Zeros(8), false, Zeros(8), [], 0, false)
  }

  // ---- Wrap ----

  /** The C-MAC starting value: zero first, then the previous C-MAC under single DES. */
  function NextIcv(s: Suite, sMac: Key16, icv: bytes, icvValid: bool): (iv: bytes)
    requires |icv| == DES_BLOCK
    ensures |iv| == DES_BLOCK
  {
    if icvValid then s.des.enc(sMac[..8], icv) else Zeros(8)
  }

  /** The bytes under the C-MAC: the modified header, Lc counting the MAC, then plaintext data. */
  function MacInput(c: Command): bytes
    requires |c.data| + MAC_LEN <= 255
  {
    [SecureCla(c.cla), c.ins, c.p1, c.p2, |c.data| + MAC_LEN] + c.data
  }

  predicate Encrypts(slot: Slot, data: bytes) {
    slot.authed && HasBit(slot.level, SL_CDEC) && data != []
  }

  function WireBody(s: Suite, slot: Slot, data: bytes): bytes {
    if Encrypts(slot, data) then CbcEncrypt(Tdes(s.des), slot.sEnc, Zeros(8), Pad(DES_BLOCK, data)) else data
  }

  /** The command as the R-MAC covers it: class byte without secure messaging, Lc always present. */
  function Stripped(c: Command): bytes
    requires |c.data| <= 255
  {
    [c.cla - c.cla % 8, c.ins, c.p1, c.p2, |c.data|] + c.data
  }

  function Wrap(s: Suite, slot: Slot, capdu: bytes): Result<(bytes, Slot), BackendError> {
    var c :- Split(capdu);
    if !slot.authed && c.ins != EXTERNAL_AUTHENTICATE then Err(FirstNotExternalAuthenticate)
    else if |c.data| + MAC_LEN > 255 then Err(WrappedLcTooLong)
    else
      var cmac := MacAlgorithm3(s.des, slot.sMac, NextIcv(s, slot.sMac, slot.icv, slot.icvValid), MacInput(c));
      var body := WireBody(s, slot, c.data);
      if |body| + MAC_LEN > 255 then Err(WrappedLcTooLong)
      else
        var wire := [SecureCla(c.cla), c.ins, c.p1, c.p2, |body| + MAC_LEN] + body + cmac;
        Ok((wire, slot.(icv := cmac, icvValid := true,
                        level := if slot.authed then slot.level else c.p1,
                        ricv := if slot.authed then slot.ricv else cmac,
                        rmacBuf := if slot.authed && HasBit(slot.level, SL_RMAC) then Stripped(c) else slot.rmacBuf,
                        authed := true)))
  }

  // ---- Unwrap ----

  /** The bytes under the R-MAC. */
  function RmacInput(rmacCmd: bytes, data: bytes, sw: bytes): bytes {
    rmacCmd + [|data| % 256] + data + sw
  }

  /** Verify and strip the R-MAC; the result carries the new chaining value. */
  function UnwrapRmac(s: Suite, slot: Slot, rapdu: bytes): Result<(bytes, bytes), BackendError>
    requires |rapdu| >= 2
  {
    var body, sw := rapdu[..|rapdu| - 2], rapdu[|rapdu| - 2..];
    if |body| < MAC_LEN then Err(RmacMissing)
    else
      var data, tag := body[..|body| - MAC_LEN], body[|body| - MAC_LEN..];
      var input := RmacInput(slot.rmacBuf, data, sw);
      if |input| > SCP02_RMAC_BUF_MAX + 3 then Err(BufferOverflow)
      else
        var mac := MacAlgorithm3(s.des, slot.sRmac, slot.ricv, input);
        if mac != tag then Err(RmacMismatch)
        else if |data| + 2 > RAPDU_MAX then Err(BufferOverflow)
        else Ok((data + sw, mac))
  }

  function Unwrap(s: Suite, slot: Slot, rapdu: bytes): (r: Result<(bytes, Slot), BackendError>)
    ensures r.Ok? ==>
              && 2 <= |r.value.0| <= RAPDU_MAX && 2 <= |rapdu|
              && r.value.0[|r.value.0| - 2..] == rapdu[|rapdu| - 2..]
  {
    if !slot.authed then Err(Unauthenticated)
    else if |rapdu| < 2 then Err(ResponseTooShort)
    else if HasBit(slot.level, SL_RMAC) then
      var (out, mac) :- UnwrapRmac(s, slot, rapdu);
      Ok((out, slot.(ricv := mac, rmacBuf := [])))
    else if |rapdu| > RAPDU_MAX then Err(BufferOverflow)
    else Ok((rapdu, slot.(rmacBuf := [])))
  }

  // ---- What a short APDU can carry ----

  /** The bits of a level: 02 C-DECRYPTION, 10 R-MAC. */
  lemma LevelBits(level: byte)
    ensures HasBit(level, SL_CDEC) <==> And(level, 0x02) != 0
    ensures HasBit(level, SL_RMAC) <==> And(level, 0x10) != 0
  {
    BitIsMask(level, 1);
    BitIsMask(level, 4);
    assert Pow2(1) == 0x02 && Pow2(4) == 0x10;
  }

  function BodyLen(level: byte, dataLen: nat): nat {
    if And(level, 0x02) != 0 && dataLen > 0 then 8 * (dataLen / 8 + 1) else dataLen
  }

  predicate Accepts(level: byte, capdu: bytes) {
    Split(capdu).Ok? && BodyLen(level, |Split(capdu).value.data|) + 8 <= 255
  }

  lemma WireBodyLen(s: Suite, slot: Slot, data: bytes)
    requires slot.authed
    ensures |WireBody(s, slot, data)| == BodyLen(slot.level, |data|)
  {
    LevelBits(slot.level);
    if Encrypts(slot, data) {
      PaddedAligned(DES_BLOCK, |data|);
      CbcLength(Tdes(s.des), slot.sEnc, Zeros(8), Pad(DES_BLOCK, data));
    }
  }

  /** An authenticated session accepts a command exactly when it fits a short APDU; Le plays no part. */
  lemma AcceptedExactly(s: Suite, slot: Slot, capdu: bytes)
    requires slot.authed
    ensures Wrap(s, slot, capdu).Ok? <==> Accepts(slot.level, capdu)
    ensures Wrap(s, slot, capdu).Ok? ==> |Wrap(s, slot, capdu).value.0| <= 260
    ensures Wrap(s, slot, capdu).Err? ==>
              Wrap(s, slot, capdu).error == if Split(capdu).Err? then Split(capdu).error else WrappedLcTooLong
  {
    if Split(capdu).Ok? {
      WireBodyLen(s, slot, Split(capdu).value.data);
    }
  }

  /** The bound in bytes: 239 under C-DECRYPTION, 247 otherwise. */
  lemma ShortApduBound(s: Suite, slot: Slot, capdu: bytes)
    requires slot.authed && Split(capdu).Ok?
    ensures Wrap(s, slot, capdu).Ok? <==>
              |Split(capdu).value.data| <= if And(slot.level, 0x02) != 0 then 239 else 247
  {
    AcceptedExactly(s, slot, capdu);
  }
}
