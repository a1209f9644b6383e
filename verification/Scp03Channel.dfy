/**
 The two ends of an SCP03 channel. The card is an independent peer that follows the chaining rules of
 sections 6.2.3 to 6.2.7 of GlobalPlatform Amendment D; the host is `Scp03`. Whole runs are proved
 equal to an ideal channel in which no cryptography happens.
 */
module Scp03Channel {
  import opened Bytes
  import opened Wrappers
  import opened Crypto
  import opened Scp
  import opened Scp03

  // ---- The card ----

  /** The bits of `level` are 02 for C-DECRYPTION, 10 for R-MAC and 20 for R-ENCRYPTION. */
  datatype Card = Card(
    sEnc: bytes, sMac: bytes, sRmac: bytes, mode: ScpMode,
    chain: bytes, counter: nat, level: byte, authed: bool)

  /** Split a wire command into MACed bytes, body, MAC and Le. */
  function Fields(card: Card, wire: bytes): Option<(bytes, bytes, bytes, bytes)> {
    if |wire| < 5 then None
    else
      var lc, macLen := wire[4], MacLen(card.mode);
      if lc < macLen || |wire| < 5 + lc then None
      else Some((wire[..5], wire[5..5 + lc - macLen], wire[5 + lc - macLen..5 + lc], wire[5 + lc..]))
  }

  /** The ICV of section 6.2.6: the counter as a 16-byte number, encrypted; responses force the first byte to 80. */
  function CardIcv(s: Suite, card: Card, counter: nat, response: bool): (b: bytes)
    ensures |b| == BLOCK
  {
    var number := ToBigEndian(counter, BLOCK);
    s.aes.enc(card.sEnc, if response then number[0 := 0x80] else number)
  }

  /** Section 6.2.5: a response is protected when its status word is 9000 or a warning. */
  predicate Protects(sw: StatusWord) {
    var n := FromBigEndian(sw);
    n == 0x9000 || 0x6200 <= n < 0x6400
  }

  /** Recover the plaintext data of a verified command numbered `counter`. */
  function Plain(s: Suite, card: Card, body: bytes, counter: nat): Option<bytes> {
    if card.authed && And(card.level, 0x02) != 0 && body != [] then
      Unpad(CbcDecrypt(s.aes, card.sEnc, CardIcv(s, card, counter, false), body))
    else Some(body)
  }

  /** Verify the C-MAC, decrypt, and step the chain; a bad command is not answered. */
  function Receive(s: Suite, card: Card, wire: bytes): Option<(Command, Card)> {
    match Fields(card, wire)
    case None => None
    case Some((header, body, mac, le)) =>
      var full := s.cmac(card.sMac, card.chain + header + body);
      if full[..MacLen(card.mode)] != mac then None
      else
        var counter := if card.authed then card.counter + 1 else 0;
        match Plain(s, card, body, counter)
        case None => None
        case Some(data) =>
          Some((Command(header[0], header[1], header[2], header[3], data, le),
                card.(chain := full, counter := counter,
                      level := if card.authed then card.level else header[2], authed := true)))
  }

  /** The response data as the card encrypts it. */
  function Sealed(s: Suite, card: Card, reply: bytes): bytes {
    if And(card.level, 0x20) != 0 && reply != [] then
      CbcEncrypt(s.aes, card.sEnc, CardIcv(s, card, card.counter, true), Pad(BLOCK, reply))
    else reply
  }

  /** The R-MAC over a response whose data field is `data`. */
  function CardRmac(s: Suite, card: Card, data: bytes, sw: StatusWord): bytes {
    s.cmac(card.sRmac, card.chain + data + sw)[..MacLen(card.mode)]
  }

  /** Encrypt and MAC a response where the level and status word ask for it. */
  function Respond(s: Suite, card: Card, reply: bytes, sw: StatusWord): bytes {
    if !Protects(sw) then reply + sw
    else
      var data := Sealed(s, card, reply);
      data + (if And(card.level, 0x10) != 0 then CardRmac(s, card, data, sw) else []) + sw
  }

  /** Both ends hold the same keys, mode, chain, counter and level. */
  predicate InStep(slot: Slot, card: Card) {
    card == Card(slot.sEnc, slot.sMac, slot.sRmac, slot.mode, slot.chain, slot.counter, slot.level, slot.authed)
  }

  // ---- The host's forms are the card's ----

  /** A counter below 2^32 fills the last four bytes of its block. */
  lemma CounterFillsLowBytes(counter: nat)
    requires counter < COUNTER_LIMIT
    ensures ToBigEndian(counter, BLOCK) == Zeros(12) + ToBigEndian(counter, 4)
  {
    HighBytesZero(counter / 256 / 256 / 256 / 256, 12);
    assert ToBigEndian(counter, 16) == ToBigEndian(counter / 256, 15) + [counter % 256];
    assert ToBigEndian(counter / 256, 15) == ToBigEndian(counter / 256 / 256, 14) + [counter / 256 % 256];
    assert ToBigEndian(counter / 256 / 256, 14)
      == ToBigEndian(counter / 256 / 256 / 256, 13) + [counter / 256 / 256 % 256];
    assert ToBigEndian(counter / 256 / 256 / 256, 13)
      == ToBigEndian(counter / 256 / 256 / 256 / 256, 12) + [counter / 256 / 256 / 256 % 256];
    assert ToBigEndian(counter, 4) == ToBigEndian(counter / 256, 3) + [counter % 256];
    assert ToBigEndian(counter / 256, 3) == ToBigEndian(counter / 256 / 256, 2) + [counter / 256 % 256];
    assert ToBigEndian(counter / 256 / 256, 2)
      == ToBigEndian(counter / 256 / 256 / 256, 1) + [counter / 256 / 256 % 256];
    assert ToBigEndian(counter / 256 / 256 / 256, 1) == [counter / 256 / 256 / 256 % 256];
  }

  lemma {:induction false} HighBytesZero(n: nat, width: nat)
    requires n == 0
    ensures ToBigEndian(n, width) == Zeros(width)
  {
    if width > 0 {
      HighBytesZero(n / 256, width - 1);
    }
  }

  /** The host's counter blocks give the ICVs the card uses. */
  lemma IcvsAgree(s: Suite, card: Card, counter: nat, response: bool)
    requires counter < COUNTER_LIMIT
    ensures Icv(s, card.sEnc, counter, response) == CardIcv(s, card, counter, response)
  {
    CounterFillsLowBytes(counter);
    var number := ToBigEndian(counter, BLOCK);
    assert CounterBlock(counter, false) == number;
    assert CounterBlock(counter, true) == number[0 := 0x80];
  }

  /** The host's byte patterns are the card's status-word ranges. */
  lemma ProtectionAgrees(sw: StatusWord)
    ensures SwIsProtected(sw) <==> Protects(sw)
  {
    assert FromBigEndian(sw[..1]) == 256 * FromBigEndian(sw[..0]) + sw[0];
    assert sw[..|sw| - 1] == sw[..1];
  }

  // ---- One command ----

  /** Encrypting and then decrypting under one ICV recovers padded data. */
  lemma PaddedCbcRoundTrip(s: Suite, key: bytes, icv: bytes, data: bytes)
    requires |icv| == BLOCK
    ensures var ct := CbcEncrypt(s.aes, key, icv, Pad(BLOCK, data));
            |ct| == PaddedLen(BLOCK, |data|) && |ct| % BLOCK == 0
            && Unpad(CbcDecrypt(s.aes, key, icv, ct)) == Some(data)
  {
    PaddedAligned(BLOCK, |data|);
    AlignedIsMod(PaddedLen(BLOCK, |data|), BLOCK);
    CbcLength(s.aes, key, icv, Pad(BLOCK, data));
    CbcRoundTrip(s.aes, key, icv, Pad(BLOCK, data));
    UnpadPad(BLOCK, data);
  }

  lemma BodyRecovered(s: Suite, slot: Slot, card: Card, data: bytes)
    requires InStep(slot, card) && (slot.authed ==> slot.counter + 1 < COUNTER_LIMIT)
    ensures slot.authed ==> Plain(s, card, WireBody(s, slot, data), slot.counter + 1) == Some(data)
    ensures !slot.authed ==> Plain(s, card, WireBody(s, slot, data), 0) == Some(data)
  {
    hide CbcEncrypt, CbcDecrypt, Pad, Unpad, Icv, CardIcv;
    LevelBits(slot.level);
    if Encrypts(slot, data) {
      IcvsAgree(s, card, slot.counter + 1, false);
      PaddedCbcRoundTrip(s, slot.sEnc, Icv(s, slot.sEnc, slot.counter + 1, false), data);
    }
  }

  /** The card finds the fields where the host put them. */
  lemma FieldsFound(card: Card, header: bytes, body: bytes, mac: bytes, le: bytes)
    requires |header| == 5 && |mac| == MacLen(card.mode) && header[4] == |body| + |mac|
    ensures Fields(card, header + body + mac + le) == Some((header, body, mac, le))
  {
    var wire := header + body + mac + le;
    var lc := |body| + |mac|;
    assert wire[..5] == header;
    assert wire[5..5 + |body|] == body;
    assert wire[5 + |body|..5 + lc] == mac;
    assert wire[5 + lc..] == le;
  }

  /**
   A card in step accepts whatever the host wraps, recovers header, data and trailing Le exactly, and
   both ends step to equal states.
   */
  lemma CommandArrives(s: Suite, slot: Slot, card: Card, capdu: bytes)
    requires InStep(slot, card) && (slot.authed || slot.counter == 0)
    requires Wrap(s, slot, capdu).Ok?
    ensures var (wire, slot') := Wrap(s, slot, capdu).value;
            var r := Receive(s, card, wire);
            r.Some? && r.value.0 == Secured(Split(capdu).value) && InStep(slot', r.value.1) && slot'.authed
  {
    hide WireBody, Plain, Split, Fields;
    var c := Split(capdu).value;
    var (wire, slot') := Wrap(s, slot, capdu).value;
    var body := WireBody(s, slot, c.data);
    var header := Header(c, |body| + slot.mode.FieldLen());
    var mac := CommandMac(s, slot, header, body);
    FieldsFound(card, header, body, mac[..slot.mode.FieldLen()], c.le);
    BodyRecovered(s, slot, card, c.data);
    SecureClaSets(c.cla);
  }

  // ---- One response ----

  /** Response length on the wire, without the status word. */
  function ReplyLen(level: byte, mode: ScpMode, len: nat, sw: StatusWord): nat {
    if !Protects(sw) then len
    else (if And(level, 0x20) != 0 && len > 0 then 16 * (len / 16 + 1) else len)
         + (if And(level, 0x10) != 0 then MacLen(mode) else 0)
  }

  lemma SealedOpens(s: Suite, slot: Slot, card: Card, reply: bytes, sw: StatusWord)
    requires InStep(slot, card) && Protects(sw)
    requires |Sealed(s, card, reply)| <= 258
    ensures Decrypted(s, slot, Sealed(s, card, reply), sw) == Ok(reply)
  {
    IcvsAgree(s, card, card.counter, true);
    ProtectionAgrees(sw);
    LevelBits(slot.level);
    if And(card.level, 0x20) != 0 && reply != [] {
      PaddedCbcRoundTrip(s, slot.sEnc, CardIcv(s, card, slot.counter, true), reply);
    }
  }

  lemma SealedLen(s: Suite, card: Card, reply: bytes)
    ensures |Sealed(s, card, reply)|
         == if And(card.level, 0x20) != 0 && reply != [] then 16 * (|reply| / 16 + 1) else |reply|
  {
    if And(card.level, 0x20) != 0 && reply != [] {
      PaddedCbcRoundTrip(s, card.sEnc, CardIcv(s, card, card.counter, true), reply);
    }
  }

  /** At an R-MAC level the host verifies a response exactly when its tag is the card's R-MAC over it. */
  lemma VerifiedByCardsRmac(s: Suite, slot: Slot, card: Card, data: bytes, tag: bytes, sw: StatusWord)
    requires InStep(slot, card) && And(slot.level, 0x10) != 0 && Protects(sw)
    requires |tag| == MacLen(slot.mode) && |data| + 2 <= 258
    ensures Verified(s, slot, data + tag, sw)
         == if tag == CardRmac(s, card, data, sw) then Ok(data) else Err(RmacMismatch)
  {
    ProtectionAgrees(sw);
    LevelBits(slot.level);
    assert (data + tag)[..|data|] == data && (data + tag)[|data|..] == tag;
  }

  /**
   The host recovers data and status word exactly from any response of a card in step that fits a
   short R-APDU; an error status word passes bare.
   */
  lemma ResponseArrives(s: Suite, slot: Slot, card: Card, reply: bytes, sw: StatusWord)
    requires InStep(slot, card) && slot.authed
    requires ReplyLen(slot.level, slot.mode, |reply|, sw) + 2 <= 258
    ensures Unwrap(s, slot, Respond(s, card, reply, sw)) == Ok(reply + sw)
    ensures |Respond(s, card, reply, sw)| <= 258
  {
    hide CardRmac, Sealed;
    var rapdu := Respond(s, card, reply, sw);
    var body := rapdu[..|rapdu| - 2];
    ProtectionAgrees(sw);
    LevelBits(slot.level);
    assert rapdu[|rapdu| - 2..] == sw;
    if !Protects(sw) {
      assert body == reply;
    } else {
      var data := Sealed(s, card, reply);
      SealedLen(s, card, reply);
      SealedOpens(s, slot, card, reply, sw);
      if And(card.level, 0x10) != 0 {
        var tag := CardRmac(s, card, data, sw);
        RmacLen(s, card, data, sw);
        assert body == data + tag;
        VerifiedByCardsRmac(s, slot, card, data, tag, sw);
      } else {
        assert body == data;
      }
    }
  }

  lemma RmacLen(s: Suite, card: Card, data: bytes, sw: StatusWord)
    ensures |CardRmac(s, card, data, sw)| == MacLen(card.mode)
  {
  }

  /**
   At an R-MAC level the host accepts the card's data under exactly one tag: the R-MAC the card computes.
   Whatever the data, no other tag is ever accepted.
   */
  lemma ExactlyTheCardsRmac(s: Suite, slot: Slot, card: Card, reply: bytes, data: bytes, tag: bytes, sw: StatusWord)
    requires InStep(slot, card) && slot.authed && And(slot.level, 0x10) != 0 && Protects(sw)
    requires |tag| == MacLen(slot.mode) && |data| + 2 <= 258
    ensures Unwrap(s, slot, data + tag + sw).Ok? ==> tag == CardRmac(s, card, data, sw)
    ensures data == Sealed(s, card, reply) && |reply| + 2 <= 258 ==>
              (Unwrap(s, slot, data + tag + sw).Ok? <==> tag == CardRmac(s, card, data, sw))
  {
    hide CardRmac, Sealed;
    var rapdu := data + tag + sw;
    assert rapdu[..|rapdu| - 2] == data + tag && rapdu[|rapdu| - 2..] == sw;
    VerifiedByCardsRmac(s, slot, card, data, tag, sw);
    if data == Sealed(s, card, reply) {
      SealedOpens(s, slot, card, reply, sw);
    }
  }

  /**
   No card in this one: in every authenticated session whose level has bit 10, what is accepted under 9000
   or a warning ends in the R-MAC over the rest; a shorter response and another tag are refused as such.
   */
  lemma UnverifiedIsRefused(s: Suite, slot: Slot, body: bytes, sw: StatusWord)
    requires slot.authed && And(slot.level, 0x10) != 0 && Protects(sw)
    ensures |body| < MacLen(slot.mode) ==> Unwrap(s, slot, body + sw) == Err(RmacMissing)
    ensures |body| >= MacLen(slot.mode) ==>
              var n := |body| - MacLen(slot.mode);
              body[n..] != s.cmac(slot.sRmac, slot.chain + body[..n] + sw)[..MacLen(slot.mode)] ==>
                Unwrap(s, slot, body + sw) == Err(if n <= 256 then RmacMismatch else BufferOverflow)
  {
    var rapdu := body + sw;
    assert rapdu[..|rapdu| - 2] == body && rapdu[|rapdu| - 2..] == sw;
    ProtectionAgrees(sw);
    LevelBits(slot.level);
  }

  /** A response longer than a short R-APDU and its R-MAC is refused. */
  lemma LongIsRefused(s: Suite, slot: Slot, body: bytes, sw: StatusWord)
    requires slot.authed
    requires |body| > 256 + if And(slot.level, 0x10) != 0 && Protects(sw) then MacLen(slot.mode) else 0
    ensures Unwrap(s, slot, body + sw).Err?
  {
    var rapdu := body + sw;
    assert rapdu[..|rapdu| - 2] == body && rapdu[|rapdu| - 2..] == sw;
    ProtectionAgrees(sw);
    LevelBits(slot.level);
  }

  /**
   Before EXTERNAL AUTHENTICATE no response is believed and nothing else is sent: a first command goes out in
   the clear, and only with INS 82.
   */
  lemma NothingBeforeAuthentication(s: Suite, slot: Slot, capdu: bytes, rapdu: bytes)
    requires !slot.authed
    ensures Unwrap(s, slot, rapdu) == Err(Unauthenticated)
    ensures Wrap(s, slot, capdu).Ok? ==>
              var c, wire := Split(capdu).value, Wrap(s, slot, capdu).value.0;
              c.ins == 0x82 && |wire| >= 5 + |c.data| && wire[5..5 + |c.data|] == c.data
    ensures Split(capdu).Ok? && Split(capdu).value.ins != 0x82 ==>
              Wrap(s, slot, capdu) == Err(FirstNotExternalAuthenticate)
  {
    hide Split, CommandMac;
    if Wrap(s, slot, capdu).Ok? {
      var c, wire := Split(capdu).value, Wrap(s, slot, capdu).value.0;
      var header, mac := Header(c, |c.data| + slot.mode.FieldLen()), wire[5 + |c.data|..];
      assert wire[..5] == header && wire == header + c.data + mac;
    }
  }

  // ---- Opening ----

  /** The card before EXTERNAL AUTHENTICATE, holding the same derived keys. */
  function FreshCard(slot: Slot): Card {
    Card(slot.sEnc, slot.sMac, slot.sRmac, slot.mode, Zeros(16), 0, 0, false)
  }

  /** EXTERNAL AUTHENTICATE puts both ends in step at the level of its P1. */
  lemma AuthenticationLatches(s: Suite, sEnc: bytes, sMac: bytes, sRmac: bytes, mode: ScpMode, capdu: bytes)
    requires Wrap(s, FreshSlot(sEnc, sMac, sRmac, mode), capdu).Ok?
    ensures var slot := FreshSlot(sEnc, sMac, sRmac, mode);
            var (wire, slot') := Wrap(s, slot, capdu).value;
            var r := Receive(s, FreshCard(slot), wire);
            && Split(capdu).value.ins == 0x82
            && r.Some? && r.value.0 == Secured(Split(capdu).value)
            && InStep(slot', r.value.1)
            && slot'.authed && slot'.level == Split(capdu).value.p1 && slot'.counter == 0
  {
    var slot := FreshSlot(sEnc, sMac, sRmac, mode);
    CommandArrives(s, slot, FreshCard(slot), capdu);
  }

  // ---- Whole runs ----

  /** Host and card exchange APDUs; a refused command is never sent, a failure ends the run. */
  function Run(s: Suite, slot: Slot, card: Card, xs: seq<Exchange>): (Slot, Card, seq<Outcome>)
    decreases |xs|
  {
    if xs == [] then (slot, card, [])
    else
      match Wrap(s, slot, xs[0].capdu)
      case Err(e) =>
        var (slot', card', rest) := Run(s, slot, card, xs[1..]);
        (slot', card', [Refused(e)] + rest)
      case Ok((wire, slot1)) =>
        match Receive(s, card, wire)
        case None => (slot1, card, [Broken])
        case Some((seen, card1)) =>
          match Unwrap(s, slot1, Respond(s, card1, xs[0].reply, xs[0].sw))
          case Err(_) => (slot1, card1, [Broken])
          case Ok(received) =>
            var (slot', card', rest) := Run(s, slot1, card1, xs[1..]);
            (slot', card', [Completed(seen, received)] + rest)
  }

  /** Why an authenticated session refuses a command. */
  function Refusal(level: byte, mode: ScpMode, counter: nat, capdu: bytes): BackendError {
    var c := Split(capdu);
    if c.Err? then c.error
    else if counter >= 0xFFFF_FFFF then CounterOverflow
    else if BodyLen(level, |c.value.data|) + MacLen(mode) > 255 then WrappedLcTooLong
    else BufferOverflow
  }

  /** The channel without cryptography: what goes in at one end comes out at the other. */
  function Ideal(level: byte, mode: ScpMode, counter: nat, xs: seq<Exchange>): seq<Outcome>
    decreases |xs|
  {
    if xs == [] then []
    else if Accepts(level, mode, counter, xs[0].capdu) then
      [Completed(Secured(Split(xs[0].capdu).value), xs[0].reply + xs[0].sw)]
      + Ideal(level, mode, counter + 1, xs[1..])
    else [Refused(Refusal(level, mode, counter, xs[0].capdu))] + Ideal(level, mode, counter, xs[1..])
  }

  function Successes(outcomes: seq<Outcome>): nat {
    if outcomes == [] then 0
    else (if outcomes[0].Completed? then 1 else 0) + Successes(outcomes[1..])
  }

  lemma RefusedAsIdeal(s: Suite, slot: Slot, capdu: bytes)
    requires slot.authed && Wrap(s, slot, capdu).Err?
    ensures !Accepts(slot.level, slot.mode, slot.counter, capdu)
    ensures Wrap(s, slot, capdu).error == Refusal(slot.level, slot.mode, slot.counter, capdu)
  {
    AcceptedExactly(s, slot, capdu);
    if Split(capdu).Ok? {
      WireBodyLen(s, slot, Split(capdu).value.data);
    }
  }

  /**
   Lockstep: over every run in an authenticated session, at every level and in both modes, the real
   channel delivers what the ideal channel delivers, both ends end in step, and the counter has
   counted the completed exchanges.
   */
  lemma {:induction false} Lockstep(s: Suite, slot: Slot, card: Card, xs: seq<Exchange>)
    requires InStep(slot, card) && slot.authed
    requires forall x :: x in xs ==> ReplyLen(slot.level, slot.mode, |x.reply|, x.sw) + 2 <= 258
    ensures var (slot', card', outcomes) := Run(s, slot, card, xs);
            && outcomes == Ideal(slot.level, slot.mode, slot.counter, xs)
            && InStep(slot', card') && slot'.authed
            && slot'.level == slot.level && slot'.mode == slot.mode
            && slot'.counter == slot.counter + Successes(outcomes)
    decreases |xs|
  {
    hide Wrap, Receive, Respond, Unwrap, ReplyLen, Split;
    if xs != [] {
      var x := xs[0];
      assert x in xs;
      AcceptedExactly(s, slot, x.capdu);
      if Wrap(s, slot, x.capdu).Err? {
        RefusedAsIdeal(s, slot, x.capdu);
        Lockstep(s, slot, card, xs[1..]);
        var outcomes := Run(s, slot, card, xs).2;
        assert outcomes[1..] == Run(s, slot, card, xs[1..]).2;
      } else {
        var (wire, slot1) := Wrap(s, slot, x.capdu).value;
        CommandArrives(s, slot, card, x.capdu);
        WrapKeepsLevel(s, slot, x.capdu);
        var (seen, card1) := Receive(s, card, wire).value;
        ResponseArrives(s, slot1, card1, x.reply, x.sw);
        Lockstep(s, slot1, card1, xs[1..]);
        var outcomes := Run(s, slot, card, xs).2;
        assert outcomes[1..] == Run(s, slot1, card1, xs[1..]).2;
      }
    }
  }

  // ---- The counter's end ----

  /** At the last counter value every command is refused: the counter never wraps around. */
  lemma CounterNeverWraps(s: Suite, slot: Slot, capdu: bytes)
    requires slot.authed
    ensures slot.counter == 0xFFFF_FFFF && Split(capdu).Ok? ==> Wrap(s, slot, capdu) == Err(CounterOverflow)
    ensures Wrap(s, slot, capdu).Ok? ==> Wrap(s, slot, capdu).value.1.counter == slot.counter + 1
  {
  }
}
