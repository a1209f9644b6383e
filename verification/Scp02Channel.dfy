/**
 The two ends of an SCP02 channel: the host is `Scp02`, the card an independent peer following
 sections E.3.2, E.4.4 and E.4.5 of the GlobalPlatform Card Specification v2.3.1.
 */
module Scp02Channel {
  import opened Bytes
  import opened Wrappers
  import opened Crypto
  import opened Scp
  import opened Scp02

  // ---- The card ----

  /** The card keeps the last C-MAC it took, and the command it has yet to answer. */
  datatype RawCard = Card(
    sEnc: bytes, sMac: bytes, sRmac: bytes,
    lastMac: Option<bytes>, ricv: bytes, unanswered: Option<Command>, level: byte, authed: bool)

  type Card = c: RawCard |
      && |c.sEnc| == |c.sMac| == |c.sRmac| == 16
      && |c.ricv| == 8
      && (c.lastMac.Some? ==> |c.lastMac.value| == 8)
      && (c.unanswered.Some? ==> |c.unanswered.value.data| <= 255)
    witness Card(Zeros(16), Zeros(16), Zeros(16), None, Zeros(8), None, 0, false)

  /** Wire command as header, body and C-MAC. */
  function Fields(wire: bytes): (f: Option<(bytes, bytes, bytes)>)
    ensures f.Some? ==> |f.value.0| == 4 && |f.value.1| <= 247
  {
    if |wire| < 5 then None
    else
      var lc: nat := wire[4];
      if lc < 8 || |wire| != 5 + lc then None
      else Some((wire[..4], wire[5..5 + lc - 8], wire[5 + lc - 8..]))
  }

  function Plain(s: Suite, card: Card, body: bytes): Option<bytes> {
    if card.authed && And(card.level, 0x02) != 0 && body != [] then
      Unpad(CbcDecrypt(Tdes(s.des), card.sEnc, Zeros(8), body))
    else Some(body)
  }

  /** Section E.3.2: the first C-MAC starts from zero, later ones from the one before under single DES. */
  function StartingMac(s: Suite, card: Card): (iv: bytes)
    ensures |iv| == 8
  {
    match card.lastMac
    case None => Zeros(8)
    case Some(mac) => s.des.enc(card.sMac[..8], mac)
  }

  /** Decrypt, verify the C-MAC over the plaintext command, step the chains. */
  function Receive(s: Suite, card: Card, wire: bytes): Option<(Command, Card)> {
    match Fields(wire)
    case None => None
    case Some((header, body, mac)) =>
      match Plain(s, card, body)
      case None => None
      case Some(data) =>
        if |data| + 8 > 255 then None
        else
          var expected := MacAlgorithm3(s.des, card.sMac, StartingMac(s, card), header + [|data| + 8] + data);
          if expected != mac then None
          else
            var seen := Command(header[0], header[1], header[2], header[3], data, []);
            Some((seen, card.(lastMac := Some(mac),
                              level := if card.authed then card.level else header[2],
                              ricv := if card.authed then card.ricv else mac,
                              unanswered := if card.authed && And(card.level, 0x10) != 0 then Some(seen)
                                            else card.unanswered,
                              authed := true)))
  }

  /**
   The command part of the R-MAC block of section E.4.5: the class byte as received with the bits of
   secure messaging and logical channel masked off, and an Lc even where there is no data.
   */
  function CommandBlock(unanswered: Option<Command>): bytes
    requires unanswered.Some? ==> |unanswered.value.data| <= 255
  {
    match unanswered
    case None => []
    case Some(c) => [And(c.cla, 0xF8), c.ins, c.p1, c.p2, |c.data|] + c.data
  }

  /** The R-MAC covers the command, one length byte, the response data and the status word. */
  function CardRmac(s: Suite, card: Card, reply: bytes, sw: bytes): (mac: bytes)
    requires |reply| <= 255
    ensures |mac| == 8
  {
    MacAlgorithm3(s.des, card.sRmac, card.ricv, CommandBlock(card.unanswered) + [|reply|] + reply + sw)
  }

  /**
   At an R-MAC level every response is MACed over the command it answers, whatever its status word; a
   reply its length byte cannot say has no R-MAC.
   */
  function Respond(s: Suite, card: Card, reply: bytes, sw: StatusWord): (bytes, Card) {
    if And(card.level, 0x10) != 0 && |reply| <= 255 then
      var mac := CardRmac(s, card, reply, sw);
      (reply + mac + sw, card.(ricv := mac, unanswered := None))
    else (reply + sw, card.(unanswered := None))
  }

  /** Both ends hold the same keys, chains and level, and the host's accumulator is the card's block. */
  predicate InStep(slot: Slot, card: Card) {
    && card.sEnc == slot.sEnc && card.sMac == slot.sMac && card.sRmac == slot.sRmac
    && card.lastMac == (if slot.icvValid then Some(slot.icv) else None)
    && card.ricv == slot.ricv && card.level == slot.level && card.authed == slot.authed
    && CommandBlock(card.unanswered) == slot.rmacBuf
  }

  // ---- The host's forms are the card's ----

  /** Masking with F8 clears the low three bits. */
  lemma MaskF8(b: byte)
    ensures And(b, 0xF8) == b - b % 8
  {
    hide AndNat, Pow2;
    AndHalves(b, 0xF8);
    AndHalves(b / 2, 0x7C);
    AndHalves(b / 2 / 2, 0x3E);
    FiveBits(b / 2 / 2 / 2);
    var low := 4 * (b / 2 / 2 % 2) + 2 * (b / 2 % 2) + b % 2;
    assert b == 8 * (b / 2 / 2 / 2) + low && b % 8 == low;
  }

  lemma FiveBits(n: nat)
    requires n < 32
    ensures AndNat(n, 0x1F) == n
  {
    LowBitsMasked(n, 5);
    assert Pow2(5) == 32;
  }

  lemma SecureClaHigh(cla: byte)
    ensures SecureCla(cla) - SecureCla(cla) % 8 == cla - cla % 8
  {
  }

  /** The accumulated command is the card's block for the command it saw: the secure-messaging bit drops out. */
  lemma AccumulatorAgrees(c: Command)
    requires |c.data| <= 255
    ensures Stripped(c) == CommandBlock(Some(Secured(c).(le := [])))
  {
    hide Or, And;
    SecureClaSets(c.cla);
    MaskF8(SecureCla(c.cla));
    SecureClaHigh(c.cla);
  }

  // ---- One command ----

  lemma BodyRecovered(s: Suite, slot: Slot, card: Card, data: bytes)
    requires InStep(slot, card)
    ensures Plain(s, card, WireBody(s, slot, data)) == Some(data)
  {
    LevelBits(slot.level);
    if Encrypts(slot, data) {
      PaddedAligned(DES_BLOCK, |data|);
      CbcLength(Tdes(s.des), slot.sEnc, Zeros(8), Pad(DES_BLOCK, data));
      CbcRoundTrip(Tdes(s.des), slot.sEnc, Zeros(8), Pad(DES_BLOCK, data));
      UnpadPad(DES_BLOCK, data);
    }
  }

  lemma FieldsFound(header: bytes, body: bytes, mac: bytes)
    requires |header| == 4 && |mac| == MAC_LEN && |body| + MAC_LEN <= 255
    ensures Fields(header + [|body| + MAC_LEN] + body + mac) == Some((header, body, mac))
  {
    var wire := header + [|body| + MAC_LEN] + body + mac;
    assert wire[..4] == header && wire[5..5 + |body|] == body && wire[5 + |body|..] == mac;
  }

  /**
   A card in step accepts whatever the host wraps, recovers header and data exactly (Le is not sent),
   and both chains step alike.
   */
  lemma CommandArrives(s: Suite, slot: Slot, card: Card, capdu: bytes)
    requires InStep(slot, card)
    requires Wrap(s, slot, capdu).Ok?
    ensures var (wire, slot') := Wrap(s, slot, capdu).value;
            var r := Receive(s, card, wire);
            && r.Some? && r.value.0 == Secured(Split(capdu).value).(le := [])
            && InStep(slot', r.value.1) && slot'.authed
            && slot'.level == (if slot.authed then slot.level else Split(capdu).value.p1)
            && (slot.authed && And(slot.level, 0x10) != 0 ==> |slot'.rmacBuf| <= 260)
  {
    hide WireBody, Plain, Split, Fields, Pad, CbcMac;
    var c := Split(capdu).value;
    var body := WireBody(s, slot, c.data);
    var header := [SecureCla(c.cla), c.ins, c.p1, c.p2];
    var cmac := MacAlgorithm3(s.des, slot.sMac, NextIcv(s, slot.sMac, slot.icv, slot.icvValid), MacInput(c));
    assert MacInput(c) == header + [|c.data| + MAC_LEN] + c.data;
    assert Wrap(s, slot, capdu).value.0 == header + [|body| + MAC_LEN] + body + cmac;
    FieldsFound(header, body, cmac);
    BodyRecovered(s, slot, card, c.data);
    AccumulatorAgrees(c);
    SecureClaSets(c.cla);
    LevelBits(slot.level);
  }

  // ---- One response ----

  /** Longest reply that fits a short R-APDU. */
  function ReplyMax(level: byte): nat {
    if And(level, 0x10) != 0 then 248 else 256
  }

  /** The host recovers data and status word from a card in step, and both R-MAC chains step alike. */
  lemma ResponseArrives(s: Suite, slot: Slot, card: Card, reply: bytes, sw: StatusWord)
    requires InStep(slot, card) && slot.authed
    requires And(slot.level, 0x10) != 0 ==> |slot.rmacBuf| <= 260
    requires |reply| <= ReplyMax(slot.level)
    ensures var (rapdu, card') := Respond(s, card, reply, sw);
            var r := Unwrap(s, slot, rapdu);
            && r.Ok? && r.value.0 == reply + sw && InStep(r.value.1, card')
            && r.value.1 == slot.(ricv := card'.ricv, rmacBuf := [])
  {
    LevelBits(slot.level);
    if And(slot.level, 0x10) != 0 {
      var mac := CardRmac(s, card, reply, sw);
      var rapdu := reply + mac + sw;
      assert rapdu[..|rapdu| - 2] == reply + mac && rapdu[|rapdu| - 2..] == sw;
      assert (reply + mac)[..|reply|] == reply && (reply + mac)[|reply|..] == mac;
      assert RmacInput(slot.rmacBuf, reply, sw) == CommandBlock(card.unanswered) + [|reply|] + reply + sw;
    }
  }

  /** At an R-MAC level the host accepts exactly the R-MAC a card in step computes. */
  lemma ExactlyTheCardsRmac(s: Suite, slot: Slot, card: Card, reply: bytes, tag: bytes, sw: StatusWord)
    requires InStep(slot, card) && slot.authed && And(slot.level, 0x10) != 0
    requires |slot.rmacBuf| <= 260 && |reply| <= ReplyMax(slot.level) && |tag| == 8
    ensures Unwrap(s, slot, reply + tag + sw).Ok? <==> tag == CardRmac(s, card, reply, sw)
  {
    LevelBits(slot.level);
    var rapdu := reply + tag + sw;
    assert rapdu[..|rapdu| - 2] == reply + tag && rapdu[|rapdu| - 2..] == sw;
    assert (reply + tag)[..|reply|] == reply && (reply + tag)[|reply|..] == tag;
    assert RmacInput(slot.rmacBuf, reply, sw) == CommandBlock(card.unanswered) + [|reply|] + reply + sw;
  }

  /**
   No card in this one: in every authenticated session whose level has bit 10, what is accepted under any
   status word ends in the eight-byte R-MAC over the command and the rest; a shorter response and another tag
   are refused as such.
   */
  lemma UnverifiedIsRefused(s: Suite, slot: Slot, body: bytes, sw: StatusWord)
    requires slot.authed && And(slot.level, 0x10) != 0
    ensures |body| < 8 ==> Unwrap(s, slot, body + sw) == Err(RmacMissing)
    ensures 8 <= |body| <= 264 && |slot.rmacBuf| <= 260 ==>
              var n := |body| - 8;
              body[n..] != MacAlgorithm3(s.des, slot.sRmac, slot.ricv, slot.rmacBuf + [n % 256] + body[..n] + sw) ==>
                Unwrap(s, slot, body + sw) == Err(RmacMismatch)
    ensures |body| > 264 ==> Unwrap(s, slot, body + sw).Err?
  {
    LevelBits(slot.level);
    var rapdu := body + sw;
    assert rapdu[..|rapdu| - 2] == body && rapdu[|rapdu| - 2..] == sw;
  }

  /** Before EXTERNAL AUTHENTICATE no response is believed, and nothing else is sent. */
  lemma NothingBeforeAuthentication(s: Suite, slot: Slot, capdu: bytes, rapdu: bytes)
    requires !slot.authed
    ensures Unwrap(s, slot, rapdu) == Err(Unauthenticated)
    ensures Wrap(s, slot, capdu).Ok? ==>
              var c, wire := Split(capdu).value, Wrap(s, slot, capdu).value.0;
              c.ins == 0x82 && |wire| == 13 + |c.data| && wire[5..5 + |c.data|] == c.data
    ensures Split(capdu).Ok? && Split(capdu).value.ins != 0x82 ==>
              Wrap(s, slot, capdu) == Err(FirstNotExternalAuthenticate)
  {
    hide Split, MacAlgorithm3, NextIcv;
    if Wrap(s, slot, capdu).Ok? {
      var c, wire := Split(capdu).value, Wrap(s, slot, capdu).value.0;
      assert wire[..5] + c.data + wire[5 + |c.data|..] == wire;
    }
  }

  // ---- Opening ----

  function FreshCard(slot: Slot): Card {
    Card(slot.sEnc, slot.sMac, slot.sRmac, None, Zeros(8), None, 0, false)
  }

  /**
   EXTERNAL AUTHENTICATE puts both ends in step at the level of its P1, with the R-MAC chain seeded
   by its C-MAC.
   */
  lemma AuthenticationSeeds(s: Suite, sEnc: Key16, sMac: Key16, sRmac: Key16, sDek: Key16, capdu: bytes)
    requires Wrap(s, FreshSlot(sEnc, sMac, sRmac, sDek), capdu).Ok?
    ensures var slot := FreshSlot(sEnc, sMac, sRmac, sDek);
            var (wire, slot') := Wrap(s, slot, capdu).value;
            var r := Receive(s, FreshCard(slot), wire);
            && Split(capdu).value.ins == 0x82
            && r.Some? && InStep(slot', r.value.1)
            && slot'.authed && slot'.level == Split(capdu).value.p1
            && slot'.ricv == slot'.icv == wire[|wire| - MAC_LEN..]
            && slot'.rmacBuf == []
  {
    var slot := FreshSlot(sEnc, sMac, sRmac, sDek);
    CommandArrives(s, slot, FreshCard(slot), capdu);
    var (wire, slot') := Wrap(s, slot, capdu).value;
    assert wire[|wire| - MAC_LEN..] == slot'.icv;
  }

  // ---- Whole runs ----

  function Run(s: Suite, slot: Slot, card: Card, xs: seq<Exchange>): (Slot, Card, seq<Outcome>)
    decreases |xs|
  {
    if xs == [] then (slot, card, [])
    else
      match Wrap(s, slot, xs[0].capdu)
      case Err(e) =>
        var (slot', card', rest) := Run(s, slot, card, xs[1..]);
        (slot', card', [Refused(e)] + rest)
      case Ok((wire, slot1)) =>
        match Receive(s, card, wire)
        case None => (slot1, card, [Broken])
        case Some((seen, card1)) =>
          var (rapdu, card2) := Respond(s, card1, xs[0].reply, xs[0].sw);
          match Unwrap(s, slot1, rapdu)
          case Err(_) => (slot1, card2, [Broken])
          case Ok((received, slot2)) =>
            var (slot', card', rest) := Run(s, slot2, card2, xs[1..]);
            (slot', card', [Completed(seen, received)] + rest)
  }

  /** The channel without cryptography. */
  function Ideal(level: byte, xs: seq<Exchange>): seq<Outcome>
    decreases |xs|
  {
    if xs == [] then []
    else if Accepts(level, xs[0].capdu) then
      [Completed(Secured(Split(xs[0].capdu).value).(le := []), xs[0].reply + xs[0].sw)] + Ideal(level, xs[1..])
    else
      var split := Split(xs[0].capdu);
      [Refused(if split.Err? then split.error else WrappedLcTooLong)] + Ideal(level, xs[1..])
  }

  /**
   Lockstep: over every run in an authenticated session the real channel delivers what the ideal one
   delivers, and both ends end in step on the C-MAC and R-MAC chains.
   */
  lemma {:induction false} Lockstep(s: Suite, slot: Slot, card: Card, xs: seq<Exchange>)
    requires InStep(slot, card) && slot.authed
    requires forall x :: x in xs ==> |x.reply| <= ReplyMax(slot.level)
    ensures var (slot', card', outcomes) := Run(s, slot, card, xs);
            && outcomes == Ideal(slot.level, xs)
            && InStep(slot', card') && slot'.authed && slot'.level == slot.level
    decreases |xs|
  {
    hide Wrap, Receive, Respond, Unwrap, Split, Accepts;
    if xs != [] {
      var x := xs[0];
      assert x in xs;
      AcceptedExactly(s, slot, x.capdu);
      var outcomes := Run(s, slot, card, xs).2;
      if Wrap(s, slot, x.capdu).Err? {
        Lockstep(s, slot, card, xs[1..]);
        assert outcomes[1..] == Run(s, slot, card, xs[1..]).2;
      } else {
        var (wire, slot1) := Wrap(s, slot, x.capdu).value;
        CommandArrives(s, slot, card, x.capdu);
        var (seen, card1) := Receive(s, card, wire).value;
        ResponseArrives(s, slot1, card1, x.reply, x.sw);
        var (rapdu, card2) := Respond(s, card1, x.reply, x.sw);
        var (received, slot2) := Unwrap(s, slot1, rapdu).value;
        Lockstep(s, slot2, card2, xs[1..]);
        assert outcomes[1..] == Run(s, slot2, card2, xs[1..]).2;
      }
    }
  }
}
