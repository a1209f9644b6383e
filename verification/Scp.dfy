/** Framing shared by both secure channel protocols: limits, errors and the split of a command. */
module Scp {
  import opened Bytes
  import opened Wrappers

  const CAPDU_MAX: nat := 261
  const RAPDU_MAX: nat := 258
  const EXTERNAL_AUTHENTICATE: byte := 0x82
  const KEY_BYTES_MAX: nat := 32

  datatype BackendError =
    | HeaderTooShort
    | SessionInvalid
    | LcExceedsBuffer
    | FirstNotExternalAuthenticate
    | CounterOverflow
    | WrappedLcTooLong
    | BufferOverflow
    | Unauthenticated
    | ResponseTooShort
    | RmacMissing
    | RmacMismatch
    | ResponseUnaligned
    | ResponseTooLarge
    | BadPadding
    | TableFull
    | KeyHandleInvalid
    | WrongKeyKind
    | KeyLengthsDiffer
    | ChallengeLength
    | ContextTooLong

  /** The parts of a short command, `le` being whatever follows the data field. */
  datatype Command = Command(cla: byte, ins: byte, p1: byte, p2: byte, data: bytes, le: bytes)

  /**
   How `wrap` reads a plaintext command. A fifth byte is always taken as Lc, so a five-byte command
   with a non-zero Le is refused and one with a zero Le loses it.
   */
  function Split(capdu: bytes): (r: Result<Command, BackendError>)
    ensures r.Ok? ==> |r.value.data| <= 255
  {
    if |capdu| < 4 then Err(HeaderTooShort)
    else if |capdu| == 4 then Ok(Command(capdu[0], capdu[1], capdu[2], capdu[3], [], []))
    else
      var lc: nat := capdu[4];
      if |capdu| < 5 + lc then Err(LcExceedsBuffer)
      else Ok(Command(capdu[0], capdu[1], capdu[2], capdu[3], capdu[5..5 + lc], capdu[5 + lc..]))
  }

  /** `cla | 0x04`: the secure-messaging bit. */
  function SecureCla(cla: byte): byte {
    if HasBit(cla, 0x04) then cla else cla + 0x04
  }

  /** The command a card acts on: the class byte it saw on the wire, with the bit of secure messaging set. */
  function Secured(c: Command): Command {
    c.(cla := Or(c.cla, 0x04))
  }

  /** The secure-messaging bit is the third, and no other bit changes. */
  lemma SecureClaSets(cla: byte)
    ensures SecureCla(cla) == Or(cla, 0x04)
    ensures forall k: nat :: BitAt(SecureCla(cla), k) <==> BitAt(cla, k) || k == 2
  {
    OrHalves(cla, 4);
    OrHalves(cla / 2, 2);
    OrHalves(cla / 2 / 2, 1);
    forall k: nat
      ensures BitAt(Or(cla, 0x04), k) <==> BitAt(cla, k) || k == 2
    {
      OrBits(cla, 4, k);
      OneBit(k);
    }
  }

  lemma OneBit(k: nat)
    ensures BitAt(4, k) <==> k == 2
  {
    if k > 3 {
      NoBits(k - 3);
      assert BitAt(4, k) == BitAt(2, k - 1) == BitAt(1, k - 2) == BitAt(0, k - 3);
    }
  }

  lemma {:induction false} NoBits(k: nat)
    ensures !BitAt(0, k)
  {
    if k > 0 {
      NoBits(k - 1);
    }
  }

  /** `SW1 SW2`. */
  type StatusWord = sw: bytes | |sw| == 2 witness [0x90, 0x00]

  /** One command and what the card answers to it. */
  datatype Exchange = Exchange(capdu: bytes, reply: bytes, sw: StatusWord)

  /** What an exchange amounts to at both ends. */
  datatype Outcome =
    | Refused(error: BackendError)
    | Completed(seenByCard: Command, seenByHost: bytes)
    | Broken
}
