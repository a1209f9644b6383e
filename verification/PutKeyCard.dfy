/**
 The card at PUT KEY, written from section 11.8 of the GlobalPlatform Card Specification v2.3.1 and sections 4.1.4 and
 7.2 of Amendment D: it reads the key blocks, decrypts each key, computes the check value of what it got, compares,
 and echoes version and check values.
 */
module PutKeyCard {
  import opened Bytes
  import opened Wrappers
  import opened Crypto
  import opened Scp
  import opened Keys
  import opened Apdu
  import opened Backend
  import opened SessionTable
  import opened PutKey
  import CardStatus

  // ---- The card ----

  /** A key as the card read it, with the check value that came along. */
  datatype Received = Received(key: bytes, kcv: bytes)

  /** AES: a type, a length, the length of the key, its CBC encryption, and a check value of three bytes. */
  function AesBlock(s: Suite, dek: bytes, b: bytes): Option<(Received, bytes)> {
    if |b| < 3 || b[0] != 0x88 then None
    else
      var size: nat := b[1];
      var end := 2 + size;
      if end < 3 || |b| < end + 4 || b[end] != 3 then None
      else
        var plain := CbcDecrypt(s.aes, dek, [0, 0, 0, 0, 0, 0, 0, 0, 0, 0, 0, 0, 0, 0, 0, 0], b[3..end]);
        if |plain| < b[2] then None else Some((Received(plain[..b[2]], b[end + 1..end + 4]), b[end + 4..]))
  }

  /** One block of two-key triple DES, undone. */
  function Ded(s: Suite, key: bytes, block: bytes): bytes
    requires |key| == 16 && |block| == 8
  {
    s.des.dec(key[..8], s.des.enc(key[8..], s.des.dec(key[..8], block)))
  }

  /** Triple DES: a type, a length of 16, two independent blocks, and a check value of three bytes. */
  function DesBlock(s: Suite, dek: bytes, b: bytes): Option<(Received, bytes)>
    requires |dek| == 16
  {
    if |b| < 22 || b[0] != 0x80 || b[1] != 16 || b[18] != 3 then None
    else Some((Received(Ded(s, dek, b[2..10]) + Ded(s, dek, b[10..18]), b[19..22]), b[22..]))
  }

  /** The check value of a key: of AES, of sixteen 01s; of triple DES, of eight zeros. */
  function AesCheck(s: Suite, key: bytes): bytes {
    s.aes.enc(key, [1, 1, 1, 1, 1, 1, 1, 1, 1, 1, 1, 1, 1, 1, 1, 1])[..3]
  }

  function DesCheck(s: Suite, key: bytes): bytes
    requires |key| == 16
  {
    s.des.enc(key[..8], s.des.dec(key[8..], s.des.enc(key[..8], [0, 0, 0, 0, 0, 0, 0, 0])))[..3]
  }

  predicate Checks(s: Suite, aes: bool, r: Received) {
    if aes then r.kcv == AesCheck(s, r.key) else |r.key| == 16 && r.kcv == DesCheck(s, r.key)
  }

  function Block(s: Suite, aes: bool, dek: bytes, b: bytes): Option<(Received, bytes)> {
    if aes then AesBlock(s, dek, b) else if |dek| == 16 then DesBlock(s, dek, b) else None
  }

  /** What the card stores of a PUT KEY data field: a version and three keys, all with the right check values. */
  function Stored(s: Suite, aes: bool, dek: bytes, data: bytes): Option<(byte, seq<bytes>)> {
    if data == [] then None
    else
      match Block(s, aes, dek, data[1..])
      case None => None
      case Some((enc, rest1)) =>
        match Block(s, aes, dek, rest1)
        case None => None
        case Some((mac, rest2)) =>
          match Block(s, aes, dek, rest2)
          case None => None
          case Some((kek, rest3)) =>
            if rest3 == [] && Checks(s, aes, enc) && Checks(s, aes, mac) && Checks(s, aes, kek)
            then Some((data[0], [enc.key, mac.key, kek.key]))
            else None
  }

  function Check(s: Suite, aes: bool, key: bytes): bytes {
    if aes then AesCheck(s, key) else if |key| == 16 then DesCheck(s, key) else []
  }

  /** What it answers: the version and the check values of the three keys it stored. */
  function Echo(s: Suite, aes: bool, kvn: byte, keys: seq<bytes>): bytes
    requires |keys| == 3
  {
    [kvn] + Check(s, aes, keys[0]) + Check(s, aes, keys[1]) + Check(s, aes, keys[2])
  }

  // ---- What the host sends is what the card reads ----

  lemma KcvAgrees(s: Suite, p: Protocol, slot: KeySlot)
    requires p.Scp03Session? <==> !slot.kind.TripleDesDouble?
    ensures KcvOf(s, slot) == Check(s, p.Scp03Session?, slot.key)
  {
    assert seq(BLOCK, _ => 0x01) == [1, 1, 1, 1, 1, 1, 1, 1, 1, 1, 1, 1, 1, 1, 1, 1];
    assert Zeros(8) == [0, 0, 0, 0, 0, 0, 0, 0];
  }

  lemma AesBlockReads(s: Suite, dek: bytes, slot: KeySlot, kind: KeyKind, rest: bytes)
    ensures var plain := Scp03Plaintext(slot.key);
            AesBlock(s, dek, BlockBytes(Scp03Block(s, dek, slot, kind)) + rest)
            == if |plain| < KeySize(kind) then None
               else Some((Received(plain[..KeySize(kind)], KcvOf(s, slot)), rest))
  {
    hide CbcDecrypt, Scp03Payload, KcvOf, Scp03Plaintext;
    var b := Scp03Block(s, dek, slot, kind);
    PayloadLength(s, dek, slot.key);
    PlainLength(slot.key);
    var lead := [0x88, |b.encryptedKey| + 1, b.clearKeyLen];
    var data := BlockBytes(b) + rest;
    BlockParts(data, lead, b.encryptedKey, b.kcv, rest);
    assert data[..3][0] == data[0] && data[..3][1] == data[1] && data[..3][2] == data[2];
    assert Zeros(BLOCK) == [0, 0, 0, 0, 0, 0, 0, 0, 0, 0, 0, 0, 0, 0, 0, 0];
  }

  lemma PlainLength(key: bytes)
    requires |key| == 16 || |key| == 24 || |key| == 32
    ensures |Scp03Plaintext(key)| == (if |key| == 24 then 32 else |key|) && key <= Scp03Plaintext(key)
  {
  }

  lemma DesBlockReads(s: Suite, dek: bytes, slot: KeySlot, rest: bytes)
    requires |dek| == 16 && |slot.key| == 16
    ensures DesBlock(s, dek, BlockBytes(Scp02Block(s, dek, slot)) + rest)
         == Some((Received(slot.key, KcvOf(s, slot)), rest))
  {
    hide KcvOf;
    var b := Scp02Block(s, dek, slot);
    var one, two := slot.key[..8], slot.key[8..];
    var c := Tdes(s.des);
    assert two[..8] == two && two[8..] == [] && EcbEncrypt(c, dek, []) == [];
    assert EcbEncrypt(c, dek, two) == c.enc(dek, two) + [];
    assert b.encryptedKey == c.enc(dek, one) + c.enc(dek, two);
    var lead := [0x80, |b.encryptedKey|];
    var data := BlockBytes(b) + rest;
    BlockParts(data, lead, b.encryptedKey, b.kcv, rest);
    assert data[..2][0] == data[0] && data[..2][1] == data[1];
    assert data[2..10] == data[2..18][..8] && data[10..18] == data[2..18][8..];
    UndoesEde(s, dek, one);
    UndoesEde(s, dek, two);
    assert one + two == slot.key;
  }

  lemma UndoesEde(s: Suite, dek: bytes, block: bytes)
    requires |dek| == 16 && |block| == 8
    ensures var ct := Tdes(s.des).enc(dek, block); |ct| == 8 && Ded(s, dek, ct) == block
  {
  }

  /** One block of either protocol: the card gets the key exactly when its length is the declared one. */
  lemma BlockReadsKey(s: Suite, p: Protocol, dek: bytes, slot: KeySlot, kind: KeyKind, rest: bytes)
    requires p.Scp03Session? <==> !slot.kind.TripleDesDouble?
    requires p.Scp02Session? ==> |dek| == 16
    ensures var aes := p.Scp03Session?;
            var r := Block(s, aes, dek, BlockBytes(NewBlock(s, p, dek, slot, kind)) + rest);
            && (r.Some? ==> r.value.1 == rest)
            && (r.Some? && r.value.0.key == slot.key ==> Checks(s, aes, r.value.0))
            && (r.Some? && r.value.0.key == slot.key <==> (p.Scp03Session? ==> |slot.key| == KeySize(kind)))
  {
    hide AesBlock, DesBlock, KcvOf, AesCheck, DesCheck, BlockBytes, Scp03Block, Scp02Block, Scp03Plaintext;
    KcvAgrees(s, p, slot);
    if p.Scp03Session? {
      AesBlockReads(s, dek, slot, kind, rest);
      PlainLength(slot.key);
    } else {
      DesBlockReads(s, dek, slot, rest);
    }
  }

  /** The bytes of a key of each kind. */
  function KeySize(kind: KeyKind): nat {
    match kind
    case Aes128 => 16
    case Aes192 => 24
    case Aes256 => 32
    case TripleDesDouble => 16
  }

  /** The keys to be put are of the declared kind; over SCP02 they always are. */
  predicate OfKind(p: Protocol, slots: seq<KeySlot>, kind: KeyKind) {
    p.Scp03Session? ==> forall i :: 0 <= i < |slots| ==> |slots[i].key| == KeySize(kind)
  }

  /**
   The card stores exactly the three keys, under the version sent, with every check value in order - if and only if
   all have the declared length.
   */
  lemma StoresTheKeys(s: Suite, p: Protocol, dek: bytes, newKvn: byte, slots: seq<KeySlot>, kind: KeyKind)
    requires |slots| == 3 && forall i :: 0 <= i < 3 ==> (p.Scp03Session? <==> !slots[i].kind.TripleDesDouble?)
    requires p.Scp02Session? ==> |dek| == 16
    ensures var blocks := seq(3, i requires 0 <= i < 3 => NewBlock(s, p, dek, slots[i], kind));
            var all := Some((newKvn, [slots[0].key, slots[1].key, slots[2].key]));
            Stored(s, p.Scp03Session?, dek, DataField(newKvn, blocks)) == all <==> OfKind(p, slots, kind)
  {
    hide Block, Checks, NewBlock, BlockBytes;
    var blocks := seq(3, i requires 0 <= i < 3 => NewBlock(s, p, dek, slots[i], kind));
    ThreeBlocks(blocks);
    var b0, b1, b2 := BlockBytes(blocks[0]), BlockBytes(blocks[1]), BlockBytes(blocks[2]);
    BlockReadsKey(s, p, dek, slots[0], kind, b1 + (b2 + []));
    BlockReadsKey(s, p, dek, slots[1], kind, b2 + []);
    BlockReadsKey(s, p, dek, slots[2], kind, []);
    assert DataField(newKvn, blocks)[1..] == b0 + (b1 + (b2 + []));
    ThreeKeys(p, slots, kind);
  }

  lemma ThreeKeys(p: Protocol, slots: seq<KeySlot>, kind: KeyKind)
    requires |slots| == 3
    ensures OfKind(p, slots, kind) <==>
              (p.Scp03Session? ==> |slots[0].key| == |slots[1].key| == |slots[2].key| == KeySize(kind))
  {
  }

  lemma ThreeBlocks(blocks: seq<KeyBlock>)
    requires |blocks| == 3
    ensures BlocksBytes(blocks) == BlockBytes(blocks[0]) + (BlockBytes(blocks[1]) + (BlockBytes(blocks[2]) + []))
  {
    hide BlockBytes;
    assert blocks[1..][1..] == blocks[2..] && blocks[2..][1..] == [];
    assert BlocksBytes(blocks[2..]) == BlockBytes(blocks[2]) + BlocksBytes([]);
  }

  // ---- The whole command ----

  /** The key the card decrypts under: over SCP03 the static DEK, over SCP02 the session's own. */
  function TransportKey(backend: RustCryptoBackend, p: Protocol, dek: nat): bytes
    reads backend
  {
    match p
    case Scp03Session(_) => KeyOf(backend, dek)
    case Scp02Session(h) =>
      if h < |backend.scp02Sessions| && backend.scp02Sessions[h].Some? then backend.scp02Sessions[h].value.sDek else []
  }

  /** The stored key behind a handle. */
  function KeyOf(backend: RustCryptoBackend, handle: nat): bytes
    reads backend
  {
    if KeyAt(backend.keys, handle).Some? then KeyAt(backend.keys, handle).value.key else []
  }

  /**
   PUT KEY to such a card: one command, `84 D8 00 81`, whose data field the card stores as the three keys if and only if
   they are of the declared kind. Success is reported exactly when the card answers 9000 and an echo of ten bytes or
   more begins as the card's own does, and the target is an AID.
   */
  method PutKeys(t: CardStatus.Session, backend: RustCryptoBackend, p: Protocol, dek: nat, newKvn: byte, ks: NewKeyset,
                 target: bytes)
    returns (r: Result<bytes, PutKeyError>, ghost data: Option<bytes>)
    requires backend.Valid()
    modifies t
    ensures data.Some? <==> && WrappingKey(backend, p, dek).Some?
                            && Usable(backend, p, ks.enc) && Usable(backend, p, ks.mac) && Usable(backend, p, ks.dek)
    ensures data.None? ==> r.Err? && t.sent == old(t.sent)
    ensures data.Some? ==>
              && |data.value| <= 255
              && t.sent == old(t.sent) + [[0x84, 0xD8, 0x00, 0x81, |data.value|] + data.value + [0x00]]
              && var keys := [KeyOf(backend, ks.enc), KeyOf(backend, ks.mac), KeyOf(backend, ks.dek)];
                 var s, aes := backend.suite, p.Scp03Session?;
                 var echo := Echo(s, aes, newKvn, keys);
                 && (Stored(s, aes, TransportKey(backend, p, dek), data.value) == Some((newKvn, keys))
                     <==> (aes ==> |keys[0]| == |keys[1]| == |keys[2]| == KeySize(ks.kind)))
                 && (r.Ok? <==>
                       && CardStatus.AnswerAt(t.script, old(t.next)).Ok?
                       && var answer := CardStatus.AnswerAt(t.script, old(t.next)).value;
                          answer.1 == 0x9000 && (|answer.0| < 10 || echo <= answer.0) && 5 <= |target| <= 16)
                 && (r.Ok? ==> [newKvn] + r.value == echo)
  {
    hide NewBlocks, Stored, Check, KcvOf, DataField, CardStatus.AnswerAt, NewBlock, ShortApdu;
    ghost var command;
    r, command := PutSdKeys(t, backend, p, dek, newKvn, ks, target);
    if command.Err? {
      data := None;
    } else {
      ghost var s, wrapping := backend.suite, WrappingKey(backend, p, dek).value;
      ghost var slots := [KeyAt(backend.keys, ks.enc).value, KeyAt(backend.keys, ks.mac).value,
                          KeyAt(backend.keys, ks.dek).value];
      ghost var blocks := seq(3, i requires 0 <= i < 3 => NewBlock(s, p, wrapping, slots[i], ks.kind));
      NewBlocksAre(backend, p, wrapping, ks);
      data := Some(DataField(newKvn, blocks));
      StoresTheKeys(s, p, wrapping, newKvn, slots, ks.kind);
      ThreeKeys(p, slots, ks.kind);
      KcvAgrees(s, p, slots[0]);
      KcvAgrees(s, p, slots[1]);
      KcvAgrees(s, p, slots[2]);
      Framed(newKvn, blocks);
      assert [newKvn] + Kcvs(backend, ks)
          == Echo(s, p.Scp03Session?, newKvn, [slots[0].key, slots[1].key, slots[2].key]);
    }
  }

  lemma NewBlocksAre(backend: RustCryptoBackend, p: Protocol, wrapping: bytes, ks: NewKeyset)
    requires KeyAt(backend.keys, ks.enc).Some? && KeyAt(backend.keys, ks.mac).Some? && KeyAt(backend.keys, ks.dek).Some?
    ensures var slots := [KeyAt(backend.keys, ks.enc).value, KeyAt(backend.keys, ks.mac).value,
                          KeyAt(backend.keys, ks.dek).value];
            NewBlocks(backend, p, wrapping, ks)
            == seq(3, i requires 0 <= i < 3 => NewBlock(backend.suite, p, wrapping, slots[i], ks.kind))
  {
    hide NewBlock;
  }

  /** The command on the wire. */
  lemma Framed(newKvn: byte, blocks: seq<KeyBlock>)
    requires |DataField(newKvn, blocks)| <= 255
    ensures var data := DataField(newKvn, blocks);
            ShortApdu(0x84, 0xD8, 0x00, 0x81, data, true) == [0x84, 0xD8, 0x00, 0x81, |data|] + data + [0x00]
  {
    hide BlocksBytes;
  }
}
