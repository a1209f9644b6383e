/**
 PUT KEY: the data field of `command/put_key.rs`, its assembly in `workflow/keys.rs`, and what a card
 recovers from it.
 */
module PutKey {
  import opened Bytes
  import opened Wrappers
  import opened Crypto
  import opened Scp
  import opened Keys
  import opened Aid
  import opened Apdu
  import opened Backend
  import opened SessionTable
  import CardStatus

  const KEY_TYPE_AES: byte := 0x88
  const KEY_TYPE_3DES: byte := 0x80
  const KCV_LEN: nat := 3

  type Kcv = k: bytes | |k| == KCV_LEN witness Zeros(3)

  datatype KeyBlock = KeyBlock(keyType: byte, encryptedKey: bytes, kcv: Kcv, clearKeyLen: byte)

  // ---- The data field ----

  /** Whether the length bytes of a block can say its size. */
  predicate Sizable(b: KeyBlock) {
    |b.encryptedKey| + (if b.keyType == KEY_TYPE_AES then 1 else 0) <= 255
  }

  /** AES blocks carry the clear key length inside; triple-DES blocks do not. */
  function BlockBytes(b: KeyBlock): bytes {
    (if b.keyType == KEY_TYPE_AES then [b.keyType, (|b.encryptedKey| + 1) % 256, b.clearKeyLen]
     else [b.keyType, |b.encryptedKey| % 256])
    + b.encryptedKey + [KCV_LEN] + b.kcv
  }

  function BlocksBytes(blocks: seq<KeyBlock>): bytes {
    if blocks == [] then [] else BlockBytes(blocks[0]) + BlocksBytes(blocks[1..])
  }

  function DataField(newKvn: byte, blocks: seq<KeyBlock>): bytes {
    [newKvn] + BlocksBytes(blocks)
  }

  /** One pass of the `put_key` loop. */
  method PushBlock(data: bytes, block: KeyBlock) returns (r: Result<bytes, BuildError>)
    ensures r.Ok? <==> Sizable(block) && |data| + |BlockBytes(block)| <= CAPDU_MAX
    ensures r.Ok? ==> r.value == data + BlockBytes(block)
  {
    if !Sizable(block) {
      return Err(Overflow);
    }
    var lead := if block.keyType == KEY_TYPE_AES then [block.keyType, |block.encryptedKey| + 1, block.clearKeyLen]
                else [block.keyType, |block.encryptedKey|];
    assert BlockBytes(block) == lead + block.encryptedKey + [KCV_LEN] + block.kcv;
    hide BlockBytes;
    var out :- Push(data, lead);
    out :- Push(out, block.encryptedKey);
    out :- Push(out, [KCV_LEN]);
    r := Push(out, block.kcv);
  }

  /** `put_key`: append block after block to a bounded buffer, then frame it. */
  method BuildPutKey(p1: byte, newKvn: byte, blocks: seq<KeyBlock>) returns (r: Result<bytes, BuildError>)
    ensures r.Ok? <==> (forall b :: b in blocks ==> Sizable(b)) && |DataField(newKvn, blocks)| <= 255
    ensures r.Ok? ==> r.value == ShortApdu(0x84, 0xD8, p1, 0x81, DataField(newKvn, blocks), true)
  {
    hide BlockBytes;
    var data: bytes := [newKvn];
    assert blocks[..0] == [];
    for i := 0 to |blocks|
      invariant forall b :: b in blocks[..i] ==> Sizable(b)
      invariant data == DataField(newKvn, blocks[..i])
    {
      BlocksSnoc(blocks[..i], blocks[i]);
      assert blocks[..i] + [blocks[i]] == blocks[..i + 1];
      DataFieldGrows(newKvn, blocks, i + 1);
      data :- PushBlock(data, blocks[i]);
    }
    assert blocks[..|blocks|] == blocks;
    r := Build(0x84, 0xD8, p1, 0x81, data, true);
  }

  lemma {:induction false} BlocksAppend(xs: seq<KeyBlock>, ys: seq<KeyBlock>)
    ensures BlocksBytes(xs + ys) == BlocksBytes(xs) + BlocksBytes(ys)
  {
    hide BlockBytes;
    if xs == [] {
      assert xs + ys == ys;
    } else {
      assert (xs + ys)[0] == xs[0] && (xs + ys)[1..] == xs[1..] + ys;
      BlocksAppend(xs[1..], ys);
    }
  }

  lemma BlocksSnoc(xs: seq<KeyBlock>, y: KeyBlock)
    ensures BlocksBytes(xs + [y]) == BlocksBytes(xs) + BlockBytes(y)
  {
    BlocksAppend(xs, [y]);
    assert BlocksBytes([y]) == BlockBytes(y) + BlocksBytes([]);
  }

  lemma DataFieldGrows(newKvn: byte, blocks: seq<KeyBlock>, i: nat)
    requires i <= |blocks|
    ensures |DataField(newKvn, blocks[..i])| <= |DataField(newKvn, blocks)|
  {
    BlocksAppend(blocks[..i], blocks[i..]);
    assert blocks[..i] + blocks[i..] == blocks;
  }

  // ---- How a card reads it ----

  /** The block at the head of `s`, and what follows it. */
  function BlockAt(s: bytes): Option<(KeyBlock, bytes)> {
    if |s| < 3 then None
    else
      var size: nat := s[1];
      var end: nat := 2 + size;
      var start := if s[0] == KEY_TYPE_AES then 3 else 2;
      if end < start || |s| < end + 4 || s[end] != KCV_LEN then None
      else
        var clear: byte := if s[0] == KEY_TYPE_AES then s[2] else s[1];
        Some((KeyBlock(s[0], s[start..end], s[end + 1..end + 4], clear), s[end + 4..]))
  }

  function BlocksAt(s: bytes, count: nat): Option<seq<KeyBlock>> {
    if count == 0 then (if s == [] then Some([]) else None)
    else
      match BlockAt(s)
      case None => None
      case Some((b, rest)) =>
        match BlocksAt(rest, count - 1)
        case None => None
        case Some(bs) => Some([b] + bs)
  }

  /** A block as it reads back: a triple-DES block's clear length is that of its ciphertext. */
  predicate Canonical(b: KeyBlock) {
    Sizable(b) && (b.keyType != KEY_TYPE_AES ==> b.clearKeyLen == |b.encryptedKey|)
  }

  lemma BlockReads(b: KeyBlock, rest: bytes)
    requires Canonical(b)
    ensures BlockAt(BlockBytes(b) + rest) == Some((b, rest))
  {
    var s := BlockBytes(b) + rest;
    var lead := if b.keyType == KEY_TYPE_AES then [b.keyType, |b.encryptedKey| + 1, b.clearKeyLen]
                else [b.keyType, |b.encryptedKey|];
    BlockParts(s, lead, b.encryptedKey, b.kcv, rest);
    assert s[..|lead|] == lead && s[0] == lead[0] && s[1] == lead[1] && s[|lead| - 1] == lead[|lead| - 1];
  }

  lemma BlockParts(s: bytes, lead: bytes, key: bytes, kcv: bytes, rest: bytes)
    requires s == lead + key + [KCV_LEN] + kcv + rest && |kcv| == KCV_LEN
    ensures var end := |lead| + |key|;
            && |s| == end + 4 + |rest| && s[..|lead|] == lead && s[|lead|..end] == key && s[end] == KCV_LEN
            && s[end + 1..end + 4] == kcv && s[end + 4..] == rest
  {
    var end := |lead| + |key|;
    assert s == (lead + key) + ([KCV_LEN] + kcv + rest);
    assert s[..end] == lead + key && s[end..] == [KCV_LEN] + kcv + rest;
    assert s[|lead|..end] == (lead + key)[|lead|..];
    assert s[end..][1..4] == s[end + 1..end + 4] && s[end..][4..] == s[end + 4..];
  }

  /** Reading the blocks of a data field gives back the blocks that were written. */
  lemma {:induction false} BlocksRead(bs: seq<KeyBlock>)
    requires forall b :: b in bs ==> Canonical(b)
    ensures BlocksAt(BlocksBytes(bs), |bs|) == Some(bs)
  {
    if bs != [] {
      BlockReads(bs[0], BlocksBytes(bs[1..]));
      BlocksRead(bs[1..]);
      assert [bs[0]] + bs[1..] == bs;
    }
  }

  /** What a card makes of an AES block: decrypt, then cut to the clear key length. */
  function RecoverAes(s: Suite, dek: bytes, b: KeyBlock): Option<bytes> {
    var plain := CbcDecrypt(s.aes, dek, Zeros(BLOCK), b.encryptedKey);
    if b.clearKeyLen <= |plain| then Some(plain[..b.clearKeyLen]) else None
  }

  function EcbDecrypt(c: Cipher, key: bytes, ct: bytes): bytes
    decreases |ct|
  {
    if |ct| < c.size then [] else c.dec(key, ct[..c.size]) + EcbDecrypt(c, key, ct[c.size..])
  }

  lemma {:induction false} EcbRoundTrip(c: Cipher, key: bytes, msg: bytes)
    requires Aligned(|msg|, c.size)
    ensures EcbDecrypt(c, key, EcbEncrypt(c, key, msg)) == msg
    ensures |EcbEncrypt(c, key, msg)| == |msg|
    decreases |msg|
  {
    if |msg| > 0 {
      var block := c.enc(key, msg[..c.size]);
      var ct := EcbEncrypt(c, key, msg);
      assert ct[..c.size] == block && ct[c.size..] == EcbEncrypt(c, key, msg[c.size..]);
      EcbRoundTrip(c, key, msg[c.size..]);
      assert msg == msg[..c.size] + msg[c.size..];
    }
  }

  // ---- The whole command ----

  /** The KCV of AES is one encrypted block of 01s; of triple DES, of zeros. */
  function KcvOf(s: Suite, slot: KeySlot): Kcv {
    if slot.kind.TripleDesDouble? then Tdes(s.des).enc(slot.key, Zeros(8))[..KCV_LEN]
    else s.aes.enc(slot.key, seq(BLOCK, _ => 0x01))[..KCV_LEN]
  }

  datatype NewKeyset = NewKeyset(enc: nat, mac: nat, dek: nat, kind: KeyKind)

  datatype Protocol = Scp03Session(handle: nat) | Scp02Session(handle: nat)

  datatype PutKeyError =
    | BackendFailed(backend: BackendError) | InTransport | CardRefused(sw: nat) | KeyCheckValueMismatch | BadTarget

  /** An AES block, its clear length that of the kind the keyset is declared to be. */
  function Scp03Block(s: Suite, dek: bytes, slot: KeySlot, kind: KeyKind): KeyBlock {
    KeyBlock(KEY_TYPE_AES, Scp03Payload(s, dek, slot.key), KcvOf(s, slot), kind.ClearLen())
  }

  /** A two-key triple-DES block. */
  function Scp02Block(s: Suite, dek: bytes, slot: KeySlot): KeyBlock {
    KeyBlock(KEY_TYPE_3DES, EcbEncrypt(Tdes(s.des), dek, slot.key), KcvOf(s, slot), 16)
  }

  /** The key a new key travels under: the static DEK for SCP03, the session's own for SCP02. */
  function WrappingKey(backend: RustCryptoBackend, p: Protocol, dek: nat): Option<bytes>
    reads backend
  {
    match p
    case Scp03Session(_) => if AesKey(backend.keys, dek).Ok? then Some(AesKey(backend.keys, dek).value) else None
    case Scp02Session(h) =>
      var slot := SlotAt(backend.scp02Sessions, h);
      if slot.Some? then Some(slot.value.sDek) else None
  }

  /** A stored key of the protocol's own kind. */
  predicate Usable(backend: RustCryptoBackend, p: Protocol, newKey: nat)
    reads backend
  {
    match p
    case Scp03Session(_) => AesKey(backend.keys, newKey).Ok?
    case Scp02Session(_) => TdesKey(backend.keys, newKey).Ok?
  }

  function NewBlock(s: Suite, p: Protocol, dek: bytes, slot: KeySlot, kind: KeyKind): KeyBlock {
    if p.Scp03Session? then Scp03Block(s, dek, slot, kind) else Scp02Block(s, dek, slot)
  }

  /** `encrypt`. */
  method EncryptNewKey(backend: RustCryptoBackend, p: Protocol, dek: nat, newKey: nat)
    returns (r: Result<bytes, BackendError>)
    requires backend.Valid()
    ensures r.Ok? <==> WrappingKey(backend, p, dek).Some? && Usable(backend, p, newKey)
    ensures r.Ok? ==> KeyAt(backend.keys, newKey).Some?
    ensures r.Ok? ==> forall kind: KeyKind ::
              r.value == NewBlock(backend.suite, p, WrappingKey(backend, p, dek).value,
                                  KeyAt(backend.keys, newKey).value, kind).encryptedKey
  {
    match p
    case Scp03Session(_) => r := backend.Scp03EncryptPutKeyPayload(dek, newKey);
    case Scp02Session(h) => r := backend.Scp02EncryptPutKeyPayload(h, newKey);
  }

  lemma PayloadLength(s: Suite, dek: bytes, key: bytes)
    ensures |Scp03Payload(s, dek, key)| == |Scp03Plaintext(key)|
    ensures CbcDecrypt(s.aes, dek, Zeros(BLOCK), Scp03Payload(s, dek, key)) == Scp03Plaintext(key)
  {
    AlignedIsMod(|key|, BLOCK);
    PaddedAligned(BLOCK, |key|);
    CbcLength(s.aes, dek, Zeros(BLOCK), Scp03Plaintext(key));
    CbcRoundTrip(s.aes, dek, Zeros(BLOCK), Scp03Plaintext(key));
  }

  /**
   A card recovers an AES key exactly when the key has the declared kind's length. A 24-byte key and a
   32-byte key both travel as 32 bytes of ciphertext; the clear length tells them apart.
   */
  lemma RecoveredExactly(s: Suite, dek: bytes, slot: KeySlot, kind: KeyKind)
    ensures RecoverAes(s, dek, Scp03Block(s, dek, slot, kind)) == Some(slot.key) <==> |slot.key| == kind.ClearLen()
  {
    PayloadLength(s, dek, slot.key);
    var plain := Scp03Plaintext(slot.key);
    assert plain[..|slot.key|] == slot.key;
  }

  /**
   PUT KEY round trip over SCP03: reading the data field back and decrypting under the static DEK gives
   the three keys, if and only if all three have the declared length.
   */
  lemma Scp03RoundTrip(s: Suite, dek: bytes, newKvn: byte, slots: seq<KeySlot>, kind: KeyKind)
    requires |slots| == 3
    ensures var blocks := seq(3, i requires 0 <= i < 3 => Scp03Block(s, dek, slots[i], kind));
            && (forall b :: b in blocks ==> Canonical(b))
            && |DataField(newKvn, blocks)| <= 118
            && BlocksAt(DataField(newKvn, blocks)[1..], 3) == Some(blocks)
            && ((forall i :: 0 <= i < 3 ==> RecoverAes(s, dek, blocks[i]) == Some(slots[i].key))
                <==> (forall i :: 0 <= i < 3 ==> |slots[i].key| == kind.ClearLen()))
  {
    var blocks := seq(3, i requires 0 <= i < 3 => Scp03Block(s, dek, slots[i], kind));
    forall i | 0 <= i < 3
      ensures |blocks[i].encryptedKey| <= 32
      ensures RecoverAes(s, dek, blocks[i]) == Some(slots[i].key) <==> |slots[i].key| == kind.ClearLen()
    {
      PayloadLength(s, dek, slots[i].key);
      RecoveredExactly(s, dek, slots[i], kind);
    }
    BlocksRead(blocks);
    ThreeBlocksLength(blocks);
    assert DataField(newKvn, blocks)[1..] == BlocksBytes(blocks);
  }

  lemma ThreeBlocksLength(blocks: seq<KeyBlock>)
    requires |blocks| == 3 && forall b :: b in blocks ==> |b.encryptedKey| <= 32
    ensures |BlocksBytes(blocks)| <= 117
  {
    assert |BlocksBytes(blocks[2..])| <= 39 by { assert blocks[2..][1..] == []; }
    assert |BlocksBytes(blocks[1..])| <= 78 by { assert blocks[1..][1..] == blocks[2..]; }
  }

  /** PUT KEY round trip over SCP02: independent triple-DES blocks under the session DEK. */
  lemma Scp02RoundTrip(s: Suite, dek: bytes, newKvn: byte, keys: seq<bytes>, kcvs: seq<Kcv>)
    requires |keys| == |kcvs| == 3 && forall k :: k in keys ==> |k| == 16
    ensures var blocks := seq(3, i requires 0 <= i < 3 =>
                            KeyBlock(KEY_TYPE_3DES, EcbEncrypt(Tdes(s.des), dek, keys[i]), kcvs[i], 16));
            && (forall b :: b in blocks ==> Canonical(b))
            && BlocksAt(DataField(newKvn, blocks)[1..], 3) == Some(blocks)
            && forall i :: 0 <= i < 3 ==> EcbDecrypt(Tdes(s.des), dek, blocks[i].encryptedKey) == keys[i]
  {
    var blocks := seq(3, i requires 0 <= i < 3 =>
                    KeyBlock(KEY_TYPE_3DES, EcbEncrypt(Tdes(s.des), dek, keys[i]), kcvs[i], 16));
    AlignedIsMod(16, DES_BLOCK);
    forall i | 0 <= i < 3
      ensures |blocks[i].encryptedKey| == 16 && EcbDecrypt(Tdes(s.des), dek, blocks[i].encryptedKey) == keys[i]
    {
      EcbRoundTrip(Tdes(s.des), dek, keys[i]);
    }
    BlocksRead(blocks);
    assert DataField(newKvn, blocks)[1..] == BlocksBytes(blocks);
  }

  /**
   `verify_kcv_echo`: an echo of at least ten bytes must begin with the version and the three KCVs; a
   shorter one is not compared at all.
   */
  method VerifyKcvEcho(echo: bytes, newKvn: byte, kcvEnc: Kcv, kcvMac: Kcv, kcvDek: Kcv)
    returns (r: Result<bytes, PutKeyError>)
    ensures r.Ok? <==> |echo| < 10 || [newKvn] + kcvEnc + kcvMac + kcvDek <= echo
    ensures r.Ok? ==> r.value == kcvEnc + kcvMac + kcvDek
    ensures r.Err? ==> r.error == KeyCheckValueMismatch
  {
    var kcvs := kcvEnc + kcvMac + kcvDek;
    if |echo| >= 10 {
      var expected := [newKvn] + kcvs;
      if echo[..10] != expected {
        return Err(KeyCheckValueMismatch);
      }
    }
    return Ok(kcvs);
  }

  /** The three blocks of a new keyset. */
  function NewBlocks(backend: RustCryptoBackend, p: Protocol, dek: bytes, ks: NewKeyset): (blocks: seq<KeyBlock>)
    requires KeyAt(backend.keys, ks.enc).Some? && KeyAt(backend.keys, ks.mac).Some? && KeyAt(backend.keys, ks.dek).Some?
    reads backend
    ensures |blocks| == 3
  {
    [NewBlock(backend.suite, p, dek, KeyAt(backend.keys, ks.enc).value, ks.kind),
     NewBlock(backend.suite, p, dek, KeyAt(backend.keys, ks.mac).value, ks.kind),
     NewBlock(backend.suite, p, dek, KeyAt(backend.keys, ks.dek).value, ks.kind)]
  }

  lemma NewBlockFits(s: Suite, p: Protocol, dek: bytes, slot: KeySlot, kind: KeyKind)
    requires p.Scp02Session? ==> |slot.key| == 16
    ensures var b := NewBlock(s, p, dek, slot, kind);
            |b.encryptedKey| <= 32 && Canonical(b)
  {
    hide Scp03Payload, EcbEncrypt, KcvOf, CbcEncrypt, CbcDecrypt;
    if p.Scp03Session? {
      PayloadLength(s, dek, slot.key);
    } else {
      AlignedIsMod(16, DES_BLOCK);
      EcbRoundTrip(Tdes(s.des), dek, slot.key);
    }
  }

  /** Blocks of either protocol read back as written, and fit one short command. */
  lemma NewBlocksFit(s: Suite, p: Protocol, dek: bytes, newKvn: byte, slots: seq<KeySlot>, kind: KeyKind)
    requires |slots| == 3
    requires p.Scp02Session? ==> forall i :: 0 <= i < 3 ==> |slots[i].key| == 16
    ensures var blocks := [NewBlock(s, p, dek, slots[0], kind), NewBlock(s, p, dek, slots[1], kind),
                           NewBlock(s, p, dek, slots[2], kind)];
            && (forall b :: b in blocks ==> Canonical(b)) && |DataField(newKvn, blocks)| <= 118
            && BlocksAt(DataField(newKvn, blocks)[1..], 3) == Some(blocks)
  {
    hide NewBlock, Canonical, BlocksBytes, BlocksAt;
    NewBlockFits(s, p, dek, slots[0], kind);
    NewBlockFits(s, p, dek, slots[1], kind);
    NewBlockFits(s, p, dek, slots[2], kind);
    var blocks := [NewBlock(s, p, dek, slots[0], kind), NewBlock(s, p, dek, slots[1], kind),
                   NewBlock(s, p, dek, slots[2], kind)];
    ThreeBlocksLength(blocks);
    BlocksRead(blocks);
    assert DataField(newKvn, blocks)[1..] == BlocksBytes(blocks);
  }

  /** The command `put_sd_keys` sends, for keys the table holds. */
  method PutSdKeysCommand(backend: RustCryptoBackend, p: Protocol, dek: nat, newKvn: byte, ks: NewKeyset)
    returns (r: Result<bytes, PutKeyError>)
    requires backend.Valid()
    ensures r.Ok? <==> && WrappingKey(backend, p, dek).Some?
                       && Usable(backend, p, ks.enc) && Usable(backend, p, ks.mac) && Usable(backend, p, ks.dek)
    ensures r.Ok? ==>
              && KeyAt(backend.keys, ks.enc).Some? && KeyAt(backend.keys, ks.mac).Some?
              && KeyAt(backend.keys, ks.dek).Some?
              && var blocks := NewBlocks(backend, p, WrappingKey(backend, p, dek).value, ks);
              && (forall b :: b in blocks ==> Canonical(b)) && |DataField(newKvn, blocks)| <= 255
              && r.value == ShortApdu(0x84, 0xD8, 0x00, 0x81, DataField(newKvn, blocks), true)
  {
    var enc := EncryptNewKey(backend, p, dek, ks.enc);
    if enc.Err? {
      return Err(BackendFailed(enc.error));
    }
    var mac := EncryptNewKey(backend, p, dek, ks.mac);
    if mac.Err? {
      return Err(BackendFailed(mac.error));
    }
    var dekBlob := EncryptNewKey(backend, p, dek, ks.dek);
    if dekBlob.Err? {
      return Err(BackendFailed(dekBlob.error));
    }
    var keyType: byte := if p.Scp03Session? then KEY_TYPE_AES else KEY_TYPE_3DES;
    var clear: byte := if p.Scp03Session? then ks.kind.ClearLen() else 16;
    var slots := [KeyAt(backend.keys, ks.enc).value, KeyAt(backend.keys, ks.mac).value,
                  KeyAt(backend.keys, ks.dek).value];
    var blocks := [
      KeyBlock(keyType, enc.value, KcvOf(backend.suite, slots[0]), clear),
      KeyBlock(keyType, mac.value, KcvOf(backend.suite, slots[1]), clear),
      KeyBlock(keyType, dekBlob.value, KcvOf(backend.suite, slots[2]), clear)];
    ghost var wrapping := WrappingKey(backend, p, dek).value;
    assert blocks == NewBlocks(backend, p, wrapping, ks);
    NewBlocksFit(backend.suite, p, wrapping, newKvn, slots, ks.kind);
    var capdu := BuildPutKey(0x00, newKvn, blocks);
    return Ok(capdu.value);
  }

  /** The check values of a new keyset. */
  function Kcvs(backend: RustCryptoBackend, ks: NewKeyset): bytes
    requires KeyAt(backend.keys, ks.enc).Some? && KeyAt(backend.keys, ks.mac).Some? && KeyAt(backend.keys, ks.dek).Some?
    reads backend
  {
    KcvOf(backend.suite, KeyAt(backend.keys, ks.enc).value) + KcvOf(backend.suite, KeyAt(backend.keys, ks.mac).value)
    + KcvOf(backend.suite, KeyAt(backend.keys, ks.dek).value)
  }

  /** The card took the command and, if it echoed in full, echoed what was sent. */
  predicate TakenByCard(answer: Result<(bytes, nat), CardStatus.WorkflowError>, newKvn: byte, kcvs: bytes) {
    answer.Ok? && answer.value.1 == CardStatus.SW_OK && (|answer.value.0| < 10 || [newKvn] + kcvs <= answer.value.0)
  }

  /**
   `put_sd_keys`: one command, and success exactly when the card takes it and the target is an AID. The
   target is only looked at then, when the command has been sent and the card has stored the keys.
   */
  method PutSdKeys(t: CardStatus.Session, backend: RustCryptoBackend, p: Protocol, dek: nat, newKvn: byte,
                   ks: NewKeyset, target: bytes)
    returns (r: Result<bytes, PutKeyError>, ghost command: Result<bytes, PutKeyError>)
    requires backend.Valid()
    modifies t
    ensures command.Ok? <==> && WrappingKey(backend, p, dek).Some?
                             && Usable(backend, p, ks.enc) && Usable(backend, p, ks.mac) && Usable(backend, p, ks.dek)
    ensures command.Err? ==> r == command && t.sent == old(t.sent)
    ensures command.Ok? ==>
              && KeyAt(backend.keys, ks.enc).Some? && KeyAt(backend.keys, ks.mac).Some?
              && KeyAt(backend.keys, ks.dek).Some?
              && var data := DataField(newKvn, NewBlocks(backend, p, WrappingKey(backend, p, dek).value, ks));
                 && |data| <= 255
                 && t.sent == old(t.sent) + [ShortApdu(0x84, 0xD8, 0x00, 0x81, data, true)]
    ensures command.Ok? ==>
              var taken := TakenByCard(CardStatus.AnswerAt(t.script, old(t.next)), newKvn, Kcvs(backend, ks));
              && (r.Ok? <==> taken && IsAid(target))
              && (r.Ok? ==> r.value == Kcvs(backend, ks))
              && (taken && !IsAid(target) ==> r == Err(BadTarget))
  {
    hide NewBlocks, Usable, WrappingKey, DataField, ShortApdu, Canonical, KcvOf, CardStatus.AnswerAt;
    var capdu := PutSdKeysCommand(backend, p, dek, newKvn, ks);
    command := capdu;
    if capdu.Err? {
      return capdu, command;
    }
    var answer := t.Transmit(capdu.value);
    if answer.Err? {
      return Err(InTransport), command;
    }
    if answer.value.1 != CardStatus.SW_OK {
      return Err(CardRefused(answer.value.1)), command;
    }
    var kcvEnc := KcvOf(backend.suite, KeyAt(backend.keys, ks.enc).value);
    var kcvMac := KcvOf(backend.suite, KeyAt(backend.keys, ks.mac).value);
    var kcvDek := KcvOf(backend.suite, KeyAt(backend.keys, ks.dek).value);
    assert [newKvn] + kcvEnc + kcvMac + kcvDek == [newKvn] + Kcvs(backend, ks);
    r := VerifyKcvEcho(answer.value.0, newKvn, kcvEnc, kcvMac, kcvDek);
    if r.Ok? && !IsAid(target) {
      return Err(BadTarget), command;
    }
  }
}
