/** The key table: algorithm classes, stored keys and lookups by handle (`key.rs`, `backend/key.rs`). */
module Keys {
  import opened Bytes
  import opened Wrappers
  import opened Scp

  const MAX_KEY_SLOTS: nat := 16

  datatype KeyKind = Aes128 | Aes192 | Aes256 | TripleDesDouble {
    /** Plaintext key length in bytes. */
    function ClearLen(): nat {
      match this
      case Aes128 => 16
      case Aes192 => 24
      case Aes256 => 32
      case TripleDesDouble => 16
    }
  }

  datatype RawKeySlot = KeySlot(kind: KeyKind, key: bytes)

  /** Import and generation only store keys of their kind's length. */
  type KeySlot = k: RawKeySlot | |k.key| == k.kind.ClearLen()
    witness KeySlot(Aes128, Zeros(16))

  type KeyTable = seq<Option<KeySlot>>

  function KeyAt(keys: KeyTable, handle: nat): Option<KeySlot> {
    if handle < |keys| then keys[handle] else None
  }

  /** `read_aes_key`. */
  function AesKey(keys: KeyTable, handle: nat): (r: Result<bytes, BackendError>)
    ensures r.Ok? ==> |r.value| == 16 || |r.value| == 24 || |r.value| == 32
  {
    match KeyAt(keys, handle)
    case None => Err(KeyHandleInvalid)
    case Some(slot) => if slot.kind.TripleDesDouble? then Err(WrongKeyKind) else Ok(slot.key)
  }

  /** `read_tdes_key`. */
  function TdesKey(keys: KeyTable, handle: nat): (r: Result<bytes, BackendError>)
    ensures r.Ok? ==> |r.value| == 16
  {
    match KeyAt(keys, handle)
    case None => Err(KeyHandleInvalid)
    case Some(slot) => if slot.kind.TripleDesDouble? then Ok(slot.key) else Err(WrongKeyKind)
  }
}
