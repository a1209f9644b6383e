/**
 The primitives of `crypto.rs`. AES, single DES and AES-CMAC are abstract: a block cipher is any
 keyed permutation of fixed-size blocks, CMAC is any function with 16-byte tags. Everything the
 source builds on them is concrete: CBC chaining, ISO/IEC 7816-4 padding, the counter-mode KDF,
 two-key triple DES and the Retail MAC.
 */
module Crypto {
  import opened Bytes
  import opened Wrappers

  const BLOCK: nat := 16
  const DES_BLOCK: nat := 8

  // ---- Abstract primitives ----

  datatype RawCipher = RawCipher(size: nat, enc: (bytes, bytes) -> bytes, dec: (bytes, bytes) -> bytes)

  /** `enc(key, _)` and `dec(key, _)` are mutually inverse on blocks of `size` bytes. */
  ghost predicate IsPermutation(c: RawCipher) {
    && c.size > 0
    && (forall k: bytes, b: bytes {:trigger c.enc(k, b)} | |b| == c.size ::
          |c.enc(k, b)| == c.size && c.dec(k, c.enc(k, b)) == b)
    && (forall k: bytes, b: bytes {:trigger c.dec(k, b)} | |b| == c.size ::
          |c.dec(k, b)| == c.size && c.enc(k, c.dec(k, b)) == b)
  }

  type Cipher = c: RawCipher | IsPermutation(c)
    witness RawCipher(16, (_, b) => b, (_, b) => b)

  datatype RawSuite = RawSuite(aes: Cipher, des: Cipher, cmac: (bytes, bytes) -> bytes)

  ghost predicate IsSuite(s: RawSuite) {
    && s.aes.size == BLOCK
    && s.des.size == DES_BLOCK
    && forall k: bytes, m: bytes {:trigger s.cmac(k, m)} :: |s.cmac(k, m)| == BLOCK
  }

  type Suite = s: RawSuite | IsSuite(s)
    witness RawSuite(RawCipher(16, (_, b) => b, (_, b) => b),
                     RawCipher(8, (_, b) => b, (_, b) => b),
                     (_, _) => Zeros(16))

  /** Two-key triple DES: encrypt under K1, decrypt under K2, encrypt under K1. */
  function Tdes(des: Cipher): (c: Cipher)
    ensures c.size == des.size
  {
    RawCipher(des.size,
              (k, b) => if |k| == 16 then des.enc(k[..8], des.dec(k[8..], des.enc(k[..8], b))) else b,
              (k, b) => if |k| == 16 then des.dec(k[..8], des.enc(k[8..], des.dec(k[..8], b))) else b)
  }

  // ---- CBC without padding ----

  function CbcEncrypt(c: Cipher, key: bytes, iv: bytes, msg: bytes): (ct: bytes)
    requires |iv| == c.size
    decreases |msg|
  {
    if |msg| < c.size then []
    else
      var block := c.enc(key, XorBlock(iv, msg[..c.size]));
      block + CbcEncrypt(c, key, block, msg[c.size..])
  }

  function CbcDecrypt(c: Cipher, key: bytes, iv: bytes, ct: bytes): (msg: bytes)
    requires |iv| == c.size
    decreases |ct|
  {
    if |ct| < c.size then []
    else
      XorBlock(iv, c.dec(key, ct[..c.size])) + CbcDecrypt(c, key, ct[..c.size], ct[c.size..])
  }

  /** `m` is a whole number of `n`-byte blocks. */
  predicate Aligned(m: nat, n: nat)
    requires n > 0
  {
    m == 0 || (m >= n && Aligned(m - n, n))
  }

  /** For the two block sizes in use this is the remainder test the source writes. */
  lemma {:induction false} AlignedIsMod(m: nat, n: nat)
    requires n == BLOCK || n == DES_BLOCK
    ensures Aligned(m, n) <==> m % n == 0
  {
    if m >= n {
      AlignedIsMod(m - n, n);
    }
  }

  lemma {:induction false} CbcLength(c: Cipher, key: bytes, iv: bytes, msg: bytes)
    requires |iv| == c.size && Aligned(|msg|, c.size)
    ensures |CbcEncrypt(c, key, iv, msg)| == |CbcDecrypt(c, key, iv, msg)| == |msg|
    decreases |msg|
  {
    if |msg| > 0 {
      CbcLength(c, key, c.enc(key, XorBlock(iv, msg[..c.size])), msg[c.size..]);
      CbcLength(c, key, msg[..c.size], msg[c.size..]);
    }
  }

  /** CBC decryption inverts CBC encryption under the same key and IV. */
  lemma {:induction false} CbcRoundTrip(c: Cipher, key: bytes, iv: bytes, msg: bytes)
    requires |iv| == c.size && Aligned(|msg|, c.size)
    ensures CbcDecrypt(c, key, iv, CbcEncrypt(c, key, iv, msg)) == msg
    decreases |msg|
  {
    if |msg| > 0 {
      var block := c.enc(key, XorBlock(iv, msg[..c.size]));
      var ct := CbcEncrypt(c, key, iv, msg);
      assert ct[..c.size] == block && ct[c.size..] == CbcEncrypt(c, key, block, msg[c.size..]);
      CbcRoundTrip(c, key, block, msg[c.size..]);
      XorBlockCancels(iv, msg[..c.size]);
      assert msg == msg[..c.size] + msg[c.size..];
    }
  }

  /** Single-block ECB is one block of CBC under a zero IV. */
  lemma EcbIsZeroIvCbc(c: Cipher, key: bytes, block: bytes)
    requires |block| == c.size
    ensures CbcEncrypt(c, key, Zeros(c.size), block) == c.enc(key, block)
  {
    XorBlockZero(block);
    assert block[..c.size] == block && block[c.size..] == [];
    assert CbcEncrypt(c, key, c.enc(key, block), []) == [];
  }

  /** The library call: encrypt the first `msgLen` bytes of `buf` in place. */
  method CbcEncryptInPlace(c: Cipher, key: bytes, iv: bytes, buf: array<byte>, msgLen: nat)
    requires |iv| == c.size && msgLen <= buf.Length && Aligned(msgLen, c.size)
    modifies buf
    ensures buf[..] == CbcEncrypt(c, key, iv, old(buf[..msgLen])) + old(buf[msgLen..])
    ensures |CbcEncrypt(c, key, iv, old(buf[..msgLen]))| == msgLen
  {
    var ct := CbcEncrypt(c, key, iv, buf[..msgLen]);
    CbcLength(c, key, iv, buf[..msgLen]);
    forall i | 0 <= i < msgLen {
      buf[i] := ct[i];
    }
  }

  /** `aes_ecb_block`, `des_ecb_block` and `tdes_ecb_block`: CBC over one block with a zero IV. */
  method EcbBlock(c: Cipher, key: bytes, blockIn: bytes) returns (out: bytes)
    requires |blockIn| == c.size
    ensures out == c.enc(key, blockIn) && |out| == c.size
  {
    var buf := new byte[c.size](i requires 0 <= i < |blockIn| => blockIn[i]);
    assert buf[..c.size] == blockIn;
    CbcEncryptInPlace(c, key, Zeros(c.size), buf, c.size);
    EcbIsZeroIvCbc(c, key, blockIn);
    out := buf[..];
  }

  // ---- ISO/IEC 7816-4 padding ----

  /** Length of an `len`-byte message padded to a block of `n`: always at least one byte more. */
  function PaddedLen(n: nat, len: nat): (p: nat)
    requires n > 0
    ensures len < p <= len + n
  {
    len + (n - len % n)
  }

  function Pad(n: nat, msg: bytes): (p: bytes)
    requires n > 0
    ensures |p| == PaddedLen(n, |msg|)
  {
    msg + [0x80] + Zeros(n - |msg| % n - 1)
  }

  /** The message in front of the last `80` marker, if only zeros follow that marker. */
  function Unpad(p: bytes): Option<bytes> {
    if p == [] then None
    else
      var last := p[|p| - 1];
      if last == 0x00 then Unpad(p[..|p| - 1])
      else if last == 0x80 then Some(p[..|p| - 1])
      else None
  }

  lemma {:induction false} UnpadMarked(msg: bytes, zeros: nat)
    ensures Unpad(msg + [0x80] + Zeros(zeros)) == Some(msg)
  {
    var p := msg + [0x80] + Zeros(zeros);
    if zeros > 0 {
      assert p[..|p| - 1] == msg + [0x80] + Zeros(zeros - 1);
      UnpadMarked(msg, zeros - 1);
    } else {
      assert p[..|p| - 1] == msg;
    }
  }

  /** Stripping undoes padding for every message and block size. */
  lemma UnpadPad(n: nat, msg: bytes)
    requires n > 0
    ensures Unpad(Pad(n, msg)) == Some(msg)
  {
    UnpadMarked(msg, n - |msg| % n - 1);
  }

  /** `Unpad` accepts exactly the marked strings. */
  lemma {:induction false} UnpadOnlyMarked(p: bytes)
    ensures Unpad(p).Some? ==>
              |Unpad(p).value| < |p| && p == Unpad(p).value + [0x80] + Zeros(|p| - |Unpad(p).value| - 1)
  {
    if p != [] {
      var front := p[..|p| - 1];
      assert p == front + [p[|p| - 1]];
      if p[|p| - 1] == 0x00 {
        UnpadOnlyMarked(front);
      }
    }
  }

  lemma PaddedAligned(n: nat, len: nat)
    requires n == BLOCK || n == DES_BLOCK
    ensures Aligned(PaddedLen(n, len), n)
  {
    AlignedIsMod(PaddedLen(n, len), n);
  }

  datatype CryptoError =
    | PadOverflow
    | BadPad
    | KdfOverflow
    | MacInputTooLarge

  /** `pad80` and `pad80_8`: pad `buf[..len]` in place. */
  method PadInPlace(n: nat, buf: array<byte>, len: nat) returns (r: Result<nat, CryptoError>)
    requires n > 0 && len <= buf.Length
    modifies buf
    ensures r == if PaddedLen(n, len) <= buf.Length then Ok(PaddedLen(n, len)) else Err(PadOverflow)
    ensures r.Ok? ==> buf[..] == Pad(n, old(buf[..len])) + old(buf[PaddedLen(n, len)..])
    ensures r.Err? ==> buf[..] == old(buf[..])
  {
    var padded := len + (n - len % n);
    if padded > buf.Length {
      return Err(PadOverflow);
    }
    buf[len] := 0x80;
    for i := len + 1 to padded
      invariant buf[..len] == old(buf[..len])
      invariant buf[len] == 0x80
      invariant forall j :: len < j < i ==> buf[j] == 0
      invariant buf[padded..] == old(buf[padded..])
    {
      buf[i] := 0x00;
    }
    assert buf[..] == buf[..len] + [0x80] + buf[len + 1..padded] + buf[padded..];
    assert buf[len + 1..padded] == Zeros(n - len % n - 1);
    return Ok(padded);
  }

  /** `unpad80`: scan back over zeros for the marker. */
  method UnpadScan(buf: bytes) returns (r: Result<nat, CryptoError>)
    ensures match Unpad(buf)
            case Some(msg) => r == Ok(|msg|) && |msg| <= |buf| && buf[..|msg|] == msg
            case None => r == Err(BadPad)
  {
    var i := |buf|;
    assert buf[..i] == buf;
    while i > 0
      invariant 0 <= i <= |buf|
      invariant Unpad(buf) == Unpad(buf[..i])
    {
      assert buf[..i][..i - 1] == buf[..i - 1];
      i := i - 1;
      if buf[i] == 0x00 {
      } else if buf[i] == 0x80 {
        return Ok(i);
      } else {
        return Err(BadPad);
      }
    }
    return Err(BadPad);
  }

  // ---- Counter-mode KDF (NIST SP 800-108r1 with a CMAC PRF) ----

  /** PRF input of block `i`: label, separator, length in bits, counter, context. */
  function KdfInput(constant: byte, lBits: nat, i: nat, context: bytes): bytes {
    Zeros(11) + [constant, 0x00] + ToBigEndian(lBits, 2) + [i % 256] + context
  }

  /** The first `blocks` PRF outputs, counters starting at 1. */
  function KdfStream(s: Suite, key: bytes, constant: byte, lBits: nat, context: bytes, blocks: nat): (k: bytes)
    ensures |k| == BLOCK * blocks
  {
    if blocks == 0 then []
    else
      KdfStream(s, key, constant, lBits, context, blocks - 1)
      + s.cmac(key, KdfInput(constant, lBits, blocks, context))
  }

  /** The derived key: the PRF stream cut to `len` bytes. */
  function KdfOutput(s: Suite, key: bytes, constant: byte, lBits: nat, context: bytes, len: nat): (k: bytes)
    ensures |k| == len
  {
    KdfStream(s, key, constant, lBits, context, (len + BLOCK - 1) / BLOCK)[..len]
  }

  const KDF_BLOCK_MAX: nat := 64

  function Min(a: nat, b: nat): nat {
    if a <= b then a else b
  }

  /** `kdf`: fill `out` block by block. */
  method Kdf(s: Suite, key: bytes, constant: byte, lBits: nat, context: bytes, out: array<byte>)
    returns (r: Result<(), CryptoError>)
    modifies out
    ensures r.Ok? <==> out.Length == 0 || 16 + |context| <= 64
    ensures r.Ok? ==> out[..] == KdfOutput(s, key, constant, lBits, context, out.Length)
    ensures r.Err? ==> r.error == KdfOverflow
  {
    var counter: byte := 1;
    var written := 0;
    while written < out.Length
      invariant written <= out.Length
      invariant written < out.Length ==> written % BLOCK == 0 && counter == (written / BLOCK + 1) % 256
      invariant written > 0 ==> 16 + |context| <= KDF_BLOCK_MAX
      invariant out[..written] == KdfOutput(s, key, constant, lBits, context, written)
    {
      var block := Zeros(11) + [constant, 0x00] + ToBigEndian(lBits, 2) + [counter] + context;
      if |block| > KDF_BLOCK_MAX {
        return Err(KdfOverflow);
      }
      var tag := s.cmac(key, block);
      var take := Min(BLOCK, out.Length - written);
      ghost var done := out[..written];
      forall i | 0 <= i < take {
        out[written + i] := tag[i];
      }
      assert out[..written + take] == done + tag[..take];
      KdfStep(s, key, constant, lBits, context, written, take);
      CounterStep(counter, written);
      written := written + take;
      counter := (counter + 1) % 256;
    }
    return Ok(());
  }

  lemma CounterStep(counter: byte, written: nat)
    requires written % BLOCK == 0 && counter == (written / BLOCK + 1) % 256
    ensures (counter + 1) % 256 == ((written + BLOCK) / BLOCK + 1) % 256
    ensures (written + BLOCK) % BLOCK == 0
  {
    assert (written + BLOCK) / BLOCK == written / BLOCK + 1;
  }

  lemma KdfStep(s: Suite, key: bytes, constant: byte, lBits: nat, context: bytes, written: nat, take: nat)
    requires written % BLOCK == 0 && 0 < take <= BLOCK
    ensures KdfOutput(s, key, constant, lBits, context, written + take)
         == KdfOutput(s, key, constant, lBits, context, written)
          + s.cmac(key, KdfInput(constant, lBits, written / BLOCK + 1, context))[..take]
  {
    var n := written / BLOCK;
    assert (written + BLOCK - 1) / BLOCK == n && (written + take + BLOCK - 1) / BLOCK == n + 1;
    var front := KdfStream(s, key, constant, lBits, context, n);
    var tag := s.cmac(key, KdfInput(constant, lBits, n + 1, context));
    assert KdfStream(s, key, constant, lBits, context, n + 1) == front + tag;
    assert (front + tag)[..written + take] == front + tag[..take];
  }

  // ---- MACs over DES ----

  /** Plain CBC-MAC of whole blocks: the last CBC block, or the IV of an empty message. */
  function CbcMac(c: Cipher, key: bytes, iv: bytes, msg: bytes): (h: bytes)
    requires |iv| == c.size
    ensures |h| == c.size
    decreases |msg|
  {
    if |msg| < c.size then iv
    else CbcMac(c, key, c.enc(key, XorBlock(iv, msg[..c.size])), msg[c.size..])
  }

  /**
   MAC Algorithm 3 of ISO/IEC 9797-1:2011 with padding method 2: CBC-MAC under K1 over every block,
   then decrypt under K2 and encrypt under K1.
   */
  function MacAlgorithm3(des: Cipher, key: bytes, iv: bytes, data: bytes): (mac: bytes)
    requires des.size == DES_BLOCK && |key| == 16 && |iv| == DES_BLOCK
    ensures |mac| == DES_BLOCK
  {
    var h := CbcMac(des, key[..8], iv, Pad(DES_BLOCK, data));
    des.enc(key[..8], des.dec(key[8..], h))
  }

  /** Full triple-DES CBC-MAC with padding method 2 (the SCP02 cryptograms). */
  function TdesCbcMac(des: Cipher, key: bytes, iv: bytes, data: bytes): (mac: bytes)
    requires des.size == DES_BLOCK && |iv| == DES_BLOCK
    ensures |mac| == DES_BLOCK
  {
    CbcMac(Tdes(des), key, iv, Pad(DES_BLOCK, data))
  }

  lemma {:induction false} CbcMacAppend(c: Cipher, key: bytes, iv: bytes, a: bytes, b: bytes)
    requires |iv| == c.size && Aligned(|a|, c.size)
    ensures CbcMac(c, key, iv, a + b) == CbcMac(c, key, CbcMac(c, key, iv, a), b)
    decreases |a|
  {
    if |a| == 0 {
      assert a + b == b;
    } else {
      assert (a + b)[..c.size] == a[..c.size] && (a + b)[c.size..] == a[c.size..] + b;
      CbcMacAppend(c, key, c.enc(key, XorBlock(iv, a[..c.size])), a[c.size..], b);
    }
  }

  /** The last ciphertext block of CBC encryption is the CBC-MAC. */
  lemma {:induction false} LastCbcBlock(c: Cipher, key: bytes, iv: bytes, msg: bytes)
    requires |iv| == c.size && Aligned(|msg|, c.size) && |msg| > 0
    ensures |CbcEncrypt(c, key, iv, msg)| == |msg| >= c.size
    ensures CbcEncrypt(c, key, iv, msg)[|msg| - c.size..] == CbcMac(c, key, iv, msg)
    decreases |msg|
  {
    CbcLength(c, key, iv, msg);
    var block := c.enc(key, XorBlock(iv, msg[..c.size]));
    if |msg| == c.size {
      assert msg[c.size..] == [];
    } else {
      LastCbcBlock(c, key, block, msg[c.size..]);
    }
  }

  /** `tdes_mac`: pad the copied message, encrypt it in place, keep the last block. */
  method TdesMac(des: Cipher, key: bytes, iv: bytes, data: bytes, scratch: array<byte>)
    returns (r: Result<bytes, CryptoError>)
    requires des.size == DES_BLOCK && |iv| == DES_BLOCK
    modifies scratch
    ensures r.Ok? <==> PaddedLen(DES_BLOCK, |data|) <= scratch.Length
    ensures r.Ok? ==> r.value == TdesCbcMac(des, key, iv, data)
  {
    if |data| > scratch.Length {
      return Err(MacInputTooLarge);
    }
    forall i | 0 <= i < |data| {
      scratch[i] := data[i];
    }
    assert scratch[..|data|] == data;
    var padded :- PadInPlace(DES_BLOCK, scratch, |data|);
    ghost var message := Pad(DES_BLOCK, data);
    assert scratch[..padded] == message;
    PaddedAligned(DES_BLOCK, |data|);
    CbcEncryptInPlace(Tdes(des), key, iv, scratch, padded);
    LastCbcBlock(Tdes(des), key, iv, Pad(DES_BLOCK, data));
    ghost var ct := CbcEncrypt(Tdes(des), key, iv, Pad(DES_BLOCK, data));
    assert scratch[..padded] == ct;
    assert scratch[padded - DES_BLOCK..padded] == ct[padded - DES_BLOCK..];
    return Ok(scratch[padded - DES_BLOCK..padded]);
  }

  /**
   `retail_mac`: single-DES CBC in place over all but the last padded block, then one triple-DES
   block under the chained IV. The result is the standard's MAC, whichever way it was computed.
   */
  method RetailMac(des: Cipher, key: bytes, iv: bytes, data: bytes, scratch: array<byte>)
    returns (r: Result<bytes, CryptoError>)
    requires des.size == DES_BLOCK && |key| == 16 && |iv| == DES_BLOCK
    modifies scratch
    ensures r.Ok? <==> PaddedLen(DES_BLOCK, |data|) <= scratch.Length
    ensures r.Ok? ==> r.value == MacAlgorithm3(des, key, iv, data)
  {
    if |data| > scratch.Length {
      return Err(MacInputTooLarge);
    }
    forall i | 0 <= i < |data| {
      scratch[i] := data[i];
    }
    assert scratch[..|data|] == data;
    var padded :- PadInPlace(DES_BLOCK, scratch, |data|);
    ghost var message := Pad(DES_BLOCK, data);
    assert scratch[..padded] == message;
    PaddedAligned(DES_BLOCK, |data|);

    var head := padded - DES_BLOCK;
    assert scratch[..head] == message[..head] && scratch[head..padded] == message[head..];
    var chain := ChainHead(des, key[..DES_BLOCK], iv, scratch, head);
    var last := scratch[head..padded];
    assert last == message[head..];
    var block := new byte[DES_BLOCK](i requires 0 <= i < |last| => last[i]);
    assert block[..DES_BLOCK] == last;
    CbcEncryptInPlace(Tdes(des), key, chain, block, DES_BLOCK);
    RetailMacIsAlgorithm3(des, key, iv, message[..head], last);
    assert message == message[..head] + last;
    return Ok(block[..]);
  }

  /** The single-DES stage of `retail_mac`: its last ciphertext block, or the IV if there is none. */
  method ChainHead(des: Cipher, k1: bytes, iv: bytes, scratch: array<byte>, head: nat) returns (chain: bytes)
    requires |iv| == des.size && head <= scratch.Length && Aligned(head, des.size)
    modifies scratch
    ensures chain == CbcMac(des, k1, iv, old(scratch[..head])) && |chain| == des.size
    ensures scratch[head..] == old(scratch[head..])
  {
    chain := iv;
    if head > 0 {
      LastCbcBlock(des, k1, iv, scratch[..head]);
      CbcEncryptInPlace(des, k1, chain, scratch, head);
      chain := scratch[head - des.size..head];
    }
  }

  /** One triple-DES block after a single-DES chain is Algorithm 3 over the whole message. */
  lemma RetailMacIsAlgorithm3(des: Cipher, key: bytes, iv: bytes, front: bytes, tail: bytes)
    requires des.size == DES_BLOCK && |key| == 16 && |iv| == DES_BLOCK
    requires Aligned(|front|, DES_BLOCK) && |tail| == DES_BLOCK
    ensures CbcEncrypt(Tdes(des), key, CbcMac(des, key[..8], iv, front), tail)
         == des.enc(key[..8], des.dec(key[8..], CbcMac(des, key[..8], iv, front + tail)))
  {
    var chain := CbcMac(des, key[..8], iv, front);
    CbcMacAppend(des, key[..8], iv, front, tail);
    assert tail[..8] == tail && tail[8..] == [];
    var x := XorBlock(chain, tail);
    assert CbcMac(des, key[..8], chain, tail) == CbcMac(des, key[..8], des.enc(key[..8], x), []);
    assert CbcEncrypt(Tdes(des), key, chain, tail) == Tdes(des).enc(key, x) + [];
  }
}
