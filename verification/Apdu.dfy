/** Short C-APDU framing (`command/mod.rs`), and LOAD blocks (`command/load.rs`). */
module Apdu {
  import opened Bytes
  import opened Wrappers
  import opened Scp
  import Scp03
  import Scp02

  const LOAD_BLOCK_DATA: nat := 223

  datatype BuildError = Overflow

  /** The short APDU of a header, data and an optional Le of 00: empty data has no Lc. */
  function ShortApdu(cla: byte, ins: byte, p1: byte, p2: byte, data: bytes, le: bool): bytes
    requires |data| <= 255
  {
    [cla, ins, p1, p2] + (if data == [] then [] else [|data|] + data) + (if le then [0x00] else [])
  }

  /** `push`: append to a buffer of `CAPDU_MAX` bytes. */
  method Push(apdu: bytes, src: bytes) returns (r: Result<bytes, BuildError>)
    ensures r.Ok? <==> |apdu| + |src| <= CAPDU_MAX
    ensures r.Ok? ==> r.value == apdu + src
  {
    if |apdu| + |src| > CAPDU_MAX {
      return Err(Overflow);
    }
    return Ok(apdu + src);
  }

  /** `build`: fails exactly on data longer than a short Lc can say. */
  method Build(cla: byte, ins: byte, p1: byte, p2: byte, data: bytes, le: bool) returns (r: Result<bytes, BuildError>)
    ensures r.Ok? <==> |data| <= 255
    ensures r.Ok? ==> r.value == ShortApdu(cla, ins, p1, p2, data, le)
  {
    if |data| > 255 {
      return Err(Overflow);
    }
    var pushed := Push([], [cla, ins, p1, p2]);
    if data != [] {
      pushed := Push(pushed.value, [|data|]);
      pushed := Push(pushed.value, data);
    }
    if le {
      pushed := Push(pushed.value, [0x00]);
    }
    return pushed;
  }

  /**
   Secure messaging reads a built command back as it was built, except that the Le of a command
   without data is taken for an empty Lc and lost.
   */
  lemma SplitReadsBuilt(cla: byte, ins: byte, p1: byte, p2: byte, data: bytes, le: bool)
    requires |data| <= 255
    ensures Split(ShortApdu(cla, ins, p1, p2, data, le))
         == Ok(Command(cla, ins, p1, p2, data, if le && data != [] then [0x00] else []))
  {
    var apdu := ShortApdu(cla, ins, p1, p2, data, le);
    if data != [] {
      assert apdu[5..5 + |data|] == data;
      assert apdu[5 + |data|..] == if le then [0x00] else [];
    } else if le {
      assert apdu[5..5] == [] && apdu[5..] == [];
    }
  }

  /** The LOAD block numbered `blockNo`: P1 marks the last one. */
  function LoadApdu(blockNo: byte, last: bool, chunk: bytes): bytes
    requires |chunk| <= 255
  {
    ShortApdu(0x84, 0xE8, if last then 0x80 else 0x00, blockNo, chunk, true)
  }

  method LoadBlock(blockNo: byte, last: bool, chunk: bytes) returns (r: Result<bytes, BuildError>)
    ensures r.Ok? <==> |chunk| <= 255
    ensures r.Ok? ==> r.value == LoadApdu(blockNo, last, chunk)
  {
    var p1: byte := if last then 0x80 else 0x00;
    r := Build(0x84, 0xE8, p1, blockNo, chunk, true);
  }

  /** A chunk of the LOAD size passes secure messaging in every protocol, mode and level. */
  lemma LoadBlockAlwaysAccepted(level: byte, mode: Scp03.ScpMode, counter: nat, blockNo: byte, last: bool, chunk: bytes)
    requires |chunk| <= 223 && counter < 0xFFFF_FFFF
    ensures Scp03.Accepts(level, mode, counter, LoadApdu(blockNo, last, chunk))
    ensures Scp02.Accepts(level, LoadApdu(blockNo, last, chunk))
  {
    SplitReadsBuilt(0x84, 0xE8, if last then 0x80 else 0x00, blockNo, chunk, true);
  }

  /** Any longer chunk that can be framed is refused by SCP03 with 16-byte MACs under C-DECRYPTION: 223 is the most. */
  lemma LoadBlockSizeIsLargest(level: byte, counter: nat, blockNo: byte, last: bool, chunk: bytes)
    requires 223 < |chunk| && And(level, 0x02) != 0
    ensures |chunk| <= 255 ==> !Scp03.Accepts(level, Scp03.S16, counter, LoadApdu(blockNo, last, chunk))
  {
    if |chunk| <= 255 {
      SplitReadsBuilt(0x84, 0xE8, if last then 0x80 else 0x00, blockNo, chunk, true);
    }
  }

  // ---- INSTALL [for load] ----

  /** A length byte and the bytes. */
  function Lv(s: bytes): bytes {
    [|s| % 256] + s
  }

  /** `push_lv`. */
  method PushLv(out: bytes, s: bytes) returns (r: Result<bytes, BuildError>)
    ensures r.Ok? <==> |s| <= 255 && |out| + 1 + |s| <= CAPDU_MAX
    ensures r.Ok? ==> r.value == out + Lv(s)
  {
    if |s| > 255 {
      return Err(Overflow);
    }
    var lead :- Push(out, [|s|]);
    r := Push(lead, s);
  }

  /** Package, target security domain and hash, then empty parameters and token. */
  function InstallData(package: bytes, target: bytes, hash: bytes): bytes {
    Lv(package) + Lv(target) + Lv(hash) + Lv([]) + Lv([])
  }

  /** `install_for_load`: fails exactly when its fields do not fit a short command. */
  method InstallForLoad(package: bytes, target: bytes, hash: bytes) returns (r: Result<bytes, BuildError>)
    ensures r.Ok? <==> |InstallData(package, target, hash)| <= 255
    ensures r.Ok? ==> r.value == ShortApdu(0x84, 0xE6, 0x02, 0x00, InstallData(package, target, hash), true)
  {
    var data :- PushLv([], package);
    data :- PushLv(data, target);
    data :- PushLv(data, hash);
    data :- PushLv(data, []);
    data :- PushLv(data, []);
    assert data == InstallData(package, target, hash);
    r := Build(0x84, 0xE6, 0x02, 0x00, data, true);
  }

  /** The fields of an LV list, read one after another. */
  function LvAt(s: bytes): Option<(bytes, bytes)> {
    if s == [] then None
    else
      var n: nat := s[0];
      if |s| < 1 + n then None else Some((s[1..1 + n], s[1 + n..]))
  }

  /** A card reads back the three fields that were given. */
  lemma InstallReads(package: bytes, target: bytes, hash: bytes)
    requires |InstallData(package, target, hash)| <= 255
    ensures var first := LvAt(InstallData(package, target, hash));
            && first.Some? && first.value.0 == package
            && var second := LvAt(first.value.1);
               && second.Some? && second.value.0 == target
               && var third := LvAt(second.value.1);
                  third == Some((hash, [0, 0]))
  {
    LvReads(package, Lv(target) + Lv(hash) + Lv([]) + Lv([]));
    LvReads(target, Lv(hash) + Lv([]) + Lv([]));
    LvReads(hash, Lv([]) + Lv([]));
    hide Lv;
    assert InstallData(package, target, hash) == Lv(package) + (Lv(target) + Lv(hash) + Lv([]) + Lv([]));
    assert Lv(target) + Lv(hash) + Lv([]) + Lv([]) == Lv(target) + (Lv(hash) + Lv([]) + Lv([]));
    assert Lv(hash) + Lv([]) + Lv([]) == Lv(hash) + (Lv([]) + Lv([]));
    assert Lv([]) + Lv([]) == [0, 0] by {
      EmptyLv();
    }
  }

  lemma EmptyLv()
    ensures Lv([]) == [0]
  {
  }

  lemma LvReads(s: bytes, rest: bytes)
    requires |s| <= 255
    ensures LvAt(Lv(s) + rest) == Some((s, rest))
  {
    var b := Lv(s) + rest;
    assert b[0] == |s| && b[1..1 + |s|] == s && b[1 + |s|..] == rest;
  }
}
