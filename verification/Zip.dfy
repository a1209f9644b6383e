/**
 The central-directory walk of `cap/mod.rs`: find the end record, step through the directory, and
 locate each recognised component's data. `ZipWriter` has the archives it inverts.
 */
module Zip {
  import opened Bytes
  import opened Wrappers
  import opened LoadFile

  const SIG_EOCD: nat := 0x0605_4B50
  const SIG_CDH: nat := 0x0201_4B50
  const SIG_LFH: nat := 0x0403_4B50
  const EOCD_MIN: nat := 22

  /** Component basenames in load-file order; `Debug.cap` is not one of them. */
  const COMPONENT_NAMES: seq<string> := [
    "Header.cap", "Directory.cap", "Import.cap", "Applet.cap", "Class.cap", "Method.cap",
    "StaticField.cap", "Export.cap", "ConstantPool.cap", "RefLocation.cap", "Descriptor.cap"
  ]

  // ---- Little-endian fields ----

  function Nat(b: byte): nat {
    b
  }

  function Field16(zip: bytes, at: nat): Option<nat> {
    if at + 2 <= |zip| then Some(Nat(zip[at]) + 0x100 * Nat(zip[at + 1])) else None
  }

  function Field32(zip: bytes, at: nat): Option<nat> {
    if at + 4 <= |zip| then
      Some(Nat(zip[at]) + 0x100 * Nat(zip[at + 1]) + 0x1_0000 * Nat(zip[at + 2]) + 0x100_0000 * Nat(zip[at + 3]))
    else None
  }

  predicate Signed(zip: bytes, at: nat, sig: nat) {
    Field32(zip, at) == Some(sig)
  }

  // ---- Names ----

  /** What follows the last `/` or `\`. */
  function Basename(name: bytes): bytes {
    if name == [] then []
    else if name[|name| - 1] == 0x2F || name[|name| - 1] == 0x5C then []
    else Basename(name[..|name| - 1]) + [name[|name| - 1]]
  }

  function Ascii(s: string): bytes {
    seq(|s|, i requires 0 <= i < |s| => s[i] as int % 256)
  }

  function IndexFrom(base: bytes, k: nat): (r: Option<nat>)
    ensures r.Some? ==> k <= r.value < LFDB_COMPONENTS
    decreases LFDB_COMPONENTS - k
  {
    if k >= LFDB_COMPONENTS then None
    else if Ascii(COMPONENT_NAMES[k]) == base then Some(k)
    else IndexFrom(base, k + 1)
  }

  /** `component_index`. */
  function ComponentIndex(name: bytes): (r: Option<nat>)
    ensures r.Some? ==> r.value < LFDB_COMPONENTS
  {
    IndexFrom(Basename(name), 0)
  }

  /** The names are told apart by length and first letter. */
  lemma NamesDiffer(j: nat, k: nat)
    requires j < k < LFDB_COMPONENTS
    ensures Ascii(COMPONENT_NAMES[j]) != Ascii(COMPONENT_NAMES[k])
  {
    var a, b := COMPONENT_NAMES[j], COMPONENT_NAMES[k];
    assert |a| != |b| || a[0] != b[0];
    assert |Ascii(a)| != |Ascii(b)| || Ascii(a)[0] != Ascii(b)[0];
  }

  lemma {:induction false} IndexFromFinds(k: nat, j: nat)
    requires j <= k < LFDB_COMPONENTS
    ensures IndexFrom(Ascii(COMPONENT_NAMES[k]), j) == Some(k)
    decreases k - j
  {
    if j < k {
      NamesDiffer(j, k);
      IndexFromFinds(k, j + 1);
    }
  }

  lemma {:induction false} IndexFromSound(base: bytes, j: nat)
    ensures var r := IndexFrom(base, j); r.Some? ==> Ascii(COMPONENT_NAMES[r.value]) == base
    decreases LFDB_COMPONENTS - j
  {
    if j < LFDB_COMPONENTS && Ascii(COMPONENT_NAMES[j]) != base {
      IndexFromSound(base, j + 1);
    }
  }

  /** A basename has no separator, and what it was cut from ends in it. */
  lemma {:induction false} BasenameEnds(dir: bytes, base: bytes)
    requires forall i :: 0 <= i < |base| ==> base[i] != 0x2F && base[i] != 0x5C
    requires dir == [] || dir[|dir| - 1] == 0x2F || dir[|dir| - 1] == 0x5C
    ensures Basename(dir + base) == base
    decreases |base|
  {
    if base == [] {
      assert dir + base == dir;
    } else {
      var front := base[..|base| - 1];
      BasenameEnds(dir, front);
      assert (dir + base)[..|dir + base| - 1] == dir + front;
    }
  }

  /** A path names component `k` exactly when its basename is that component's file name. */
  lemma ComponentIndexExactly(name: bytes, k: nat)
    requires k < LFDB_COMPONENTS
    ensures ComponentIndex(name) == Some(k) <==> Basename(name) == Ascii(COMPONENT_NAMES[k])
  {
    if Basename(name) == Ascii(COMPONENT_NAMES[k]) {
      IndexFromFinds(k, 0);
    }
    IndexFromSound(Basename(name), 0);
  }

  /** In any directory, the eleven file names in the order of section C.2 of the GlobalPlatform Card Specification. */
  lemma NamesInOrder(dir: bytes)
    requires dir == [] || dir[|dir| - 1] == 0x2F || dir[|dir| - 1] == 0x5C
    ensures ComponentIndex(dir + Ascii("Header.cap")) == Some(0)
    ensures ComponentIndex(dir + Ascii("Directory.cap")) == Some(1)
    ensures ComponentIndex(dir + Ascii("Import.cap")) == Some(2)
    ensures ComponentIndex(dir + Ascii("Applet.cap")) == Some(3)
    ensures ComponentIndex(dir + Ascii("Class.cap")) == Some(4)
    ensures ComponentIndex(dir + Ascii("Method.cap")) == Some(5)
    ensures ComponentIndex(dir + Ascii("StaticField.cap")) == Some(6)
    ensures ComponentIndex(dir + Ascii("Export.cap")) == Some(7)
    ensures ComponentIndex(dir + Ascii("ConstantPool.cap")) == Some(8)
    ensures ComponentIndex(dir + Ascii("RefLocation.cap")) == Some(9)
    ensures ComponentIndex(dir + Ascii("Descriptor.cap")) == Some(10)
    ensures ComponentIndex(dir + Ascii("Debug.cap")) == None
  {
    hide ComponentIndex, Ascii, COMPONENT_NAMES;
    NamesAre();
    NameIs(dir, "Header.cap", 0);
    NameIs(dir, "Directory.cap", 1);
    NameIs(dir, "Import.cap", 2);
    NameIs(dir, "Applet.cap", 3);
    NameIs(dir, "Class.cap", 4);
    NameIs(dir, "Method.cap", 5);
    NameIs(dir, "StaticField.cap", 6);
    NameIs(dir, "Export.cap", 7);
    NameIs(dir, "ConstantPool.cap", 8);
    NameIs(dir, "RefLocation.cap", 9);
    NameIs(dir, "Descriptor.cap", 10);
    DebugIsNone(dir);
  }

  /** Characters are their codes. */
  lemma AsciiCodes()
    ensures Ascii("Class.cap") == [0x43, 0x6C, 0x61, 0x73, 0x73, 0x2E, 0x63, 0x61, 0x70]
    ensures forall s: string, i: nat :: i < |s| && s[i] < 256 as char ==>
              |Ascii(s)| == |s| && Ascii(s)[i] == s[i] as int
  {
  }

  lemma NamesAre()
    ensures COMPONENT_NAMES == ["Header.cap", "Directory.cap", "Import.cap", "Applet.cap", "Class.cap", "Method.cap",
                                "StaticField.cap", "Export.cap", "ConstantPool.cap", "RefLocation.cap",
                                "Descriptor.cap"]
  {
  }

  lemma FirstNamesArePlain()
    ensures Plain("Header.cap") && Plain("Directory.cap")
  {
  }

  lemma SecondNamesArePlain()
    ensures Plain("Import.cap") && Plain("Applet.cap")
  {
  }

  lemma ThirdNamesArePlain()
    ensures Plain("Class.cap") && Plain("Method.cap")
  {
  }

  lemma FourthNamesArePlain()
    ensures Plain("StaticField.cap") && Plain("Export.cap")
  {
  }

  lemma FifthNamesArePlain()
    ensures Plain("ConstantPool.cap") && Plain("RefLocation.cap")
  {
  }

  lemma LastNameIsPlain()
    ensures Plain("Descriptor.cap")
  {
  }

  lemma NamesArePlain(k: nat)
    requires k < LFDB_COMPONENTS
    ensures Plain(COMPONENT_NAMES[k])
  {
    hide COMPONENT_NAMES, Plain;
    NamesAre();
    FirstNamesArePlain();
    SecondNamesArePlain();
    ThirdNamesArePlain();
    FourthNamesArePlain();
    FifthNamesArePlain();
    LastNameIsPlain();
  }

  predicate Plain(name: string) {
    forall i :: 0 <= i < |name| ==> name[i] as int % 256 != 0x2F && name[i] as int % 256 != 0x5C
  }

  lemma NameIs(dir: bytes, name: string, k: nat)
    requires dir == [] || dir[|dir| - 1] == 0x2F || dir[|dir| - 1] == 0x5C
    requires k < LFDB_COMPONENTS && name == COMPONENT_NAMES[k]
    ensures ComponentIndex(dir + Ascii(name)) == Some(k)
  {
    NamesArePlain(k);
    BasenameEnds(dir, Ascii(name));
    ComponentIndexExactly(dir + Ascii(name), k);
  }

  lemma DebugIsNone(dir: bytes)
    requires dir == [] || dir[|dir| - 1] == 0x2F || dir[|dir| - 1] == 0x5C
    ensures ComponentIndex(dir + Ascii("Debug.cap")) == None
  {
    var debug := Ascii("Debug.cap");
    BasenameEnds(dir, debug);
    IndexFromSound(debug, 0);
    forall k | 0 <= k < LFDB_COMPONENTS
      ensures Ascii(COMPONENT_NAMES[k]) != debug
    {
      var name := COMPONENT_NAMES[k];
      assert |name| != 9 || name[0] != 'D';
      assert |Ascii(name)| != 9 || Ascii(name)[0] != debug[0];
    }
  }

  // ---- The end record ----

  /** The last end-record signature at or before `i`, no further back than `limit`. */
  function LastSigned(zip: bytes, i: nat, limit: nat): (r: Option<nat>)
    requires limit <= i
    ensures r.Some? ==> limit <= r.value <= i && Signed(zip, r.value, SIG_EOCD)
                        && forall j :: r.value < j <= i ==> !Signed(zip, j, SIG_EOCD)
    ensures r.None? ==> forall j :: limit <= j <= i ==> !Signed(zip, j, SIG_EOCD)
  {
    if Signed(zip, i, SIG_EOCD) then Some(i)
    else if i == limit then None
    else LastSigned(zip, i - 1, limit)
  }

  /** The comment after the end record is at most 65535 bytes. */
  function ScanLimit(zip: bytes): nat
    requires |zip| >= EOCD_MIN
  {
    if |zip| - EOCD_MIN >= 0xFFFF then |zip| - EOCD_MIN - 0xFFFF else 0
  }

  function EndRecord(zip: bytes): (r: Option<nat>)
    ensures r.Some? ==> r.value + EOCD_MIN <= |zip| && Signed(zip, r.value, SIG_EOCD)
  {
    if |zip| < EOCD_MIN then None else LastSigned(zip, |zip| - EOCD_MIN, ScanLimit(zip))
  }

  /** An end record could be here: its four bytes, room for it, and at most 65535 bytes of comment behind it. */
  predicate EndsAt(zip: bytes, i: nat) {
    i + 22 <= |zip| <= i + 22 + 65535 && zip[i..i + 4] == [0x50, 0x4B, 0x05, 0x06]
  }

  /** The end record is the last place where one could be, and missing only if there is no such place. */
  lemma EndRecordExactly(zip: bytes)
    ensures EndRecord(zip).Some? ==> EndsAt(zip, EndRecord(zip).value)
    ensures forall i: nat :: EndsAt(zip, i) ==> EndRecord(zip).Some? && i <= EndRecord(zip).value
    ensures Walk(zip) == Err(NotAZip) <==> forall i: nat :: !EndsAt(zip, i)
  {
    hide WalkFrom;
    if EndRecord(zip).Some? {
      SignatureBytes(zip, EndRecord(zip).value);
    }
    forall i: nat | EndsAt(zip, i)
      ensures EndRecord(zip).Some? && i <= EndRecord(zip).value
    {
      SignatureBytes(zip, i);
      assert Signed(zip, i, SIG_EOCD) && ScanLimit(zip) <= i;
    }
    if EndRecord(zip).Some? {
      var at := EndRecord(zip).value;
      WalkIsZip(zip, Field32(zip, at + 16).value, Field16(zip, at + 10).value, NothingFound());
    }
  }

  lemma SignatureBytes(zip: bytes, i: nat)
    requires i + 4 <= |zip|
    ensures Signed(zip, i, SIG_EOCD) <==> zip[i..i + 4] == [0x50, 0x4B, 0x05, 0x06]
  {
    var s := zip[i..i + 4];
    assert s[0] == zip[i] && s[1] == zip[i + 1] && s[2] == zip[i + 2] && s[3] == zip[i + 3];
  }

  lemma {:induction false} WalkIsZip(zip: bytes, pos: nat, n: nat, locs: Locs)
    requires |locs| == LFDB_COMPONENTS
    ensures WalkFrom(zip, pos, n, locs).Err? ==> WalkFrom(zip, pos, n, locs).error == Malformed
    decreases n
  {
    hide EntryAt, LocalDataOffset, ComponentIndex;
    if n > 0 && EntryAt(zip, pos).Some? && Record(zip, EntryAt(zip, pos).value, locs).Ok? {
      WalkIsZip(zip, EntryAt(zip, pos).value.next, n - 1, Record(zip, EntryAt(zip, pos).value, locs).value);
    }
  }

  /** `find_eocd`: scan backwards for the end record. */
  method FindEocd(zip: bytes) returns (r: Option<nat>)
    ensures r == EndRecord(zip)
  {
    if |zip| < EOCD_MIN {
      return None;
    }
    var limit := ScanLimit(zip);
    var i := |zip| - EOCD_MIN;
    while true
      invariant limit <= i <= |zip| - EOCD_MIN
      invariant EndRecord(zip) == LastSigned(zip, i, limit)
      decreases i
    {
      if Signed(zip, i, SIG_EOCD) {
        return Some(i);
      }
      if i == 0 || i == limit {
        return None;
      }
      i := i - 1;
    }
  }

  // ---- The directory ----

  datatype DirEntry = DirEntry(coding: nat, compSize: nat, uncompSize: nat, name: bytes, localOff: nat, next: nat)

  /** The directory entry at `pos`, if it is one and its fields and name are inside the archive. */
  function EntryAt(zip: bytes, pos: nat): (r: Option<DirEntry>)
  {
    if Signed(zip, pos, SIG_CDH) && pos + 46 <= |zip| then
      var nameEnd := pos + 46 + Field16(zip, pos + 28).value;
      if nameEnd > |zip| then None
      else Some(DirEntry(
        Field16(zip, pos + 10).value, Field32(zip, pos + 20).value, Field32(zip, pos + 24).value,
        zip[pos + 46..nameEnd], Field32(zip, pos + 42).value,
        nameEnd + Field16(zip, pos + 30).value + Field16(zip, pos + 32).value))
    else None
  }

  /** `local_data_offset`: the data follows the local header's own name and extra field. */
  function LocalDataOffset(zip: bytes, localOff: nat): (r: Result<nat, CapError>)
    ensures r.Ok? ==> localOff + 30 <= r.value <= |zip|
    ensures r.Err? ==> r.error == Malformed
  {
    if !Signed(zip, localOff, SIG_LFH) || localOff + 30 > |zip| then Err(Malformed)
    else
      var p := localOff + 30 + Field16(zip, localOff + 26).value + Field16(zip, localOff + 28).value;
      if p <= |zip| then Ok(p) else Err(Malformed)
  }

  /** One directory entry recorded, unless its component is unknown or already found. */
  function Record(zip: bytes, e: DirEntry, locs: Locs): (r: Result<Locs, CapError>)
    requires |locs| == LFDB_COMPONENTS
    ensures r.Ok? ==> |r.value| == LFDB_COMPONENTS
  {
    var k := ComponentIndex(e.name);
    if k.None? || locs[k.value].Some? then Ok(locs)
    else
      var at := LocalDataOffset(zip, e.localOff);
      if at.Err? then Err(at.error)
      else Ok(locs[k.value := Some(CompLoc(e.coding, at.value, e.compSize, e.uncompSize))])
  }

  /** The walk over `n` entries from `pos`. */
  function WalkFrom(zip: bytes, pos: nat, n: nat, locs: Locs): (r: Result<Locs, CapError>)
    requires |locs| == LFDB_COMPONENTS
    ensures r.Ok? ==> |r.value| == LFDB_COMPONENTS
    decreases n
  {
    if n == 0 then Ok(locs)
    else
      var e := EntryAt(zip, pos);
      if e.None? then Err(Malformed)
      else
        var next := Record(zip, e.value, locs);
        if next.Err? then next else WalkFrom(zip, e.value.next, n - 1, next.value)
  }

  function Walk(zip: bytes): (r: Result<Locs, CapError>)
    ensures r.Ok? ==> |r.value| == LFDB_COMPONENTS
  {
    var eocd := EndRecord(zip);
    if eocd.None? then Err(NotAZip)
    else WalkFrom(zip, Field32(zip, eocd.value + 16).value, Field16(zip, eocd.value + 10).value, NothingFound())
  }

  function NothingFound(): (locs: Locs)
    ensures |locs| == LFDB_COMPONENTS
    ensures forall i :: 0 <= i < LFDB_COMPONENTS ==> locs[i].None?
  {
    seq(LFDB_COMPONENTS, _ => None)
  }

  /** Every component found starts inside the archive, which is what the streaming reader relies on. */
  predicate AllInside(zip: bytes, locs: Locs) {
    forall i :: 0 <= i < |locs| && locs[i].Some? ==> locs[i].value.dataOff <= |zip|
  }

  /** The bounds-checked field reads of one directory entry. */
  method ReadEntry(zip: bytes, pos: nat) returns (r: Option<DirEntry>)
    ensures r == EntryAt(zip, pos)
  {
    if Field32(zip, pos) != Some(SIG_CDH) {
      return None;
    }
    var coding, compSize, uncompSize := Field16(zip, pos + 10), Field32(zip, pos + 20), Field32(zip, pos + 24);
    var nameLen, extraLen, commentLen := Field16(zip, pos + 28), Field16(zip, pos + 30), Field16(zip, pos + 32);
    var localOff := Field32(zip, pos + 42);
    if coding.None? || compSize.None? || uncompSize.None? || nameLen.None? || extraLen.None? || commentLen.None?
      || localOff.None? {
      return None;
    }
    var nameStart := pos + 46;
    var nameEnd := nameStart + nameLen.value;
    if nameEnd > |zip| {
      return None;
    }
    var next := nameEnd + extraLen.value + commentLen.value;
    return Some(DirEntry(coding.value, compSize.value, uncompSize.value, zip[nameStart..nameEnd], localOff.value,
                         next));
  }

  /** `walk_zip`. */
  method WalkZip(zip: bytes) returns (r: Result<Locs, CapError>)
    ensures r == Walk(zip)
    ensures r.Ok? ==> |r.value| == LFDB_COMPONENTS && AllInside(zip, r.value)
    ensures r.Err? ==> r.error == NotAZip || r.error == Malformed
  {
    hide EntryAt, LocalDataOffset, EndRecord, Signed, ComponentIndex;
    var eocd := FindEocd(zip);
    if eocd.None? {
      return Err(NotAZip);
    }
    var total: nat := Field16(zip, eocd.value + 10).value;
    var pos: nat := Field32(zip, eocd.value + 16).value;
    var locs: Locs := NothingFound();
    for k := 0 to total
      invariant |locs| == LFDB_COMPONENTS && AllInside(zip, locs)
      invariant Walk(zip) == WalkFrom(zip, pos, total - k, locs)
    {
      var entry := ReadEntry(zip, pos);
      if entry.None? {
        return Err(Malformed);
      }
      var e := entry.value;
      var index := ComponentIndex(e.name);
      if index.Some? && locs[index.value].None? {
        var dataOff := LocalDataOffset(zip, e.localOff);
        if dataOff.Err? {
          return Err(dataOff.error);
        }
        locs := locs[index.value := Some(CompLoc(e.coding, dataOff.value, e.compSize, e.uncompSize))];
      }
      pos := e.next;
    }
    return Ok(locs);
  }
}
