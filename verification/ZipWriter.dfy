/**
 The archives `walk_zip` is meant for, laid out as PKWARE APPNOTE sections 4.3.7, 4.3.12 and 4.3.16
 say: local headers with their data, the central directory, the end record. The walk finds in them the
 first directory entry of each component, whatever else the directory holds and in whatever order.
 */
module ZipWriter {
  import opened Bytes
  import opened Wrappers
  import opened LoadFile
  import opened Cap
  import opened Inflate
  import opened Zip

  /** What the format says of a file: fields the walk reads, and the bytes of everything it skips. */
  datatype Item = Item(name: bytes, coding: nat, uncompSize: nat, data: bytes,
                       localSkip: bytes, localExtra: bytes, descriptor: bytes,
                       versions: bytes, stamp: bytes, attributes: bytes, extra: bytes, comment: bytes)

  /** The skipped fields have their fixed widths, and the others fit theirs. */
  type File = m: Item |
    && |m.localSkip| == 22 && |m.versions| == 6 && |m.stamp| == 8 && |m.attributes| == 8
    && m.coding < 0x1_0000 && m.uncompSize < 0x1_0000_0000 && |m.data| < 0x1_0000_0000
    && |m.name| < 0x1_0000 && |m.localExtra| < 0x1_0000 && |m.extra| < 0x1_0000 && |m.comment| < 0x1_0000
    witness Item([], 0, 0, [], Zeros(22), [], [], Zeros(6), Zeros(8), Zeros(8), [], [])

  /** A directory entry: a file, and where its local header is. */
  datatype Listed = Listed(file: File, localOff: nat)

  datatype EndFields = EndFields(disks: bytes, comment: bytes)

  type Ending = e: EndFields | |e.disks| == 6 && |e.comment| < 0x1_0000 witness EndFields(Zeros(6), [])

  function Le16(n: nat): (s: bytes)
    ensures |s| == 2
  {
    [n % 0x100, n / 0x100 % 0x100]
  }

  function Le32(n: nat): (s: bytes)
    ensures |s| == 4
  {
    Le16(n) + Le16(n / 0x1_0000)
  }

  function LocalHeader(m: File): (s: bytes)
    ensures |s| == 30 + |m.name| + |m.localExtra|
  {
    [0x50, 0x4B, 0x03, 0x04] + m.localSkip + Le16(|m.name|) + Le16(|m.localExtra|) + (m.name + m.localExtra)
  }

  function LocalPart(m: File): bytes {
    LocalHeader(m) + (m.data + m.descriptor)
  }

  /** The fixed 46 bytes of a directory entry. */
  function CentralFixed(m: File, localOff: nat): (s: bytes)
    ensures |s| == 46
  {
    ([0x50, 0x4B, 0x01, 0x02] + m.versions + Le16(m.coding) + m.stamp)
    + (Le32(|m.data|) + Le32(m.uncompSize) + Le16(|m.name|) + Le16(|m.extra|) + Le16(|m.comment|))
    + (m.attributes + Le32(localOff))
  }

  function Central(l: Listed): (s: bytes)
    ensures |s| == 46 + |l.file.name| + |l.file.extra| + |l.file.comment|
  {
    CentralFixed(l.file, l.localOff) + (l.file.name + (l.file.extra + l.file.comment))
  }

  function Locals(files: seq<File>): bytes {
    if files == [] then [] else Locals(files[..|files| - 1]) + LocalPart(files[|files| - 1])
  }

  function LocalOff(files: seq<File>, i: nat): nat
    requires i < |files|
  {
    |Locals(files[..i])|
  }

  function Directory(listing: seq<Listed>): bytes {
    if listing == [] then [] else Central(listing[0]) + Directory(listing[1..])
  }

  function EndOf(count: nat, size: nat, dirOff: nat, e: Ending): (s: bytes)
    ensures |s| == 22 + |e.comment|
  {
    ([0x50, 0x4B, 0x05, 0x06] + e.disks + Le16(count) + Le32(size) + Le32(dirOff) + Le16(|e.comment|)) + e.comment
  }

  function Archive(files: seq<File>, listing: seq<Listed>, e: Ending): bytes {
    var locals, dir := Locals(files), Directory(listing);
    locals + (dir + EndOf(|listing|, |dir|, |locals|, e))
  }

  predicate ListedIn(files: seq<File>, l: Listed) {
    exists i :: 0 <= i < |files| && l == Listed(files[i], LocalOff(files, i))
  }

  /**
   The directory lists files of the archive, in any order, with repetitions and omissions; everything
   fits the format's field widths, and nothing after the end record looks like one.
   */
  predicate Writable(files: seq<File>, listing: seq<Listed>, e: Ending) {
    && (forall k :: 0 <= k < |listing| ==> ListedIn(files, listing[k]))
    && |listing| < 0x1_0000 && |Locals(files)| < 0x1_0000_0000
    && var eocd := |Locals(files)| + |Directory(listing)|;
       forall j :: eocd < j <= eocd + |e.comment| ==> !Signed(Archive(files, listing, e), j, SIG_EOCD)
  }

  // ---- Where things are ----

  /** `part` stands in `zip` at `at`. */
  predicate StandsAt(zip: bytes, at: nat, part: bytes) {
    at + |part| <= |zip| && zip[at..at + |part|] == part
  }

  lemma StandsInside(zip: bytes, at: nat, a: bytes, b: bytes, c: bytes)
    requires StandsAt(zip, at, a + (b + c))
    ensures StandsAt(zip, at + |a|, b)
  {
    var whole := a + (b + c);
    assert whole[|a|..] == b + c && (b + c)[..|b|] == b;
    SliceOfSlice(whole, |a|, |whole|, 0, |b|);
    assert whole[|a|..|whole|] == whole[|a|..];
    SliceOfSlice(zip, at, at + |whole|, |a|, |a| + |b|);
  }

  lemma TwoDigits(n: nat)
    ensures n % 0x100 + 0x100 * (n / 0x100 % 0x100) == n % 0x1_0000
  {
    var q, d := n / 0x100, n % 0x100;
    var r, c := q / 0x100, q % 0x100;
    assert n == 0x100 * q + d && q == 0x100 * r + c;
    RemainderIs(n, r, d + 0x100 * c);
  }

  lemma RemainderIs(n: nat, q: nat, r: nat)
    requires n == 0x1_0000 * q + r && r < 0x1_0000
    ensures n % 0x1_0000 == r
  {
  }

  lemma LowHalf(zip: bytes, at: nat, n: nat)
    requires StandsAt(zip, at, Le16(n))
    ensures Field16(zip, at) == Some(n % 0x1_0000)
  {
    TwoDigits(n);
    var s := zip[at..at + 2];
    assert zip[at] == s[0] && zip[at + 1] == s[1];
  }

  lemma Field16Read(zip: bytes, at: nat, n: nat)
    requires n < 0x1_0000 && StandsAt(zip, at, Le16(n))
    ensures Field16(zip, at) == Some(n)
  {
    LowHalf(zip, at, n);
  }

  lemma Field32Read(zip: bytes, at: nat, n: nat)
    requires n < 0x1_0000_0000 && StandsAt(zip, at, Le32(n))
    ensures Field32(zip, at) == Some(n)
  {
    hide Le16;
    StandsInside(zip, at, [], Le16(n), Le16(n / 0x1_0000));
    StandsInside(zip, at, Le16(n), Le16(n / 0x1_0000), []);
    LowHalf(zip, at, n);
    Field16Read(zip, at + 2, n / 0x1_0000);
  }

  // ---- Reading back what was written ----

  lemma LocalRead(zip: bytes, at: nat, m: File)
    requires StandsAt(zip, at, LocalHeader(m))
    ensures LocalDataOffset(zip, at) == Ok(at + |LocalHeader(m)|)
  {
    var sig, nameLen, extraLen, rest := Le32(SIG_LFH), Le16(|m.name|), Le16(|m.localExtra|), m.name + m.localExtra;
    LocalHeaderSplits(zip, at, sig, m.localSkip, nameLen, extraLen, rest);
    hide Le16, Le32, StandsAt;
    Field32Read(zip, at, SIG_LFH);
    Field16Read(zip, at + 26, |m.name|);
    Field16Read(zip, at + 28, |m.localExtra|);
    StandsInBounds(zip, at, LocalHeader(m));
  }

  lemma StandsInBounds(zip: bytes, at: nat, part: bytes)
    requires StandsAt(zip, at, part)
    ensures at + |part| <= |zip|
  {
  }

  lemma LocalHeaderSplits(zip: bytes, at: nat, a: bytes, b: bytes, c: bytes, d: bytes, e: bytes)
    requires StandsAt(zip, at, a + b + c + d + e)
    ensures StandsAt(zip, at, a) && StandsAt(zip, at + |a| + |b|, c) && StandsAt(zip, at + |a| + |b| + |c|, d)
  {
    var h := a + b + c + d + e;
    assert h == [] + (a + (b + c + d + e)) && h == (a + b) + (c + (d + e)) && h == (a + b + c) + (d + e);
    hide StandsAt;
    StandsInside(zip, at, [], a, b + c + d + e);
    StandsInside(zip, at, a + b, c, d + e);
    StandsInside(zip, at, a + b + c, d, e);
  }

  lemma CentralSizes(zip: bytes, pos: nat, m: File, localOff: nat)
    requires StandsAt(zip, pos, CentralFixed(m, localOff))
    ensures Field32(zip, pos + 20) == Some(|m.data|) && Field32(zip, pos + 24) == Some(m.uncompSize)
    ensures Field16(zip, pos + 28) == Some(|m.name|) && Field16(zip, pos + 30) == Some(|m.extra|)
    ensures Field16(zip, pos + 32) == Some(|m.comment|)
  {
    var a, c := Le32(SIG_CDH) + m.versions + Le16(m.coding) + m.stamp, m.attributes + Le32(localOff);
    var s1, s2, n1, n2, n3 := Le32(|m.data|), Le32(m.uncompSize), Le16(|m.name|), Le16(|m.extra|), Le16(|m.comment|);
    var b := s1 + s2 + n1 + n2 + n3;
    hide Le16, Le32;
    assert CentralFixed(m, localOff) == a + (b + c);
    StandsInside(zip, pos, a, b, c);
    assert b == [] + (s1 + (s2 + n1 + n2 + n3));
    StandsInside(zip, pos + 20, [], s1, s2 + n1 + n2 + n3);
    assert b == s1 + (s2 + (n1 + n2 + n3));
    StandsInside(zip, pos + 20, s1, s2, n1 + n2 + n3);
    assert b == (s1 + s2) + (n1 + (n2 + n3));
    StandsInside(zip, pos + 20, s1 + s2, n1, n2 + n3);
    assert b == (s1 + s2 + n1) + (n2 + n3);
    StandsInside(zip, pos + 20, s1 + s2 + n1, n2, n3);
    assert b == (s1 + s2 + n1 + n2) + (n3 + []);
    StandsInside(zip, pos + 20, s1 + s2 + n1 + n2, n3, []);
    Field32Read(zip, pos + 20, |m.data|);
    Field32Read(zip, pos + 24, m.uncompSize);
    Field16Read(zip, pos + 28, |m.name|);
    Field16Read(zip, pos + 30, |m.extra|);
    Field16Read(zip, pos + 32, |m.comment|);
  }

  lemma CentralOthers(zip: bytes, pos: nat, m: File, localOff: nat)
    requires localOff < 0x1_0000_0000 && StandsAt(zip, pos, CentralFixed(m, localOff))
    ensures Signed(zip, pos, SIG_CDH)
    ensures Field16(zip, pos + 10) == Some(m.coding) && Field32(zip, pos + 42) == Some(localOff)
  {
    var sig, coding, off := Le32(SIG_CDH), Le16(m.coding), Le32(localOff);
    var b := Le32(|m.data|) + Le32(m.uncompSize) + Le16(|m.name|) + Le16(|m.extra|) + Le16(|m.comment|);
    hide Le16, Le32;
    var a, c := sig + m.versions + coding + m.stamp, m.attributes + off;
    assert CentralFixed(m, localOff) == [] + (a + (b + c));
    StandsInside(zip, pos, [], a, b + c);
    assert CentralFixed(m, localOff) == (a + b + m.attributes) + (off + []);
    StandsInside(zip, pos, a + b + m.attributes, off, []);
    assert a == [] + (sig + (m.versions + coding + m.stamp));
    StandsInside(zip, pos, [], sig, m.versions + coding + m.stamp);
    assert a == (sig + m.versions) + (coding + m.stamp);
    StandsInside(zip, pos, sig + m.versions, coding, m.stamp);
    Field32Read(zip, pos, SIG_CDH);
    Field16Read(zip, pos + 10, m.coding);
    Field32Read(zip, pos + 42, localOff);
  }

  lemma CentralParts(zip: bytes, pos: nat, l: Listed)
    requires StandsAt(zip, pos, Central(l))
    ensures StandsAt(zip, pos, CentralFixed(l.file, l.localOff)) && StandsAt(zip, pos + 46, l.file.name)
  {
    hide CentralFixed, StandsAt;
    var h, name, tail := CentralFixed(l.file, l.localOff), l.file.name, l.file.extra + l.file.comment;
    assert Central(l) == [] + (h + (name + tail));
    StandsInside(zip, pos, [], h, name + tail);
    StandsInside(zip, pos, h, name, tail);
  }

  lemma CentralRead(zip: bytes, pos: nat, l: Listed)
    requires l.localOff < 0x1_0000_0000 && StandsAt(zip, pos, Central(l))
    ensures EntryAt(zip, pos)
         == Some(DirEntry(l.file.coding, |l.file.data|, l.file.uncompSize, l.file.name, l.localOff, pos + |Central(l)|))
  {
    hide CentralFixed, Central, Field16, Field32, Signed;
    CentralParts(zip, pos, l);
    CentralSizes(zip, pos, l.file, l.localOff);
    CentralOthers(zip, pos, l.file, l.localOff);
  }

  lemma EndRead(zip: bytes, at: nat, count: nat, size: nat, dirOff: nat, e: Ending)
    requires count < 0x1_0000 && dirOff < 0x1_0000_0000
    requires StandsAt(zip, at, EndOf(count, size, dirOff, e))
    ensures Signed(zip, at, SIG_EOCD)
    ensures Field16(zip, at + 10) == Some(count) && Field32(zip, at + 16) == Some(dirOff)
  {
    var sig, n, z, off, c := Le32(SIG_EOCD), Le16(count), Le32(size), Le32(dirOff), Le16(|e.comment|) + e.comment;
    var disks, end := e.disks, EndOf(count, size, dirOff, e);
    hide Le16, Le32;
    assert end == [] + (sig + (disks + n + z + off + c));
    StandsInside(zip, at, [], sig, disks + n + z + off + c);
    assert end == (sig + disks) + (n + (z + off + c));
    StandsInside(zip, at, sig + disks, n, z + off + c);
    assert end == (sig + disks + n + z) + (off + c);
    StandsInside(zip, at, sig + disks + n + z, off, c);
    Field32Read(zip, at, SIG_EOCD);
    Field16Read(zip, at + 10, count);
    Field32Read(zip, at + 16, dirOff);
  }

  // ---- The walk over a written archive ----

  /** Where a listed file's data is. */
  function Place(l: Listed): CompLoc {
    CompLoc(l.file.coding, l.localOff + |LocalHeader(l.file)|, |l.file.data|, l.file.uncompSize)
  }

  /** A listed file's local header and data are where its entry says. */
  predicate LocalStands(zip: bytes, l: Listed) {
    && l.localOff < 0x1_0000_0000
    && StandsAt(zip, l.localOff, LocalHeader(l.file))
    && StandsAt(zip, Place(l).dataOff, l.file.data)
  }

  lemma {:induction false} LocalsSplit(files: seq<File>, i: nat) returns (rest: bytes)
    requires i < |files|
    ensures Locals(files) == Locals(files[..i]) + (LocalPart(files[i]) + rest)
    decreases |files|
  {
    hide LocalPart;
    var front, last := files[..|files| - 1], LocalPart(files[|files| - 1]);
    if i == |files| - 1 {
      rest := [];
      assert LocalPart(files[i]) + [] == LocalPart(files[i]);
    } else {
      var r := LocalsSplit(front, i);
      rest := r + last;
      var before, part := Locals(files[..i]), LocalPart(files[i]);
      assert front[..i] == files[..i];
      assert (before + (part + r)) + last == before + (part + (r + last));
    }
  }

  lemma PartStands(zip: bytes, at: nat, m: File)
    requires StandsAt(zip, at, LocalPart(m))
    ensures StandsAt(zip, at, LocalHeader(m)) && StandsAt(zip, at + |LocalHeader(m)|, m.data)
  {
    hide LocalHeader, LocalPart, StandsAt;
    PartIs(m);
    StandsInside(zip, at, [], LocalHeader(m), m.data + m.descriptor);
    StandsInside(zip, at, LocalHeader(m), m.data, m.descriptor);
  }

  lemma PartIs(m: File)
    ensures LocalPart(m) == LocalHeader(m) + (m.data + m.descriptor)
    ensures LocalPart(m) == [] + (LocalHeader(m) + (m.data + m.descriptor))
  {
    hide LocalHeader;
  }

  lemma LocalIsThere(zip: bytes, files: seq<File>, i: nat)
    requires i < |files| && |Locals(files)| < 0x1_0000_0000 && StandsAt(zip, 0, Locals(files))
    ensures LocalStands(zip, Listed(files[i], LocalOff(files, i)))
  {
    hide Locals, LocalHeader, LocalPart, StandsAt;
    var before, part := Locals(files[..i]), LocalPart(files[i]);
    var rest := LocalsSplit(files, i);
    StandsInside(zip, 0, before, part, rest);
    PartStands(zip, |before|, files[i]);
  }

  /** The components found by a listing on top of `locs`: the first to name one wins. */
  function Found(listing: seq<Listed>, locs: Locs): (r: Locs)
    requires |locs| == LFDB_COMPONENTS
    ensures |r| == LFDB_COMPONENTS
    decreases |listing|
  {
    if listing == [] then locs else Found(listing[1..], FoundOne(listing[0], locs))
  }

  function FoundOne(l: Listed, locs: Locs): (r: Locs)
    requires |locs| == LFDB_COMPONENTS
    ensures |r| == LFDB_COMPONENTS
  {
    var k := ComponentIndex(l.file.name);
    if k.Some? && locs[k.value].None? then locs[k.value := Some(Place(l))] else locs
  }

  lemma DirectoryUnfolds(listing: seq<Listed>)
    requires listing != []
    ensures Directory(listing) == Central(listing[0]) + Directory(listing[1..])
  {
    hide Central;
  }

  lemma DirectorySplits(zip: bytes, pos: nat, listing: seq<Listed>)
    requires listing != [] && StandsAt(zip, pos, Directory(listing))
    ensures StandsAt(zip, pos, Central(listing[0]))
    ensures StandsAt(zip, pos + |Central(listing[0])|, Directory(listing[1..]))
  {
    hide Central, Directory, StandsAt;
    var head, tail := Central(listing[0]), Directory(listing[1..]);
    DirectoryUnfolds(listing);
    assert head + tail == [] + (head + tail) && head + tail == head + (tail + []);
    StandsInside(zip, pos, [], head, tail);
    StandsInside(zip, pos, head, tail, []);
  }

  /** Reading a written entry records its place. */
  lemma RecordsPlace(zip: bytes, pos: nat, l: Listed, locs: Locs)
    requires |locs| == LFDB_COMPONENTS && LocalStands(zip, l) && StandsAt(zip, pos, Central(l))
    ensures var e := EntryAt(zip, pos);
            e.Some? && e.value.next == pos + |Central(l)| && Record(zip, e.value, locs) == Ok(FoundOne(l, locs))
  {
    hide Central, LocalHeader, EntryAt, LocalDataOffset, ComponentIndex, StandsAt;
    CentralRead(zip, pos, l);
    LocalRead(zip, l.localOff, l.file);
  }

  /** Every listed file's local header and data are where its entry says. */
  predicate AllStand(zip: bytes, listing: seq<Listed>) {
    forall k :: 0 <= k < |listing| ==> LocalStands(zip, listing[k])
  }

  lemma {:induction false} WalkReadsDirectory(zip: bytes, pos: nat, listing: seq<Listed>, locs: Locs)
    requires |locs| == LFDB_COMPONENTS && StandsAt(zip, pos, Directory(listing)) && AllStand(zip, listing)
    ensures WalkFrom(zip, pos, |listing|, locs).Ok? && WalkFrom(zip, pos, |listing|, locs).value == Found(listing, locs)
    decreases |listing|
  {
    hide Central, Directory, EntryAt, Record, FoundOne, LocalStands, StandsAt, AllStand, ComponentIndex;
    if listing != [] {
      DirectorySplits(zip, pos, listing);
      AllStandSplits(zip, listing);
      RecordsPlace(zip, pos, listing[0], locs);
      WalkStep(zip, pos, |listing|, locs);
      WalkReadsDirectory(zip, pos + |Central(listing[0])|, listing[1..], FoundOne(listing[0], locs));
    }
  }

  lemma AllStandSplits(zip: bytes, listing: seq<Listed>)
    requires listing != [] && AllStand(zip, listing)
    ensures LocalStands(zip, listing[0]) && AllStand(zip, listing[1..])
  {
    hide LocalStands;
  }

  lemma WalkStep(zip: bytes, pos: nat, n: nat, locs: Locs)
    requires n > 0 && |locs| == LFDB_COMPONENTS && EntryAt(zip, pos).Some?
    requires Record(zip, EntryAt(zip, pos).value, locs).Ok?
    ensures WalkFrom(zip, pos, n, locs)
         == WalkFrom(zip, EntryAt(zip, pos).value.next, n - 1, Record(zip, EntryAt(zip, pos).value, locs).value)
  {
    hide EntryAt, Record;
  }

  lemma ArchiveStands(files: seq<File>, listing: seq<Listed>, e: Ending)
    ensures var zip, locals, dir := Archive(files, listing, e), Locals(files), Directory(listing);
            && |zip| == |locals| + |dir| + EOCD_MIN + |e.comment|
            && StandsAt(zip, 0, locals) && StandsAt(zip, |locals|, dir)
            && StandsAt(zip, |locals| + |dir|, EndOf(|listing|, |dir|, |locals|, e))
  {
    hide EndOf, Directory, Locals, StandsAt;
    var locals, dir := Locals(files), Directory(listing);
    PartsStand(locals, dir, EndOf(|listing|, |dir|, |locals|, e));
  }

  lemma PartsStand(a: bytes, b: bytes, c: bytes)
    ensures var zip := a + (b + c);
            StandsAt(zip, 0, a) && StandsAt(zip, |a|, b) && StandsAt(zip, |a| + |b|, c)
  {
  }

  /** In a written archive the scan stops at the true end record. */
  lemma EndIsFound(files: seq<File>, listing: seq<Listed>, e: Ending)
    requires Writable(files, listing, e)
    ensures var zip, eocd := Archive(files, listing, e), |Locals(files)| + |Directory(listing)|;
            && EndRecord(zip) == Some(eocd)
            && Field16(zip, eocd + 10) == Some(|listing|) && Field32(zip, eocd + 16) == Some(|Locals(files)|)
  {
    ArchiveStands(files, listing, e);
    hide EndOf, Directory, Locals, Signed, Archive, StandsAt;
    EndRead(Archive(files, listing, e), |Locals(files)| + |Directory(listing)|, |listing|, |Directory(listing)|,
            |Locals(files)|, e);
  }

  lemma ListedStand(files: seq<File>, listing: seq<Listed>, e: Ending)
    requires Writable(files, listing, e)
    ensures AllStand(Archive(files, listing, e), listing)
  {
    var zip := Archive(files, listing, e);
    ArchiveStands(files, listing, e);
    hide Archive, Locals, LocalOff, LocalStands, StandsAt, Directory;
    forall k | 0 <= k < |listing|
      ensures LocalStands(zip, listing[k])
    {
      assert ListedIn(files, listing[k]);
      var i :| 0 <= i < |files| && listing[k] == Listed(files[i], LocalOff(files, i));
      LocalIsThere(zip, files, i);
    }
  }

  /** The walk inverts the writer. */
  lemma WalkInvertsArchive(files: seq<File>, listing: seq<Listed>, e: Ending)
    requires Writable(files, listing, e)
    ensures Walk(Archive(files, listing, e)).Ok?
    ensures Walk(Archive(files, listing, e)).value == Found(listing, NothingFound())
    ensures AllStand(Archive(files, listing, e), listing)
  {
    hide EndOf, Directory, Locals, LocalStands, Found, WalkFrom, Archive, StandsAt, EndRecord, NothingFound, AllStand,
         Writable, Field16, Field32;
    ArchiveStands(files, listing, e);
    EndIsFound(files, listing, e);
    ListedStand(files, listing, e);
    WalkReadsDirectory(Archive(files, listing, e), |Locals(files)|, listing, NothingFound());
  }

  // ---- What was found ----

  /** The first listed file naming component `c`. */
  function FirstNaming(listing: seq<Listed>, c: nat): (r: Option<Listed>)
    ensures r.Some? ==> exists k :: Names(listing, k, c) && listing[k] == r.value
                                    && forall j :: 0 <= j < k ==> !Names(listing, j, c)
    ensures r.None? ==> forall k :: !Names(listing, k, c)
    decreases |listing|
  {
    if listing == [] then None
    else
      assert forall k :: Names(listing[1..], k, c) ==> Names(listing, k + 1, c);
      assert forall k :: k > 0 && Names(listing, k, c) ==> Names(listing[1..], k - 1, c);
      if Names(listing, 0, c) then Some(listing[0]) else FirstNaming(listing[1..], c)
  }

  predicate Names(listing: seq<Listed>, k: int, c: nat) {
    0 <= k < |listing| && ComponentIndex(listing[k].file.name) == Some(c)
  }

  lemma {:induction false} FoundIsFirst(listing: seq<Listed>, locs: Locs, c: nat)
    requires |locs| == LFDB_COMPONENTS && c < LFDB_COMPONENTS
    ensures var first := FirstNaming(listing, c);
            Found(listing, locs)[c] == if locs[c].Some? then locs[c]
                                       else if first.Some? then Some(Place(first.value))
                                       else None
    decreases |listing|
  {
    if listing != [] {
      hide Place, ComponentIndex;
      FoundIsFirst(listing[1..], FoundOne(listing[0], locs), c);
    }
  }

  /** No component is named by two entries. */
  ghost predicate Unambiguous(listing: seq<Listed>) {
    forall j, k, c: nat :: Names(listing, j, c) && Names(listing, k, c) ==> j == k
  }

  lemma SameFirst(listing: seq<Listed>, listing': seq<Listed>, c: nat)
    requires Unambiguous(listing) && (forall l :: l in listing <==> l in listing')
    ensures FirstNaming(listing, c) == FirstNaming(listing', c)
  {
    var a, b := FirstNaming(listing, c), FirstNaming(listing', c);
    if a.Some? {
      assert a.value in listing';
      var k :| 0 <= k < |listing'| && listing'[k] == a.value;
      assert Names(listing', k, c);
    }
    if b.Some? {
      assert b.value in listing;
      var k :| 0 <= k < |listing| && listing[k] == b.value;
      assert Names(listing, k, c);
    }
  }

  /** When names are not repeated, the order of the directory does not matter. */
  lemma OrderDoesNotMatter(listing: seq<Listed>, listing': seq<Listed>)
    requires Unambiguous(listing) && (forall l :: l in listing <==> l in listing')
    ensures Found(listing, NothingFound()) == Found(listing', NothingFound())
  {
    forall c | 0 <= c < LFDB_COMPONENTS
      ensures Found(listing, NothingFound())[c] == Found(listing', NothingFound())[c]
    {
      FoundIsFirst(listing, NothingFound(), c);
      FoundIsFirst(listing', NothingFound(), c);
      SameFirst(listing, listing', c);
    }
  }

  // ---- From the archive to the stream ----

  /** The bytes of a listed file are in the archive: as written, or to be inflated. */
  lemma FileHasData(zip: bytes, l: Listed, inflated: bytes)
    requires LocalStands(zip, l)
    ensures Occupies(zip, Place(l)) && Place(l).dataOff <= |zip|
    ensures zip[Place(l).dataOff..Place(l).dataOff + Place(l).compSize] == l.file.data
    ensures HasData(zip, Place(l)) <==> Supported(l.file.coding)
    ensures Supported(l.file.coding) ==>
              OwnData(zip, Place(l), inflated) == if l.file.coding == METHOD_DEFLATE then inflated else l.file.data
  {
    hide LocalHeader;
  }

  /** A file of a supported method that declares the size of what it holds. */
  predicate Truthful(m: File, inflated: bytes) {
    || (m.coding == METHOD_STORED && |m.data| == m.uncompSize)
    || (m.coding == METHOD_DEFLATE && |inflated| == m.uncompSize)
  }

  /** What the reader reaches of the first file listed under each name; a deflated one's data inflates to it. */
  ghost predicate PlanOf<S(!new)>(codec: Codec<S>, zip: bytes, listing: seq<Listed>, plan: Plan<S>) {
    && |plan.outs| == |plan.ats| == LFDB_COMPONENTS
    && forall c :: 0 <= c < LFDB_COMPONENTS ==>
         var first := FirstNaming(listing, c);
         if first.None? then plan.outs[c] == []
         else if first.value.file.coding == METHOD_DEFLATE then
           Decodes(codec, first.value.file.data, plan.outs[c], plan.ats[c])
         else Place(first.value).dataOff <= |zip| && plan.outs[c] == StoredReach(zip, Place(first.value))
  }

  lemma FileFeeds<S(!new)>(codec: Codec<S>, zip: bytes, l: Listed, out: bytes, at: (S, nat, nat) -> bool)
    requires LocalStands(zip, l)
    requires if l.file.coding == METHOD_DEFLATE then Decodes(codec, l.file.data, out, at)
             else Place(l).dataOff <= |zip| && out == StoredReach(zip, Place(l))
    ensures FeedsOne(codec, zip, Place(l), out, at)
    ensures Entire(zip, Place(l), out) <==> Truthful(l.file, out)
  {
    hide Decodes, LocalHeader, StoredReach, LocalStands, OwnData, HasData;
    FileHasData(zip, l, out);
  }

  /**
   A written archive feeds the streaming reader through the walk, and it is complete if and only if the
   first file listed under each name is truthful about its size.
   */
  lemma ArchiveFeeds<S(!new)>(codec: Codec<S>, files: seq<File>, listing: seq<Listed>, e: Ending, plan: Plan<S>)
    requires Writable(files, listing, e) && PlanOf(codec, Archive(files, listing, e), listing, plan)
    ensures var zip := Archive(files, listing, e);
            && Walk(zip).Ok? && Feeds(codec, zip, Walk(zip).value, plan)
            && (Complete(zip, Walk(zip).value, plan.outs) <==>
                  forall c :: 0 <= c < LFDB_COMPONENTS && FirstNaming(listing, c).Some? ==>
                    Truthful(FirstNaming(listing, c).value.file, plan.outs[c]))
  {
    var zip, locs := Archive(files, listing, e), Found(listing, NothingFound());
    WalkInvertsArchive(files, listing, e);
    hide Archive, Walk, Found, FeedsOne, LocalStands, Place, Writable, Decodes, StoredReach, Entire, Truthful;
    forall c | 0 <= c < LFDB_COMPONENTS
      ensures FoundFeeds(codec, zip, locs[c], FirstNaming(listing, c), plan.outs[c], plan.ats[c])
    {
      FoundIsFirst(listing, NothingFound(), c);
      var first := FirstNaming(listing, c);
      if first.Some? {
        FileFeeds(codec, zip, first.value, plan.outs[c], plan.ats[c]);
      }
    }
    EachFoundFeeds(codec, zip, locs, listing, plan);
  }

  /** One component as found, and as fed. */
  ghost predicate FoundFeeds<S(!new)>(codec: Codec<S>, zip: bytes, loc: Option<CompLoc>, first: Option<Listed>,
                                      out: bytes, at: (S, nat, nat) -> bool) {
    match first
    case None => loc.None? && out == []
    case Some(l) =>
      && loc == Some(Place(l)) && FeedsOne(codec, zip, Place(l), out, at)
      && (Entire(zip, Place(l), out) <==> Truthful(l.file, out))
  }

  lemma EachFoundFeeds<S(!new)>(codec: Codec<S>, zip: bytes, locs: Locs, listing: seq<Listed>, plan: Plan<S>)
    requires |locs| == |plan.outs| == |plan.ats| == LFDB_COMPONENTS
    requires forall c :: 0 <= c < LFDB_COMPONENTS ==>
               FoundFeeds(codec, zip, locs[c], FirstNaming(listing, c), plan.outs[c], plan.ats[c])
    ensures Feeds(codec, zip, locs, plan)
    ensures Complete(zip, locs, plan.outs) <==>
              forall c :: 0 <= c < LFDB_COMPONENTS && FirstNaming(listing, c).Some? ==>
                Truthful(FirstNaming(listing, c).value.file, plan.outs[c])
  {
    hide Place, Decodes, StoredReach, Entire, Truthful, FirstNaming;
  }

  /** A file the reader takes for stored is read, as far as it declares, within the local part of the archive. */
  predicate ReadLocally(files: seq<File>, l: Listed) {
    l.file.coding == METHOD_DEFLATE || Place(l).dataOff + l.file.uncompSize <= |Locals(files)|
  }

  /**
   So two archives that list the same files in different orders load the same bytes, truthful files or not:
   only a stored one read past the local part, into the directory, could tell the orders apart.
   */
  lemma SameStreamInAnyOrder<S(!new)>(codec: Codec<S>, files: seq<File>, listing: seq<Listed>, listing': seq<Listed>,
                                      e: Ending, plan: Plan<S>)
    requires Writable(files, listing, e) && Writable(files, listing', e)
    requires PlanOf(codec, Archive(files, listing, e), listing, plan)
    requires forall c :: 0 <= c < LFDB_COMPONENTS && FirstNaming(listing, c).Some? ==>
               ReadLocally(files, FirstNaming(listing, c).value)
    requires Unambiguous(listing) && (forall l :: l in listing <==> l in listing')
    ensures var zip, zip' := Archive(files, listing, e), Archive(files, listing', e);
            && Walk(zip).Ok? && Walk(zip') == Walk(zip)
            && Feeds(codec, zip, Walk(zip).value, plan) && Feeds(codec, zip', Walk(zip).value, plan)
            && (Complete(zip, Walk(zip).value, plan.outs) <==> Complete(zip', Walk(zip).value, plan.outs))
  {
    hide Archive, Walk, Found, Feeds, Writable, FirstNaming, PlanOf, Truthful, Complete, NothingFound, ReadLocally,
         StandsAt;
    OrderDoesNotMatter(listing, listing');
    WalkInvertsArchive(files, listing, e);
    WalkInvertsArchive(files, listing', e);
    ArchiveStands(files, listing, e);
    ArchiveStands(files, listing', e);
    forall c: nat
      ensures FirstNaming(listing, c) == FirstNaming(listing', c)
    {
      SameFirst(listing, listing', c);
    }
    PlanInAnyOrder(codec, files, Archive(files, listing, e), Archive(files, listing', e), listing, listing', plan);
    ArchiveFeeds(codec, files, listing, e, plan);
    ArchiveFeeds(codec, files, listing', e, plan);
  }

  /** What is read within the local part is the same in both archives. */
  lemma PlanInAnyOrder<S(!new)>(codec: Codec<S>, files: seq<File>, zip: bytes, zip': bytes,
                                listing: seq<Listed>, listing': seq<Listed>, plan: Plan<S>)
    requires PlanOf(codec, zip, listing, plan)
    requires StandsAt(zip, 0, Locals(files)) && StandsAt(zip', 0, Locals(files))
    requires forall c: nat :: FirstNaming(listing, c) == FirstNaming(listing', c)
    requires forall c :: 0 <= c < LFDB_COMPONENTS && FirstNaming(listing, c).Some? ==>
               ReadLocally(files, FirstNaming(listing, c).value)
    ensures PlanOf(codec, zip', listing', plan)
  {
    hide Decodes, LocalHeader, StoredReach, Locals, StandsAt;
    forall c | 0 <= c < LFDB_COMPONENTS && FirstNaming(listing, c).Some?
      ensures var l := FirstNaming(listing, c).value;
              l.file.coding != METHOD_DEFLATE ==>
                Place(l).dataOff <= |zip'| && plan.outs[c] == StoredReach(zip', Place(l))
    {
      var l := FirstNaming(listing, c).value;
      if l.file.coding != METHOD_DEFLATE {
        LocalReach(Locals(files), zip, Place(l));
        LocalReach(Locals(files), zip', Place(l));
      }
    }
  }

  lemma LocalReach(locals: bytes, zip: bytes, loc: CompLoc)
    requires StandsAt(zip, 0, locals) && loc.dataOff + loc.uncompSize <= |locals|
    ensures loc.dataOff <= |zip| && StoredReach(zip, loc) == locals[loc.dataOff..loc.dataOff + loc.uncompSize]
  {
    assert zip[0..|locals|] == zip[..|locals|];
    SliceOfSlice(zip, 0, |locals|, loc.dataOff, loc.dataOff + loc.uncompSize);
  }
}
