/**
 `parse` of `cap/mod.rs`: the ZIP walk, and the metadata of the Header, Import and Applet components,
 each materialized in the lent window.
 */
module CapParse {
  import opened Bytes
  import opened Wrappers
  import opened Aid
  import opened Inflate
  import opened LoadFile
  import Zip

  const IDX_HEADER: nat := 0
  const IDX_IMPORT: nat := 2
  const IDX_APPLET: nat := 3
  const HEADER_MAGIC: bytes := [0xDE, 0xCA, 0xFF, 0xED]
  const MAX_CAP_IMPORTS: nat := 16
  const MAX_CAP_APPLETS: nat := 8

  /** An applet class and its install method offset. */
  datatype AppletEntry = AppletEntry(classAid: bytes, installOffset: nat)

  datatype CapFile = CapFile(packageAid: bytes, major: byte, minor: byte, imports: seq<bytes>,
                             applets: seq<AppletEntry>, locs: Locs)

  // ---- Materializing a component ----

  /** All of a small component: its stored bytes, or what they inflate to without wrapping. */
  function ComponentBytes<S>(codec: Codec<S>, zip: bytes, loc: CompLoc): Result<bytes, CapError> {
    if !Occupies(zip, loc) then Err(Malformed)
    else
      var input := zip[loc.dataOff..loc.dataOff + loc.compSize];
      if loc.coding == METHOD_STORED then (if |input| > INFLATE_WINDOW then Err(Malformed) else Ok(input))
      else if loc.coding == METHOD_DEFLATE then
        var p := codec.flat(codec.init, input);
        if p.status == Done then Ok(p.out) else Err(InflateFailed)
      else Err(Malformed)
  }

  /** `read_component`. */
  method ReadComponent<S(!new)>(zip: bytes, loc: CompLoc, infl: InflateCtx<S>) returns (r: Result<bytes, CapError>)
    requires infl.Valid()
    modifies infl`state, infl.window
    ensures infl.Valid() && r == ComponentBytes(infl.codec, zip, loc)
  {
    if loc.dataOff + loc.compSize > |zip| {
      return Err(Malformed);
    }
    var input := zip[loc.dataOff..loc.dataOff + loc.compSize];
    if loc.coding == METHOD_STORED {
      if |input| > infl.window.Length {
        return Err(Malformed);
      }
      forall i | 0 <= i < |input| {
        infl.window[i] := input[i];
      }
      assert infl.window[..|input|] == input;
      return Ok(infl.window[..|input|]);
    }
    if loc.coding == METHOD_DEFLATE {
      infl.Reset();
      var status, written := infl.DecompressFlat(input);
      if status == Done {
        return Ok(infl.window[..written]);
      }
      return Err(InflateFailed);
    }
    return Err(Malformed);
  }

  /** What is parsed of a component is its own data, when it is stored or inflated and fits the window. */
  lemma ParsedIsOwnData<S(!new)>(codec: Codec<S>, zip: bytes, loc: CompLoc, inflated: bytes)
    requires loc.coding == METHOD_DEFLATE && HasData(zip, loc) ==>
               InflatesWhole(codec, zip[loc.dataOff..loc.dataOff + loc.compSize], inflated)
    ensures ComponentBytes(codec, zip, loc).Ok? <==>
              && loc.dataOff + loc.compSize <= |zip|
              && (loc.coding == 0 || loc.coding == 8)
              && |OwnData(zip, loc, inflated)| <= 32768
    ensures ComponentBytes(codec, zip, loc).Ok? ==> ComponentBytes(codec, zip, loc).value == OwnData(zip, loc, inflated)
  {
  }

  // ---- The metadata parsers ----

  /** The slice a bounds-checked read gives. */
  function Slice(b: bytes, at: nat, len: nat): Option<bytes> {
    if at + len <= |b| then Some(b[at..at + len]) else None
  }

  /** `parse_header`: magic, version and package AID. */
  function ParseHeader(b: bytes): Result<(bytes, byte, byte), CapError> {
    if Slice(b, 3, 4) != Some(HEADER_MAGIC) || |b| < 13 then Err(Malformed)
    else
      var aid := Slice(b, 13, b[12]);
      if aid.None? || !IsAid(aid.value) then Err(Malformed) else Ok((aid.value, b[8], b[7]))
  }

  /** The package entry at `p`: two version bytes, a length and an AID; and where the next one is. */
  function ImportAt(b: bytes, p: nat): Option<(bytes, nat)> {
    if p + 2 >= |b| then None
    else
      var aid := Slice(b, p + 3, b[p + 2]);
      if aid.None? || !IsAid(aid.value) then None else Some((aid.value, p + 3 + |aid.value|))
  }

  /** The applet entry at `p`: a length, an AID and an offset. */
  function AppletAt(b: bytes, p: nat): Option<(AppletEntry, nat)> {
    if p >= |b| then None
    else
      var aid := Slice(b, p + 1, b[p]);
      if aid.None? || !IsAid(aid.value) then None
      else
        var end := p + 1 + |aid.value|;
        var offset := Slice(b, end, 2);
        if offset.None? then None else Some((AppletEntry(aid.value, FromBigEndian(offset.value)), end + 2))
  }

  /** `count` entries from `p` on, with `room` left in the list. */
  function EntriesAt<T>(entryAt: (bytes, nat) -> Option<(T, nat)>, b: bytes, p: nat, count: nat,
                        room: nat): Result<seq<T>, CapError>
    decreases count
  {
    if count == 0 then Ok([])
    else
      var entry := entryAt(b, p);
      if entry.None? || room == 0 then Err(Malformed)
      else
        var rest := EntriesAt(entryAt, b, entry.value.1, count - 1, room - 1);
        if rest.Err? then rest else Ok([entry.value.0] + rest.value)
  }

  function ImportsOf(b: bytes): Result<seq<bytes>, CapError> {
    if |b| < 4 then Err(Malformed) else EntriesAt(ImportAt, b, 4, b[3], MAX_CAP_IMPORTS)
  }

  function AppletsOf(b: bytes): Result<seq<AppletEntry>, CapError> {
    if |b| < 4 then Err(Malformed) else EntriesAt(AppletAt, b, 4, b[3], MAX_CAP_APPLETS)
  }

  /** `parse_imports`. */
  method ParseImports(b: bytes) returns (r: Result<seq<bytes>, CapError>)
    ensures r == ImportsOf(b)
  {
    hide ImportAt;
    if |b| <= 3 {
      return Err(Malformed);
    }
    var count: nat := b[3];
    var p: nat := 4;
    var imports: seq<bytes> := [];
    Prepended(imports, EntriesAt(ImportAt, b, 4, count, MAX_CAP_IMPORTS));
    for k := 0 to count
      invariant |imports| <= MAX_CAP_IMPORTS
      invariant ImportsOf(b) == Onto(imports, EntriesAt(ImportAt, b, p, count - k, MAX_CAP_IMPORTS - |imports|))
    {
      var entry := ImportAt(b, p);
      if entry.None? || |imports| == MAX_CAP_IMPORTS {
        return Err(Malformed);
      }
      OntoMore(imports, entry.value.0,
               EntriesAt(ImportAt, b, entry.value.1, count - k - 1, MAX_CAP_IMPORTS - |imports| - 1));
      imports := imports + [entry.value.0];
      p := entry.value.1;
    }
    assert imports + [] == imports;
    return Ok(imports);
  }

  /** `parse_applets`. */
  method ParseApplets(b: bytes) returns (r: Result<seq<AppletEntry>, CapError>)
    ensures r == AppletsOf(b)
  {
    hide AppletAt;
    if |b| <= 3 {
      return Err(Malformed);
    }
    var count: nat := b[3];
    var p: nat := 4;
    var applets: seq<AppletEntry> := [];
    Prepended(applets, EntriesAt(AppletAt, b, 4, count, MAX_CAP_APPLETS));
    for k := 0 to count
      invariant |applets| <= MAX_CAP_APPLETS
      invariant AppletsOf(b) == Onto(applets, EntriesAt(AppletAt, b, p, count - k, MAX_CAP_APPLETS - |applets|))
    {
      var entry := AppletAt(b, p);
      if entry.None? || |applets| == MAX_CAP_APPLETS {
        return Err(Malformed);
      }
      OntoMore(applets, entry.value.0,
               EntriesAt(AppletAt, b, entry.value.1, count - k - 1, MAX_CAP_APPLETS - |applets| - 1));
      applets := applets + [entry.value.0];
      p := entry.value.1;
    }
    assert applets + [] == applets;
    return Ok(applets);
  }

  /** A list already parsed, and the rest. */
  function Onto<T>(xs: seq<T>, r: Result<seq<T>, CapError>): Result<seq<T>, CapError> {
    if r.Ok? then Ok(xs + r.value) else r
  }

  lemma Prepended<T>(xs: seq<T>, r: Result<seq<T>, CapError>)
    ensures xs == [] ==> Onto(xs, r) == r
  {
    if r.Ok? {
      assert [] + r.value == r.value;
    }
  }

  lemma OntoMore<T>(xs: seq<T>, x: T, r: Result<seq<T>, CapError>)
    ensures Onto(xs, if r.Ok? then Ok([x] + r.value) else r) == Onto(xs + [x], r)
  {
    if r.Ok? {
      assert xs + ([x] + r.value) == (xs + [x]) + r.value;
    }
  }

  // ---- What a converter writes ----

  function ImportEntry(aid: bytes): bytes {
    [0, 1, |aid| % 256] + aid
  }

  function AppletEntryBytes(e: AppletEntry): bytes {
    [|e.classAid| % 256] + e.classAid + ToBigEndian(e.installOffset, 2)
  }

  lemma ImportEntryReads(front: bytes, aid: bytes, rest: bytes)
    requires IsAid(aid)
    ensures ImportAt(front + ImportEntry(aid) + rest, |front|) == Some((aid, |front + ImportEntry(aid)|))
  {
    var b, p := front + ImportEntry(aid) + rest, |front|;
    assert b[p + 2] == |aid| && b[p + 3..p + 3 + |aid|] == aid;
  }

  lemma AppletEntryReads(front: bytes, e: AppletEntry, rest: bytes)
    requires IsAid(e.classAid) && e.installOffset < 0x1_0000
    ensures AppletAt(front + AppletEntryBytes(e) + rest, |front|) == Some((e, |front + AppletEntryBytes(e)|))
  {
    var b, p, n := front + AppletEntryBytes(e) + rest, |front|, |e.classAid|;
    assert Pow256(2) == 0x1_0000;
    BigEndianRoundTrip(e.installOffset, 2);
    assert b[p] == n && b[p + 1..p + 1 + n] == e.classAid;
    assert b[p + 1 + n..p + 3 + n] == ToBigEndian(e.installOffset, 2);
  }

  function Entries<T>(write: T -> bytes, es: seq<T>): bytes {
    if es == [] then [] else write(es[0]) + Entries(write, es[1..])
  }

  /** Written entries read back, exactly when the list has room for them. */
  lemma {:induction false} EntriesRead<T(!new)>(entryAt: (bytes, nat) -> Option<(T, nat)>, write: T -> bytes,
                                               front: bytes, es: seq<T>, rest: bytes, room: nat)
    requires forall e, f: bytes, r: bytes {:trigger entryAt(f + write(e) + r, |f|)} | e in es ::
               entryAt(f + write(e) + r, |f|) == Some((e, |f + write(e)|))
    ensures EntriesAt(entryAt, front + Entries(write, es) + rest, |front|, |es|, room)
         == if |es| <= room then Ok(es) else Err(Malformed)
    decreases |es|
  {
    if es != [] {
      var e, tail := es[0], es[1..];
      assert e in es;
      var more := Entries(write, tail) + rest;
      var b := front + Entries(write, es) + rest;
      assert b == front + write(e) + more;
      assert b == (front + write(e)) + Entries(write, tail) + rest;
      assert entryAt(front + write(e) + more, |front|) == Some((e, |front + write(e)|));
      if room > 0 {
        EntriesRead(entryAt, write, front + write(e), tail, rest, room - 1);
        assert [e] + tail == es;
      }
    }
  }

  /** A component's fourth byte is its count. */
  lemma Counted(tagAndSize: bytes, n: byte, entries: bytes)
    requires |tagAndSize| == 3
    ensures var b := tagAndSize + [n] + entries;
            && ImportsOf(b) == EntriesAt(ImportAt, b, 4, n, MAX_CAP_IMPORTS)
            && AppletsOf(b) == EntriesAt(AppletAt, b, 4, n, MAX_CAP_APPLETS)
  {
    hide EntriesAt, ImportAt, AppletAt;
  }

  /** An Import component of valid AIDs parses to them, exactly when they are at most sixteen. */
  lemma ImportsRead(tagAndSize: bytes, aids: seq<bytes>)
    requires |tagAndSize| == 3 && |aids| < 256 && forall a :: a in aids ==> IsAid(a)
    ensures ImportsOf(tagAndSize + [|aids|] + Entries(ImportEntry, aids))
         == if |aids| <= 16 then Ok(aids) else Err(Malformed)
  {
    hide Entries, EntriesAt, ImportAt, ImportEntry, ImportsOf;
    var front := tagAndSize + [|aids|];
    var b := front + Entries(ImportEntry, aids);
    assert b + [] == b;
    Counted(tagAndSize, |aids|, Entries(ImportEntry, aids));
    forall e, f: bytes, r: bytes | e in aids
      ensures ImportAt(f + ImportEntry(e) + r, |f|) == Some((e, |f + ImportEntry(e)|))
    {
      ImportEntryReads(f, e, r);
    }
    EntriesRead(ImportAt, ImportEntry, front, aids, [], MAX_CAP_IMPORTS);
  }

  /** An Applet component of valid entries parses to them, exactly when they are at most eight. */
  lemma AppletsRead(tagAndSize: bytes, es: seq<AppletEntry>)
    requires |tagAndSize| == 3 && |es| < 256 && forall e :: e in es ==> IsAid(e.classAid) && e.installOffset < 0x1_0000
    ensures AppletsOf(tagAndSize + [|es|] + Entries(AppletEntryBytes, es))
         == if |es| <= 8 then Ok(es) else Err(Malformed)
  {
    hide Entries, EntriesAt, AppletAt, AppletEntryBytes, AppletsOf;
    var front := tagAndSize + [|es|];
    var b := front + Entries(AppletEntryBytes, es);
    assert b + [] == b;
    Counted(tagAndSize, |es|, Entries(AppletEntryBytes, es));
    forall e, f: bytes, r: bytes | e in es
      ensures AppletAt(f + AppletEntryBytes(e) + r, |f|) == Some((e, |f + AppletEntryBytes(e)|))
    {
      AppletEntryReads(f, e, r);
    }
    EntriesRead(AppletAt, AppletEntryBytes, front, es, [], MAX_CAP_APPLETS);
  }

  /** A Header component: tag, size, magic, versions, flags and the package. */
  function HeaderComponent(minor: byte, major: byte, flags: byte, aid: bytes): bytes {
    [1, 0, 0] + [0xDE, 0xCA, 0xFF, 0xED] + [minor, major, flags, 0, 1, |aid| % 256] + aid
  }

  lemma HeaderRead(minor: byte, major: byte, flags: byte, aid: bytes, rest: bytes)
    requires IsAid(aid)
    ensures ParseHeader(HeaderComponent(minor, major, flags, aid) + rest) == Ok((aid, major, minor))
  {
    var b := HeaderComponent(minor, major, flags, aid) + rest;
    assert b[3..7] == HEADER_MAGIC && b[13..13 + |aid|] == aid;
  }

  // ---- Only what a converter could have written parses ----

  /** Package entries with their version bytes. */
  function Packages(versions: seq<bytes>, aids: seq<bytes>): bytes
    requires |versions| == |aids|
  {
    if aids == [] then [] else Package(versions[0], aids[0]) + Packages(versions[1..], aids[1..])
  }

  function Package(version: bytes, aid: bytes): bytes {
    version + [|aid| % 256] + aid
  }

  lemma HeaderSound(b: bytes)
    ensures ParseHeader(b).Ok? ==>
              var (aid, major, minor) := ParseHeader(b).value;
              && 5 <= |aid| <= 16 && |b| >= 13 + |aid| && b[3..7] == [0xDE, 0xCA, 0xFF, 0xED]
              && b[7] == minor && b[8] == major && b[12] == |aid| && b[13..13 + |aid|] == aid
  {
  }

  /** What is read at `p` stands there. */
  lemma ImportAtSound(b: bytes, p: nat)
    ensures ImportAt(b, p).Some? ==>
              var (aid, next) := ImportAt(b, p).value;
              && 5 <= |aid| <= 16 && next == p + 3 + |aid| <= |b| && b[p..next] == Package(b[p..p + 2], aid)
  {
  }

  lemma AppletAtSound(b: bytes, p: nat)
    ensures AppletAt(b, p).Some? ==>
              var (e, next) := AppletAt(b, p).value;
              && 5 <= |e.classAid| <= 16 && e.installOffset < 0x1_0000 && next == p + 3 + |e.classAid| <= |b|
              && b[p..next] == AppletEntryBytes(e)
  {
    if AppletAt(b, p).Some? {
      var (e, next) := AppletAt(b, p).value;
      var o := b[next - 2..next];
      assert FromBigEndian(o[..1]) == 256 * FromBigEndian(o[..0]) + o[0] && o[..|o| - 1] == o[..1];
      assert ToBigEndian(e.installOffset, 2) == ToBigEndian(e.installOffset / 256, 1) + [e.installOffset % 256];
      assert ToBigEndian(e.installOffset / 256, 1) == [] + [e.installOffset / 256 % 256];
      assert o == ToBigEndian(e.installOffset, 2);
    }
  }

  lemma {:induction false} ImportsAtSound(b: bytes, p: nat, count: nat, room: nat) returns (versions: seq<bytes>)
    requires p <= |b|
    ensures var r := EntriesAt(ImportAt, b, p, count, room);
            r.Ok? ==>
              && |r.value| == count <= room && |versions| == count && (forall v :: v in versions ==> |v| == 2)
              && (forall a :: a in r.value ==> 5 <= |a| <= 16) && Packages(versions, r.value) <= b[p..]
    decreases count
  {
    hide ImportAt, Packages, Package;
    versions := [];
    NoPackages();
    if EntriesAt(ImportAt, b, p, count, room).Ok? && count > 0 {
      ImportAtSound(b, p);
      var (aid, next) := ImportAt(b, p).value;
      var rest := EntriesAt(ImportAt, b, next, count - 1, room - 1).value;
      var more := ImportsAtSound(b, next, count - 1, room - 1);
      versions := [b[p..p + 2]] + more;
      PackagesCons(b[p..p + 2], aid, more, rest);
      PrefixJoins(b, p, next, Packages(more, rest));
    }
  }

  lemma NoPackages()
    ensures Packages([], []) == []
  {
  }

  lemma PackagesCons(v: bytes, aid: bytes, versions: seq<bytes>, aids: seq<bytes>)
    requires |versions| == |aids|
    ensures Packages([v] + versions, [aid] + aids) == Package(v, aid) + Packages(versions, aids)
  {
    hide Package;
    assert ([v] + versions)[1..] == versions && ([aid] + aids)[1..] == aids;
  }

  lemma PrefixJoins(b: bytes, p: nat, next: nat, tail: bytes)
    requires p <= next <= |b| && tail <= b[next..]
    ensures b[p..next] + tail <= b[p..]
  {
    assert b[p..] == b[p..next] + b[next..];
  }

  /** Imports that parse are as many valid AIDs as the component says, at most sixteen, as written behind the count. */
  lemma ImportsSound(b: bytes) returns (versions: seq<bytes>)
    ensures ImportsOf(b).Ok? ==>
              var aids := ImportsOf(b).value;
              && |b| >= 4 && |aids| == b[3] <= 16 && (forall a :: a in aids ==> 5 <= |a| <= 16)
              && |versions| == |aids| && (forall v :: v in versions ==> |v| == 2)
              && Packages(versions, aids) <= b[4..]
  {
    versions := [];
    if |b| >= 4 {
      versions := ImportsAtSound(b, 4, b[3], MAX_CAP_IMPORTS);
    }
  }

  lemma {:induction false} AppletsAtSound(b: bytes, p: nat, count: nat, room: nat)
    requires p <= |b|
    ensures var r := EntriesAt(AppletAt, b, p, count, room);
            r.Ok? ==>
              && |r.value| == count <= room && Entries(AppletEntryBytes, r.value) <= b[p..]
              && forall e :: e in r.value ==> 5 <= |e.classAid| <= 16 && e.installOffset < 0x1_0000
    decreases count
  {
    hide AppletAt, AppletEntryBytes;
    if EntriesAt(AppletAt, b, p, count, room).Ok? && count > 0 {
      AppletAtSound(b, p);
      var (e, next) := AppletAt(b, p).value;
      var rest := EntriesAt(AppletAt, b, next, count - 1, room - 1).value;
      AppletsAtSound(b, next, count - 1, room - 1);
      assert ([e] + rest)[1..] == rest;
      PrefixJoins(b, p, next, Entries(AppletEntryBytes, rest));
    }
  }

  /** And applets that parse are what stands behind the count. */
  lemma AppletsSound(b: bytes)
    ensures AppletsOf(b).Ok? ==>
              var es := AppletsOf(b).value;
              && |b| >= 4 && |es| == b[3] <= 8 && Entries(AppletEntryBytes, es) <= b[4..]
              && forall e :: e in es ==> 5 <= |e.classAid| <= 16 && e.installOffset < 0x1_0000
  {
    hide AppletAt, AppletEntryBytes, EntriesAt;
    if |b| >= 4 {
      AppletsAtSound(b, 4, b[3], MAX_CAP_APPLETS);
    }
  }

  // ---- The whole parse ----

  function ImportsIn<S>(codec: Codec<S>, zip: bytes, loc: Option<CompLoc>): Result<seq<bytes>, CapError> {
    if loc.None? then Ok([])
    else
      var b := ComponentBytes(codec, zip, loc.value);
      if b.Err? then Err(b.error) else ImportsOf(b.value)
  }

  function AppletsIn<S>(codec: Codec<S>, zip: bytes, loc: Option<CompLoc>): Result<seq<AppletEntry>, CapError> {
    if loc.None? then Ok([])
    else
      var b := ComponentBytes(codec, zip, loc.value);
      if b.Err? then Err(b.error) else AppletsOf(b.value)
  }

  /** The CAP an archive holds, or why it is refused. */
  function CapOf<S>(codec: Codec<S>, zip: bytes): (r: Result<CapFile, CapError>)
    ensures r.Ok? ==> Zip.Walk(zip).Ok? && r.value.locs == Zip.Walk(zip).value && |r.value.locs| == LFDB_COMPONENTS
    ensures r.Ok? ==> IsAid(r.value.packageAid)
  {
    var walked := Zip.Walk(zip);
    if walked.Err? then Err(walked.error)
    else
      var locs := walked.value;
      if locs[IDX_HEADER].None? then Err(MissingComponent)
      else
        var b := ComponentBytes(codec, zip, locs[IDX_HEADER].value);
        if b.Err? then Err(b.error)
        else
          var header := ParseHeader(b.value);
          if header.Err? then Err(header.error)
          else
            var imports := ImportsIn(codec, zip, locs[IDX_IMPORT]);
            if imports.Err? then Err(imports.error)
            else
              var applets := AppletsIn(codec, zip, locs[IDX_APPLET]);
              if applets.Err? then Err(applets.error)
              else Ok(CapFile(header.value.0, header.value.1, header.value.2, imports.value, applets.value, locs))
  }

  /** Only a missing Header component is reported as missing. */
  lemma MissingIsHeader<S>(codec: Codec<S>, zip: bytes)
    ensures CapOf(codec, zip) == Err(MissingComponent) <==> Zip.Walk(zip).Ok? && Zip.Walk(zip).value[0].None?
  {
    hide Zip.Walk, EntriesAt;
    Zip.EndRecordExactly(zip);
    WalkErrors(zip);
    ComponentErrors(codec, zip);
    EntryErrors();
  }

  lemma WalkErrors(zip: bytes)
    ensures Zip.Walk(zip).Err? ==> Zip.Walk(zip).error == NotAZip || Zip.Walk(zip).error == Malformed
  {
    hide Zip.WalkFrom;
    if Zip.EndRecord(zip).Some? {
      var at := Zip.EndRecord(zip).value;
      Zip.WalkIsZip(zip, Zip.Field32(zip, at + 16).value, Zip.Field16(zip, at + 10).value, Zip.NothingFound());
    }
  }

  lemma ComponentErrors<S>(codec: Codec<S>, zip: bytes)
    ensures forall loc :: ComponentBytes(codec, zip, loc).Err? ==>
              ComponentBytes(codec, zip, loc).error != MissingComponent
  {
  }

  lemma EntryErrors()
    ensures forall b :: ImportsOf(b).Err? ==> ImportsOf(b).error == Malformed
    ensures forall b :: AppletsOf(b).Err? ==> AppletsOf(b).error == Malformed
  {
    forall b: bytes
      ensures ImportsOf(b).Err? ==> ImportsOf(b).error == Malformed
      ensures AppletsOf(b).Err? ==> AppletsOf(b).error == Malformed
    {
      if |b| >= 4 {
        EntriesMalformed(ImportAt, b, 4, b[3], MAX_CAP_IMPORTS);
        EntriesMalformed(AppletAt, b, 4, b[3], MAX_CAP_APPLETS);
      }
    }
  }

  lemma {:induction false} EntriesMalformed<T>(entryAt: (bytes, nat) -> Option<(T, nat)>, b: bytes, p: nat, count: nat,
                                               room: nat)
    ensures var r := EntriesAt(entryAt, b, p, count, room); r.Err? ==> r.error == Malformed
    decreases count
  {
    if count > 0 && entryAt(b, p).Some? && room > 0 {
      EntriesMalformed(entryAt, b, entryAt(b, p).value.1, count - 1, room - 1);
    }
  }

  /** `parse`. The decompressor is left reset. */
  method ParseCap<S(!new)>(zip: bytes, infl: InflateCtx<S>) returns (r: Result<CapFile, CapError>)
    requires infl.Valid()
    modifies infl`state, infl.window
    ensures infl.Valid() && r == CapOf(infl.codec, zip)
    ensures r.Ok? ==> infl.state == infl.codec.init && Zip.AllInside(zip, r.value.locs)
  {
    hide ComponentBytes, ParseHeader, ImportsOf, AppletsOf, Zip.Walk;
    var walked := Zip.WalkZip(zip);
    if walked.Err? {
      return Err(walked.error);
    }
    var locs := walked.value;
    if locs[IDX_HEADER].None? {
      return Err(MissingComponent);
    }
    var headerBytes := ReadComponent(zip, locs[IDX_HEADER].value, infl);
    if headerBytes.Err? {
      return Err(headerBytes.error);
    }
    var header := ParseHeader(headerBytes.value);
    if header.Err? {
      return Err(header.error);
    }
    var imports: seq<bytes> := [];
    if locs[IDX_IMPORT].Some? {
      var b := ReadComponent(zip, locs[IDX_IMPORT].value, infl);
      if b.Err? {
        return Err(b.error);
      }
      var parsed := ParseImports(b.value);
      if parsed.Err? {
        return Err(parsed.error);
      }
      imports := parsed.value;
    }
    var applets: seq<AppletEntry> := [];
    if locs[IDX_APPLET].Some? {
      var b := ReadComponent(zip, locs[IDX_APPLET].value, infl);
      if b.Err? {
        return Err(b.error);
      }
      var parsed := ParseApplets(b.value);
      if parsed.Err? {
        return Err(parsed.error);
      }
      applets := parsed.value;
    }
    infl.Reset();
    return Ok(CapFile(header.value.0, header.value.1, header.value.2, imports, applets, locs));
  }
}
