/**
 Three CAPs the library accepts and loads with success although they are not complete: one ends without its
 last block marked, one is marked before all of it is out, and one gives the card compressed bytes.
 */
module LoadWitness {
  import opened Bytes
  import opened Wrappers
  import opened Inflate
  import opened LoadFile
  import opened Cap
  import opened CapStream
  import opened CapParse
  import opened Apdu
  import opened CardStatus
  import opened LoadPackage
  import Lz77
  import TlvCodec
  import Zip
  import ZipWriter

  // ---- A component shorter than declared ----

  const PACKAGE: bytes := [0xA0, 0x00, 0x00, 0x00, 0x62]

  /** A whole Header component of 18 bytes, stored, said to inflate to 1000. */
  function ShortFile(): (f: ZipWriter.File)
    ensures |f.name| == 10 && |f.data| == 18
  {
    ZipWriter.Item(Zip.Ascii("Header.cap"), METHOD_STORED, 1000, HeaderComponent(2, 1, 0, PACKAGE), Zeros(22), [], [],
                   Zeros(6), Zeros(8), Zeros(8), [], [])
  }

  function ShortArchive(): bytes {
    ZipWriter.Archive([ShortFile()], [ZipWriter.Listed(ShortFile(), 0)], ZipWriter.EndFields(Zeros(6), []))
  }

  lemma ShortFileIsHeader()
    ensures Zip.ComponentIndex(ShortFile().name) == Some(0)
  {
    var name := Zip.Ascii("Header.cap");
    Zip.BasenameEnds([], name);
    assert [] + name == name && name == Zip.Ascii(Zip.COMPONENT_NAMES[0]);
    Zip.ComponentIndexExactly(name, 0);
  }

  /** The walk finds it where it is: one stored component, its 18 bytes at offset 40 of 136. */
  lemma ShortArchiveWalks()
    ensures |ShortArchive()| == 136 && ShortArchive()[40..58] == HeaderComponent(2, 1, 0, PACKAGE)
    ensures Zip.Walk(ShortArchive()).Ok?
    ensures var locs := Zip.Walk(ShortArchive()).value;
            && locs[0] == Some(CompLoc(METHOD_STORED, 40, 18, 1000))
            && forall c :: 0 < c < LFDB_COMPONENTS ==> locs[c].None?
  {
    hide Zip.Walk, Zip.ComponentIndex, Zip.Ascii, ZipWriter.Found, HeaderComponent;
    var f := ShortFile();
    var l := ZipWriter.Listed(f, 0);
    var files, listing, e := [f], [l], ZipWriter.EndFields(Zeros(6), []);
    ShortArchiveParts();
    ZipWriter.ArchiveStands(files, listing, e);
    ZipWriter.WalkInvertsArchive(files, listing, e);
    assert ZipWriter.LocalStands(ShortArchive(), listing[0]);
    ShortFileIsHeader();
    forall c | 0 <= c < LFDB_COMPONENTS
      ensures ZipWriter.Found(listing, Zip.NothingFound())[c]
           == if c == 0 then Some(CompLoc(METHOD_STORED, 40, 18, 1000)) else None
    {
      ZipWriter.FoundIsFirst(listing, Zip.NothingFound(), c);
      assert ZipWriter.Names(listing, 0, 0);
    }
  }

  lemma ShortArchiveParts()
    ensures var f := ShortFile();
            var l := ZipWriter.Listed(f, 0);
            && |ZipWriter.Locals([f])| == 58 && |ZipWriter.Directory([l])| == 56
            && ZipWriter.ListedIn([f], l)
  {
    var f := ShortFile();
    var l := ZipWriter.Listed(f, 0);
    var files, listing := [f], [l];
    assert files[..0] == [] && ZipWriter.LocalOff(files, 0) == 0;
    assert ZipWriter.Locals(files) == ZipWriter.LocalPart(f);
    assert listing[1..] == [] && ZipWriter.Directory(listing) == ZipWriter.Central(l);
  }

  /** Its metadata parses. */
  lemma ShortArchiveParses<S(!new)>(codec: Codec<S>)
    ensures Zip.Walk(ShortArchive()).Ok?
    ensures CapOf(codec, ShortArchive()) == Ok(CapFile(PACKAGE, 1, 2, [], [], Zip.Walk(ShortArchive()).value))
  {
    hide Zip.Walk, ShortArchive, HeaderComponent, ParseHeader, ImportsOf, AppletsOf;
    ShortArchiveWalks();
    HeaderRead(2, 1, 0, PACKAGE, []);
    assert HeaderComponent(2, 1, 0, PACKAGE) + [] == HeaderComponent(2, 1, 0, PACKAGE);
    var zip, locs := ShortArchive(), Zip.Walk(ShortArchive()).value;
    HeaderIsShort(codec, zip);
  }

  lemma HeaderIsShort<S>(codec: Codec<S>, zip: bytes)
    requires |zip| == 136 && zip[40..58] == HeaderComponent(2, 1, 0, PACKAGE)
    ensures ComponentBytes(codec, zip, CompLoc(METHOD_STORED, 40, 18, 1000)) == Ok(HeaderComponent(2, 1, 0, PACKAGE))
  {
  }

  /** The library takes it: header, magic, AID and size gate are all in order. */
  lemma ShortArchiveIsAccepted<S(!new)>(codec: Codec<S>, target: bytes, hash: bytes)
    requires |target| <= 16 && |hash| <= HASH_MAX
    ensures var ready := Prepared(codec, ShortArchive(), target, hash);
            && ready.Ok? && ready.value.cap.locs == Zip.Walk(ShortArchive()).value
            && ready.value.cap.packageAid == PACKAGE && FramedLen(ready.value.cap.locs) == 1004
  {
    hide Zip.Walk, ShortArchive, CapOf, FramedLen, ShortApdu;
    ShortArchiveParses(codec);
    ShortArchiveWalks();
    OneDeclared(Zip.Walk(ShortArchive()).value);
    ShortInstall(target, hash);
  }

  lemma ShortInstall(target: bytes, hash: bytes)
    requires |target| <= 16 && |hash| <= HASH_MAX
    ensures |InstallData(PACKAGE, target, hash)| <= 255
  {
  }

  lemma OneDeclared(locs: Locs)
    requires |locs| == LFDB_COMPONENTS && locs[0].Some? && locs[0].value.uncompSize == 1000
    requires forall c :: 0 < c < LFDB_COMPONENTS ==> locs[c].None?
    ensures ContentLen(locs) == 1000 && FramedLen(locs) == 1004
  {
    NothingDeclared(locs[1..]);
  }

  lemma {:induction false} NothingDeclared(locs: Locs)
    requires forall i :: 0 <= i < |locs| ==> locs[i].None?
    ensures ContentLen(locs) == 0
  {
    if locs != [] {
      NothingDeclared(locs[1..]);
    }
  }

  /** What the reader reaches of it: the 96 bytes from there to the end of the archive, directory and all. */
  function ShortPlan<S>(at: (S, nat, nat) -> bool): Plan<S> {
    Plan([if |ShortArchive()| >= 40 then ShortArchive()[40..] else []] + seq(LFDB_COMPONENTS - 1, _ => []),
         seq(LFDB_COMPONENTS, _ => at))
  }

  lemma ShortArchiveFeeds<S(!new)>(codec: Codec<S>, at: (S, nat, nat) -> bool)
    ensures Zip.Walk(ShortArchive()).Ok?
    ensures var locs, plan := Zip.Walk(ShortArchive()).value, ShortPlan(at);
            && Feeds(codec, ShortArchive(), locs, plan)
            && (forall i :: 0 <= i < |locs| ==>
                  |plan.outs[i]| <= Declared(locs[i]) && (locs[i].None? ==> plan.outs[i] == []))
            && |plan.outs[0]| == 96 < Declared(locs[0])
  {
    ShortArchiveWalks();
    hide Zip.Walk, ShortArchive;
    var zip, locs, plan := ShortArchive(), Zip.Walk(ShortArchive()).value, ShortPlan(at);
    assert plan.outs[0] == zip[40..] == StoredReach(zip, locs[0].value);
    forall i | 0 <= i < LFDB_COMPONENTS
      ensures ReachesOne(zip, locs[i], plan.outs[i])
      ensures locs[i].Some? ==> FeedsOne(codec, zip, locs[i].value, plan.outs[i], plan.ats[i])
    {
    }
  }

  /**
   Loading it to a card that agrees throughout reports success, and no LOAD command it sent says it is the
   last block.
   */
  method LoadShortArchive<S(!new)>(target: bytes, hash: bytes, infl: InflateCtx<S>, session: Session)
    returns (r: Result<LoadReport, LoadError>, ghost chunks: seq<Chunk>)
    requires infl.Valid() && 5 <= |target| <= 16 && |hash| <= HASH_MAX
    requires AllAgreed(session.script, session.next, 257)
    modifies infl`state, infl.window, session
    ensures r.Ok? && r.value.size == 1004 && r.value.blockCount == |chunks|
    ensures |InstallData(PACKAGE, target, hash)| <= 255
    ensures session.sent
         == old(session.sent) + [ShortApdu(0x84, 0xE6, 0x02, 0x00, InstallData(PACKAGE, target, hash), true)]
           + Commands(chunks, 1004)
    ensures forall k :: 0 <= k < |chunks| ==> IsBlock(Commands(chunks, 1004)[k], k, false)
  {
    hide ShortArchive, Zip.Walk, Prepared, DealAll, Commands, Flatten, ShortPlan, Finished, Feeds, InstallData,
         ShortApdu, InstallRefusal, FullButLast, InOrder, FramedLen, AllAgreed, Agreed, IsBlock;
    ShortArchiveIsAccepted(infl.codec, target, hash);
    ghost var never := (_: S, _: nat, _: nat) => false;
    ShortArchiveFeeds(infl.codec, never);
    ShortInstall(target, hash);
    ghost var locs, plan, next0 := Zip.Walk(ShortArchive()).value, ShortPlan(never), session.next;
    ShortPrepared(infl.codec, target, hash);
    InstallAgreed(session.script, next0);
    ghost var loop: Result<nat, LoadError>;
    r, chunks, loop := Load(ShortArchive(), target, hash, infl, session, plan);
    AtMost256(chunks, 1004);
    LoopSucceeds(session.script, next0, chunks, loop);
    MarkedWhenNothingTooLong(locs, plan.outs, chunks);
    forall k | 0 <= k < |chunks|
      ensures IsBlock(Commands(chunks, 1004)[k], k, false)
    {
      BlocksNumberedAndMarked(chunks, 1004, k);
    }
  }

  lemma ShortPrepared<S(!new)>(codec: Codec<S>, target: bytes, hash: bytes)
    requires |target| <= 16 && |hash| <= HASH_MAX && |InstallData(PACKAGE, target, hash)| <= 255
    ensures var ready := Prepared(codec, ShortArchive(), target, hash);
            && ready.Ok?
            && ready.value.install == ShortApdu(0x84, 0xE6, 0x02, 0x00, InstallData(PACKAGE, target, hash), true)
  {
    hide ShortArchive, InstallData, ShortApdu, CapOf, FramedLen;
    ShortArchiveIsAccepted(codec, target, hash);
  }

  lemma InstallAgreed(script: seq<Answer>, next: nat)
    requires AllAgreed(script, next, 257)
    ensures InstallRefusal(script, next).None?
  {
    assert Agreed(script, next);
  }

  lemma LoopSucceeds(script: seq<Answer>, next: nat, chunks: seq<Chunk>, loop: Result<nat, LoadError>)
    requires AllAgreed(script, next, 257) && |chunks| <= 256
    requires loop.Err? ==> chunks != [] && !Agreed(script, next + |chunks|)
    ensures loop.Ok?
  {
    if chunks != [] {
      assert Agreed(script, next + |chunks|);
    }
  }

  // ---- Archives of a Header and a Class component ----

  /** The Header component, truthfully stored. */
  function HeaderFile(): (f: ZipWriter.File)
    ensures |f.name| == 10 && |f.data| == 18
  {
    ZipWriter.Item(Zip.Ascii("Header.cap"), METHOD_STORED, 18, HeaderComponent(2, 1, 0, PACKAGE), Zeros(22), [], [],
                   Zeros(6), Zeros(8), Zeros(8), [], [])
  }

  /** A Class component of some method, sizes and bytes. */
  function ClassFile(coding: nat, uncompSize: nat, data: bytes): (f: ZipWriter.File)
    requires coding < 0x1_0000 && uncompSize < 0x1_0000_0000 && |data| < 0x1_0000_0000
    ensures |f.name| == 9 && f.data == data && f.coding == coding && f.uncompSize == uncompSize
  {
    ZipWriter.Item(Zip.Ascii("Class.cap"), coding, uncompSize, data, Zeros(22), [], [], Zeros(6), Zeros(8), Zeros(8),
                   [], [])
  }

  /** Both files, and a directory of both. */
  function PairListing(class_: ZipWriter.File): seq<ZipWriter.Listed> {
    [ZipWriter.Listed(HeaderFile(), 0), ZipWriter.Listed(class_, 58)]
  }

  function PairArchive(class_: ZipWriter.File): bytes {
    ZipWriter.Archive([HeaderFile(), class_], PairListing(class_), ZipWriter.EndFields(Zeros(6), []))
  }

  /** A Class component as the writer's files name it. */
  predicate IsClass(f: ZipWriter.File) {
    f.name == Zip.Ascii("Class.cap") && f.localExtra == [] && |f.data| < 0x1_0000
  }

  lemma PairParts(class_: ZipWriter.File)
    requires IsClass(class_)
    ensures class_.descriptor == [] ==> |ZipWriter.Locals([HeaderFile(), class_])| < 0x1_0000_0000
    ensures ZipWriter.ListedIn([HeaderFile(), class_], PairListing(class_)[0])
    ensures ZipWriter.ListedIn([HeaderFile(), class_], PairListing(class_)[1])
  {
    var header := HeaderFile();
    var files := [header, class_];
    assert files[..1] == [header] && files[..0] == [] && [header][..0] == [];
    assert ZipWriter.Locals([header]) == ZipWriter.LocalPart(header);
    assert ZipWriter.LocalOff(files, 0) == 0 && ZipWriter.LocalOff(files, 1) == 58;
    assert ZipWriter.Locals(files) == ZipWriter.LocalPart(header) + ZipWriter.LocalPart(class_);
    assert PairListing(class_)[0] == ZipWriter.Listed(files[0], ZipWriter.LocalOff(files, 0));
    assert PairListing(class_)[1] == ZipWriter.Listed(files[1], ZipWriter.LocalOff(files, 1));
  }

  lemma PairWritable(class_: ZipWriter.File)
    requires IsClass(class_) && class_.descriptor == []
    ensures ZipWriter.Writable([HeaderFile(), class_], PairListing(class_), ZipWriter.EndFields(Zeros(6), []))
  {
    hide ZipWriter.Locals, ZipWriter.Directory, ZipWriter.Archive, ZipWriter.ListedIn, HeaderFile;
    PairParts(class_);
    var listing := PairListing(class_);
    forall k | 0 <= k < |listing|
      ensures ZipWriter.ListedIn([HeaderFile(), class_], listing[k])
    {
      assert k == 0 || k == 1;
    }
  }

  lemma NameIs(name: string, k: nat)
    requires k < LFDB_COMPONENTS && name == Zip.COMPONENT_NAMES[k]
    requires forall i :: 0 <= i < |name| ==> name[i] as int % 256 != 0x2F && name[i] as int % 256 != 0x5C
    ensures Zip.ComponentIndex(Zip.Ascii(name)) == Some(k)
  {
    var base := Zip.Ascii(name);
    Zip.BasenameEnds([], base);
    assert [] + base == base;
    Zip.ComponentIndexExactly(base, k);
  }

  /** The first file naming each component. */
  lemma PairNames(class_: ZipWriter.File, c: nat)
    requires IsClass(class_) && c < LFDB_COMPONENTS
    ensures ZipWriter.FirstNaming(PairListing(class_), c)
         == if c == 0 then Some(PairListing(class_)[0]) else if c == 4 then Some(PairListing(class_)[1]) else None
  {
    hide Zip.ComponentIndex, Zip.Ascii;
    var listing := PairListing(class_);
    NameIs("Header.cap", 0);
    NameIs("Class.cap", 4);
    assert listing[1..] == [listing[1]] && listing[1..][1..] == [];
  }

  /** Where the walk finds the two components. */
  predicate PairLocs(locs: Locs, class_: ZipWriter.File) {
    && |locs| == LFDB_COMPONENTS
    && locs[0] == Some(CompLoc(METHOD_STORED, 40, 18, 18))
    && locs[4] == Some(CompLoc(class_.coding, 97, |class_.data|, class_.uncompSize))
    && forall c :: 0 <= c < LFDB_COMPONENTS && c != 0 && c != 4 ==> locs[c].None?
  }

  lemma PairWalks(class_: ZipWriter.File)
    requires IsClass(class_) && class_.descriptor == []
    ensures Zip.Walk(PairArchive(class_)).Ok? && PairLocs(Zip.Walk(PairArchive(class_)).value, class_)
    ensures var zip := PairArchive(class_);
            && 97 + |class_.data| <= |zip|
            && zip[40..58] == HeaderComponent(2, 1, 0, PACKAGE) && zip[97..97 + |class_.data|] == class_.data
  {
    hide Zip.Walk, ZipWriter.Archive, ZipWriter.Found, ZipWriter.Writable, ZipWriter.FirstNaming, HeaderComponent;
    var listing := PairListing(class_);
    PairWritable(class_);
    ZipWriter.WalkInvertsArchive([HeaderFile(), class_], listing, ZipWriter.EndFields(Zeros(6), []));
    assert ZipWriter.LocalStands(PairArchive(class_), listing[0])
      && ZipWriter.LocalStands(PairArchive(class_), listing[1]);
    forall c | 0 <= c < LFDB_COMPONENTS
      ensures ZipWriter.Found(listing, Zip.NothingFound())[c]
           == if c == 0 then Some(CompLoc(METHOD_STORED, 40, 18, 18))
              else if c == 4 then Some(CompLoc(class_.coding, 97, |class_.data|, class_.uncompSize)) else None
    {
      ZipWriter.FoundIsFirst(listing, Zip.NothingFound(), c);
      PairNames(class_, c);
    }
  }

  lemma PairDeclared(locs: Locs, class_: ZipWriter.File)
    requires PairLocs(locs, class_)
    ensures ContentLen(locs) == 18 + class_.uncompSize
  {
    NothingDeclared(locs[5..]);
    assert locs[4..][1..] == locs[5..] && ContentLen(locs[4..]) == class_.uncompSize;
    assert locs[3..][1..] == locs[4..] && ContentLen(locs[3..]) == class_.uncompSize;
    assert locs[2..][1..] == locs[3..] && ContentLen(locs[2..]) == class_.uncompSize;
    assert locs[1..][1..] == locs[2..] && ContentLen(locs[1..]) == class_.uncompSize;
  }

  /** The library takes such an archive, whatever its Class component is. */
  lemma PairAccepted<S(!new)>(codec: Codec<S>, class_: ZipWriter.File, target: bytes, hash: bytes)
    requires IsClass(class_) && class_.descriptor == [] && class_.uncompSize < 110 && |target| <= 16
    requires |hash| <= HASH_MAX
    ensures var ready := Prepared(codec, PairArchive(class_), target, hash);
            && ready.Ok? && ready.value.cap.locs == Zip.Walk(PairArchive(class_)).value
            && ready.value.cap.packageAid == PACKAGE && FramedLen(ready.value.cap.locs) == 20 + class_.uncompSize
  {
    hide Zip.Walk, PairArchive, ShortApdu, CapOf;
    PairWalks(class_);
    PairParses(codec, class_);
    PairDeclared(Zip.Walk(PairArchive(class_)).value, class_);
    ShortInstall(target, hash);
  }

  lemma PairParses<S(!new)>(codec: Codec<S>, class_: ZipWriter.File)
    requires IsClass(class_) && class_.descriptor == []
    ensures Zip.Walk(PairArchive(class_)).Ok?
    ensures CapOf(codec, PairArchive(class_)) == Ok(CapFile(PACKAGE, 1, 2, [], [], Zip.Walk(PairArchive(class_)).value))
  {
    hide Zip.Walk, PairArchive, HeaderComponent, ParseHeader, ImportsOf, AppletsOf;
    PairWalks(class_);
    HeaderRead(2, 1, 0, PACKAGE, []);
    assert HeaderComponent(2, 1, 0, PACKAGE) + [] == HeaderComponent(2, 1, 0, PACKAGE);
    PairHeader(codec, PairArchive(class_));
  }

  lemma PairHeader<S>(codec: Codec<S>, zip: bytes)
    requires |zip| >= 58 && zip[40..58] == HeaderComponent(2, 1, 0, PACKAGE)
    ensures ComponentBytes(codec, zip, CompLoc(METHOD_STORED, 40, 18, 18)) == Ok(HeaderComponent(2, 1, 0, PACKAGE))
  {
  }

  /** The Header component, and what is reached of the Class component. */
  function PairPlan<S>(out: bytes, at: (S, nat, nat) -> bool): (plan: Plan<S>)
    ensures |plan.outs| == |plan.ats| == LFDB_COMPONENTS
  {
    Plan([HeaderComponent(2, 1, 0, PACKAGE), [], [], [], out] + seq(LFDB_COMPONENTS - 5, _ => []),
         seq(LFDB_COMPONENTS, _ => at))
  }

  lemma PairFeeds<S(!new)>(codec: Codec<S>, class_: ZipWriter.File, out: bytes, at: (S, nat, nat) -> bool)
    requires IsClass(class_) && class_.descriptor == []
    requires if class_.coding == METHOD_DEFLATE then Decodes(codec, class_.data, out, at)
             else out == class_.data && |out| == class_.uncompSize
    ensures Zip.Walk(PairArchive(class_)).Ok?
    ensures Feeds(codec, PairArchive(class_), Zip.Walk(PairArchive(class_)).value, PairPlan(out, at))
  {
    hide Zip.Walk, PairArchive, Decodes, HeaderComponent;
    PairWalks(class_);
    var zip, locs, plan := PairArchive(class_), Zip.Walk(PairArchive(class_)).value, PairPlan(out, at);
    assert plan.outs[0] == StoredReach(zip, locs[0].value);
    forall i | 0 <= i < LFDB_COMPONENTS
      ensures ReachesOne(zip, locs[i], plan.outs[i])
      ensures locs[i].Some? ==> FeedsOne(codec, zip, locs[i].value, plan.outs[i], plan.ats[i])
    {
    }
  }

  /** What one buffer gets: the header, the Header component, and as much of the Class component as it has room for. */
  lemma PairDeal<S>(class_: ZipWriter.File, locs: Locs, out: bytes, at: (S, nat, nat) -> bool, size: nat)
    requires PairLocs(locs, class_) && class_.uncompSize < 110 && size > 20
    requires class_.uncompSize <= Min(|out|, size - 20)
    ensures var n := Min(|out|, size - 20);
            && Deal(locs, PairPlan(out, at).outs, START, size).0
               == HeaderBytes(18 + class_.uncompSize) + HeaderComponent(2, 1, 0, PACKAGE) + out[..n]
            && Deal(locs, PairPlan(out, at).outs, START, size).1.comp >= 5
            && Deal(locs, PairPlan(out, at).outs, START, size).1.header == |HeaderBytes(ContentLen(locs))|
  {
    hide DealFrom, HeaderComponent, PairPlan;
    var outs, header, n := PairPlan(out, at).outs, HeaderBytes(18 + class_.uncompSize), Min(|out|, size - 20);
    PairDeclared(locs, class_);
    PairOuts(out, at);
    DealSlice(locs, outs, 0, 0, size - 2, 18);
    AbsentDealt(locs, outs, 1, size - 20);
    AbsentDealt(locs, outs, 2, size - 20);
    AbsentDealt(locs, outs, 3, size - 20);
    DealSlice(locs, outs, 4, 0, size - 20, n);
    NothingMore(locs, outs, 5, size - 20 - n);
    assert header[0..] == header;
    assert outs[0][0..18] == outs[0] && out[0..n] == out[..n] && out[..n] + [] == out[..n];
    assert header + (outs[0] + out[..n]) == header + outs[0] + out[..n];
  }

  lemma PairOuts<S>(out: bytes, at: (S, nat, nat) -> bool)
    ensures var outs := PairPlan(out, at).outs;
            && outs[0] == HeaderComponent(2, 1, 0, PACKAGE) && |outs[0]| == 18 && outs[4] == out
            && forall i :: 0 <= i < LFDB_COMPONENTS && i != 0 && i != 4 ==> outs[i] == []
  {
  }

  lemma AbsentDealt(locs: Locs, outs: seq<bytes>, comp: nat, room: nat)
    requires |locs| == |outs| && comp < |locs| && locs[comp].None? && room > 0
    ensures DealFrom(locs, outs, comp, 0, room) == DealFrom(locs, outs, comp + 1, 0, room)
  {
  }

  lemma {:induction false} NothingMore(locs: Locs, outs: seq<bytes>, comp: nat, room: nat)
    requires |locs| == |outs| && comp <= |locs| && forall i :: comp <= i < |locs| ==> locs[i].None?
    ensures DealFrom(locs, outs, comp, 0, room).0 == []
    ensures var spot := DealFrom(locs, outs, comp, 0, room).1;
            spot.comp >= comp && spot.emitted == 0 && spot.header == |HeaderBytes(ContentLen(locs))|
    decreases |locs| - comp
  {
    hide HeaderBytes, ContentLen;
    if comp < |locs| {
      NothingMore(locs, outs, comp + 1, room);
    }
  }

  /** A load that is announced and fits in one block takes that block, and marks it. */
  lemma OneBlockLoad<S(!new)>(codec: Codec<S>, zip: bytes, locs: Locs, plan: Plan<S>, script: seq<Answer>,
                              sent0: seq<bytes>, next0: nat, sent: seq<bytes>, next: nat,
                              chunks: seq<Chunk>, loop: Result<nat, LoadError>)
    requires Looped(codec, zip, locs, plan, script, sent0, next0, sent, next, chunks, loop)
    requires Feeds(codec, zip, locs, plan) && |plan.outs| == |locs| && 0 < FramedLen(locs) <= LOAD_BLOCK_DATA
    requires FramedLen(locs) <= |Deal(locs, plan.outs, START, LOAD_BLOCK_DATA).0| && AllAgreed(script, next0, 1)
    ensures var block := Deal(locs, plan.outs, START, LOAD_BLOCK_DATA).0;
            && loop == Ok(1) && chunks == [block] && |block| <= LOAD_BLOCK_DATA
            && sent == sent0 + [LoadApdu(0, true, block)]
  {
    hide Feeds, Deal, FramedLen, Agreed, LoadApdu, InOrder, FullButLast;
    var total, block := FramedLen(locs), Deal(locs, plan.outs, START, LOAD_BLOCK_DATA).0;
    assert BlockCount(total) == 1;
    CountInOrder(chunks, total);
    LoopFinishes(script, next0, chunks, total, loop);
    assert LoadBuffers(0) == [] && LoadBuffers(1) == [LOAD_BLOCK_DATA] && [LOAD_BLOCK_DATA][1..] == [];
    assert DealAll(locs, plan.outs, START, [LOAD_BLOCK_DATA]) == [block];
    FlattenNil();
    if chunks == [] {
      NothingSent(locs, plan.outs);
    }
    assert chunks == DealAll(locs, plan.outs, START, LoadBuffers(1)) == [block];
    assert Flatten([block]) == block && chunks[..0] == [];
  }

  /**
   Loading such an archive to a card that agrees reports success after one LOAD command, marked as the last,
   if the Class component fills it up to the announced size.
   */
  method LoadPair<S(!new)>(class_: ZipWriter.File, target: bytes, hash: bytes, infl: InflateCtx<S>, session: Session,
                           ghost out: bytes, ghost at: (S, nat, nat) -> bool)
    returns (r: Result<LoadReport, LoadError>, ghost chunk: Chunk)
    requires IsClass(class_) && class_.descriptor == [] && class_.uncompSize < 110 && class_.uncompSize <= |out|
    requires if class_.coding == METHOD_DEFLATE then Decodes(infl.codec, class_.data, out, at)
             else out == class_.data && |out| == class_.uncompSize
    requires infl.Valid() && 5 <= |target| <= 16 && |hash| <= HASH_MAX && AllAgreed(session.script, session.next, 2)
    modifies infl`state, infl.window, session
    ensures r.Ok? && r.value.size == 20 + class_.uncompSize && r.value.blockCount == 1
    ensures chunk == HeaderBytes(18 + class_.uncompSize) + HeaderComponent(2, 1, 0, PACKAGE) + out[..Min(|out|, 203)]
    ensures |InstallData(PACKAGE, target, hash)| <= 255
    ensures session.sent
         == old(session.sent) + [ShortApdu(0x84, 0xE6, 0x02, 0x00, InstallData(PACKAGE, target, hash), true)]
            + [LoadApdu(0, true, chunk)]
  {
    hide Zip.Walk, PairArchive, Prepared, InstallRefusal, Looped, Report, Feeds, PairPlan, Decodes, HeaderComponent,
         Deal, InstallData, ShortApdu, FramedLen, AllAgreed, LoadApdu, HeaderBytes, PairLocs;
    ghost var zip, sent0, next0 := PairArchive(class_), session.sent, session.next;
    PairWalks(class_);
    ghost var locs, plan := Zip.Walk(zip).value, PairPlan(out, at);
    PairPrepared(infl.codec, class_, target, hash);
    PairFeeds(infl.codec, class_, out, at);
    PairDeal(class_, locs, out, at, LOAD_BLOCK_DATA);
    AgreedFirst(session.script, next0, 1);
    ghost var ready := Prepared(infl.codec, zip, target, hash).value;
    ghost var chunks: seq<Chunk>;
    ghost var loop: Result<nat, LoadError>;
    r, chunks, loop := Load(PairArchive(class_), target, hash, infl, session, plan);
    OneBlockLoad(infl.codec, zip, locs, plan, session.script, sent0 + [ready.install], next0 + 1,
                 session.sent, session.next, chunks, loop);
    chunk := chunks[0];
    Reported(ready.cap, target, hash, loop);
  }

  lemma PairPrepared<S(!new)>(codec: Codec<S>, class_: ZipWriter.File, target: bytes, hash: bytes)
    requires IsClass(class_) && class_.descriptor == [] && class_.uncompSize < 110 && |target| <= 16
    requires |hash| <= HASH_MAX
    ensures |InstallData(PACKAGE, target, hash)| <= 255
    ensures var ready := Prepared(codec, PairArchive(class_), target, hash);
            && ready.Ok? && ready.value.cap.locs == Zip.Walk(PairArchive(class_)).value
            && FramedLen(ready.value.cap.locs) == 20 + class_.uncompSize
            && ready.value.install == ShortApdu(0x84, 0xE6, 0x02, 0x00, InstallData(PACKAGE, target, hash), true)
  {
    hide PairArchive, InstallData, ShortApdu, CapOf, FramedLen;
    ShortInstall(target, hash);
    PairAccepted(codec, class_, target, hash);
  }

  lemma Reported(cap: CapFile, target: bytes, hash: bytes, loop: Result<nat, LoadError>)
    requires loop.Ok? && 5 <= |target| <= 16 && |hash| <= HASH_MAX
    ensures Report(cap, target, hash, loop)
         == Ok(LoadReport(cap.packageAid, FramedLen(cap.locs), hash, loop.value, target))
  {
  }

  /** A load that ends before its first block had nothing to send. */
  lemma NothingSent(locs: Locs, outs: seq<bytes>)
    requires |locs| == |outs| && Finished(locs, outs, []) && FramedLen(locs) > 0
    ensures Deal(locs, outs, START, LOAD_BLOCK_DATA).0 == []
  {
    hide Deal, FramedLen;
    FlattenNil();
    var chunks: seq<bytes> := [];
    assert LoadBuffers(1)[0] == LOAD_BLOCK_DATA && LoadBuffers(1)[1..] == [];
    assert DealAll(locs, outs, START, LoadBuffers(1)) == [Deal(locs, outs, START, LOAD_BLOCK_DATA).0];
    assert (chunks + [[]])[0] == [];
  }

  // ---- A component longer than declared ----

  /** `n` literals, and what they expand to. */
  function Literals(n: nat): (ts: seq<Lz77.Token>)
    ensures |ts| == n && forall t :: t in ts ==> t == Lz77.Literal(0x55)
  {
    if n == 0 then [] else [Lz77.Literal(0x55)] + Literals(n - 1)
  }

  lemma {:induction false} LiteralsExpand(n: nat, out: bytes)
    ensures Lz77.WellFormed(Literals(n), |out|)
    ensures Lz77.Expand(Literals(n), out) == out + seq(n, _ => 0x55)
    ensures |Lz77.TokenBytes(Literals(n))| == 2 * n
  {
    if n > 0 {
      LiteralsExpand(n - 1, out + [0x55]);
      assert Literals(n)[1..] == Literals(n - 1);
      assert out + [0x55] + seq(n - 1, _ => 0x55) == out + seq(n, _ => 0x55);
    } else {
      assert out + seq(0, _ => 0x55) == out;
    }
  }

  /** What the Class component inflates to. */
  function LongContent(): (out: bytes)
    ensures |out| == 300
  {
    seq(300, _ => 0x55)
  }

  /** A Class component that is said to be 10 bytes and inflates to 300. */
  function LongFile(): (f: ZipWriter.File)
    ensures IsClass(f) && f.descriptor == [] && f.coding == METHOD_DEFLATE && f.uncompSize == 10
    ensures f.data == Lz77.TokenBytes(Literals(300))
  {
    LiteralsExpand(300, []);
    ClassFile(METHOD_DEFLATE, 10, Lz77.TokenBytes(Literals(300)))
  }

  /** Its data inflates to that, by the token decoder at any pace. */
  lemma LongDecodes(pace: Lz77.Pace)
    ensures Decodes(Lz77.TokenCodec(pace), LongFile().data, LongContent(), Lz77.DecoderAt(LongContent()))
  {
    hide Decodes, Lz77.TokenCodec, Lz77.TokenBytes;
    LiteralsExpand(300, []);
    assert [] + LongContent() == LongContent();
    assert Lz77.Encodable(Literals(300));
    Lz77.RingDecodesTokens(pace, Literals(300));
  }

  /** The walk reads it, and its components feed the reader. */
  lemma LongArchiveFeeds(pace: Lz77.Pace)
    ensures var zip := PairArchive(LongFile());
            && Zip.Walk(zip).Ok? && PairLocs(Zip.Walk(zip).value, LongFile())
            && Feeds(Lz77.TokenCodec(pace), zip, Zip.Walk(zip).value,
                     PairPlan(LongContent(), Lz77.DecoderAt(LongContent())))
  {
    hide Zip.Walk, PairArchive, Feeds, LongFile, LongContent, PairPlan, PairLocs, Decodes, Lz77.TokenCodec;
    PairWalks(LongFile());
    LongDecodes(pace);
    PairFeeds(Lz77.TokenCodec(pace), LongFile(), LongContent(), Lz77.DecoderAt(LongContent()));
  }

  lemma LongIsNotComplete<S>(zip: bytes, locs: Locs, at: (S, nat, nat) -> bool)
    requires PairLocs(locs, LongFile())
    ensures !Complete(zip, locs, PairPlan(LongContent(), at).outs)
    ensures !Steady(locs, PairPlan(LongContent(), at).outs, 0)
  {
    hide LongFile, LongContent, PairPlan;
    PairOuts(LongContent(), at);
    var outs := PairPlan(LongContent(), at).outs;
    assert !Entire(zip, locs[4].value, outs[4]);
    assert !Steady(locs, outs, 4) && !Steady(locs, outs, 3) && !Steady(locs, outs, 2) && !Steady(locs, outs, 1);
  }

  /** Two lists of sizes with room for all of it read different streams of the archive. */
  lemma LongArchiveDependsOnSizes(pace: Lz77.Pace) returns (one: seq<nat>, two: seq<nat>)
    ensures var zip, plan := PairArchive(LongFile()), PairPlan(LongContent(), Lz77.DecoderAt(LongContent()));
            && Zip.Walk(zip).Ok? && Feeds(Lz77.TokenCodec(pace), zip, Zip.Walk(zip).value, plan)
            && Sum(one) >= RoomForAll(Zip.Walk(zip).value, plan.outs)
            && Sum(two) >= RoomForAll(Zip.Walk(zip).value, plan.outs)
            && Stream(Zip.Walk(zip).value, plan.outs, one) != Stream(Zip.Walk(zip).value, plan.outs, two)
  {
    hide Zip.Walk, PairArchive, Feeds, LongFile, LongContent, PairPlan, PairLocs, Lz77.TokenCodec, Stream, Steady,
         RoomForAll;
    var zip, at := PairArchive(LongFile()), Lz77.DecoderAt(LongContent());
    LongArchiveFeeds(pace);
    PairWalks(LongFile());
    LongIsNotComplete(zip, Zip.Walk(zip).value, at);
    one, two := TwoSizesTwoStreams(Zip.Walk(zip).value, PairPlan(LongContent(), at).outs);
  }

  /**
   Loading it to a card that agrees reports success after one LOAD command, marked as the last: it holds 203 of
   the 300 bytes of the Class component, 193 more than declared.
   */
  method LoadLongArchive(target: bytes, hash: bytes, infl: InflateCtx<Lz77.Decoder>, session: Session,
                         ghost pace: Lz77.Pace)
    returns (r: Result<LoadReport, LoadError>, ghost chunk: Chunk)
    requires infl.Valid() && infl.codec == Lz77.TokenCodec(pace)
    requires 5 <= |target| <= 16 && |hash| <= HASH_MAX && AllAgreed(session.script, session.next, 2)
    modifies infl`state, infl.window, session
    ensures r.Ok? && r.value.size == 30 && r.value.blockCount == 1
    ensures chunk == HeaderBytes(28) + HeaderComponent(2, 1, 0, PACKAGE) + LongContent()[..203]
    ensures |InstallData(PACKAGE, target, hash)| <= 255
    ensures session.sent
         == old(session.sent) + [ShortApdu(0x84, 0xE6, 0x02, 0x00, InstallData(PACKAGE, target, hash), true)]
            + [LoadApdu(0, true, chunk)]
    ensures var zip := PairArchive(LongFile());
            var plan := PairPlan(LongContent(), Lz77.DecoderAt(LongContent()));
            && Zip.Walk(zip).Ok? && Feeds(infl.codec, zip, Zip.Walk(zip).value, plan)
            && !Complete(zip, Zip.Walk(zip).value, plan.outs)
  {
    hide Zip.Walk, PairArchive, LongFile, LongContent, PairPlan, PairLocs, Lz77.TokenCodec, Complete, Feeds, Decodes,
         HeaderBytes, HeaderComponent, InstallData, ShortApdu, LoadApdu, AllAgreed, Steady;
    LongDecodes(pace);
    LongArchiveFeeds(pace);
    r, chunk := LoadPair(LongFile(), target, hash, infl, session, LongContent(), Lz77.DecoderAt(LongContent()));
    PairWalks(LongFile());
    LongIsNotComplete(PairArchive(LongFile()), Zip.Walk(PairArchive(LongFile())).value, Lz77.DecoderAt(LongContent()));
  }

  // ---- A component of an unsupported method ----

  const METHOD_BZIP2: nat := 12

  /** A Class component of 50 compressed bytes, said to be 50 bytes, of a method that is neither of the two. */
  function PackedFile(): (f: ZipWriter.File)
    ensures IsClass(f) && f.descriptor == [] && f.coding == METHOD_BZIP2 && f.uncompSize == 50 == |f.data|
  {
    ClassFile(METHOD_BZIP2, 50, seq(50, _ => 0x42))
  }

  /** The entry it is found at has no data to be had, so the archive is not complete. */
  lemma PackedIsNotComplete(zip: bytes, locs: Locs, outs: seq<bytes>)
    requires PairLocs(locs, PackedFile()) && |outs| == |locs|
    ensures !Complete(zip, locs, outs)
  {
    hide PackedFile;
    assert !Entire(zip, locs[4].value, outs[4]);
  }

  lemma PackedReceived<S>(locs: Locs, at: (S, nat, nat) -> bool, chunk: Chunk)
    requires PairLocs(locs, PackedFile())
    requires chunk == HeaderBytes(68) + HeaderComponent(2, 1, 0, PACKAGE) + PackedFile().data
    ensures TlvCodec.TlvsOf(chunk) == Ok([TlvCodec.Tlv(0xC4, HeaderComponent(2, 1, 0, PACKAGE) + PackedFile().data)])
  {
    hide PackedFile, PairPlan, HeaderComponent, HeaderBytes, TlvCodec.TlvsOf;
    var outs := PairPlan(PackedFile().data, at).outs;
    PairDeclared(locs, PackedFile());
    PairOuts(PackedFile().data, at);
    PairJoins(outs);
    assert HeaderBytes(68) + (outs[0] + outs[4]) == chunk;
    assert Flatten([chunk]) == chunk;
    ReceivedIsTheLoadFile(locs, outs, [chunk]);
  }

  lemma PairJoins(outs: seq<bytes>)
    requires |outs| == LFDB_COMPONENTS && forall i :: 0 <= i < LFDB_COMPONENTS && i != 0 && i != 4 ==> outs[i] == []
    ensures Flatten(outs) == outs[0] + outs[4]
  {
    EmptyJoins(outs[5..]);
    assert outs[4..][1..] == outs[5..] && Flatten(outs[4..]) == outs[4];
    assert outs[3..][1..] == outs[4..] && Flatten(outs[3..]) == outs[4];
    assert outs[2..][1..] == outs[3..] && Flatten(outs[2..]) == outs[4];
    assert outs[1..][1..] == outs[2..] && Flatten(outs[1..]) == outs[4];
  }

  lemma {:induction false} EmptyJoins(parts: seq<bytes>)
    requires forall i :: 0 <= i < |parts| ==> parts[i] == []
    ensures Flatten(parts) == []
  {
    if parts != [] {
      EmptyJoins(parts[1..]);
    }
  }

  /**
   Loading it to a card that agrees reports success after one LOAD command, marked as the last. What the card
   received is one whole object, in which the compressed bytes stand for the Class component.
   */
  method LoadPackedArchive<S(!new)>(target: bytes, hash: bytes, infl: InflateCtx<S>, session: Session)
    returns (r: Result<LoadReport, LoadError>, ghost chunk: Chunk)
    requires infl.Valid() && 5 <= |target| <= 16 && |hash| <= HASH_MAX && AllAgreed(session.script, session.next, 2)
    modifies infl`state, infl.window, session
    ensures r.Ok? && r.value.size == 70 && r.value.blockCount == 1
    ensures |InstallData(PACKAGE, target, hash)| <= 255
    ensures session.sent
         == old(session.sent) + [ShortApdu(0x84, 0xE6, 0x02, 0x00, InstallData(PACKAGE, target, hash), true)]
            + [LoadApdu(0, true, chunk)]
    ensures TlvCodec.TlvsOf(chunk) == Ok([TlvCodec.Tlv(0xC4, HeaderComponent(2, 1, 0, PACKAGE) + PackedFile().data)])
    ensures var zip := PairArchive(PackedFile());
            Zip.Walk(zip).Ok? && forall outs :: |outs| == LFDB_COMPONENTS ==> !Complete(zip, Zip.Walk(zip).value, outs)
  {
    hide Zip.Walk, PairArchive, PackedFile, PairLocs, Complete, Decodes, HeaderBytes, HeaderComponent, InstallData,
         ShortApdu, LoadApdu, AllAgreed, TlvCodec.TlvsOf;
    ghost var never := (_: S, _: nat, _: nat) => false;
    r, chunk := LoadPair(PackedFile(), target, hash, infl, session, PackedFile().data, never);
    PairWalks(PackedFile());
    ghost var zip := PairArchive(PackedFile());
    ghost var locs := Zip.Walk(zip).value;
    assert PackedFile().data[..50] == PackedFile().data;
    PackedReceived(locs, never, chunk);
    forall outs | |outs| == LFDB_COMPONENTS
      ensures !Complete(zip, locs, outs)
    {
      PackedIsNotComplete(zip, locs, outs);
    }
  }
}
