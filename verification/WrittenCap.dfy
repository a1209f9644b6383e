/**
 A CAP from the files it is written from to what the card receives: the components by their file names, in the order
 of section C.2 of the GlobalPlatform Card Specification v2.3.1, and every command byte for byte.
 */
module WrittenCap {
  import opened Bytes
  import opened Wrappers
  import opened Aid
  import opened Inflate
  import opened LoadFile
  import opened Cap
  import opened CapStream
  import opened CapParse
  import opened Apdu
  import opened CardStatus
  import opened LoadPackage
  import TlvCodec
  import Zip
  import opened ZipWriter

  // ---- Files by name ----

  /** The path is the name, or ends in it behind a slash or a backslash. */
  predicate FileNamed(path: bytes, name: string) {
    var base := Zip.Ascii(name);
    var at := |path| - |base|;
    at >= 0 && path[at..] == base && (at == 0 || path[at - 1] == 0x2F || path[at - 1] == 0x5C)
  }

  /** What is cut off a path to leave its basename is empty or ends in a separator. */
  lemma {:induction false} BasenameSplits(path: bytes) returns (dir: bytes)
    ensures path == dir + Zip.Basename(path)
    ensures dir == [] || dir[|dir| - 1] == 0x2F || dir[|dir| - 1] == 0x5C
  {
    if path == [] {
      dir := [];
    } else {
      var front, last := path[..|path| - 1], path[|path| - 1];
      assert path == front + [last];
      if last == 0x2F || last == 0x5C {
        dir := path;
        assert path + [] == path;
      } else {
        dir := BasenameSplits(front);
        assert dir + (Zip.Basename(front) + [last]) == (dir + Zip.Basename(front)) + [last];
      }
    }
  }

  /** The walk takes a path for component `k` exactly when it is named so. */
  lemma NamedIsIndexed(path: bytes, k: nat)
    requires k < LFDB_COMPONENTS
    ensures FileNamed(path, Zip.COMPONENT_NAMES[k]) <==> Zip.ComponentIndex(path) == Some(k)
  {
    hide Zip.ComponentIndex, Zip.COMPONENT_NAMES;
    Zip.NamesAre();
    var base := Zip.Ascii(Zip.COMPONENT_NAMES[k]);
    Zip.ComponentIndexExactly(path, k);
    Zip.NamesArePlain(k);
    if FileNamed(path, Zip.COMPONENT_NAMES[k]) {
      var at := |path| - |base|;
      Zip.BasenameEnds(path[..at], base);
      assert path[..at] + base == path;
    }
    var dir := BasenameSplits(path);
    if Zip.Basename(path) == base {
      assert path[|path| - |base|..] == base;
      assert |dir| == |path| - |base|;
    }
  }

  /** The first file the directory lists under a name. */
  function FirstNamed(listing: seq<Listed>, name: string): (r: Option<File>)
    ensures r.Some? ==> exists k :: 0 <= k < |listing| && listing[k].file == r.value && FileNamed(r.value.name, name)
    ensures r.None? ==> forall k :: 0 <= k < |listing| ==> !FileNamed(listing[k].file.name, name)
  {
    if listing == [] then None
    else if FileNamed(listing[0].file.name, name) then assert listing[0] in listing; Some(listing[0].file)
    else
      assert forall k :: 0 <= k < |listing| - 1 ==> listing[1..][k] == listing[k + 1];
      assert forall k :: 0 < k < |listing| ==> listing[k] == listing[1..][k - 1];
      FirstNamed(listing[1..], name)
  }

  lemma {:induction false} FirstNamedIs(listing: seq<Listed>, k: nat)
    requires k < LFDB_COMPONENTS
    ensures FirstNamed(listing, Zip.COMPONENT_NAMES[k])
         == var first := FirstNaming(listing, k); if first.None? then None else Some(first.value.file)
    ensures FirstNaming(listing, k).Some? ==> FirstNaming(listing, k).value in listing
  {
    hide FileNamed, Zip.ComponentIndex, Zip.COMPONENT_NAMES;
    if listing != [] {
      NamedIsIndexed(listing[0].file.name, k);
      FirstNamedIs(listing[1..], k);
    }
  }

  // ---- What the files hold ----

  /** What is in a file, `inflated` saying what compressed data inflates to. */
  function Held(f: File, inflated: bytes -> bytes): bytes {
    if f.coding == 8 then inflated(f.data) else f.data
  }

  /** The component of that name; nothing if there is none. */
  function Part(listing: seq<Listed>, inflated: bytes -> bytes, name: string): bytes {
    var f := FirstNamed(listing, name);
    if f.None? then [] else Held(f.value, inflated)
  }

  /** The load file: eleven components in order. `Debug.cap` and the rest stay behind. */
  function Content(listing: seq<Listed>, inflated: bytes -> bytes): bytes {
    Part(listing, inflated, "Header.cap") + Part(listing, inflated, "Directory.cap")
    + Part(listing, inflated, "Import.cap") + Part(listing, inflated, "Applet.cap")
    + Part(listing, inflated, "Class.cap") + Part(listing, inflated, "Method.cap")
    + Part(listing, inflated, "StaticField.cap") + Part(listing, inflated, "Export.cap")
    + Part(listing, inflated, "ConstantPool.cap") + Part(listing, inflated, "RefLocation.cap")
    + Part(listing, inflated, "Descriptor.cap")
  }

  /** Stored or deflated, of the size declared, and data that inflates if it is deflated. */
  ghost predicate Sound<S(!new)>(codec: Codec<S>, f: File, inflated: bytes -> bytes,
                                 at: bytes -> ((S, nat, nat) -> bool)) {
    && (f.coding == 0 || f.coding == 8) && f.uncompSize == |Held(f, inflated)|
    && (f.coding == 8 ==> Decodes(codec, f.data, inflated(f.data), at(f.data)))
  }

  ghost predicate AllSound<S(!new)>(codec: Codec<S>, listing: seq<Listed>, inflated: bytes -> bytes,
                                    at: bytes -> ((S, nat, nat) -> bool)) {
    forall name :: Loaded(name) ==>
      var f := FirstNamed(listing, name);
      f.Some? ==> Sound(codec, f.value, inflated, at)
  }

  /** The files that are loaded. */
  predicate Loaded(name: string) {
    name in {"Header.cap", "Directory.cap", "Import.cap", "Applet.cap", "Class.cap", "Method.cap", "StaticField.cap",
             "Export.cap", "ConstantPool.cap", "RefLocation.cap", "Descriptor.cap"}
  }

  lemma NamesAreLoaded()
    ensures |Zip.COMPONENT_NAMES| == LFDB_COMPONENTS
    ensures forall k :: 0 <= k < LFDB_COMPONENTS ==> Loaded(Zip.COMPONENT_NAMES[k])
  {
    hide Zip.COMPONENT_NAMES;
    Zip.NamesAre();
  }

  /** What the reader reaches of such an archive. */
  function PlanFor<S>(listing: seq<Listed>, inflated: bytes -> bytes,
                      at: bytes -> ((S, nat, nat) -> bool)): (p: Plan<S>)
    ensures |p.outs| == |p.ats| == LFDB_COMPONENTS
  {
    Plan(seq(LFDB_COMPONENTS, k requires 0 <= k < LFDB_COMPONENTS => Part(listing, inflated, Zip.COMPONENT_NAMES[k])),
         seq(LFDB_COMPONENTS, k requires 0 <= k < LFDB_COMPONENTS => RelationFor(listing, at, Zip.COMPONENT_NAMES[k])))
  }

  /** Where the decompressor is in a component. */
  function RelationFor<S>(listing: seq<Listed>, at: bytes -> ((S, nat, nat) -> bool), name: string)
    : (S, nat, nat) -> bool
  {
    var f := FirstNamed(listing, name);
    if f.None? then at([]) else at(f.value.data)
  }

  lemma SoundPlan<S(!new)>(codec: Codec<S>, files: seq<File>, listing: seq<Listed>, e: Ending, inflated: bytes -> bytes,
                           at: bytes -> ((S, nat, nat) -> bool))
    requires Writable(files, listing, e) && AllSound(codec, listing, inflated, at)
    ensures PlanOf(codec, Archive(files, listing, e), listing, PlanFor(listing, inflated, at))
    ensures forall k :: 0 <= k < LFDB_COMPONENTS && FirstNaming(listing, k).Some? ==>
              Truthful(FirstNaming(listing, k).value.file, PlanFor(listing, inflated, at).outs[k])
  {
    hide Archive, Writable, Decodes, FirstNamed, FirstNaming, Zip.COMPONENT_NAMES, Zip.Walk, LocalStands, Place,
         StoredReach, Found, Loaded;
    NamesAreLoaded();
    var zip, plan := Archive(files, listing, e), PlanFor(listing, inflated, at);
    WalkInvertsArchive(files, listing, e);
    forall k | 0 <= k < LFDB_COMPONENTS
      ensures var first := FirstNaming(listing, k);
              if first.None? then plan.outs[k] == []
              else
                && Truthful(first.value.file, plan.outs[k])
                && if first.value.file.coding == METHOD_DEFLATE then
                     Decodes(codec, first.value.file.data, plan.outs[k], plan.ats[k])
                   else Place(first.value).dataOff <= |zip| && plan.outs[k] == StoredReach(zip, Place(first.value))
    {
      FirstNamedIs(listing, k);
      var first := FirstNaming(listing, k);
      if first.Some? && first.value.file.coding != METHOD_DEFLATE {
        StoredPart(zip, first.value);
      }
    }
  }

  lemma StoredPart(zip: bytes, l: Listed)
    requires LocalStands(zip, l) && l.file.uncompSize == |l.file.data|
    ensures Place(l).dataOff <= |zip| && StoredReach(zip, Place(l)) == l.file.data
  {
    FileHasData(zip, l, []);
  }

  /** Such an archive feeds the reader and is complete. */
  lemma SoundFeeds<S(!new)>(codec: Codec<S>, files: seq<File>, listing: seq<Listed>, e: Ending,
                            inflated: bytes -> bytes, at: bytes -> ((S, nat, nat) -> bool))
    requires Writable(files, listing, e) && AllSound(codec, listing, inflated, at)
    ensures var zip, plan := Archive(files, listing, e), PlanFor(listing, inflated, at);
            && Zip.Walk(zip).Ok? && Feeds(codec, zip, Zip.Walk(zip).value, plan)
            && Complete(zip, Zip.Walk(zip).value, plan.outs)
  {
    hide Archive, Writable, PlanOf, FirstNaming, Zip.Walk, Feeds, Complete, Truthful, AllSound, PlanFor;
    SoundPlan(codec, files, listing, e, inflated, at);
    ArchiveFeeds(codec, files, listing, e, PlanFor(listing, inflated, at));
  }

  /** Joined, it is the load file by name. */
  lemma PlanJoins<S>(listing: seq<Listed>, inflated: bytes -> bytes, at: bytes -> ((S, nat, nat) -> bool))
    ensures Flatten(PlanFor(listing, inflated, at).outs) == Content(listing, inflated)
  {
    hide Part, Zip.COMPONENT_NAMES;
    var outs := PlanFor(listing, inflated, at).outs;
    Zip.NamesAre();
    ElevenJoin(outs);
  }

  lemma ElevenJoin(xs: seq<bytes>)
    requires |xs| == 11
    ensures Flatten(xs) == xs[0] + xs[1] + xs[2] + xs[3] + xs[4] + xs[5] + xs[6] + xs[7] + xs[8] + xs[9] + xs[10]
  {
    hide Flatten;
    FlattenNil();
    SnocJoin(xs, 0);
    SnocJoin(xs, 1);
    SnocJoin(xs, 2);
    SnocJoin(xs, 3);
    SnocJoin(xs, 4);
    SnocJoin(xs, 5);
    SnocJoin(xs, 6);
    SnocJoin(xs, 7);
    SnocJoin(xs, 8);
    SnocJoin(xs, 9);
    SnocJoin(xs, 10);
    assert xs[..0] == [] && xs[..11] == xs && [] + xs[0] == xs[0];
  }

  lemma SnocJoin(xs: seq<bytes>, k: nat)
    requires k < |xs|
    ensures Flatten(xs[..k + 1]) == Flatten(xs[..k]) + xs[k]
  {
    FlattenSnoc(xs[..k], xs[k]);
    assert xs[..k] + [xs[k]] == xs[..k + 1];
  }

  // ---- The metadata ----

  /** What a CAP says of itself; `importHead` and `appletHead` are tag and size, `rest` what follows the package. */
  datatype Metadata = Metadata(minor: byte, major: byte, flags: byte, aid: bytes, rest: bytes,
                               importHead: bytes, imports: seq<bytes>, appletHead: bytes, applets: seq<AppletEntry>)

  predicate WellFormed(m: Metadata) {
    && IsAid(m.aid) && |m.importHead| == |m.appletHead| == 3
    && |m.imports| <= 16 && (forall a :: a in m.imports ==> IsAid(a))
    && |m.applets| <= 8 && forall a :: a in m.applets ==> IsAid(a.classAid) && a.installOffset < 0x1_0000
  }

  /** The Header, Import and Applet components say this; the last two may be missing. */
  predicate Says(listing: seq<Listed>, inflated: bytes -> bytes, m: Metadata) {
    && WellFormed(m)
    && FirstNamed(listing, "Header.cap").Some?
    && Part(listing, inflated, "Header.cap") == HeaderComponent(m.minor, m.major, m.flags, m.aid) + m.rest
    && (if FirstNamed(listing, "Import.cap").None? then m.imports == []
        else
          Part(listing, inflated, "Import.cap") == m.importHead + [|m.imports|] + Entries(ImportEntry, m.imports))
    && (if FirstNamed(listing, "Applet.cap").None? then m.applets == []
        else
          Part(listing, inflated, "Applet.cap")
          == m.appletHead + [|m.applets|] + Entries(AppletEntryBytes, m.applets))
  }

  /** A component that fits the window, and inflates in one call if it is deflated. */
  ghost predicate Fits<S(!new)>(codec: Codec<S>, listing: seq<Listed>, inflated: bytes -> bytes, name: string) {
    var f := FirstNamed(listing, name);
    f.Some? ==>
      && |Held(f.value, inflated)| <= 32768
      && (f.value.coding == 8 ==> InflatesWhole(codec, f.value.data, inflated(f.value.data)))
  }

  /** A sound component is materialized as what it holds. */
  lemma PartMaterializes<S(!new)>(codec: Codec<S>, files: seq<File>, listing: seq<Listed>, e: Ending,
                                  inflated: bytes -> bytes, at: bytes -> ((S, nat, nat) -> bool), k: nat)
    requires Writable(files, listing, e) && k < LFDB_COMPONENTS && AllSound(codec, listing, inflated, at)
    requires Fits(codec, listing, inflated, Zip.COMPONENT_NAMES[k])
    ensures Zip.Walk(Archive(files, listing, e)).Ok?
    ensures var zip, name := Archive(files, listing, e), Zip.COMPONENT_NAMES[k];
            var loc := Zip.Walk(zip).value[k];
            && (FirstNamed(listing, name).None? <==> loc.None?)
            && (loc.Some? ==> ComponentBytes(codec, zip, loc.value) == Ok(Part(listing, inflated, name)))
  {
    hide Archive, Writable, FirstNamed, FirstNaming, Zip.COMPONENT_NAMES, Zip.Walk, Place, Found, ComponentBytes,
         Decodes, InflatesWhole, LocalStands, Loaded;
    NamesAreLoaded();
    var zip := Archive(files, listing, e);
    WalkInvertsArchive(files, listing, e);
    FoundIsFirst(listing, Zip.NothingFound(), k);
    FirstNamedIs(listing, k);
    var first := FirstNaming(listing, k);
    if first.Some? {
      MaterializesOne(codec, zip, first.value, Held(first.value.file, inflated));
    }
  }

  lemma MaterializesOne<S(!new)>(codec: Codec<S>, zip: bytes, l: Listed, held: bytes)
    requires LocalStands(zip, l) && (l.file.coding == 0 || l.file.coding == 8)
    requires l.file.coding == 8 ==> InflatesWhole(codec, l.file.data, held)
    requires l.file.coding == 0 ==> held == l.file.data
    requires |held| <= 32768
    ensures ComponentBytes(codec, zip, Place(l)) == Ok(held)
  {
    hide LocalStands, InflatesWhole;
    FileHasData(zip, l, held);
    ParsedIsOwnData(codec, zip, Place(l), held);
  }

  lemma NameAt()
    ensures |Zip.COMPONENT_NAMES| == LFDB_COMPONENTS
    ensures Zip.COMPONENT_NAMES[0] == "Header.cap" && Zip.COMPONENT_NAMES[2] == "Import.cap"
    ensures Zip.COMPONENT_NAMES[3] == "Applet.cap"
  {
  }

  /** Parsing a written CAP gives back what it says of itself. */
  lemma MetadataReads<S(!new)>(codec: Codec<S>, files: seq<File>, listing: seq<Listed>, e: Ending,
                               inflated: bytes -> bytes, at: bytes -> ((S, nat, nat) -> bool), m: Metadata)
    requires Writable(files, listing, e) && AllSound(codec, listing, inflated, at) && Says(listing, inflated, m)
    requires Fits(codec, listing, inflated, "Header.cap") && Fits(codec, listing, inflated, "Import.cap")
    requires Fits(codec, listing, inflated, "Applet.cap")
    ensures var zip := Archive(files, listing, e);
            && Zip.Walk(zip).Ok?
            && CapOf(codec, zip) == Ok(CapFile(m.aid, m.major, m.minor, m.imports, m.applets, Zip.Walk(zip).value))
  {
    hide Archive, Writable, FirstNamed, Part, Zip.COMPONENT_NAMES, Zip.Walk, ComponentBytes, AllSound, Fits,
         HeaderComponent, ParseHeader, ImportsOf, AppletsOf, Entries, ImportEntry, AppletEntryBytes;
    NameAt();
    PartMaterializes(codec, files, listing, e, inflated, at, 0);
    PartMaterializes(codec, files, listing, e, inflated, at, 2);
    PartMaterializes(codec, files, listing, e, inflated, at, 3);
    HeaderRead(m.minor, m.major, m.flags, m.aid, m.rest);
    ImportsRead(m.importHead, m.imports);
    AppletsRead(m.appletHead, m.applets);
  }

  // ---- The whole load ----

  /** The header of the load file: tag C4, and the length in one to three bytes. */
  function Head(n: nat): (h: bytes)
    requires n < 0x1_0000
  {
    if n < 0x80 then [0xC4, n] else if n < 0x100 then [0xC4, 0x81, n] else [0xC4, 0x82, n / 0x100, n % 0x100]
  }

  /** INSTALL [for load] on the wire. */
  function InstallBytes(aid: bytes, target: bytes, hash: bytes): bytes
    requires |aid| <= 16 && |target| <= 16 && |hash| <= 64
  {
    [0x84, 0xE6, 0x02, 0x00, 5 + |aid| + |target| + |hash|]
    + [|aid|] + aid + [|target|] + target + [|hash|] + hash + [0x00, 0x00] + [0x00]
  }

  lemma InstallIs(aid: bytes, target: bytes, hash: bytes)
    requires |aid| <= 16 && |target| <= 16 && |hash| <= 64
    ensures |InstallData(aid, target, hash)| == 5 + |aid| + |target| + |hash|
    ensures ShortApdu(0x84, 0xE6, 0x02, 0x00, InstallData(aid, target, hash), true) == InstallBytes(aid, target, hash)
  {
    var data := [|aid|] + aid + [|target|] + target + [|hash|] + hash + [0x00, 0x00];
    assert Lv(aid) == [|aid|] + aid && Lv(target) == [|target|] + target && Lv(hash) == [|hash|] + hash
      && Lv([]) == [0];
    assert InstallData(aid, target, hash) == data;
  }

  /** A LOAD command on the wire. */
  predicate IsLoad(c: bytes, k: nat, last: bool, data: bytes) {
    |data| <= 255 && k < 256
    && c == [0x84, 0xE8, if last then 0x80 else 0x00, k, |data|] + data + [0x00]
  }

  /**
   The wire of a whole load: INSTALL, then LOAD commands numbered from 0, the last and no other marked, all of
   223 bytes but the last; and their data joined is header and content.
   */
  predicate OnWire(sent: seq<bytes>, aid: bytes, target: bytes, hash: bytes, content: bytes, chunks: seq<Chunk>) {
    && |aid| <= 16 && |target| <= 16 && |hash| <= 64 && |content| < 0x1_0000
    && |sent| == 1 + |chunks| && sent[0] == InstallBytes(aid, target, hash)
    && |chunks| == (|Head(|content|)| + |content| + 222) / 223
    && (forall k :: 0 <= k < |chunks| ==> IsLoad(sent[k + 1], k, k == |chunks| - 1, chunks[k]))
    && (forall k :: 0 <= k < |chunks| - 1 ==> |chunks[k]| == 223)
    && Flatten(chunks) == Head(|content|) + content
  }

  lemma CommandIs(chunks: seq<Chunk>, total: nat, k: nat)
    requires k < |chunks| <= 256 && IsBlock(Commands(chunks, total)[k], k, k == |chunks| - 1)
    ensures IsLoad(Commands(chunks, total)[k], k, k == |chunks| - 1, chunks[k])
  {
    hide Flatten, Commands;
    CommandAt(chunks, total, k);
    var last := |Flatten(chunks[..k + 1])| >= total;
    LoadIs(k, last, chunks[k]);
  }

  lemma LoadIs(k: byte, last: bool, data: Chunk)
    ensures IsLoad(LoadApdu(k, last, data), k, last, data)
  {
  }

  lemma HeadIs(n: nat)
    requires n < 0x1_0000
    ensures HeaderBytes(n) == Head(n)
  {
  }

  /** From a load in full to its wire. */
  lemma FullOnWire(zip: bytes, ready: Ready, target: bytes, hash: bytes, outs: seq<bytes>,
                   sent0: seq<bytes>, sent: seq<bytes>, r: Result<LoadReport, LoadError>, chunks: seq<Chunk>,
                   content: bytes)
    requires LoadedInFull(zip, ready, target, hash, outs, sent0, sent, r, chunks)
    requires |ready.cap.packageAid| <= 16 && |target| <= 16 && |hash| <= 64
    requires |InstallData(ready.cap.packageAid, target, hash)| <= 255
    requires ready.install == InstallApdu(ready.cap, target, hash)
    requires Flatten(outs) == content && ContentLen(ready.cap.locs) == |content| && |content| < 0x1_0000
    ensures sent0 <= sent && OnWire(sent[|sent0|..], ready.cap.packageAid, target, hash, content, chunks)
    ensures r == Ok(LoadReport(ready.cap.packageAid, |Head(|content|)| + |content|, hash, |chunks|, target))
  {
    hide Commands, Flatten, TlvCodec.TlvsOf, OwnOne, IsLoad, IsBlock, Head, HeaderBytes, InstallBytes, InstallData;
    var total := FramedLen(ready.cap.locs);
    InstallIs(ready.cap.packageAid, target, hash);
    HeadIs(|content|);
    forall k | 0 <= k < |chunks|
      ensures IsLoad(Commands(chunks, total)[k], k, k == |chunks| - 1, chunks[k])
    {
      CommandIs(chunks, total, k);
    }
    assert sent[|sent0|..] == [ready.install] + Commands(chunks, total);
  }

  lemma ContentFits(n: nat)
    requires n <= 57084
    ensures |HeaderBytes(n)| == |Head(n)| && |Head(n)| + n <= MAX_LOAD_BYTES
    ensures BlockCount(|Head(n)| + n) == (|Head(n)| + n + 222) / 223
  {
  }

  /**
   From files to card: every archive that holds a CAP with these components, of at most 57084 bytes, is loaded by a
   card answering 9000. The report gives the package and the number of blocks, the wire is the one INSTALL and those
   LOAD commands, and what the card received is one object, tag C4, with the components by name in their order.
   */
  method LoadWritten<S(!new)>(zip: bytes, target: bytes, hash: bytes, infl: InflateCtx<S>, session: Session,
                              ghost files: seq<File>, ghost listing: seq<Listed>, ghost e: Ending,
                              ghost inflated: bytes -> bytes, ghost at: bytes -> ((S, nat, nat) -> bool),
                              ghost m: Metadata)
    returns (r: Result<LoadReport, LoadError>, ghost chunks: seq<Chunk>)
    requires infl.Valid() && zip == Archive(files, listing, e) && Writable(files, listing, e)
    requires AllSound(infl.codec, listing, inflated, at) && Says(listing, inflated, m)
    requires Fits(infl.codec, listing, inflated, "Header.cap") && Fits(infl.codec, listing, inflated, "Import.cap")
    requires Fits(infl.codec, listing, inflated, "Applet.cap")
    requires 5 <= |target| <= 16 && |hash| <= 64 && |Content(listing, inflated)| <= 57084
    requires var n := |Content(listing, inflated)|;
             AllAgreed(session.script, session.next, 1 + (|Head(n)| + n + 222) / 223)
    modifies infl`state, infl.window, session
    ensures var content := Content(listing, inflated);
            && old(session.sent) <= session.sent
            && OnWire(session.sent[|old(session.sent)|..], m.aid, target, hash, content, chunks)
            && r == Ok(LoadReport(m.aid, |Head(|content|)| + |content|, hash, |chunks|, target))
            && TlvCodec.TlvsOf(Flatten(chunks)) == Ok([TlvCodec.Tlv(0xC4, content)])
  {
    hide Archive, Writable, AllSound, Says, Fits, Content, Zip.Walk, Feeds, Complete, AllAgreed, CapOf, Prepared,
         LoadedInFull,
         OnWire, FramedLen, ContentLen, HeaderBytes, Head, PlanFor, InstallData, ShortApdu, TlvCodec.TlvsOf, Flatten;
    ghost var plan, sent0 := PlanFor(listing, inflated, at), session.sent;
    SoundFeeds(infl.codec, files, listing, e, inflated, at);
    PlanJoins(listing, inflated, at);
    ghost var ready := ReadyFor(infl.codec, files, listing, e, inflated, at, m, target, hash);
    r, chunks := LoadComplete(zip, target, hash, infl, session, ready, plan);
    FullOnWire(zip, ready, target, hash, plan.outs, sent0, session.sent, r, chunks, Content(listing, inflated));
    InFullParses(zip, ready, target, hash, plan.outs, sent0, session.sent, r, chunks);
  }

  lemma InFullParses(zip: bytes, ready: Ready, target: bytes, hash: bytes, outs: seq<bytes>,
                     sent0: seq<bytes>, sent: seq<bytes>, r: Result<LoadReport, LoadError>, chunks: seq<Chunk>)
    requires LoadedInFull(zip, ready, target, hash, outs, sent0, sent, r, chunks)
    ensures TlvCodec.TlvsOf(Flatten(chunks)) == Ok([TlvCodec.Tlv(0xC4, Flatten(outs))])
  {
    hide TlvCodec.TlvsOf, Flatten, Commands;
  }

  /** Such a CAP passes every check before the first command. */
  lemma ReadyFor<S(!new)>(codec: Codec<S>, files: seq<File>, listing: seq<Listed>, e: Ending, inflated: bytes -> bytes,
                          at: bytes -> ((S, nat, nat) -> bool), m: Metadata, target: bytes, hash: bytes)
    returns (ready: Ready)
    requires Writable(files, listing, e) && AllSound(codec, listing, inflated, at) && Says(listing, inflated, m)
    requires Fits(codec, listing, inflated, "Header.cap") && Fits(codec, listing, inflated, "Import.cap")
    requires Fits(codec, listing, inflated, "Applet.cap")
    requires |target| <= 16 && |hash| <= 64 && |Content(listing, inflated)| <= 57084
    ensures var zip, n := Archive(files, listing, e), |Content(listing, inflated)|;
            && Zip.Walk(zip).Ok? && Prepared(codec, zip, target, hash) == Ok(ready)
            && ready.cap.locs == Zip.Walk(zip).value && ready.cap.packageAid == m.aid && |m.aid| <= 16
            && |InstallData(m.aid, target, hash)| <= 255 && ready.install == InstallApdu(ready.cap, target, hash)
            && ContentLen(ready.cap.locs) == n && BlockCount(FramedLen(ready.cap.locs)) == (|Head(n)| + n + 222) / 223
  {
    hide Archive, Writable, AllSound, Fits, Part, Zip.Walk, Feeds, Complete, CapOf, PlanFor, ShortApdu, HeaderBytes,
         Head, BlockCount, FirstNamed, Content, ContentLen, HeaderComponent, Entries;
    var zip, plan := Archive(files, listing, e), PlanFor(listing, inflated, at);
    MetadataReads(codec, files, listing, e, inflated, at, m);
    SoundFeeds(codec, files, listing, e, inflated, at);
    PlanJoins(listing, inflated, at);
    CompleteLength(codec, zip, Zip.Walk(zip).value, plan);
    ContentFits(|Content(listing, inflated)|);
    InstallIs(m.aid, target, hash);
    ready := Prepared(codec, zip, target, hash).value;
  }

  lemma CompleteLength<S(!new)>(codec: Codec<S>, zip: bytes, locs: Locs, plan: Plan<S>)
    requires Feeds(codec, zip, locs, plan) && Complete(zip, locs, plan.outs)
    ensures |Flatten(plan.outs)| == ContentLen(locs)
  {
    hide Feeds, Complete, Reaches;
    FeedsReaches(codec, zip, locs, plan);
    ReachesSizes(zip, locs, plan.outs);
    forall i | 0 <= i < |locs|
      ensures |plan.outs[i]| == Declared(locs[i])
    {
      CompleteReached(zip, locs, plan.outs, i);
    }
    DeclaredLength(locs, plan.outs);
  }
}
