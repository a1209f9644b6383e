/**
 What an inventory lists: from the registry a card keeps, written down as section 11.4 of the GlobalPlatform Card
 Specification v2.3.1 says, to the entries of the three lists, field by field.
 */
module Listing {
  import opened Bytes
  import opened Wrappers
  import opened TlvCodec
  import opened Registry
  import opened CardStatus
  import opened Inventory

  // ---- How a card writes its registry ----

  /** Values of at most 255 bytes, and no more objects in a template than the parser takes. */
  predicate Sane(e: Entry) {
    && |e.aid| <= 255 && |e.privileges| == 3 && |e.modules| <= 59
    && (e.associatedSd.Some? ==> |e.associatedSd.value| <= 255)
    && (e.elf.Some? ==> |e.elf.value| <= 255)
    && forall m :: m in e.modules ==> |m| <= 255
  }

  function Object(tag: nat, value: bytes): (t: Tlv)
    requires tag < 0x1_0000 && |value| < 0x1_0000
    ensures t.tag == tag && t.value == value
  {
    TwoOctetsFit();
    Tlv(tag, value)
  }

  lemma TwoOctetsFit()
    ensures 0x1_0000 <= Pow256(TAG_MAX_OCTETS) && 0x1_0000 <= Pow256(USIZE_OCTETS)
  {
    assert Pow256(2) == 0x1_0000;
    Pow256Monotone(2, TAG_MAX_OCTETS);
    Pow256Monotone(2, USIZE_OCTETS);
  }

  function Optional(tag: nat, value: Option<bytes>): seq<Tlv>
    requires tag < 0x1_0000 && (value.Some? ==> |value.value| < 0x1_0000)
  {
    if value.Some? then [Object(tag, value.value)] else []
  }

  function ModuleObjects(ms: seq<bytes>): (ts: seq<Tlv>)
    requires forall m :: m in ms ==> |m| <= 255
    ensures |ts| == |ms|
    ensures forall i :: 0 <= i < |ms| ==> ts[i].tag == 0x84 && ts[i].value == ms[i]
  {
    seq(|ms|, i requires 0 <= i < |ms| => assert ms[i] in ms; Object(0x84, ms[i]))
  }

  /** AID, life cycle, privileges, load file, modules and associated security domain. */
  function FieldsOf(e: Entry): seq<Tlv>
    requires Sane(e)
  {
    [Object(0x4F, e.aid), Object(0x9F70, [e.lifeCycle]), Object(0xC5, e.privileges)]
    + (Optional(0xC4, e.elf) + (ModuleObjects(e.modules) + Optional(0xCC, e.associatedSd)))
  }

  predicate Short(ts: seq<Tlv>) {
    forall t :: t in ts ==> |t.value| <= 255 && (t.tag < 0x100 || t.tag == 0x9F70) && WellFormed(t)
  }

  lemma OneIsShort(tag: nat, value: bytes)
    requires tag in {0x4F, 0x9F70, 0xC5, 0xC4, 0xCC, 0x84} && |value| <= 255
    ensures Short([Object(tag, value)])
  {
    hide And, MinimalOctets;
    if tag == 0x9F70 {
      assert MinimalOctets(0x9F70) == [0x9F, 0x70] by {
        LifeCycleOctets();
      }
      ContinuesTagIs(0x9F);
    } else {
      OneOctet(tag);
      ContinuesTagIs(tag);
    }
  }

  lemma LifeCycleOctets()
    ensures MinimalOctets(0x9F70) == [0x9F, 0x70]
  {
    assert MinimalOctets(0x9F70) == MinimalOctets(0x9F) + [0x70];
  }

  lemma OneOctet(tag: byte)
    ensures MinimalOctets(tag) == [tag]
  {
  }

  lemma ShortJoins(xs: seq<Tlv>, ys: seq<Tlv>)
    requires Short(xs) && Short(ys)
    ensures Short(xs + ys)
  {
  }

  lemma {:induction false} ModulesAreShort(ms: seq<bytes>)
    requires forall m :: m in ms ==> |m| <= 255
    ensures Short(ModuleObjects(ms))
  {
    hide Short;
    if ms == [] {
      NoneIsShort();
    } else {
      ModulesAreShort(ms[1..]);
      OneIsShort(0x84, ms[0]);
      ShortJoins([Object(0x84, ms[0])], ModuleObjects(ms[1..]));
      assert ModuleObjects(ms) == [Object(0x84, ms[0])] + ModuleObjects(ms[1..]);
    }
  }

  lemma NoneIsShort()
    ensures Short([])
  {
  }

  lemma FieldsAreShort(e: Entry)
    requires Sane(e)
    ensures Short(FieldsOf(e)) && |FieldsOf(e)| <= 64
  {
    hide Short, ModuleObjects;
    var a, b, c := Object(0x4F, e.aid), Object(0x9F70, [e.lifeCycle]), Object(0xC5, e.privileges);
    OneIsShort(0x4F, e.aid);
    OneIsShort(0x9F70, [e.lifeCycle]);
    OneIsShort(0xC5, e.privileges);
    ShortJoins([a], [b]);
    ShortJoins([a] + [b], [c]);
    assert [a] + [b] + [c] == [a, b, c];
    OptionalIsShort(0xC4, e.elf);
    OptionalIsShort(0xCC, e.associatedSd);
    ModulesAreShort(e.modules);
    var elf, mods, sd := Optional(0xC4, e.elf), ModuleObjects(e.modules), Optional(0xCC, e.associatedSd);
    ShortJoins(mods, sd);
    ShortJoins(elf, mods + sd);
    ShortJoins([a, b, c], elf + (mods + sd));
  }

  lemma OptionalIsShort(tag: nat, value: Option<bytes>)
    requires tag == 0xC4 || tag == 0xCC
    requires value.Some? ==> |value.value| <= 255
    ensures Short(Optional(tag, value)) && |Optional(tag, value)| <= 1
  {
    hide Short;
    NoneIsShort();
    if value.Some? {
      OneIsShort(tag, value.value);
    }
  }

  lemma {:induction false} ShortSize(ts: seq<Tlv>)
    requires Short(ts)
    ensures |EncodingOf(ts)| <= 260 * |ts|
  {
    if ts != [] {
      ShortSize(ts[1..]);
      assert ts[0] in ts;
      ShortObject(ts[0]);
    }
  }

  lemma ShortObject(t: Tlv)
    requires |t.value| <= 255 && (t.tag < 0x100 || t.tag == 0x9F70)
    ensures |ObjectBytes(t)| <= 260
  {
    assert MinimalOctets(0x9F70) == MinimalOctets(0x9F) + [0x70];
  }

  /** One entry. */
  function Template(e: Entry): (t: Tlv)
    requires Sane(e)
    ensures t.tag == 0xE3 && t.value == EncodingOf(FieldsOf(e))
  {
    FieldsAreShort(e);
    ShortSize(FieldsOf(e));
    Object(0xE3, EncodingOf(FieldsOf(e)))
  }

  predicate AllSane(es: seq<Entry>) {
    |es| <= 64 && forall e :: e in es ==> Sane(e)
  }

  function Templates(es: seq<Entry>): (ts: seq<Tlv>)
    requires forall e :: e in es ==> Sane(e)
    ensures |ts| == |es|
  {
    if es == [] then [] else [Template(es[0])] + Templates(es[1..])
  }

  /** What GET STATUS returns of these entries, in all. */
  function RegistryBytes(es: seq<Entry>): bytes
    requires AllSane(es)
  {
    EncodingOf(Templates(es))
  }

  // ---- Reading it back ----

  lemma {:induction false} FindSplits(xs: seq<Tlv>, ys: seq<Tlv>, tag: nat)
    ensures Find(xs + ys, tag) == if Find(xs, tag).Some? then Find(xs, tag) else Find(ys, tag)
    ensures FindAll(xs + ys, tag) == FindAll(xs, tag) + FindAll(ys, tag)
  {
    if xs == [] {
      assert xs + ys == ys;
    } else {
      assert (xs + ys)[0] == xs[0] && (xs + ys)[1..] == xs[1..] + ys;
      FindSplits(xs[1..], ys, tag);
      var head := if xs[0].tag == tag then [xs[0].value] else [];
      assert head + (FindAll(xs[1..], tag) + FindAll(ys, tag)) == (head + FindAll(xs[1..], tag)) + FindAll(ys, tag);
    }
  }

  lemma {:induction false} ModulesFound(ms: seq<bytes>, tag: nat)
    requires forall m :: m in ms ==> |m| <= 255
    ensures tag != 0x84 ==> Find(ModuleObjects(ms), tag) == None
    ensures FindAll(ModuleObjects(ms), tag) == if tag == 0x84 then ms else []
  {
    if ms != [] {
      ModulesFound(ms[1..], tag);
      assert ModuleObjects(ms)[1..] == ModuleObjects(ms[1..]);
      assert [ms[0]] + ms[1..] == ms;
    }
  }

  lemma OptionalFound(at: nat, value: Option<bytes>, tag: nat)
    requires at < 0x1_0000 && (value.Some? ==> |value.value| < 0x1_0000)
    ensures Find(Optional(at, value), tag) == if at == tag then value else None
    ensures at != tag ==> FindAll(Optional(at, value), tag) == []
  {
  }

  lemma HeadFound(a: Tlv, b: Tlv, c: Tlv, tag: nat)
    ensures Find([a, b, c], tag) == if a.tag == tag then Some(a.value) else if b.tag == tag then Some(b.value)
                                    else if c.tag == tag then Some(c.value) else None
    ensures a.tag != tag && b.tag != tag && c.tag != tag ==> FindAll([a, b, c], tag) == []
  {
    assert [a, b, c][1..] == [b, c] && [b, c][1..] == [c] && [c][1..] == [];
    assert Find([c], tag) == if c.tag == tag then Some(c.value) else Find([], tag);
    assert Find([b, c], tag) == if b.tag == tag then Some(b.value) else Find([c], tag);
    assert FindAll([c], tag) == (if c.tag == tag then [c.value] else []) + FindAll([], tag);
    assert FindAll([b, c], tag) == (if b.tag == tag then [b.value] else []) + FindAll([c], tag);
  }

  lemma FieldFound(e: Entry, tag: nat)
    requires Sane(e)
    ensures Find(FieldsOf(e), tag)
         == if tag == 0x4F then Some(e.aid) else if tag == 0x9F70 then Some([e.lifeCycle])
            else if tag == 0xC5 then Some(e.privileges) else if tag == 0xC4 then e.elf
            else if tag == 0x84 then Find(FieldsOf(e), tag) else if tag == 0xCC then e.associatedSd else None
    ensures tag == 0x84 ==> FindAll(FieldsOf(e), tag) == e.modules
  {
    hide Find, FindAll, ModuleObjects, Optional;
    var head := [Object(0x4F, e.aid), Object(0x9F70, [e.lifeCycle]), Object(0xC5, e.privileges)];
    var elf, mods, sd := Optional(0xC4, e.elf), ModuleObjects(e.modules), Optional(0xCC, e.associatedSd);
    FindSplits(head, elf + (mods + sd), tag);
    FindSplits(elf, mods + sd, tag);
    FindSplits(mods, sd, tag);
    HeadFound(head[0], head[1], head[2], tag);
    OptionalFound(0xC4, e.elf, tag);
    OptionalFound(0xCC, e.associatedSd, tag);
    ModulesFound(e.modules, tag);
    assert [] + ([] + (e.modules + [])) == e.modules;
  }

  /** Every field of an entry is read back from where the card put it. */
  lemma EntryReads(e: Entry)
    requires Sane(e)
    ensures WholeEntry(FieldsOf(e)) == e && EntryOf(FieldsOf(e)) == Capped(e)
    ensures TlvsOf(Template(e).value) == Ok(FieldsOf(e))
  {
    hide FieldsOf, Find, FindAll, TlvsOf;
    FieldFound(e, 0x4F);
    FieldFound(e, 0x9F70);
    FieldFound(e, 0xC5);
    FieldFound(e, 0xC4);
    FieldFound(e, 0xCC);
    FieldFound(e, 0x84);
    assert e.privileges[..3] == e.privileges;
    ModulesKept(FieldsOf(e));
    FieldsAreShort(e);
    ParseEncode(FieldsOf(e));
  }

  lemma {:induction false} EntriesRead(es: seq<Entry>)
    requires forall e :: e in es ==> Sane(e)
    ensures WholeEntriesIn(Templates(es)) == Ok(es) && EntriesIn(Templates(es)) == Ok(CapAll(es))
  {
    hide TlvsOf, FieldsOf, EntryOf, WholeEntry, Capped, Sane;
    if es != [] {
      assert es[0] in es;
      var rest := es[1..];
      forall e | e in rest
        ensures Sane(e)
      {
        assert e in es;
      }
      EntriesRead(rest);
      EntryReads(es[0]);
      assert Templates(es)[1..] == Templates(rest);
      assert [es[0]] + rest == es;
      assert [Capped(es[0])] + CapAll(rest) == CapAll(es);
    }
  }

  lemma {:induction false} TemplatesWellFormed(es: seq<Entry>)
    requires forall e :: e in es ==> Sane(e)
    ensures forall t :: t in Templates(es) ==> WellFormed(t)
  {
    hide Sane, FieldsOf;
    if es != [] {
      assert MinimalOctets(0xE3) == [0xE3];
      TemplatesWellFormed(es[1..]);
    }
  }

  /** A registry of up to 64 entries reads back entry for entry, but for the modules beyond the sixteenth of each. */
  lemma RegistryReads(es: seq<Entry>)
    requires AllSane(es)
    ensures TlvsOf(RegistryBytes(es)).Ok?
    ensures WholeEntriesOf(RegistryBytes(es)) == Ok(es) && EntriesOf(RegistryBytes(es)) == Ok(CapAll(es))
  {
    hide TlvsOf, Templates, Sane, EncodingOf;
    TemplatesWellFormed(es);
    ParseEncode(Templates(es));
    EntriesRead(es);
  }

  // ---- Which entries belong where ----

  predicate Named(e: Entry) {
    5 <= |e.aid| <= 16
  }

  /** The first privilege bit: a security domain. */
  predicate IsDomain(e: Entry) {
    e.privileges != [] && And(e.privileges[0], 0x80) != 0
  }

  predicate ForDomains(scope: Scope, isd: bytes, e: Entry) {
    match scope
    case IsdScope => true
    case AppScope => e.aid != isd && Named(e) && IsDomain(e)
    case ElfScope => false
  }

  predicate ForApplets(scope: Scope, isd: bytes, e: Entry) {
    scope.AppScope? && e.aid != isd && Named(e) && !IsDomain(e)
  }

  predicate ForElfs(scope: Scope, e: Entry) {
    scope.ElfScope? && Named(e)
  }

  function Select(es: seq<Entry>, p: Entry -> bool): seq<Entry> {
    if es == [] then [] else (if p(es[0]) then [es[0]] else []) + Select(es[1..], p)
  }

  function Domains(scope: Scope, isd: bytes, es: seq<Entry>): seq<Entry> {
    Select(es, e => ForDomains(scope, isd, e))
  }

  function Applets(scope: Scope, isd: bytes, es: seq<Entry>): seq<Entry> {
    Select(es, e => ForApplets(scope, isd, e))
  }

  function Elfs(scope: Scope, es: seq<Entry>): seq<Entry> {
    Select(es, e => ForElfs(scope, e))
  }

  // ---- What is said of them ----

  /** An AID that the card gave, if it is one. */
  predicate GivenAid(v: Option<bytes>, aid: Option<bytes>) {
    aid == if v.Some? && 5 <= |v.value| <= 16 then v else None
  }

  /** Or the issuer security domain. */
  predicate GivenOrIsd(v: Option<bytes>, isd: bytes, aid: bytes) {
    aid == if v.Some? && 5 <= |v.value| <= 16 then v.value else isd
  }

  predicate DomainOf(scope: Scope, isd: bytes, e: Entry, d: DomainEntry) {
    && d.lifeCycle == e.lifeCycle && d.privileges == e.privileges
    && d.aid == (if 5 <= |e.aid| <= 16 then e.aid else isd)
    && (if scope.IsdScope? then d.parent == None else GivenAid(e.associatedSd, d.parent))
  }

  predicate AppletOf(isd: bytes, e: Entry, a: AppletEntry) {
    && a.aid == e.aid && a.lifeCycle == e.lifeCycle && a.privileges == e.privileges
    && GivenOrIsd(e.associatedSd, isd, a.domain) && GivenAid(e.elf, a.elf)
  }

  function SelectAids(ms: seq<bytes>): seq<bytes> {
    if ms == [] then [] else (if 5 <= |ms[0]| <= 16 then [ms[0]] else []) + SelectAids(ms[1..])
  }

  predicate FileOf(isd: bytes, e: Entry, f: ElfEntry) {
    && f.aid == e.aid && f.lifeCycle == e.lifeCycle
    && GivenOrIsd(e.associatedSd, isd, f.domain) && f.modules == SelectAids(e.modules)
  }

  /** `after` is `before` and then what belongs there, in order, as far as there is room, each entry as it should be. */
  predicate Lists<T(==, !new)>(before: seq<T>, after: seq<T>, belong: seq<Entry>, room: nat, as_: (Entry, T) -> bool) {
    && |before| <= room
    && |after| == (if |before| + |belong| <= room then |before| + |belong| else room)
    && before <= after
    && forall j :: |before| <= j < |after| ==> as_(belong[j - |before|], after[j])
  }

  lemma ListsNothing<T(!new)>(before: seq<T>, room: nat, as_: (Entry, T) -> bool)
    requires |before| <= room
    ensures Lists(before, before, [], room, as_)
  {
  }

  lemma ListsOne<T(!new)>(before: seq<T>, x: T, after: seq<T>, e: Entry, belong: seq<Entry>, room: nat,
                          as_: (Entry, T) -> bool)
    requires |before| < room && as_(e, x) && Lists(before + [x], after, belong, room, as_)
    ensures Lists(before, after, [e] + belong, room, as_)
  {
    forall j | |before| <= j < |after|
      ensures as_(([e] + belong)[j - |before|], after[j])
    {
      if j == |before| {
        assert after[j] == (before + [x])[j];
      } else {
        assert ([e] + belong)[j - |before|] == belong[j - |before + [x]|];
      }
    }
    assert before <= before + [x];
  }

  lemma ListsFull<T(!new)>(before: seq<T>, after: seq<T>, e: Entry, belong: seq<Entry>, room: nat,
                           as_: (Entry, T) -> bool)
    requires |before| == room && Lists(before, after, belong, room, as_)
    ensures Lists(before, after, [e] + belong, room, as_)
  {
  }

  /** What a scope makes of the three lists. */
  predicate Listed(scope: Scope, isd: bytes, before: CardInventory, after: CardInventory, es: seq<Entry>) {
    && Lists(before.domains, after.domains, Domains(scope, isd, es), 8, (e, d) => DomainOf(scope, isd, e, d))
    && Lists(before.applets, after.applets, Applets(scope, isd, es), 48, (e, a) => AppletOf(isd, e, a))
    && Lists(before.elfs, after.elfs, Elfs(scope, es), 32, (e, f) => FileOf(isd, e, f))
  }

  predicate Roomy(inv: CardInventory) {
    |inv.domains| <= 8 && |inv.applets| <= 48 && |inv.elfs| <= 32
  }

  function Surplus(have: nat, more: nat, room: nat): nat {
    if have + more <= room then 0 else have + more - room
  }

  /**
   After the entries of a scope each list is the old one and the images of exactly the entries that belong there,
   in order, up to its room; what found no room has been counted.
   */
  lemma {:induction false} StoredExactly(scope: Scope, isd: bytes, inv: CardInventory, es: seq<Entry>)
    requires Roomy(inv)
    ensures var (inv', dropped) := StoreAll(scope, isd, inv, es);
            && Listed(scope, isd, inv, inv', es) && Roomy(inv')
            && dropped == Surplus(|inv.domains|, |Domains(scope, isd, es)|, 8)
                          + Surplus(|inv.applets|, |Applets(scope, isd, es)|, 48)
                          + Surplus(|inv.elfs|, |Elfs(scope, es)|, 32)
    decreases |es|
  {
    hide Store, Lists, ForDomains, ForApplets, ForElfs, DomainOf, AppletOf, FileOf;
    if es == [] {
      ListsNothing(inv.domains, 8, (e, d) => DomainOf(scope, isd, e, d));
      ListsNothing(inv.applets, 48, (e, a) => AppletOf(isd, e, a));
      ListsNothing(inv.elfs, 32, (e, f) => FileOf(isd, e, f));
    } else {
      var (inv1, kept) := Store(scope, isd, inv, es[0]);
      StoresOne(scope, isd, inv, es[0]);
      StoredExactly(scope, isd, inv1, es[1..]);
      var inv' := StoreAll(scope, isd, inv1, es[1..]).0;
      ListedMore(scope, isd, inv, inv1, inv', es);
    }
  }

  /** One entry goes to the end of the one list it belongs to, if there is room. */
  predicate StoredOne(scope: Scope, isd: bytes, inv: CardInventory, inv1: CardInventory, kept: bool, e: Entry) {
    if ForDomains(scope, isd, e) then
      && inv1.applets == inv.applets && inv1.elfs == inv.elfs && (kept <==> |inv.domains| < 8)
      && (if kept then |inv1.domains| == |inv.domains| + 1
          && inv1.domains == inv.domains + [inv1.domains[|inv.domains|]]
                       && DomainOf(scope, isd, e, inv1.domains[|inv.domains|])
          else inv1.domains == inv.domains)
    else if ForApplets(scope, isd, e) then
      && inv1.domains == inv.domains && inv1.elfs == inv.elfs && (kept <==> |inv.applets| < 48)
      && (if kept then |inv1.applets| == |inv.applets| + 1
          && inv1.applets == inv.applets + [inv1.applets[|inv.applets|]]
                       && AppletOf(isd, e, inv1.applets[|inv.applets|])
          else inv1.applets == inv.applets)
    else if ForElfs(scope, e) then
      && inv1.domains == inv.domains && inv1.applets == inv.applets && (kept <==> |inv.elfs| < 32)
      && (if kept then |inv1.elfs| == |inv.elfs| + 1 && inv1.elfs == inv.elfs + [inv1.elfs[|inv.elfs|]]
                       && FileOf(isd, e, inv1.elfs[|inv.elfs|])
          else inv1.elfs == inv.elfs)
    else inv1 == inv && kept
  }

  lemma StoresOne(scope: Scope, isd: bytes, inv: CardInventory, e: Entry)
    requires Roomy(inv)
    ensures var (inv1, kept) := Store(scope, isd, inv, e);
            StoredOne(scope, isd, inv, inv1, kept, e) && Roomy(inv1)
    ensures !(ForDomains(scope, isd, e) && ForApplets(scope, isd, e))
    ensures !(ForDomains(scope, isd, e) && ForElfs(scope, e)) && !(ForApplets(scope, isd, e) && ForElfs(scope, e))
  {
    if e.privileges != [] {
      BitIsMask(e.privileges[0], 7);
      assert Pow2(7) == 0x80;
    }
    AidsSelected(e.modules);
  }

  lemma {:induction false} AidsSelected(ms: seq<bytes>)
    ensures ValidAids(ms) == SelectAids(ms)
  {
    if ms != [] {
      AidsSelected(ms[1..]);
    }
  }

  lemma SelectHead(es: seq<Entry>, p: Entry -> bool)
    requires es != []
    ensures Select(es, p) == if p(es[0]) then [es[0]] + Select(es[1..], p) else Select(es[1..], p)
  {
  }

  lemma ListedMore(scope: Scope, isd: bytes, inv: CardInventory, inv1: CardInventory, inv': CardInventory,
                   es: seq<Entry>)
    requires es != [] && Roomy(inv)
    requires exists kept :: StoredOne(scope, isd, inv, inv1, kept, es[0])
    requires Listed(scope, isd, inv1, inv', es[1..])
    requires !(ForDomains(scope, isd, es[0]) && ForApplets(scope, isd, es[0]))
    requires !(ForDomains(scope, isd, es[0]) && ForElfs(scope, es[0]))
    requires !(ForApplets(scope, isd, es[0]) && ForElfs(scope, es[0]))
    ensures Listed(scope, isd, inv, inv', es)
    ensures |Domains(scope, isd, es)| == |Domains(scope, isd, es[1..])| + if ForDomains(scope, isd, es[0]) then 1 else 0
    ensures |Applets(scope, isd, es)| == |Applets(scope, isd, es[1..])| + if ForApplets(scope, isd, es[0]) then 1 else 0
    ensures |Elfs(scope, es)| == |Elfs(scope, es[1..])| + if ForElfs(scope, es[0]) then 1 else 0
  {
    hide Lists, Select, ForDomains, ForApplets, ForElfs, DomainOf, AppletOf, FileOf;
    var e, rest := es[0], es[1..];
    SelectHead(es, e => ForDomains(scope, isd, e));
    SelectHead(es, e => ForApplets(scope, isd, e));
    SelectHead(es, e => ForElfs(scope, e));
    if ForDomains(scope, isd, e) {
      if |inv.domains| < 8 {
        ListsOne(inv.domains, inv1.domains[|inv.domains|], inv'.domains, e, Domains(scope, isd, rest), 8,
                 (e, d) => DomainOf(scope, isd, e, d));
      } else {
        ListsFull(inv.domains, inv'.domains, e, Domains(scope, isd, rest), 8, (e, d) => DomainOf(scope, isd, e, d));
      }
    } else if ForApplets(scope, isd, e) {
      if |inv.applets| < 48 {
        ListsOne(inv.applets, inv1.applets[|inv.applets|], inv'.applets, e, Applets(scope, isd, rest), 48,
                 (e, a) => AppletOf(isd, e, a));
      } else {
        ListsFull(inv.applets, inv'.applets, e, Applets(scope, isd, rest), 48, (e, a) => AppletOf(isd, e, a));
      }
    } else if ForElfs(scope, e) {
      if |inv.elfs| < 32 {
        ListsOne(inv.elfs, inv1.elfs[|inv.elfs|], inv'.elfs, e, Elfs(scope, rest), 32, (e, f) => FileOf(isd, e, f));
      } else {
        ListsFull(inv.elfs, inv'.elfs, e, Elfs(scope, rest), 32, (e, f) => FileOf(isd, e, f));
      }
    }
  }

  // ---- A whole card ----

  const NOTHING: CardInventory := CardInventory([], [], [])

  lemma ScopeAbsorbs(scope: Scope, isd: bytes, inv: CardInventory, es: seq<Entry>)
    requires AllSane(es)
    ensures Absorbed(scope, isd, inv, RegistryBytes(es), false, false)
         == Ok((StoreAll(scope, isd, inv, CapAll(es)).0, StoreAll(scope, isd, inv, CapAll(es)).1 > 0))
  {
    hide RegistryBytes, EntriesOf, WholeEntriesOf, StoreAll, CapAll;
    RegistryReads(es);
  }

  /**
   The inventory of a card that keeps these entries, however it cuts its registries into pages. Scope after scope,
   each list takes the images of exactly the entries that belong there, in order, up to 8, 48 and 32; and it is
   marked truncated if and only if some found no room.
   */
  lemma InventoryOfCard(isd: bytes, isdEs: seq<Entry>, appEs: seq<Entry>, elfEs: seq<Entry>,
                        isdParts: seq<bytes>, appParts: seq<bytes>, elfParts: seq<bytes>)
    returns (inv1: CardInventory, inv2: CardInventory, inv: CardInventory)
    requires 5 <= |isd| <= 16 && AllSane(isdEs) && AllSane(appEs) && AllSane(elfEs)
    requires CutsInto(RegistryBytes(isdEs), isdParts) && CutsInto(RegistryBytes(appEs), appParts)
    requires CutsInto(RegistryBytes(elfEs), elfParts)
    ensures Listed(IsdScope, isd, NOTHING, inv1, CapAll(isdEs)) && Listed(AppScope, isd, inv1, inv2, CapAll(appEs))
    ensures Listed(ElfScope, isd, inv2, inv, CapAll(elfEs))
    ensures var truncated := || |isdEs| + |Domains(AppScope, isd, CapAll(appEs))| > 8
                             || |Applets(AppScope, isd, CapAll(appEs))| > 48
                             || |Elfs(ElfScope, CapAll(elfEs))| > 32;
            InventoryOf(isd, Cut(isdParts) + (Cut(appParts) + (Cut(elfParts) + [])), false) == Ok((inv, truncated))
  {
    hide Listed, StoreAll, Absorbed, CapAll, RegistryBytes, CutsInto, Cut, InventoryOf, Domains, Applets, Elfs, AllSane;
    PagingDoesNotMatter(isd, RegistryBytes(isdEs), RegistryBytes(appEs), RegistryBytes(elfEs), isdParts, appParts,
                        elfParts);
    ScopeAbsorbs(IsdScope, isd, NOTHING, isdEs);
    inv1 := StoreAll(IsdScope, isd, NOTHING, CapAll(isdEs)).0;
    StoredExactly(IsdScope, isd, NOTHING, CapAll(isdEs));
    ScopeAbsorbs(AppScope, isd, inv1, appEs);
    inv2 := StoreAll(AppScope, isd, inv1, CapAll(appEs)).0;
    StoredExactly(AppScope, isd, inv1, CapAll(appEs));
    ScopeAbsorbs(ElfScope, isd, inv2, elfEs);
    inv := StoreAll(ElfScope, isd, inv2, CapAll(elfEs)).0;
    StoredExactly(ElfScope, isd, inv2, CapAll(elfEs));
    IsdBelongs(isd, CapAll(isdEs));
    AppBelongs(isd, CapAll(appEs));
    ElfBelongs(isd, CapAll(elfEs));
    Lengths(IsdScope, isd, NOTHING, inv1, CapAll(isdEs));
    Lengths(AppScope, isd, inv1, inv2, CapAll(appEs));
    CapKeepsCount(isdEs);
  }

  lemma CapKeepsCount(es: seq<Entry>)
    ensures |CapAll(es)| == |es|
  {
  }

  lemma {:induction false} SelectAll(es: seq<Entry>, p: Entry -> bool)
    requires forall e :: p(e)
    ensures Select(es, p) == es
  {
    if es != [] {
      SelectAll(es[1..], p);
      assert [es[0]] + es[1..] == es;
    }
  }

  lemma {:induction false} SelectNone(es: seq<Entry>, p: Entry -> bool)
    requires forall e :: !p(e)
    ensures Select(es, p) == []
  {
    if es != [] {
      SelectNone(es[1..], p);
    }
  }

  lemma IsdBelongs(isd: bytes, es: seq<Entry>)
    ensures Domains(IsdScope, isd, es) == es && Applets(IsdScope, isd, es) == [] && Elfs(IsdScope, es) == []
  {
    SelectAll(es, e => ForDomains(IsdScope, isd, e));
    SelectNone(es, e => ForApplets(IsdScope, isd, e));
    SelectNone(es, e => ForElfs(IsdScope, e));
  }

  lemma AppBelongs(isd: bytes, es: seq<Entry>)
    ensures Elfs(AppScope, es) == []
  {
    SelectNone(es, e => ForElfs(AppScope, e));
  }

  lemma ElfBelongs(isd: bytes, es: seq<Entry>)
    ensures Domains(ElfScope, isd, es) == [] && Applets(ElfScope, isd, es) == []
  {
    SelectNone(es, e => ForDomains(ElfScope, isd, e));
    SelectNone(es, e => ForApplets(ElfScope, isd, e));
  }

  lemma Lengths(scope: Scope, isd: bytes, before: CardInventory, after: CardInventory, es: seq<Entry>)
    requires Listed(scope, isd, before, after, es)
    ensures |after.domains|
         == |before.domains| + |Domains(scope, isd, es)| - Surplus(|before.domains|, |Domains(scope, isd, es)|, 8)
    ensures |after.applets|
         == |before.applets| + |Applets(scope, isd, es)| - Surplus(|before.applets|, |Applets(scope, isd, es)|, 48)
    ensures |after.elfs| == |before.elfs| + |Elfs(scope, es)| - Surplus(|before.elfs|, |Elfs(scope, es)|, 32)
  {
    hide Domains, Applets, Elfs;
  }
}
