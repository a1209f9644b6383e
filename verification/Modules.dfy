/**
 The module lists of an inventory. Modules beyond the sixteenth of a load file are dropped without the
 inventory being marked truncated; this says exactly when one is missing.
 */
module Modules {
  import opened Bytes
  import opened Aid
  import opened Wrappers
  import opened TlvCodec
  import opened Registry
  import opened CardStatus
  import opened Inventory

  /** The load files of a scope that find room in a list. */
  function Kept(es: seq<Entry>, room: nat): seq<Entry>
    decreases |es|
  {
    if es == [] then []
    else if !IsAid(es[0].aid) then Kept(es[1..], room)
    else if room == 0 then []
    else [es[0]] + Kept(es[1..], room - 1)
  }

  function ElfOf(isd: bytes, e: Entry): ElfEntry {
    ElfEntry(e.aid, e.lifeCycle, AidOr(e.associatedSd, isd), ValidAids(e.modules))
  }

  function ElfsOf(isd: bytes, es: seq<Entry>): seq<ElfEntry> {
    if es == [] then [] else [ElfOf(isd, es[0])] + ElfsOf(isd, es[1..])
  }

  /** A valid module AID comes after the sixteenth module. */
  predicate Loses(e: Entry) {
    |e.modules| > 16 && ValidAids(e.modules[16..]) != []
  }

  predicate NoneLoses(es: seq<Entry>) {
    forall i :: 0 <= i < |es| ==> !Loses(es[i])
  }

  // ---- One load file ----

  lemma ValidAidsStep(ms: seq<bytes>)
    ensures ValidAids(ms) == if ms == [] then [] else (if IsAid(ms[0]) then [ms[0]] else []) + ValidAids(ms[1..])
  {
  }

  lemma {:induction false} ValidAidsAppend(xs: seq<bytes>, ys: seq<bytes>)
    ensures ValidAids(xs + ys) == ValidAids(xs) + ValidAids(ys)
  {
    hide IsAid, ValidAids;
    ValidAidsStep(xs);
    ValidAidsStep(xs + ys);
    if xs == [] {
      assert xs + ys == ys && [] + ValidAids(ys) == ValidAids(ys);
    } else {
      var head, tail := if IsAid(xs[0]) then [xs[0]] else [], xs[1..];
      ValidAidsAppend(tail, ys);
      assert (xs + ys)[0] == xs[0] && (xs + ys)[1..] == tail + ys;
      assert head + (ValidAids(tail) + ValidAids(ys)) == (head + ValidAids(tail)) + ValidAids(ys);
    }
  }

  /** Capping changes what is listed of a load file exactly when a valid module is beyond the cap. */
  lemma CappedDiffers(isd: bytes, e: Entry)
    ensures ElfOf(isd, Capped(e)) == ElfOf(isd, e) <==> !Loses(e)
  {
    if |e.modules| > 16 {
      var front, back := e.modules[..16], e.modules[16..];
      assert e.modules == front + back;
      ValidAidsAppend(front, back);
      if ValidAids(back) != [] {
        assert |ValidAids(e.modules)| > |ValidAids(front)|;
      }
    }
  }

  // ---- A scope ----

  /** Outside the load-file scope modules play no part. */
  lemma {:induction false} OtherScopesSame(scope: Scope, isd: bytes, inv: CardInventory, es: seq<Entry>)
    requires !scope.ElfScope?
    ensures StoreAll(scope, isd, inv, CapAll(es)) == StoreAll(scope, isd, inv, es)
    ensures StoreAll(scope, isd, inv, es).0.elfs == inv.elfs
    decreases |es|
  {
    if es != [] {
      assert CapAll(es)[1..] == CapAll(es[1..]);
      OtherScopesSame(scope, isd, Store(scope, isd, inv, es[0]).0, es[1..]);
    }
  }

  /** The load-file scope lists the entries that find room, and leaves the other lists alone. */
  lemma {:induction false} ElfScopeLists(isd: bytes, inv: CardInventory, es: seq<Entry>)
    requires |inv.elfs| <= 32
    ensures StoreAll(ElfScope, isd, inv, es).0 == inv.(elfs := inv.elfs + ElfsOf(isd, Kept(es, 32 - |inv.elfs|)))
    decreases |es|
  {
    hide ElfOf, AidOr, ValidAids, ValidAid, Store, Eligible, IsAid, Kept, ElfsOf;
    KeptStep(es, 32 - |inv.elfs|);
    if es == [] {
      NoElfs(isd);
      assert inv.elfs + [] == inv.elfs;
    } else {
      var (inv1, kept) := Store(ElfScope, isd, inv, es[0]);
      StoreOneElf(isd, inv, es[0]);
      ElfScopeLists(isd, inv1, es[1..]);
      var room := 32 - |inv.elfs|;
      if IsAid(es[0].aid) && room > 0 {
        var rest := Kept(es[1..], room - 1);
        ElfsCons(isd, es[0], rest);
        assert inv.elfs + ([ElfOf(isd, es[0])] + ElfsOf(isd, rest))
          == (inv.elfs + [ElfOf(isd, es[0])]) + ElfsOf(isd, rest);
      } else if IsAid(es[0].aid) {
        KeptNothing(es[1..]);
        NoElfs(isd);
      }
    }
  }

  lemma KeptStep(es: seq<Entry>, room: nat)
    ensures Kept(es, room)
         == if es == [] then [] else if !IsAid(es[0].aid) then Kept(es[1..], room)
            else if room == 0 then [] else [es[0]] + Kept(es[1..], room - 1)
  {
  }

  lemma ElfsCons(isd: bytes, e: Entry, es: seq<Entry>)
    ensures ElfsOf(isd, [e] + es) == [ElfOf(isd, e)] + ElfsOf(isd, es)
  {
    assert ([e] + es)[1..] == es;
  }

  lemma NoElfs(isd: bytes)
    ensures ElfsOf(isd, []) == []
  {
  }

  lemma StoreOneElf(isd: bytes, inv: CardInventory, e: Entry)
    ensures Store(ElfScope, isd, inv, e).0
         == if IsAid(e.aid) && |inv.elfs| != 32 then inv.(elfs := inv.elfs + [ElfOf(isd, e)]) else inv
  {
  }

  lemma {:induction false} KeptNothing(es: seq<Entry>)
    ensures Kept(es, 0) == []
  {
    if es != [] {
      KeptNothing(es[1..]);
    }
  }

  /** As many entries are dropped with capped modules as with whole ones. */
  lemma {:induction false} SameDropped(isd: bytes, inv: CardInventory, inv': CardInventory, es: seq<Entry>)
    requires |inv.elfs| == |inv'.elfs|
    ensures StoreAll(ElfScope, isd, inv, CapAll(es)).1 == StoreAll(ElfScope, isd, inv', es).1
    decreases |es|
  {
    if es != [] {
      assert CapAll(es)[1..] == CapAll(es[1..]);
      SameDropped(isd, Store(ElfScope, isd, inv, Capped(es[0])).0, Store(ElfScope, isd, inv', es[0]).0, es[1..]);
    }
  }

  lemma {:induction false} KeptCapped(es: seq<Entry>, room: nat)
    ensures Kept(CapAll(es), room) == CapAll(Kept(es, room))
    decreases |es|
  {
    if es != [] {
      assert CapAll(es)[1..] == CapAll(es[1..]);
      if !IsAid(es[0].aid) {
        KeptCapped(es[1..], room);
      } else if room > 0 {
        KeptCapped(es[1..], room - 1);
        var rest := Kept(es[1..], room - 1);
        assert CapAll([es[0]] + rest) == [Capped(es[0])] + CapAll(rest);
      }
    }
  }

  lemma {:induction false} ElfsDiffer(isd: bytes, es: seq<Entry>)
    ensures |ElfsOf(isd, CapAll(es))| == |ElfsOf(isd, es)| == |es|
    ensures ElfsOf(isd, CapAll(es)) == ElfsOf(isd, es) <==> NoneLoses(es)
  {
    hide ElfOf, Loses, Capped;
    if es != [] {
      var tail := es[1..];
      assert CapAll(es)[1..] == CapAll(tail) && CapAll(es)[0] == Capped(es[0]);
      ElfsDiffer(isd, tail);
      CappedDiffers(isd, es[0]);
      var a, b := ElfsOf(isd, CapAll(es)), ElfsOf(isd, es);
      assert a[0] == ElfOf(isd, Capped(es[0])) && a[1..] == ElfsOf(isd, CapAll(tail));
      assert b[0] == ElfOf(isd, es[0]) && b[1..] == ElfsOf(isd, tail);
      assert a == [a[0]] + a[1..] && b == [b[0]] + b[1..];
      assert NoneLoses(es) <==> !Loses(es[0]) && NoneLoses(tail) by {
        assert forall i :: 0 <= i < |tail| ==> tail[i] == es[i + 1];
        assert forall i :: 0 < i < |es| ==> es[i] == tail[i - 1];
      }
    }
  }

  // ---- The inventory ----

  lemma OtherScopesAbsorb(scope: Scope, isd: bytes, inv: CardInventory, data: bytes, truncated: bool)
    requires !scope.ElfScope?
    ensures Absorbed(scope, isd, inv, data, truncated, false) == Absorbed(scope, isd, inv, data, truncated, true)
    ensures var r := Absorbed(scope, isd, inv, data, truncated, true); r.Ok? ==> r.value.0.elfs == inv.elfs
  {
    hide TlvsOf, WholeEntriesIn, EntriesIn, Store;
    if TlvsOf(data).Ok? {
      EntriesAreCapped(TlvsOf(data).value);
    }
    if WholeEntriesOf(data).Ok? {
      OtherScopesSame(scope, isd, inv, WholeEntriesOf(data).value);
    }
  }

  lemma ElfScopeAbsorbs(isd: bytes, inv: CardInventory, data: bytes, truncated: bool)
    requires inv.elfs == []
    ensures var capped, whole :=
              Absorbed(ElfScope, isd, inv, data, truncated, false), Absorbed(ElfScope, isd, inv, data, truncated, true);
            && (whole.Err? ==> capped == whole)
            && (whole.Ok? ==>
                  && capped.Ok? && WholeEntriesOf(data).Ok?
                  && capped.value.1 == whole.value.1
                  && capped.value.0 == whole.value.0.(elfs := capped.value.0.elfs)
                  && (capped.value.0 == whole.value.0 <==> NoneLoses(Kept(WholeEntriesOf(data).value, 32))))
  {
    hide TlvsOf, WholeEntriesIn, EntriesIn, Store, Kept, Loses, ElfsOf, Capped;
    if TlvsOf(data).Ok? {
      EntriesAreCapped(TlvsOf(data).value);
    }
    if WholeEntriesOf(data).Ok? {
      var es := WholeEntriesOf(data).value;
      var kept := Kept(es, 32);
      ElfScopeLists(isd, inv, es);
      ElfScopeLists(isd, inv, CapAll(es));
      SameDropped(isd, inv, inv, es);
      KeptCapped(es, 32);
      ElfsDiffer(isd, kept);
      assert [] + ElfsOf(isd, kept) == ElfsOf(isd, kept) && [] + ElfsOf(isd, CapAll(kept)) == ElfsOf(isd, CapAll(kept));
    }
  }

  /** The load files that the third scan of an inventory lists. */
  function ListedFiles(a: seq<Answer>): seq<Entry> {
    var scope := ScopeOf(After(After(a)));
    if scope.Err? || WholeEntriesOf(scope.value.0).Err? then []
    else Kept(WholeEntriesOf(scope.value.0).value, 32)
  }

  /**
   The inventory is reported truncated exactly when the one with all modules would be; yet a module is
   missing from it exactly when some listed load file has a valid one beyond its sixteenth.
   */
  lemma ModulesGoMissing(isd: bytes, a: seq<Answer>)
    ensures var capped, whole := InventoryOf(isd, a, false), InventoryOf(isd, a, true);
            && (whole.Err? ==> capped == whole)
            && (whole.Ok? ==>
                  && capped.Ok? && capped.value.1 == whole.value.1
                  && capped.value.0 == whole.value.0.(elfs := capped.value.0.elfs)
                  && (capped.value.0 != whole.value.0 <==> !NoneLoses(ListedFiles(a))))
  {
    hide Absorbed, ScopeOf, After, WholeEntriesOf, Kept, NoneLoses;
    var empty := CardInventory([], [], []);
    var a1, a2 := After(a), After(After(a));
    if ScopeOf(a).Ok? {
      var (data, t) := ScopeOf(a).value;
      OtherScopesAbsorb(IsdScope, isd, empty, data, t);
      var first := Absorbed(IsdScope, isd, empty, data, t, true);
      if first.Ok? && ScopeOf(a1).Ok? {
        var (data1, t1) := ScopeOf(a1).value;
        OtherScopesAbsorb(AppScope, isd, first.value.0, data1, t1);
        var second := Absorbed(AppScope, isd, first.value.0, data1, t1, true);
        if second.Ok? && ScopeOf(a2).Ok? {
          ElfScopeAbsorbs(isd, second.value.0, ScopeOf(a2).value.0, ScopeOf(a2).value.1);
        }
      }
    }
  }

  // ---- A card that shows it ----

  /** `n` modules with the same five-byte AID. */
  function SomeModules(n: nat): (ts: seq<Tlv>)
    ensures |ts| == n
    ensures forall t :: t in ts ==> t == Tlv(0x84, [1, 2, 3, 4, 5])
  {
    if n == 0 then [] else [Tlv(0x84, [1, 2, 3, 4, 5])] + SomeModules(n - 1)
  }

  /** A load file with seventeen modules. */
  function SeventeenFields(): seq<Tlv> {
    [Tlv(0x4F, [9, 9, 9, 9, 9])] + SomeModules(17)
  }

  lemma {:induction false} SomeModulesAre(n: nat)
    ensures |EncodingOf(SomeModules(n))| == 7 * n
    ensures FindAll(SomeModules(n), 0x84) == seq(n, _ => [1, 2, 3, 4, 5])
  {
    if n > 0 {
      SomeModulesAre(n - 1);
      var t: Tlv := Tlv(0x84, [1, 2, 3, 4, 5]);
      assert MinimalOctets(0x84) == [0x84] && LengthOctets(5) == [5];
      assert SomeModules(n)[0] == t && SomeModules(n)[1..] == SomeModules(n - 1);
      assert |ObjectBytes(t)| == 7;
      assert [[1, 2, 3, 4, 5]] + seq(n - 1, _ => [1, 2, 3, 4, 5]) == seq(n, _ => [1, 2, 3, 4, 5]);
    }
  }

  lemma EncodingOfCons(t: Tlv, ts: seq<Tlv>)
    ensures EncodingOf([t] + ts) == ObjectBytes(t) + EncodingOf(ts)
  {
    assert ([t] + ts)[1..] == ts;
  }

  lemma FieldsSize()
    ensures |EncodingOf(SeventeenFields())| == 126
    ensures forall t :: t in SeventeenFields() ==> WellFormed(t)
  {
    hide SomeModules, FindAll, EncodingOf;
    var aid: Tlv := Tlv(0x4F, [9, 9, 9, 9, 9]);
    SomeModulesAre(17);
    assert MinimalOctets(0x4F) == [0x4F] && LengthOctets(5) == [5] && MinimalOctets(0x84) == [0x84];
    EncodingOfCons(aid, SomeModules(17));
    forall t | t in SeventeenFields()
      ensures WellFormed(t)
    {
      assert t == aid || t in SomeModules(17);
    }
  }

  function Template(): (t: Tlv)
    ensures t.tag == 0xE3 && t.value == EncodingOf(SeventeenFields()) && |t.value| == 126
  {
    FieldsSize();
    Tlv(0xE3, EncodingOf(SeventeenFields()))
  }

  function SeventeenModules(): bytes {
    EncodingOf([Template()])
  }

  lemma TemplateParses()
    ensures |SeventeenModules()| <= 256
    ensures TlvsOf(SeventeenModules()) == Ok([Template()])
  {
    hide TlvsOf, SeventeenFields;
    var t := Template();
    assert MinimalOctets(0xE3) == [0xE3] && LengthOctets(126) == [126];
    assert EncodingOf([t]) == ObjectBytes(t) + EncodingOf([]);
    ParseEncode([t]);
  }

  lemma SeventeenParse()
    ensures |SeventeenModules()| <= 256
    ensures WholeEntriesOf(SeventeenModules()).Ok?
    ensures var es := WholeEntriesOf(SeventeenModules()).value;
            |es| == 1 && es[0].aid == [9, 9, 9, 9, 9] && es[0].modules == seq(17, _ => [1, 2, 3, 4, 5])
  {
    hide TlvsOf, EncodingOf, SomeModules, WellFormed, Template, SeventeenModules;
    var fields := SeventeenFields();
    FieldsSize();
    ParseEncode(fields);
    TemplateParses();
    SomeModulesAre(17);
    assert fields[1..] == SomeModules(17);
    assert [] + FindAll(fields[1..], 0x84) == FindAll(fields[1..], 0x84);
    assert [Template()][1..] == [];
  }

  /** Seventeen modules go in, sixteen come out, and nothing says so. */
  lemma SeventeenthModuleIsLost(isd: bytes) returns (a: seq<Answer>)
    requires IsAid(isd)
    ensures InventoryOf(isd, a, false).Ok? && InventoryOf(isd, a, true).Ok?
    ensures InventoryOf(isd, a, false).value.1 == false
    ensures InventoryOf(isd, a, false).value.0 != InventoryOf(isd, a, true).value.0
  {
    SeventeenParse();
    hide SeventeenModules, TlvsOf, WholeEntriesOf;
    var page := SeventeenModules();
    var none: seq<Answer> := [Answered([0x6A, 0x88])];
    a := none + (none + Cut([page]));
    ParsesWhole(page);
    AbsentScope(none + Cut([page]));
    AbsentScope(Cut([page]));
    SplitIndependent(page, [page], []);
    assert Flatten([page]) == page && Cut([page]) + [] == Cut([page]);
    hide ScopeOf, PagesRead, Cut, InventoryOf, ValidAids;
    assert After(a) == none + Cut([page]) && After(After(a)) == Cut([page]);
    LastIsLost(WholeEntriesOf(page).value[0]);
    ListsIt(isd, a, page);
    ModulesGoMissing(isd, a);
  }

  lemma ParsesWhole(page: bytes)
    requires WholeEntriesOf(page).Ok?
    ensures TlvsOf(page).Ok?
  {
  }

  /** A scope answered 6A88 is empty. */
  lemma AbsentScope(rest: seq<Answer>)
    ensures ScopeOf([Answered([0x6A, 0x88])] + rest) == Ok(([], false))
    ensures PagesRead([Answered([0x6A, 0x88])] + rest) == 1
  {
    var a := [Answered([0x6A, 0x88])] + rest;
    assert AnswerAt(a, 0) == Ok(([], SW_REF_NOT_FOUND));
    StopsAt(a, 0, 0);
  }

  lemma LastIsLost(e: Entry)
    requires e.modules == seq(17, _ => [1, 2, 3, 4, 5])
    ensures Loses(e)
  {
    assert e.modules[16..] == [[1, 2, 3, 4, 5]];
  }

  lemma EmptyAbsorbs(scope: Scope, isd: bytes, inv: CardInventory)
    ensures Absorbed(scope, isd, inv, [], false, true) == Ok((inv, false))
  {
    assert WholeEntriesOf([]) == Ok([]);
  }

  lemma ListsIt(isd: bytes, a: seq<Answer>, page: bytes)
    requires IsAid(isd) && WholeEntriesOf(page).Ok? && |WholeEntriesOf(page).value| == 1
    requires IsAid(WholeEntriesOf(page).value[0].aid) && Loses(WholeEntriesOf(page).value[0])
    requires ScopeOf(a) == Ok(([], false)) && ScopeOf(After(a)) == Ok(([], false))
    requires ScopeOf(After(After(a))) == Ok((page, false))
    ensures InventoryOf(isd, a, true).Ok? && !InventoryOf(isd, a, true).value.1
    ensures !NoneLoses(ListedFiles(a))
  {
    hide ScopeOf, After, Loses, WholeEntriesOf, EntriesOf;
    var es := WholeEntriesOf(page).value;
    var empty := CardInventory([], [], []);
    EmptyAbsorbs(IsdScope, isd, empty);
    EmptyAbsorbs(AppScope, isd, empty);
    assert es[1..] == [];
    assert StoreAll(ElfScope, isd, empty, es).1 == 0;
    assert Kept(es, 32) == [es[0]];
    assert ListedFiles(a)[0] == es[0];
  }
}
