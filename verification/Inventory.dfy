/** The card inventory (`get_card_inventory` in `workflow/card_status.rs`): three scopes into bounded lists. */
module Inventory {
  import opened Aid
  import opened Bytes
  import opened Wrappers
  import opened TlvCodec
  import opened Registry
  import opened CardStatus

  const MAX_SDS: nat := 8
  const MAX_APPLETS: nat := 48
  const MAX_ELFS: nat := 32
  const PRIV_SECURITY_DOMAIN: byte := 0x80

  /** An AID has five to sixteen bytes. */
  function ValidAid(v: Option<bytes>): Option<bytes> {
    if v.Some? && IsAid(v.value) then v else None
  }

  function AidOr(v: Option<bytes>, default: bytes): bytes {
    if v.Some? && IsAid(v.value) then v.value else default
  }

  datatype DomainEntry = DomainEntry(aid: bytes, lifeCycle: byte, privileges: bytes, parent: Option<bytes>)
  datatype AppletEntry = AppletEntry(aid: bytes, lifeCycle: byte, privileges: bytes, domain: bytes, elf: Option<bytes>)
  datatype ElfEntry = ElfEntry(aid: bytes, lifeCycle: byte, domain: bytes, modules: seq<bytes>)

  datatype CardInventory = CardInventory(domains: seq<DomainEntry>, applets: seq<AppletEntry>, elfs: seq<ElfEntry>)

  datatype Scope = IsdScope | AppScope | ElfScope {
    function P1(): byte {
      match this
      case IsdScope => 0x80
      case AppScope => 0x40
      case ElfScope => 0x10
    }
  }

  /** Entries meant to be listed: in the application scope neither the ISD again nor a malformed AID. */
  predicate Eligible(scope: Scope, isd: bytes, e: Entry) {
    match scope
    case IsdScope => true
    case AppScope => e.aid != isd && IsAid(e.aid)
    case ElfScope => IsAid(e.aid)
  }

  function ValidAids(ms: seq<bytes>): seq<bytes> {
    if ms == [] then [] else (if IsAid(ms[0]) then [ms[0]] else []) + ValidAids(ms[1..])
  }

  /** The store callback of a scope: the inventory after one entry, and whether it was kept. */
  function Store(scope: Scope, isd: bytes, inv: CardInventory, e: Entry): (CardInventory, bool) {
    if !Eligible(scope, isd, e) then (inv, true)
    else
      match scope
      case IsdScope =>
        if |inv.domains| == MAX_SDS then (inv, false)
        else
          var d := DomainEntry(if IsAid(e.aid) then e.aid else isd, e.lifeCycle, e.privileges, None);
          (inv.(domains := inv.domains + [d]), true)
      case AppScope =>
        if e.privileges != [] && HasBit(e.privileges[0], PRIV_SECURITY_DOMAIN) then
          if |inv.domains| == MAX_SDS then (inv, false)
          else
            var d := DomainEntry(e.aid, e.lifeCycle, e.privileges, ValidAid(e.associatedSd));
            (inv.(domains := inv.domains + [d]), true)
        else if |inv.applets| == MAX_APPLETS then (inv, false)
        else
          var a := AppletEntry(e.aid, e.lifeCycle, e.privileges, AidOr(e.associatedSd, isd), ValidAid(e.elf));
          (inv.(applets := inv.applets + [a]), true)
      case ElfScope =>
        if |inv.elfs| == MAX_ELFS then (inv, false)
        else
          var f := ElfEntry(e.aid, e.lifeCycle, AidOr(e.associatedSd, isd), ValidAids(e.modules));
          (inv.(elfs := inv.elfs + [f]), true)
  }

  /** The inventory after all entries of a scope, and how many were dropped for lack of room. */
  function StoreAll(scope: Scope, isd: bytes, inv: CardInventory, es: seq<Entry>): (CardInventory, nat)
    decreases |es|
  {
    if es == [] then (inv, 0)
    else
      var (inv1, kept) := Store(scope, isd, inv, es[0]);
      var (inv', dropped) := StoreAll(scope, isd, inv1, es[1..]);
      (inv', (if kept then 0 else 1) + dropped)
  }

  /** The entries of a scope's bytes: as the parser returns them, or whole, as the card sent them. */
  function Decoded(data: bytes, whole: bool): Result<seq<Entry>, TlvError> {
    if whole then WholeEntriesOf(data) else EntriesOf(data)
  }

  /** What one scope's bytes add to the inventory, and whether anything was cut short. */
  function Absorbed(scope: Scope, isd: bytes, inv: CardInventory, data: bytes, truncated: bool, whole: bool)
    : Result<(CardInventory, bool), WorkflowError>
  {
    match Decoded(data, whole)
    case Err(e) => Err(Malformed(e))
    case Ok(es) =>
      var (inv', dropped) := StoreAll(scope, isd, inv, es);
      Ok((inv', truncated || dropped > 0))
  }

  /** What collecting one scope from a script of answers gives. */
  function ScopeInventory(scope: Scope, isd: bytes, inv: CardInventory, a: seq<Answer>, whole: bool)
    : Result<(CardInventory, bool), WorkflowError>
  {
    match ScopeOf(a)
    case Err(e) => Err(e)
    case Ok((data, truncated)) => Absorbed(scope, isd, inv, data, truncated, whole)
  }

  function Size(inv: CardInventory): nat {
    |inv.domains| + |inv.applets| + |inv.elfs|
  }

  function EligibleCount(scope: Scope, isd: bytes, es: seq<Entry>): nat {
    if es == [] then 0 else (if Eligible(scope, isd, es[0]) then 1 else 0) + EligibleCount(scope, isd, es[1..])
  }

  /** Conservation: every eligible entry is listed or counted as dropped, and lists only grow. */
  lemma {:induction false} NothingLostUncounted(scope: Scope, isd: bytes, inv: CardInventory, es: seq<Entry>)
    ensures var (inv', dropped) := StoreAll(scope, isd, inv, es);
            && Size(inv') + dropped == Size(inv) + EligibleCount(scope, isd, es)
            && inv.domains <= inv'.domains && inv.applets <= inv'.applets && inv.elfs <= inv'.elfs
    decreases |es|
  {
    if es != [] {
      NothingLostUncounted(scope, isd, Store(scope, isd, inv, es[0]).0, es[1..]);
    }
  }

  /** `collect_scope`. */
  method CollectScope(t: Session, scope: Scope, isd: bytes, inv: CardInventory)
    returns (r: Result<(CardInventory, bool), WorkflowError>)
    requires t.next <= |t.script|
    modifies t
    ensures r == ScopeInventory(scope, isd, inv, t.script[old(t.next)..], false)
    ensures t.next == old(t.next) + PagesRead(t.script[old(t.next)..])
    ensures t.sent == old(t.sent) + Requests(scope.P1(), PagesRead(t.script[old(t.next)..]))
  {
    var read := ReadStatusScope(t, scope.P1());
    if read.Err? {
      return Err(read.error);
    }
    var data, truncated := read.value.0, read.value.1;
    if data == [] && !truncated {
      NoEntries();
      return Ok((inv, false));
    }
    var entries := ParseStatusRegistry(data);
    if entries.Err? {
      return Err(Malformed(entries.error));
    }
    var es := entries.value;
    var current := inv;
    ghost var dropped := 0;
    assert es[0..] == es;
    for i := 0 to |es|
      invariant dropped + StoreAll(scope, isd, current, es[i..]).1 == StoreAll(scope, isd, inv, es).1
      invariant StoreAll(scope, isd, current, es[i..]).0 == StoreAll(scope, isd, inv, es).0
      invariant truncated <==> read.value.1 || dropped > 0
    {
      assert es[i..][0] == es[i] && es[i..][1..] == es[i + 1..];
      var (next, kept) := Store(scope, isd, current, es[i]);
      current := next;
      if !kept {
        truncated := true;
        dropped := dropped + 1;
      }
    }
    return Ok((current, truncated));
  }

  /** The inventory of three complete registries, whatever pages they arrived in. */
  function Ideal(isd: bytes, isdData: bytes, appData: bytes, elfData: bytes)
    : Result<(CardInventory, bool), WorkflowError>
  {
    match Absorbed(IsdScope, isd, CardInventory([], [], []), isdData, false, false)
    case Err(e) => Err(e)
    case Ok((inv1, t1)) =>
      match Absorbed(AppScope, isd, inv1, appData, false, false)
      case Err(e) => Err(e)
      case Ok((inv2, t2)) =>
        match Absorbed(ElfScope, isd, inv2, elfData, false, false)
        case Err(e) => Err(e)
        case Ok((inv3, t3)) => Ok((inv3, t1 || t2 || t3))
  }

  /** What the three scans give on a script of answers; `whole` keeps every module. */
  function InventoryOf(isd: bytes, a: seq<Answer>, whole: bool): Result<(CardInventory, bool), WorkflowError> {
    if !IsAid(isd) then Err(InvalidAid)
    else
      match ScopeInventory(IsdScope, isd, CardInventory([], [], []), a, whole)
      case Err(e) => Err(e)
      case Ok((inv1, t1)) =>
        var a1 := After(a);
        match ScopeInventory(AppScope, isd, inv1, a1, whole)
        case Err(e) => Err(e)
        case Ok((inv2, t2)) =>
          match ScopeInventory(ElfScope, isd, inv2, After(a1), whole)
          case Err(e) => Err(e)
          case Ok((inv3, t3)) => Ok((inv3, t1 || t2 || t3))
  }

  /** The answers left after a scan. */
  function After(a: seq<Answer>): seq<Answer> {
    if PagesRead(a) <= |a| then a[PagesRead(a)..] else []
  }

  /** A scan that succeeds has not asked beyond the script. */
  lemma ReadWithinScript(a: seq<Answer>)
    requires ScopeOf(a).Ok?
    ensures PagesRead(a) <= |a|
  {
    hide TlvsOf, Joined, LongestGood;
    SoundPrefix(a);
  }

  /**
   The commands of the three scans: the issuer security domain, applications and domains, load files. A scan
   that fails is the last.
   */
  function InventoryRequests(isd: bytes, a: seq<Answer>): seq<bytes> {
    if !(5 <= |isd| <= 16) then []
    else
      var first := ScopeInventory(IsdScope, isd, CardInventory([], [], []), a, false);
      Requests(0x80, PagesRead(a))
      + (if first.Err? then []
         else
           var second := ScopeInventory(AppScope, isd, first.value.0, After(a), false);
           Requests(0x40, PagesRead(After(a)))
           + (if second.Err? then [] else Requests(0x10, PagesRead(After(After(a))))))
  }

  /** `get_card_inventory`. */
  method GetCardInventory(t: Session, isd: bytes) returns (r: Result<(CardInventory, bool), WorkflowError>)
    requires t.next <= |t.script|
    modifies t
    ensures r == InventoryOf(isd, t.script[old(t.next)..], false)
    ensures t.sent == old(t.sent) + InventoryRequests(isd, t.script[old(t.next)..])
  {
    hide ScopeOf, PagesRead, Absorbed, Requests;
    if !IsAid(isd) {
      return Err(InvalidAid);
    }
    ghost var a := t.script[t.next..];
    var truncated := false;
    var isdScope := CollectScope(t, IsdScope, isd, CardInventory([], [], []));
    if isdScope.Err? {
      return Err(isdScope.error);
    }
    ReadWithinScript(a);
    ghost var a1 := t.script[t.next..];
    assert a1 == After(a);
    truncated := truncated || isdScope.value.1;
    var appScope := CollectScope(t, AppScope, isd, isdScope.value.0);
    if appScope.Err? {
      return Err(appScope.error);
    }
    ReadWithinScript(a1);
    assert t.script[t.next..] == After(a1);
    truncated := truncated || appScope.value.1;
    var elfScope := CollectScope(t, ElfScope, isd, appScope.value.0);
    if elfScope.Err? {
      return Err(elfScope.error);
    }
    truncated := truncated || elfScope.value.1;
    return Ok((elfScope.value.0, truncated));
  }

  /** A registry arrived in these pages. */
  predicate CutsInto(registry: bytes, parts: seq<bytes>) {
    && TlvsOf(registry).Ok?
    && 1 <= |parts| <= 16 && (forall p :: p in parts ==> |p| <= 256)
    && Flatten(parts) == registry
  }

  /** The inventory does not depend on how the card cut any of its three registries into pages. */
  lemma PagingDoesNotMatter(isd: bytes, isdData: bytes, appData: bytes, elfData: bytes,
                            isdParts: seq<bytes>, appParts: seq<bytes>, elfParts: seq<bytes>)
    requires IsAid(isd)
    requires CutsInto(isdData, isdParts) && CutsInto(appData, appParts) && CutsInto(elfData, elfParts)
    ensures InventoryOf(isd, Cut(isdParts) + (Cut(appParts) + (Cut(elfParts) + [])), false)
         == Ideal(isd, isdData, appData, elfData)
  {
    hide ScopeOf, PagesRead, Absorbed, Cut, TlvsOf;
    var a2 := Cut(elfParts) + [];
    var a1 := Cut(appParts) + a2;
    var a := Cut(isdParts) + a1;
    SplitIndependent(isdData, isdParts, a1);
    SplitIndependent(appData, appParts, a2);
    SplitIndependent(elfData, elfParts, []);
    assert After(a) == a1 && After(a1) == a2;
  }
}
