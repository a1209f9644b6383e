/** GET STATUS registry entries (`parse_status_registry` in `response.rs`). */
module Registry {
  import opened Bytes
  import opened Wrappers
  import opened TlvCodec

  const MAX_REGISTRY_ENTRIES: nat := 64
  const MAX_MODULES_PER_ELF: nat := 16

  const TAG_GP_REGISTRY: nat := 0xE3
  const TAG_LIFE_CYCLE: nat := 0x9F70
  const TAG_AID: nat := 0x4F
  const TAG_PRIVILEGES: nat := 0xC5
  const TAG_ASSOC_SD_AID: nat := 0xCC
  const TAG_ELF_AID: nat := 0xC4
  const TAG_MODULE_AID: nat := 0x84

  datatype Entry = Entry(
    aid: bytes, lifeCycle: byte, privileges: bytes,
    associatedSd: Option<bytes>, elf: Option<bytes>, modules: seq<bytes>)

  /** The value of the first object with `tag`. */
  function Find(ts: seq<Tlv>, tag: nat): Option<bytes> {
    if ts == [] then None
    else if ts[0].tag == tag then Some(ts[0].value)
    else Find(ts[1..], tag)
  }

  /** The values of all objects with `tag`, in order. */
  function FindAll(ts: seq<Tlv>, tag: nat): seq<bytes> {
    if ts == [] then []
    else (if ts[0].tag == tag then [ts[0].value] else []) + FindAll(ts[1..], tag)
  }

  /** A privileges value cut or zero-filled to three bytes. */
  function PrivilegesTo3(v: Option<bytes>): (p: bytes)
    ensures |p| == 3
  {
    var b := if v.Some? then v.value else [];
    if |b| >= 3 then b[..3] else b + Zeros(3 - |b|)
  }

  /** The entry of one E3 template; modules beyond sixteen are dropped without a sign. */
  function EntryOf(fields: seq<Tlv>): Entry {
    var life := Find(fields, TAG_LIFE_CYCLE);
    var modules := FindAll(fields, TAG_MODULE_AID);
    Entry(
      match Find(fields, TAG_AID) case Some(a) => a case None => [],
      if life.Some? && life.value != [] then life.value[0] else 0,
      PrivilegesTo3(Find(fields, TAG_PRIVILEGES)),
      Find(fields, TAG_ASSOC_SD_AID),
      Find(fields, TAG_ELF_AID),
      if |modules| <= MAX_MODULES_PER_ELF then modules else modules[..MAX_MODULES_PER_ELF])
  }

  /** The entry with every module the card listed. */
  function WholeEntry(fields: seq<Tlv>): Entry {
    EntryOf(fields).(modules := FindAll(fields, 0x84))
  }

  /** What becomes of such an entry. */
  function Capped(e: Entry): Entry {
    e.(modules := if |e.modules| <= 16 then e.modules else e.modules[..16])
  }

  function CapAll(es: seq<Entry>): (r: seq<Entry>)
    ensures |r| == |es|
    ensures forall i :: 0 <= i < |es| ==> r[i] == Capped(es[i])
  {
    seq(|es|, i requires 0 <= i < |es| => Capped(es[i]))
  }

  /** An entry keeps all the card listed exactly when that is at most sixteen modules. */
  lemma ModulesKept(fields: seq<Tlv>)
    ensures EntryOf(fields) == Capped(WholeEntry(fields))
    ensures EntryOf(fields).modules == FindAll(fields, 0x84) <==> |FindAll(fields, 0x84)| <= 16
  {
  }

  /** What is found is the first with the tag, and nothing is found only where there is none. */
  lemma {:induction false} FoundIsFirst(ts: seq<Tlv>, tag: nat)
    ensures Find(ts, tag).None? <==> forall i :: 0 <= i < |ts| ==> ts[i].tag != tag
    ensures forall i :: 0 <= i < |ts| && ts[i].tag == tag && (forall j :: 0 <= j < i ==> ts[j].tag != tag) ==>
              Find(ts, tag) == Some(ts[i].value)
  {
    if ts != [] {
      FoundIsFirst(ts[1..], tag);
      if ts[0].tag != tag {
        assert forall i :: 0 < i < |ts| ==> ts[i] == ts[1..][i - 1];
        assert forall i :: 0 <= i < |ts| - 1 ==> ts[1..][i] == ts[i + 1];
      }
    }
  }

  /** The first object of each kind is what an entry says, whatever else is in the template and in whatever order. */
  lemma FirstObjectCounts(fields: seq<Tlv>, i: nat)
    requires i < |fields| && forall j :: 0 <= j < i ==> fields[j].tag != fields[i].tag
    ensures var e, tag, v := EntryOf(fields), fields[i].tag, fields[i].value;
            && (tag == 0x4F ==> e.aid == v)
            && (tag == 0x9F70 ==> e.lifeCycle == if v == [] then 0 else v[0])
            && (tag == 0xC5 ==> forall k :: 0 <= k < 3 ==> e.privileges[k] == if k < |v| then v[k] else 0)
            && (tag == 0xCC ==> e.associatedSd == Some(v))
            && (tag == 0xC4 ==> e.elf == Some(v))
  {
    FoundIsFirst(fields, fields[i].tag);
  }

  /** And an entry says nothing of what the card left out. */
  lemma AbsentObject(fields: seq<Tlv>, tag: nat)
    requires forall i :: 0 <= i < |fields| ==> fields[i].tag != tag
    ensures var e := EntryOf(fields);
            && (tag == 0x4F ==> e.aid == []) && (tag == 0x9F70 ==> e.lifeCycle == 0)
            && (tag == 0xC5 ==> e.privileges == [0, 0, 0])
            && (tag == 0xCC ==> e.associatedSd == None) && (tag == 0xC4 ==> e.elf == None)
  {
    FoundIsFirst(fields, tag);
  }

  /** The entries of the E3 templates in a list, or the first template that does not parse. */
  function EntriesIn(top: seq<Tlv>): (r: Result<seq<Entry>, TlvError>)
    ensures r.Ok? ==> |r.value| <= |top|
  {
    if top == [] then Ok([])
    else if top[0].tag != TAG_GP_REGISTRY then EntriesIn(top[1..])
    else
      var fields :- TlvsOf(top[0].value);
      var rest :- EntriesIn(top[1..]);
      Ok([EntryOf(fields)] + rest)
  }

  function EntriesOf(data: bytes): Result<seq<Entry>, TlvError> {
    var top :- TlvsOf(data);
    EntriesIn(top)
  }

  /** The entries as the card sent them, all modules included. */
  function WholeEntriesIn(top: seq<Tlv>): Result<seq<Entry>, TlvError> {
    if top == [] then Ok([])
    else if top[0].tag != 0xE3 then WholeEntriesIn(top[1..])
    else
      var fields :- TlvsOf(top[0].value);
      var rest :- WholeEntriesIn(top[1..]);
      Ok([WholeEntry(fields)] + rest)
  }

  function WholeEntriesOf(data: bytes): Result<seq<Entry>, TlvError> {
    var top :- TlvsOf(data);
    WholeEntriesIn(top)
  }

  /** The cap on modules is the only loss, and no parse depends on it. */
  lemma {:induction false} EntriesAreCapped(top: seq<Tlv>)
    ensures WholeEntriesIn(top).Err? ==> EntriesIn(top) == WholeEntriesIn(top)
    ensures WholeEntriesIn(top).Ok? ==> EntriesIn(top).Ok? && EntriesIn(top).value == CapAll(WholeEntriesIn(top).value)
  {
    hide TlvsOf, EntryOf, WholeEntry;
    if top != [] {
      EntriesAreCapped(top[1..]);
      if TlvsOf(top[0].value).Ok? {
        ModulesKept(TlvsOf(top[0].value).value);
      }
    }
  }

  function PrependEntries(es: seq<Entry>, r: Result<seq<Entry>, TlvError>): Result<seq<Entry>, TlvError> {
    if r.Ok? then Ok(es + r.value) else r
  }

  method FindFirst(ts: seq<Tlv>, tag: nat) returns (r: Option<bytes>)
    ensures r == Find(ts, tag)
  {
    for i := 0 to |ts|
      invariant Find(ts, tag) == Find(ts[i..], tag)
    {
      if ts[i].tag == tag {
        return Some(ts[i].value);
      }
    }
    return None;
  }

  /** The loop that collects modules until the list is full. */
  method CollectModules(fields: seq<Tlv>) returns (modules: seq<bytes>)
    ensures modules == EntryOf(fields).modules
  {
    modules := [];
    assert fields[0..] == fields && [] + FindAll(fields, TAG_MODULE_AID) == FindAll(fields, TAG_MODULE_AID);
    for i := 0 to |fields|
      invariant |modules| <= MAX_MODULES_PER_ELF
      invariant modules + FindAll(fields[i..], TAG_MODULE_AID) == FindAll(fields, TAG_MODULE_AID)
    {
      assert fields[i..][0] == fields[i] && fields[i..][1..] == fields[i + 1..];
      ghost var rest := FindAll(fields[i + 1..], TAG_MODULE_AID);
      if fields[i].tag == TAG_MODULE_AID {
        var m := fields[i].value;
        assert FindAll(fields[i..], TAG_MODULE_AID) == [m] + rest;
        if |modules| == MAX_MODULES_PER_ELF {
          assert FindAll(fields, TAG_MODULE_AID)[..|modules|] == modules;
          return;
        }
        assert modules + ([m] + rest) == (modules + [m]) + rest;
        modules := modules + [m];
      } else {
        assert [] + rest == rest;
      }
    }
    assert fields[|fields|..] == [] && modules + [] == modules;
  }

  method DecodeEntry(fields: seq<Tlv>) returns (e: Entry)
    ensures e == EntryOf(fields)
  {
    var aid := FindFirst(fields, TAG_AID);
    var life := FindFirst(fields, TAG_LIFE_CYCLE);
    var privileges := FindFirst(fields, TAG_PRIVILEGES);
    var sd := FindFirst(fields, TAG_ASSOC_SD_AID);
    var elf := FindFirst(fields, TAG_ELF_AID);
    var modules := CollectModules(fields);
    e := Entry(if aid.Some? then aid.value else [],
               if life.Some? && life.value != [] then life.value[0] else 0,
               PrivilegesTo3(privileges), sd, elf, modules);
  }

  lemma NoEntries()
    ensures EntriesOf([]) == Ok([])
  {
  }

  /** `parse_status_registry`: the list of 64 entries never fills, since no more objects parse. */
  method ParseStatusRegistry(data: bytes) returns (r: Result<seq<Entry>, TlvError>)
    ensures r == EntriesOf(data)
  {
    hide TlvsOf, EntryOf;
    var out: seq<Entry> := [];
    if data == [] {
      NoEntries();
      return Ok(out);
    }
    var top :- Parse(data);
    assert top[0..] == top;
    if EntriesIn(top).Ok? {
      assert [] + EntriesIn(top).value == EntriesIn(top).value;
    }
    for i := 0 to |top|
      invariant |out| <= i
      invariant EntriesIn(top) == PrependEntries(out, EntriesIn(top[i..]))
    {
      if top[i].tag == TAG_GP_REGISTRY {
        var fields :- Parse(top[i].value);
        var entry := DecodeEntry(fields);
        if |out| == MAX_REGISTRY_ENTRIES {
          assert false;
        }
        ghost var rest := EntriesIn(top[i + 1..]);
        if rest.Ok? {
          assert out + ([entry] + rest.value) == (out + [entry]) + rest.value;
        }
        out := out + [entry];
      }
    }
    assert out + [] == out;
    return Ok(out);
  }
}
