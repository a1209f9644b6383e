/**
 The load file of a CAP: where its components are, what data each entry has, and what the streaming
 reader of `cap/mod.rs` hands out of them, buffer by buffer.
 */
module LoadFile {
  import opened Bytes
  import opened Wrappers
  import TlvCodec

  const LFDB_COMPONENTS: nat := 11
  const METHOD_STORED: nat := 0
  const METHOD_DEFLATE: nat := 8

  datatype CapError = NotAZip | MissingComponent | Malformed | InflateFailed

  /** Where a component's bytes are in the ZIP, and how they are stored. */
  datatype CompLoc = CompLoc(coding: nat, dataOff: nat, compSize: nat, uncompSize: nat)

  type Locs = seq<Option<CompLoc>>

  /** The declared size of a component; an absent one has none. */
  function Declared(loc: Option<CompLoc>): nat {
    if loc.Some? then loc.value.uncompSize else 0
  }

  /** The sum of the declared sizes. */
  function ContentLen(locs: Locs): nat {
    if locs == [] then 0 else Declared(locs[0]) + ContentLen(locs[1..])
  }

  // ---- The C4 header ----

  /** `C4` and a BER length of at most three length bytes. */
  function HeaderBytes(n: nat): (h: bytes)
    ensures 2 <= |h| <= 5
  {
    [0xC4]
    + (if n < 0x80 then [n]
       else if n <= 0xFF then [0x81, n]
       else if n <= 0xFFFF then [0x82, n / 0x100, n % 0x100]
       else [0x83, n / 0x1_0000 % 0x100, n / 0x100 % 0x100, n % 0x100])
  }

  /** The header is the canonical BER header exactly for contents under 16 MiB; beyond, the length is cut. */
  lemma HeaderIsBer(n: nat)
    requires n < Pow256(TlvCodec.USIZE_OCTETS)
    ensures HeaderBytes(n) == [0xC4] + TlvCodec.LengthOctets(n) <==> n < 0x100_0000
  {
    var o := TlvCodec.MinimalOctets(n);
    if 0x80 <= n < 0x100 {
      assert o == [n];
    } else if 0x100 <= n < 0x1_0000 {
      assert o == TlvCodec.MinimalOctets(n / 0x100) + [n % 0x100];
    } else if 0x1_0000 <= n {
      assert o == TlvCodec.MinimalOctets(n / 0x100) + [n % 0x100];
      assert TlvCodec.MinimalOctets(n / 0x100) == TlvCodec.MinimalOctets(n / 0x100 / 0x100) + [n / 0x100 % 0x100];
      assert n / 0x100 / 0x100 == n / 0x1_0000;
      if n < 0x100_0000 {
        assert TlvCodec.MinimalOctets(n / 0x1_0000) == [n / 0x1_0000];
      } else {
        assert n / 0x1_0000 >= 0x100;
        assert |o| >= 4;
      }
    }
  }

  /** The length handed to the LOAD loop. */
  function FramedLen(locs: Locs): nat {
    |HeaderBytes(ContentLen(locs))| + ContentLen(locs)
  }

  // ---- A component's own data, and what the reader reaches ----

  /** The bytes its directory entry says it occupies are in the archive. */
  predicate Occupies(zip: bytes, loc: CompLoc) {
    loc.dataOff + loc.compSize <= |zip|
  }

  /** The methods a component can be recovered from. The reader takes any but DEFLATE for stored. */
  predicate Supported(coding: nat) {
    coding == METHOD_STORED || coding == METHOD_DEFLATE
  }

  /** The entry's data can be had: its bytes are there, and their method is one of the two. */
  predicate HasData(zip: bytes, loc: CompLoc) {
    Occupies(zip, loc) && Supported(loc.coding)
  }

  /** What the entry holds: the bytes it occupies if stored, and what they inflate to, `inflated`, if deflated. */
  function OwnData(zip: bytes, loc: CompLoc, inflated: bytes): bytes
    requires HasData(zip, loc)
  {
    if loc.coding == METHOD_DEFLATE then inflated else zip[loc.dataOff..loc.dataOff + loc.compSize]
  }

  /** What the reader could hand out of a stored entry: as many bytes as are declared, whatever they are. */
  function StoredReach(zip: bytes, loc: CompLoc): bytes
    requires loc.dataOff <= |zip|
  {
    zip[loc.dataOff..if loc.dataOff + loc.uncompSize <= |zip| then loc.dataOff + loc.uncompSize else |zip|]
  }

  /** `outs` is what the reader could hand out of each component: for a deflated one, all it inflates to. */
  predicate Reaches(zip: bytes, locs: Locs, outs: seq<bytes>) {
    && |locs| == |outs| == LFDB_COMPONENTS
    && forall i :: 0 <= i < LFDB_COMPONENTS ==> ReachesOne(zip, locs[i], outs[i])
  }

  predicate ReachesOne(zip: bytes, loc: Option<CompLoc>, out: bytes) {
    match loc
    case None => out == []
    case Some(l) => l.dataOff <= |zip| && (l.coding == METHOD_DEFLATE || out == StoredReach(zip, l))
  }

  /** The entry has its data, and exactly as much as it declares. */
  predicate Entire(zip: bytes, loc: CompLoc, inflated: bytes) {
    HasData(zip, loc) && |OwnData(zip, loc, inflated)| == loc.uncompSize
  }

  /** Every component is entire: of a supported method, and a stored one's two sizes agree and lie in the archive. */
  predicate Complete(zip: bytes, locs: Locs, outs: seq<bytes>) {
    && |locs| == |outs|
    && forall i :: 0 <= i < |locs| && locs[i].Some? ==> Entire(zip, locs[i].value, outs[i])
  }

  /** Of an entire component the reader reaches exactly its own data. */
  lemma EntireReached(zip: bytes, loc: CompLoc, out: bytes)
    requires Entire(zip, loc, out) && ReachesOne(zip, Some(loc), out)
    ensures out == OwnData(zip, loc, out) && |out| == loc.uncompSize
  {
  }

  // ---- Handing out, one buffer at a time ----

  /** How far a reader is: header bytes out, component, and bytes of it out. */
  datatype Spot = Spot(header: nat, comp: nat, emitted: nat)

  const START: Spot := Spot(0, 0, 0)

  /**
   What goes into the `room` left in a buffer, from byte `e` of component `comp` on: of each component
   what it has or what there is room for, passing to the next once the declared size is reached.
   */
  function DealFrom(locs: Locs, outs: seq<bytes>, comp: nat, e: nat, room: nat): (bytes, Spot)
    requires |locs| == |outs|
    decreases |locs| - comp
  {
    var h := |HeaderBytes(ContentLen(locs))|;
    if room == 0 || comp >= |locs| then ([], Spot(h, comp, e))
    else if locs[comp].None? then DealFrom(locs, outs, comp + 1, 0, room)
    else
      var left := if e <= |outs[comp]| then |outs[comp]| - e else 0;
      var n := if left <= room then left else room;
      var piece := if n == 0 then [] else outs[comp][e..e + n];
      if e + n >= Declared(locs[comp]) then
        var (more, spot) := DealFrom(locs, outs, comp + 1, 0, room - n);
        (piece + more, spot)
      else (piece, Spot(h, comp, e + n))
  }

  /** The bytes of one buffer, header first, and where the reader is after it. */
  function Deal(locs: Locs, outs: seq<bytes>, p: Spot, room: nat): (bytes, Spot)
    requires |locs| == |outs|
  {
    var header := HeaderBytes(ContentLen(locs));
    if p.header < |header| then
      var take := if |header| - p.header <= room then |header| - p.header else room;
      if p.header + take < |header| then (header[p.header..p.header + take], Spot(p.header + take, p.comp, p.emitted))
      else
        var (more, spot) := DealFrom(locs, outs, p.comp, p.emitted, room - take);
        (header[p.header..] + more, spot)
    else DealFrom(locs, outs, p.comp, p.emitted, room)
  }

  lemma {:induction false} DealFromFits(locs: Locs, outs: seq<bytes>, comp: nat, e: nat, room: nat)
    requires |locs| == |outs|
    ensures |DealFrom(locs, outs, comp, e, room).0| <= room
    decreases |locs| - comp
  {
    if room != 0 && comp < |locs| {
      if locs[comp].None? {
        DealFromFits(locs, outs, comp + 1, 0, room);
      } else {
        var left := if e <= |outs[comp]| then |outs[comp]| - e else 0;
        var n := if left <= room then left else room;
        DealFromFits(locs, outs, comp + 1, 0, room - n);
      }
    }
  }

  /** A slice that fills the room or exhausts the component is what is dealt; the rest follows from there. */
  lemma DealSlice(locs: Locs, outs: seq<bytes>, comp: nat, e: nat, room: nat, n: nat)
    requires |locs| == |outs| && comp < |locs| && locs[comp].Some?
    requires room > 0 && n <= room && e + n <= |outs[comp]| && (n == room || e + n == |outs[comp]|)
    ensures var (comp', e') := if e + n >= Declared(locs[comp]) then (comp + 1, 0) else (comp, e + n);
            var (more, spot) := DealFrom(locs, outs, comp', e', room - n);
            DealFrom(locs, outs, comp, e, room) == (outs[comp][e..e + n] + more, spot)
    ensures e + n < Declared(locs[comp]) ==> DealFrom(locs, outs, comp, e + n, room - n).0 == []
  {
    if e + n < Declared(locs[comp]) {
      assert outs[comp][e..e + n] + [] == outs[comp][e..e + n];
    }
  }

  /** A component with nothing left short of its declared size deals nothing, for good. */
  lemma DealStall(locs: Locs, outs: seq<bytes>, comp: nat, e: nat, room: nat)
    requires |locs| == |outs| && comp < |locs| && locs[comp].Some? && |outs[comp]| <= e < Declared(locs[comp])
    ensures DealFrom(locs, outs, comp, e, room) == ([], Spot(|HeaderBytes(ContentLen(locs))|, comp, e))
  {
  }
}
