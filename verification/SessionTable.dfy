/**
 The session tables of `lib.rs`, generic in the protocol. An engine says what one wrap and one unwrap
 do to a slot; `Step` lifts it to a table of slots behind handles, with the source's fail-closed rule.
 */
module SessionTable {
  import opened Bytes
  import opened Wrappers
  import opened Scp

  const MAX_SESSION_SLOTS: nat := 16

  datatype Engine<!S> = Engine(
    wrap: (S, bytes) -> Result<(bytes, S), BackendError>,
    unwrap: (S, bytes) -> Result<(bytes, S), BackendError>)

  type Table<S> = seq<Option<S>>

  datatype Op<S> =
    | Derive(slot: S)
    | Wrap(handle: nat, capdu: bytes)
    | Unwrap(handle: nat, rapdu: bytes)
    | Close(handle: nat)

  datatype Reply =
    | Opened(handle: nat)
    | Produced(out: bytes)
    | Failed(error: BackendError)
    | Closed

  /** The first empty slot at or after `from`. */
  function FirstFree<S>(t: Table<S>, from: nat): (i: Option<nat>)
    ensures i.Some? ==> from <= i.value < |t| && t[i.value].None?
    ensures i.Some? ==> forall j :: from <= j < i.value ==> t[j].Some?
    ensures i.None? ==> forall j :: from <= j < |t| ==> t[j].Some?
    decreases |t| - from
  {
    if from >= |t| then None
    else if t[from].None? then Some(from)
    else FirstFree(t, from + 1)
  }

  function SlotAt<S>(t: Table<S>, handle: nat): Option<S> {
    if handle < |t| then t[handle] else None
  }

  // ---- One session on its own ----

  /** A wrap in one session: a failure changes nothing. */
  function WrapOne<S>(e: Engine<S>, slot: Option<S>, capdu: bytes): (Option<S>, Reply) {
    if |capdu| < 4 then (slot, Failed(HeaderTooShort))
    else
      match slot
      case None => (None, Failed(SessionInvalid))
      case Some(s) =>
        match e.wrap(s, capdu)
        case Err(err) => (slot, Failed(err))
        case Ok((wire, s')) => (Some(s'), Produced(wire))
  }

  /** An unwrap in one session: a failure ends it. */
  function UnwrapOne<S>(e: Engine<S>, slot: Option<S>, rapdu: bytes): (Option<S>, Reply) {
    match slot
    case None => (None, Failed(SessionInvalid))
    case Some(s) =>
      match e.unwrap(s, rapdu)
      case Err(err) => (None, Failed(err))
      case Ok((out, s')) => (Some(s'), Produced(out))
  }

  function StepOne<S>(e: Engine<S>, slot: Option<S>, op: Op<S>): (Option<S>, Reply) {
    match op
    case Derive(entry) => (Some(entry), Closed)
    case Wrap(_, capdu) => WrapOne(e, slot, capdu)
    case Unwrap(_, rapdu) => UnwrapOne(e, slot, rapdu)
    case Close(_) => (None, Closed)
  }

  // ---- The table ----

  function Store<S>(t: Table<S>, handle: nat, slot: Option<S>): (t': Table<S>)
    ensures |t'| == |t|
  {
    if handle < |t| then t[handle := slot] else t
  }

  lemma StoreUnchanged<S>(t: Table<S>, handle: nat)
    ensures Store(t, handle, SlotAt(t, handle)) == t
  {
  }

  function Step<S>(e: Engine<S>, t: Table<S>, op: Op<S>): (r: (Table<S>, Reply))
    ensures |r.0| == |t|
  {
    match op
    case Derive(entry) =>
      (match FirstFree(t, 0)
       case None => (t, Failed(TableFull))
       case Some(i) => (t[i := Some(entry)], Opened(i)))
    case Wrap(h, capdu) =>
      var (slot, reply) := WrapOne(e, SlotAt(t, h), capdu);
      (Store(t, h, slot), reply)
    case Unwrap(h, rapdu) =>
      var (slot, reply) := UnwrapOne(e, SlotAt(t, h), rapdu);
      (Store(t, h, slot), reply)
    case Close(h) => (Store(t, h, None), Closed)
  }

  /** The table after a history of operations, and their replies. */
  function Run<S>(e: Engine<S>, t: Table<S>, ops: seq<Op<S>>): (r: (Table<S>, seq<Reply>))
    ensures |r.0| == |t| && |r.1| == |ops|
    decreases |ops|
  {
    if ops == [] then (t, [])
    else
      var (t1, reply) := Step(e, t, ops[0]);
      var (t', replies) := Run(e, t1, ops[1..]);
      (t', [reply] + replies)
  }

  // ---- Non-interference ----

  /** Whether an operation with this reply is about session `h`. */
  predicate Touches<S>(h: nat, op: Op<S>, reply: Reply) {
    match op
    case Derive(_) => reply == Opened(h)
    case Wrap(g, _) => g == h
    case Unwrap(g, _) => g == h
    case Close(g) => g == h
  }

  /** The operations of a history that are about session `h`, and what they returned. */
  function Project<S>(h: nat, ops: seq<Op<S>>, replies: seq<Reply>): seq<(Op<S>, Reply)>
    requires |ops| == |replies|
  {
    if ops == [] then []
    else
      (if Touches(h, ops[0], replies[0]) then [(ops[0], replies[0])] else [])
      + Project(h, ops[1..], replies[1..])
  }

  /** The same operations on that session alone: its final slot, and the replies it gives. */
  ghost predicate RunsAlone<S(!new)>(e: Engine<S>, slot: Option<S>, trace: seq<(Op<S>, Reply)>, end: Option<S>)
    decreases |trace|
  {
    if trace == [] then end == slot
    else
      var (op, reply) := trace[0];
      && (op.Derive? ==> slot.None?)
      && (!op.Derive? ==> reply == StepOne(e, slot, op).1)
      && RunsAlone(e, StepOne(e, slot, op).0, trace[1..], end)
  }

  lemma StepIsLocal<S(!new)>(e: Engine<S>, t: Table<S>, op: Op<S>, h: nat)
    requires h < |t|
    ensures var (t', reply) := Step(e, t, op);
            if Touches(h, op, reply) then
              && t'[h] == StepOne(e, t[h], op).0
              && (op.Derive? ==> t[h].None?)
              && (!op.Derive? ==> reply == StepOne(e, t[h], op).1)
            else t'[h] == t[h]
  {
  }

  /**
   Non-interference: in any interleaving of operations on many sessions, each session goes through
   exactly what it would go through alone, reply by reply; a derive only ever takes an empty slot.
   */
  lemma {:induction false} NonInterference<S(!new)>(e: Engine<S>, t: Table<S>, ops: seq<Op<S>>, h: nat)
    requires h < |t|
    ensures var (t', replies) := Run(e, t, ops);
            RunsAlone(e, t[h], Project(h, ops, replies), t'[h])
    decreases |ops|
  {
    if ops != [] {
      StepIsLocal(e, t, ops[0], h);
      var (t1, reply) := Step(e, t, ops[0]);
      NonInterference(e, t1, ops[1..], h);
      var (t', replies) := Run(e, t, ops);
      var rest := Project(h, ops[1..], replies[1..]);
      assert replies[1..] == Run(e, t1, ops[1..]).1;
      if Touches(h, ops[0], reply) {
        assert Project(h, ops, replies) == [(ops[0], reply)] + rest;
        assert ([(ops[0], reply)] + rest)[1..] == rest;
      } else {
        assert Project(h, ops, replies) == rest;
      }
    }
  }

  // ---- Fail closed ----

  /** A failed wrap leaves the whole table as it was. */
  lemma FailedWrapChangesNothing<S>(e: Engine<S>, t: Table<S>, h: nat, capdu: bytes)
    requires Step(e, t, Wrap(h, capdu)).1.Failed?
    ensures Step(e, t, Wrap(h, capdu)).0 == t
  {
  }

  /** A failed unwrap empties exactly its own slot. */
  lemma FailedUnwrapEmptiesItsSlot<S>(e: Engine<S>, t: Table<S>, h: nat, rapdu: bytes)
    requires Step(e, t, Unwrap(h, rapdu)).1.Failed?
    ensures Step(e, t, Unwrap(h, rapdu)).0 == Store(t, h, None)
  {
  }

  /** Whether a history reallocates handle `h`. */
  predicate Reopens(h: nat, replies: seq<Reply>) {
    Opened(h) in replies
  }

  /** Until a derive reallocates an empty handle, every wrap and unwrap on it fails. */
  lemma {:induction false} DeadStaysDead<S>(e: Engine<S>, t: Table<S>, ops: seq<Op<S>>, h: nat)
    requires SlotAt(t, h).None? && !Reopens(h, Run(e, t, ops).1)
    ensures SlotAt(Run(e, t, ops).0, h).None?
    ensures forall i :: 0 <= i < |ops| && (ops[i].Wrap? || ops[i].Unwrap?) && ops[i].handle == h ==>
              Run(e, t, ops).1[i].Failed?
    decreases |ops|
  {
    if ops != [] {
      var (t1, reply) := Step(e, t, ops[0]);
      var (t', replies) := Run(e, t, ops);
      assert replies[0] == reply && replies[1..] == Run(e, t1, ops[1..]).1;
      assert SlotAt(t1, h).None?;
      DeadStaysDead(e, t1, ops[1..], h);
      forall i | 0 <= i < |ops| && (ops[i].Wrap? || ops[i].Unwrap?) && ops[i].handle == h
        ensures replies[i].Failed?
      {
        if i > 0 {
          assert ops[1..][i - 1] == ops[i] && replies[1..][i - 1] == replies[i];
        }
      }
    }
  }

  // ---- Invariants ----

  /** `inv` survives every successful wrap and unwrap. */
  ghost predicate Preserves<S(!new)>(e: Engine<S>, inv: S -> bool) {
    && (forall s: S, capdu: bytes {:trigger e.wrap(s, capdu)} ::
          inv(s) && e.wrap(s, capdu).Ok? ==> inv(e.wrap(s, capdu).value.1))
    && (forall s: S, rapdu: bytes {:trigger e.unwrap(s, rapdu)} ::
          inv(s) && e.unwrap(s, rapdu).Ok? ==> inv(e.unwrap(s, rapdu).value.1))
  }

  /** A preserved property of a live session holds for as long as that session lives. */
  lemma {:induction false} InvariantKept<S(!new)>(e: Engine<S>, t: Table<S>, ops: seq<Op<S>>, h: nat, inv: S -> bool)
    requires Preserves(e, inv) && h < |t|
    requires t[h].Some? ==> inv(t[h].value)
    requires !Reopens(h, Run(e, t, ops).1)
    ensures Run(e, t, ops).0[h].Some? ==> inv(Run(e, t, ops).0[h].value)
    decreases |ops|
  {
    if ops != [] {
      var (t1, reply) := Step(e, t, ops[0]);
      var (t', replies) := Run(e, t, ops);
      assert replies[0] == reply && replies[1..] == Run(e, t1, ops[1..]).1;
      StepIsLocal(e, t, ops[0], h);
      InvariantKept(e, t1, ops[1..], h, inv);
    }
  }
}
