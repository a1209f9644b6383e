/**
 Paged GET STATUS and the card inventory (`workflow/card_status.rs`). The card splits its registry at
 any byte; pages are joined before anything is parsed.
 */
module CardStatus {
  import opened Bytes
  import opened Wrappers
  import opened Scp
  import opened Apdu
  import opened TlvCodec

  const MAX_STATUS_PAGES: nat := 16
  const MAX_STATUS_SCOPE_BYTES: nat := MAX_STATUS_PAGES * RAPDU_MAX
  const P2_FIRST_TLV: byte := 0x02
  const P2_NEXT_TLV: byte := 0x03
  const SW_OK: nat := 0x9000
  const SW_MORE_DATA: nat := 0x6310
  const SW_REF_NOT_FOUND: nat := 0x6A88

  /** An unwrapped response: at most `RAPDU_MAX` bytes, as both protocols' unwrap promise. */
  type Rapdu = r: bytes | 2 <= |r| <= RAPDU_MAX witness [0x90, 0x00]

  /** What one exchange in a session comes to. */
  datatype Answer = Answered(rapdu: Rapdu) | Lost

  /** `split_sw`: data field and status word. */
  function DataOf(r: Rapdu): (d: bytes)
    ensures |d| <= 256
  {
    r[..|r| - 2]
  }

  function SwOf(r: Rapdu): nat {
    var hi: nat, lo: nat := r[|r| - 2], r[|r| - 1];
    256 * hi + lo
  }

  datatype WorkflowError = TransportLost | CardRefused(sw: nat) | Malformed(error: TlvError) | InvalidAid

  /** An open session to a card that will answer as scripted, and the commands sent over it. */
  class Session {
    const script: seq<Answer>
    var next: nat
    var sent: seq<bytes>

    constructor (script: seq<Answer>)
      ensures this.script == script && next == 0 && sent == []
    {
      this.script := script;
      next := 0;
      sent := [];
    }

    /** `transmit_in_session`: the next answer, whatever the command. */
    method Transmit(capdu: bytes) returns (r: Result<(bytes, nat), WorkflowError>)
      modifies this
      ensures next == old(next) + 1 && sent == old(sent) + [capdu]
      ensures r == AnswerAt(script, old(next))
    {
      r := AnswerAt(script, next);
      next := next + 1;
      sent := sent + [capdu];
    }
  }

  /** The `i`th answer, split into data field and status word. */
  function AnswerAt(a: seq<Answer>, i: nat): (r: Result<(bytes, nat), WorkflowError>)
    ensures r.Ok? ==> |r.value.0| <= 256
  {
    if i < |a| && a[i].Answered? then Ok((DataOf(a[i].rapdu), SwOf(a[i].rapdu))) else Err(TransportLost)
  }

  /** The GET STATUS command for one scope: match-all qualifier `4F 00`. */
  function GetStatus(p1: byte, p2: byte): bytes {
    ShortApdu(0x80, 0xF2, p1, p2, [0x4F, 0x00], true)
  }

  // ---- What a script of answers means ----

  predicate MoreData(r: Result<(bytes, nat), WorkflowError>) {
    r.Ok? && r.value.1 == 0x6310
  }

  /** Index of the first answer from `i` on that is not "more data", or the page limit. */
  function Stop(a: seq<Answer>, i: nat): (n: nat)
    requires i <= 16
    ensures i <= n <= 16
    ensures forall j :: i <= j < n ==> MoreData(AnswerAt(a, j))
    ensures n < 16 ==> !MoreData(AnswerAt(a, n))
    decreases 16 - i
  {
    if i < 16 && MoreData(AnswerAt(a, i)) then Stop(a, i + 1) else i
  }

  /** The data of the first `k` answers, joined. */
  function Joined(a: seq<Answer>, k: nat): (d: bytes)
    ensures |d| <= 256 * k
  {
    if k == 0 then []
    else Joined(a, k - 1) + if AnswerAt(a, k - 1).Ok? then AnswerAt(a, k - 1).value.0 else []
  }

  /** The longest of the first `k` page boundaries at which the joined data parses. */
  function LongestGood(a: seq<Answer>, k: nat): bytes {
    if k == 0 || TlvsOf(Joined(a, k)).Ok? then Joined(a, k) else LongestGood(a, k - 1)
  }

  /** What reading one scope returns: the bytes kept, and whether the scan was cut short. */
  function ScopeOf(a: seq<Answer>): Result<(bytes, bool), WorkflowError> {
    var n := Stop(a, 0);
    if n == 16 then Ok((LongestGood(a, n), true))
    else
      match AnswerAt(a, n)
      case Err(e) => Err(e)
      case Ok((_, sw)) =>
        if sw == 0x6A88 then Ok(([], false))
        else if sw != 0x9000 then Err(CardRefused(sw))
        else if TlvsOf(Joined(a, n + 1)).Ok? then Ok((Joined(a, n + 1), false))
        else Ok((LongestGood(a, n), true))
  }

  /** Pages requested: one per "more data", and the one that ended the scan. */
  function PagesRead(a: seq<Answer>): nat {
    var n := Stop(a, 0);
    if n == 16 then n else n + 1
  }

  /** The commands of a scan: GET STATUS for all that match, first occurrence once, then next occurrence. */
  function Requests(p1: byte, n: nat): seq<bytes> {
    seq(n, i => [0x80, 0xF2, p1, if i == 0 then 0x02 else 0x03, 0x02, 0x4F, 0x00, 0x00])
  }

  // ---- Properties of a scan ----

  lemma EmptyParses()
    ensures TlvsOf([]).Ok?
  {
  }

  lemma {:induction false} LongestGoodIs(a: seq<Answer>, k: nat)
    ensures TlvsOf(LongestGood(a, k)).Ok?
    ensures exists j: nat :: j <= k && LongestGood(a, k) == Joined(a, j)
    ensures forall j: nat :: j <= k && TlvsOf(Joined(a, j)).Ok? ==> Joined(a, j) <= LongestGood(a, k)
  {
    EmptyParses();
    hide TlvsOf;
    if k == 0 {
      assert LongestGood(a, k) == Joined(a, 0);
    } else if TlvsOf(Joined(a, k)).Ok? {
      forall j: nat | j <= k
        ensures Joined(a, j) <= Joined(a, k)
      {
        JoinedGrows(a, j, k);
      }
    } else {
      LongestGoodIs(a, k - 1);
    }
  }

  lemma {:induction false} JoinedGrows(a: seq<Answer>, j: nat, k: nat)
    requires j <= k
    ensures Joined(a, j) <= Joined(a, k)
  {
    if j < k {
      JoinedGrows(a, j, k - 1);
    }
  }

  /**
   For every card: what a scan returns always parses. Unless the scope ended in 6A88 it is the longest
   page-boundary prefix of the received bytes that parses, and it is reported complete only if the
   card said 9000 and everything received is there.
   */
  lemma SoundPrefix(a: seq<Answer>)
    requires ScopeOf(a).Ok?
    ensures var (data, truncated) := ScopeOf(a).value;
            var n := PagesRead(a);
            && n > 0 && AnswerAt(a, n - 1).Ok?
            && var sw := AnswerAt(a, n - 1).value.1;
            && TlvsOf(data).Ok?
            && (sw == 0x6A88 ==> data == [] && !truncated)
            && (sw != 0x6A88 ==>
                  && (exists j: nat :: j <= n && data == Joined(a, j))
                  && (forall j: nat :: j <= n && TlvsOf(Joined(a, j)).Ok? ==> Joined(a, j) <= data)
                  && (!truncated <==> sw == 0x9000 && data == Joined(a, n)))
  {
    hide TlvsOf, Joined, LongestGood, AnswerAt;
    EmptyParses();
    var n := Stop(a, 0);
    LongestGoodIs(a, n);
    if n < MAX_STATUS_PAGES {
      LongestGoodIs(a, n + 1);
      LongestGoodStep(a, n + 1);
      JoinedGrows(a, n, n + 1);
    }
  }

  lemma LongestGoodStep(a: seq<Answer>, k: nat)
    requires k > 0
    ensures LongestGood(a, k) == if TlvsOf(Joined(a, k)).Ok? then Joined(a, k) else LongestGood(a, k - 1)
  {
    hide TlvsOf, Joined;
  }

  /** A scan succeeded, and is not reported as cut short. */
  predicate ReportedComplete(a: seq<Answer>) {
    ScopeOf(a).Ok? && !ScopeOf(a).value.1
  }

  /**
   A scope reported complete lacks data that was received if and only if it ended in 6A88 with data
   already received.
   */
  lemma CompleteYetLacking(a: seq<Answer>)
    requires ReportedComplete(a)
    ensures var n := PagesRead(a);
            && n > 0 && AnswerAt(a, n - 1).Ok?
            && (ScopeOf(a).value.0 != Joined(a, n) <==>
                  AnswerAt(a, n - 1).value.1 == 0x6A88 && Joined(a, n) != [])
  {
    SoundPrefix(a);
  }

  /** One page, more announced, then 6A88: what the page held is gone, and nothing says so. */
  lemma PageThenNothing(page: bytes) returns (a: seq<Answer>)
    requires 0 < |page| <= 256
    ensures ReportedComplete(a) && ScopeOf(a).value.0 == [] && Joined(a, PagesRead(a)) == page
  {
    a := [Answered(page + [0x63, 0x10]), Answered([0x6A, 0x88])];
    var first := page + [0x63, 0x10];
    assert first[..|first| - 2] == page;
    assert AnswerAt(a, 0) == Ok((page, SW_MORE_DATA)) && AnswerAt(a, 1) == Ok(([], SW_REF_NOT_FOUND));
    StopsAt(a, 0, 1);
    assert Joined(a, 1) == [] + page && Joined(a, 2) == Joined(a, 1) + [];
  }

  /**
   A scope that ends in 9000 without parsing is no error: it comes back cut to the longest page boundary
   that parses.
   */
  lemma BrokenScopeIsCut(a: seq<Answer>)
    requires Stop(a, 0) < MAX_STATUS_PAGES && AnswerAt(a, Stop(a, 0)).Ok? && AnswerAt(a, Stop(a, 0)).value.1 == 0x9000
    requires TlvsOf(Joined(a, Stop(a, 0) + 1)).Err?
    ensures ScopeOf(a) == Ok((LongestGood(a, Stop(a, 0)), true))
  {
    hide TlvsOf;
  }

  /** The answers of a card that cuts its registry into `parts`. */
  function Cut(parts: seq<bytes>): (a: seq<Answer>)
    requires parts != [] && forall p :: p in parts ==> |p| <= 256
    ensures |a| == |parts|
  {
    seq(|parts|, i requires 0 <= i < |parts| =>
      assert parts[i] in parts;
      Answered(parts[i] + (if i == |parts| - 1 then [0x90, 0x00] else [0x63, 0x10])))
  }

  lemma CutAt(parts: seq<bytes>, i: nat)
    requires i < |parts| && forall p :: p in parts ==> |p| <= 256
    ensures AnswerAt(Cut(parts), i) == Ok((parts[i], if i == |parts| - 1 then 0x9000 else 0x6310))
  {
    assert parts[i] in parts;
    var sw: bytes := if i == |parts| - 1 then [0x90, 0x00] else [0x63, 0x10];
    var rapdu := parts[i] + sw;
    assert Cut(parts)[i] == Answered(rapdu);
    assert rapdu[..|rapdu| - 2] == parts[i];
    assert rapdu[|rapdu| - 2] == sw[0] && rapdu[|rapdu| - 1] == sw[1];
  }

  lemma CutSays(parts: seq<bytes>)
    requires parts != [] && forall p :: p in parts ==> |p| <= 256
    ensures forall i :: 0 <= i < |parts| ==>
              AnswerAt(Cut(parts), i) == Ok((parts[i], if i == |parts| - 1 then 0x9000 else 0x6310))
  {
    hide Cut, AnswerAt;
    forall i | 0 <= i < |parts|
      ensures AnswerAt(Cut(parts), i) == Ok((parts[i], if i == |parts| - 1 then 0x9000 else 0x6310))
    {
      CutAt(parts, i);
    }
  }

  lemma {:induction false} CutJoins(parts: seq<bytes>, k: nat)
    requires parts != [] && forall p :: p in parts ==> |p| <= 256
    requires k <= |parts|
    ensures Joined(Cut(parts), k) == Flatten(parts[..k])
  {
    hide Cut, AnswerAt, Flatten;
    if k == 0 {
      FlattenNil();
    } else {
      CutJoins(parts, k - 1);
      CutAt(parts, k - 1);
      FlattenSnoc(parts[..k - 1], parts[k - 1]);
      assert parts[..k - 1] + [parts[k - 1]] == parts[..k];
    }
  }

  lemma {:induction false} StopsAt(a: seq<Answer>, i: nat, n: nat)
    requires i <= n < MAX_STATUS_PAGES
    requires forall j :: i <= j < n ==> MoreData(AnswerAt(a, j))
    requires !MoreData(AnswerAt(a, n))
    ensures Stop(a, i) == n
    decreases n - i
  {
    if i < n {
      StopsAt(a, i + 1, n);
    }
  }

  /**
   Split independence: however a parseable registry is cut into at most sixteen pages, even inside a
   nested value, the scan returns the whole of it, complete, and leaves later answers unread.
   */
  lemma SplitIndependent(registry: bytes, parts: seq<bytes>, rest: seq<Answer>)
    requires TlvsOf(registry).Ok?
    requires 1 <= |parts| <= 16 && forall p :: p in parts ==> |p| <= 256
    requires Flatten(parts) == registry
    ensures ScopeOf(Cut(parts) + rest) == Ok((registry, false))
    ensures PagesRead(Cut(parts) + rest) == |parts|
  {
    hide TlvsOf, Joined, Cut, SwOf, DataOf, LongestGood;
    var a, n := Cut(parts) + rest, |parts| - 1;
    CutJoins(parts, |parts|);
    CutSays(parts);
    assert parts[..|parts|] == parts;
    forall i | 0 <= i < |parts|
      ensures AnswerAt(a, i) == AnswerAt(Cut(parts), i)
    {
    }
    JoinedAgrees(Cut(parts), a, |parts|);
    StopsAt(a, 0, n);
  }

  lemma {:induction false} JoinedAgrees(a: seq<Answer>, b: seq<Answer>, k: nat)
    requires forall i :: 0 <= i < k ==> AnswerAt(a, i) == AnswerAt(b, i)
    ensures Joined(a, k) == Joined(b, k)
  {
    if k > 0 {
      JoinedAgrees(a, b, k - 1);
    }
  }

  // ---- Reading one scope ----

  /** What the answer to request `n` does to a scan that has seen only "more data" so far. */
  lemma ScopeStep(a: seq<Answer>, n: nat)
    requires n < MAX_STATUS_PAGES && Stop(a, 0) == Stop(a, n)
    ensures match AnswerAt(a, n)
            case Err(e) => ScopeOf(a) == Err(e) && PagesRead(a) == n + 1
            case Ok((data, sw)) =>
              && Joined(a, n + 1) == Joined(a, n) + data && |Joined(a, n + 1)| <= MAX_STATUS_SCOPE_BYTES
              && LongestGood(a, n + 1) == (if TlvsOf(Joined(a, n + 1)).Ok? then Joined(a, n + 1) else LongestGood(a, n))
              && (sw == 0x6310 ==>
                    && Stop(a, 0) == Stop(a, n + 1)
                    && (n + 1 == MAX_STATUS_PAGES ==>
                          ScopeOf(a) == Ok((LongestGood(a, n + 1), true)) && PagesRead(a) == n + 1))
              && (sw == 0x9000 ==>
                    ScopeOf(a) == Ok((LongestGood(a, n + 1), TlvsOf(Joined(a, n + 1)).Err?)) && PagesRead(a) == n + 1)
              && (sw == 0x6A88 ==> ScopeOf(a) == Ok(([], false)) && PagesRead(a) == n + 1)
              && (sw != 0x9000 && sw != 0x6310 && sw != 0x6A88 ==>
                    ScopeOf(a) == Err(CardRefused(sw)) && PagesRead(a) == n + 1)
  {
    hide TlvsOf;
  }

  lemma AnswerFrom(script: seq<Answer>, from: nat, i: nat)
    requires from <= |script|
    ensures AnswerAt(script, from + i) == AnswerAt(script[from..], i)
  {
  }

  lemma GetStatusBytes(p1: byte, p2: byte)
    ensures GetStatus(p1, p2) == [0x80, 0xF2, p1, p2, 0x02, 0x4F, 0x00, 0x00]
  {
  }

  /** The request of one loop pass. */
  method RequestPage(t: Session, p1: byte, p2: byte, ghost i: nat, ghost before: seq<bytes>)
    returns (r: Result<(bytes, nat), WorkflowError>)
    requires p2 == (if i == 0 then P2_FIRST_TLV else P2_NEXT_TLV) && t.sent == before + Requests(p1, i)
    modifies t
    ensures t.next == old(t.next) + 1 && t.sent == before + Requests(p1, i + 1)
    ensures r == AnswerAt(t.script, old(t.next))
  {
    hide GetStatus;
    var capdu := GetStatus(p1, p2);
    r := t.Transmit(capdu);
    GetStatusBytes(p1, p2);
    assert Requests(p1, i) + [GetStatus(p1, p2)] == Requests(p1, i + 1);
  }

  /** Append one page and move the checkpoint if everything so far parses. */
  method Absorb(buf: bytes, goodLen: nat, data: bytes, sw: nat) returns (buf': bytes, goodLen': nat, truncated: bool)
    requires goodLen <= |buf|
    ensures buf' == buf + data && goodLen' <= |buf'|
    ensures buf'[..goodLen'] == if TlvsOf(buf').Ok? then buf' else buf[..goodLen]
    ensures truncated <==> sw == SW_OK && TlvsOf(buf').Err?
  {
    hide TlvsOf;
    buf' := buf + data;
    goodLen' := goodLen;
    truncated := false;
    var parsed := Parse(buf');
    if parsed.Ok? {
      goodLen' := |buf'|;
    } else if sw == SW_OK {
      truncated := true;
    }
  }

  /** Where a scan stands after a page: going on, or done. */
  datatype Scan = Going(buf: bytes, goodLen: nat) | ScanOver(result: Result<(bytes, bool), WorkflowError>)

  /** The scan of `a` has seen `n` answers, all "more data", and checkpointed what parses. */
  predicate Scanned(a: seq<Answer>, n: nat, buf: bytes, goodLen: nat) {
    && n <= MAX_STATUS_PAGES && Stop(a, 0) == Stop(a, n)
    && buf == Joined(a, n) && goodLen <= |buf| && buf[..goodLen] == LongestGood(a, n)
    && (n == MAX_STATUS_PAGES ==> ScopeOf(a) == Ok((buf[..goodLen], true)) && PagesRead(a) == n)
  }

  /** One loop pass: request a page and act on its status word. */
  method ScanPage(t: Session, p1: byte, p2: byte, buf: bytes, goodLen: nat,
                  ghost i: nat, ghost from: nat, ghost before: seq<bytes>)
    returns (r: Scan)
    requires from <= |t.script| && t.next == from + i && i < MAX_STATUS_PAGES
    requires p2 == (if i == 0 then P2_FIRST_TLV else P2_NEXT_TLV) && t.sent == before + Requests(p1, i)
    requires Scanned(t.script[from..], i, buf, goodLen)
    modifies t
    ensures t.next == from + i + 1 && t.sent == before + Requests(p1, i + 1)
    ensures r.Going? ==> Scanned(t.script[from..], i + 1, r.buf, r.goodLen)
    ensures r.ScanOver? ==> r.result == ScopeOf(t.script[from..]) && PagesRead(t.script[from..]) == i + 1
  {
    hide TlvsOf, Joined, LongestGood, ScopeOf, PagesRead, Stop, Requests, AnswerAt;
    ghost var a := t.script[from..];
    AnswerFrom(t.script, from, i);
    ScopeStep(a, i);
    var answer := RequestPage(t, p1, p2, i, before);
    if answer.Err? {
      return ScanOver(Err(answer.error));
    }
    var data, sw := answer.value.0, answer.value.1;
    if sw == SW_OK || sw == SW_MORE_DATA {
      if |buf| + |data| > MAX_STATUS_SCOPE_BYTES {
        assert false;
      }
      var buf', goodLen', truncated := Absorb(buf, goodLen, data, sw);
      if sw == SW_OK {
        return ScanOver(Ok((buf'[..goodLen'], truncated)));
      }
      return Going(buf', goodLen');
    }
    if sw == SW_REF_NOT_FOUND {
      return ScanOver(Ok(([], false)));
    }
    return ScanOver(Err(CardRefused(sw)));
  }

  lemma NothingScanned(a: seq<Answer>, p1: byte)
    ensures Scanned(a, 0, [], 0) && Requests(p1, 0) == []
  {
  }

  lemma PagesExhausted(a: seq<Answer>, buf: bytes, goodLen: nat)
    requires Scanned(a, MAX_STATUS_PAGES, buf, goodLen)
    ensures goodLen <= |buf| && ScopeOf(a) == Ok((buf[..goodLen], true)) && PagesRead(a) == MAX_STATUS_PAGES
  {
  }

  /** `read_status_scope`. The accumulator is bounded, and sixteen pages can never overflow it. */
  method ReadStatusScope(t: Session, p1: byte) returns (r: Result<(bytes, bool), WorkflowError>)
    requires t.next <= |t.script|
    modifies t
    ensures r == ScopeOf(t.script[old(t.next)..])
    ensures t.next == old(t.next) + PagesRead(t.script[old(t.next)..])
    ensures t.sent == old(t.sent) + Requests(p1, PagesRead(t.script[old(t.next)..]))
  {
    hide TlvsOf, ScopeOf, PagesRead, Requests, AnswerAt, Scanned;
    ghost var from, before := t.next, t.sent;
    var buf: bytes := [];
    var goodLen: nat := 0;
    var p2 := P2_FIRST_TLV;
    NothingScanned(t.script[from..], p1);
    for i := 0 to MAX_STATUS_PAGES
      invariant t.next == from + i && t.sent == before + Requests(p1, i)
      invariant Scanned(t.script[from..], i, buf, goodLen)
      invariant p2 == if i == 0 then P2_FIRST_TLV else P2_NEXT_TLV
    {
      var page := ScanPage(t, p1, p2, buf, goodLen, i, from, before);
      if page.ScanOver? {
        return page.result;
      }
      buf, goodLen := page.buf, page.goodLen;
      p2 := P2_NEXT_TLV;
    }
    PagesExhausted(t.script[from..], buf, goodLen);
    return Ok((buf[..goodLen], true));
  }
}
