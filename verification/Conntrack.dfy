/** TCP position tracking of conntrack.c, and the pool that both directions of a connection share. */
module Conntrack {
  import opened Numbers
  import opened Bytes
  import opened Serial

  datatype ConnState = SYN | ESTABLISHED | FIN

  /** What tcp_syn_segment, tcp_synack_segment and the FIN and RST flags make of a segment. */
  datatype Kind = Syn | SynAck | FinRst | Plain
  datatype Segment = Segment(kind: Kind, seqNo: Word, ackNo: Word, len: nat)

  /** The sequence fields of t_ctrack_position. */
  datatype Flow = Flow(seq0: Word, seqLast: Word, pos: Word, uppos: Word, upposPrev: Word, over2G: bool)
  datatype Positions = Positions(state: ConnState, client: Flow, server: Flow)

  const NEW_FLOW := Flow(0, 0, 0, 0, 0, false)
  /** ConntrackInitTrack. */
  const NEW_TRACK := Positions(SYN, NEW_FLOW, NEW_FLOW)

  function FlowOf(t: Positions, reverse: bool): Flow {
    if reverse then t.server else t.client
  }

  /** A segment that makes ConntrackFeedPacket erase the entry: a new connection on the same ports. */
  predicate Restarts(t: Positions, m: Segment) {
    t.state != SYN && (m.kind == Syn || (m.kind == SynAck && t.client.seq0 != Wrap(m.ackNo - 1)))
  }

  /** The connection state and starting numbers after a segment. */
  function Entered(t: Positions, reverse: bool, m: Segment): Positions {
    var u := if Restarts(t, m) then NEW_TRACK else t;
    match m.kind
    case Syn => u.(client := u.client.(seq0 := m.seqNo))
    case SynAck =>
      u.(client := u.client.(seq0 := if u.client.seq0 == 0 then Wrap(m.ackNo - 1) else u.client.seq0),
         server := u.server.(seq0 := m.seqNo))
    case FinRst => u.(state := FIN)
    case Plain =>
      if u.state != SYN then u
      else if !reverse && u.server.seq0 == 0 then
        u.(state := ESTABLISHED, server := u.server.(seq0 := Wrap(m.ackNo - 1)))
      else u.(state := ESTABLISHED)
  }

  function Flagged(f: Flow): Flow {
    f.(over2G := f.over2G || Wrap(f.seqLast - f.seq0) >= HALF)
  }

  /** The sender's side after a segment. */
  function Sent(f: Flow, m: Segment, state: ConnState): Flow {
    var pos := Wrap(m.seqNo + m.len);
    var g := f.(seqLast := m.seqNo, pos := pos);
    if state == SYN then Flagged(g.(uppos := pos, upposPrev := pos))
    else if m.len > 0 then
      Flagged(g.(upposPrev := g.uppos, uppos := if Wrap(pos - g.uppos) < HALF then pos else g.uppos))
    else Flagged(g)
  }

  /** The receiver's side after a segment. */
  function Acked(f: Flow, m: Segment): Flow {
    Flagged(f.(pos := m.ackNo, seqLast := m.ackNo))
  }

  function Fed(t: Positions, reverse: bool, m: Segment): Positions {
    var u := Entered(t, reverse, m);
    if reverse then Positions(u.state, Acked(u.client, m), Sent(u.server, m, u.state))
    else Positions(u.state, Sent(u.client, m, u.state), Acked(u.server, m))
  }

  /** is_retransmission. */
  predicate IsRetransmission(f: Flow) {
    !(Wrap(f.upposPrev - f.pos) >= HALF)
  }

  class Track {
    var state: ConnState
    var client: Flow
    var server: Flow

    function Abs(): Positions
      reads this
    {
      Positions(state, client, server)
    }

    constructor ()
      ensures Abs() == NEW_TRACK
    {
      state, client, server := SYN, NEW_FLOW, NEW_FLOW;
    }

    /** ConntrackApplyPos. */
    method ApplyPos(reverse: bool, m: Segment)
      modifies this
      ensures Abs() == (
        if reverse then Positions(old(state), Acked(old(client), m), Sent(old(server), m, old(state)))
        else Positions(old(state), Sent(old(client), m, old(state)), Acked(old(server), m)))
    {
      var direct, other := FlowOf(Abs(), reverse), FlowOf(Abs(), !reverse);
      direct := direct.(seqLast := m.seqNo);
      direct := direct.(pos := Wrap(direct.seqLast + m.len));
      other := other.(pos := m.ackNo, seqLast := m.ackNo);
      if state == SYN {
        direct := direct.(upposPrev := direct.pos, uppos := direct.pos);
      } else if m.len > 0 {
        direct := direct.(upposPrev := direct.uppos);
        if !(Wrap(direct.pos - direct.uppos) >= HALF) {
          direct := direct.(uppos := direct.pos);
        }
      }
      if !direct.over2G && Wrap(direct.seqLast - direct.seq0) >= HALF {
        direct := direct.(over2G := true);
      }
      if !other.over2G && Wrap(other.seqLast - other.seq0) >= HALF {
        other := other.(over2G := true);
      }
      client, server := if reverse then other else direct, if reverse then direct else other;
    }

    /** The TCP part of ConntrackFeedPacket. */
    method FeedPacket(reverse: bool, m: Segment)
      modifies this
      ensures Abs() == Fed(old(Abs()), reverse, m)
      ensures FlowOf(Abs(), reverse).seqLast == m.seqNo && FlowOf(Abs(), reverse).pos == Wrap(m.seqNo + m.len)
      ensures FlowOf(Abs(), !reverse).seqLast == FlowOf(Abs(), !reverse).pos == m.ackNo
    {
      match m.kind {
        case Syn =>
          if state != SYN {
            state, client, server := SYN, NEW_FLOW, NEW_FLOW;
          }
          client := client.(seq0 := m.seqNo);
        case SynAck =>
          var seq0 := Wrap(m.ackNo - 1);
          if state != SYN && client.seq0 != seq0 {
            state, client, server := SYN, NEW_FLOW, NEW_FLOW;
          }
          if client.seq0 == 0 {
            client := client.(seq0 := seq0);
          }
          server := server.(seq0 := m.seqNo);
        case FinRst =>
          state := FIN;
        case Plain =>
          if state == SYN {
            state := ESTABLISHED;
            if !reverse && server.seq0 == 0 {
              server := server.(seq0 := Wrap(m.ackNo - 1));
            }
          }
      }
      ApplyPos(reverse, m);
    }
  }

  // ----- runs -----

  /** A segment of a run with the true, unbounded position of its end in its direction. */
  datatype Event = Event(reverse: bool, m: Segment, end: int)

  ghost function After(t: Positions, es: seq<Event>): Positions {
    if |es| == 0 then t
    else Fed(After(t, es[..|es|-1]), es[|es|-1].reverse, es[|es|-1].m)
  }

  predicate IsData(e: Event, reverse: bool) {
    e.reverse == reverse && e.m.len > 0
  }

  /** The highest end position of the data sent in one direction, starting from an earlier one. */
  ghost function Highest(start: int, es: seq<Event>, reverse: bool): int {
    if |es| == 0 then start
    else
      var h, e := Highest(start, es[..|es|-1], reverse), es[|es|-1];
      if IsData(e, reverse) && e.end > h then e.end else h
  }

  /** Highest is the maximum of start and the ends of all data segments of that direction. */
  lemma {:induction false} HighestIsMaximum(start: int, es: seq<Event>, reverse: bool)
    ensures Highest(start, es, reverse) >= start
    ensures forall i :: 0 <= i < |es| && IsData(es[i], reverse) ==> es[i].end <= Highest(start, es, reverse)
    ensures Highest(start, es, reverse) == start
            || exists i :: 0 <= i < |es| && IsData(es[i], reverse) && es[i].end == Highest(start, es, reverse)
  {
    if |es| > 0 {
      var n := |es| - 1;
      HighestIsMaximum(start, es[..n], reverse);
      assert forall i | 0 <= i < n :: es[..n][i] == es[i];
    }
  }

  /** The segment belongs to the connection, leaves the SYN stage in its direction, and its end is near. */
  ghost predicate Regular(t: Positions, high: int, e: Event, reverse: bool) {
    && !Restarts(t, e.m)
    && (e.reverse == reverse ==> Entered(t, e.reverse, e.m).state != SYN)
    && (IsData(e, reverse) ==> Wrap(e.end) == Wrap(e.m.seqNo + e.m.len) && -HALF < e.end - high < HALF)
  }

  ghost predicate AllRegular(t: Positions, start: int, es: seq<Event>, reverse: bool) {
    forall i :: 0 <= i < |es| ==>
      Regular(After(t, es[..i]), Highest(start, es[..i], reverse), es[i], reverse)
  }

  /** In the SYN stage the position of the segment itself is the highest. */
  lemma SynStarts(t: Positions, e: Event)
    requires Entered(t, e.reverse, e.m).state == SYN && Wrap(e.end) == Wrap(e.m.seqNo + e.m.len)
    ensures FlowOf(Fed(t, e.reverse, e.m), e.reverse).uppos == Wrap(e.end)
  {
    hide Wrap;
  }

  /** One segment moves uppos to the higher of the two positions. */
  lemma StepHighest(t: Positions, high: int, e: Event, reverse: bool)
    requires Regular(t, high, e, reverse) && FlowOf(t, reverse).uppos == Wrap(high)
    ensures FlowOf(Fed(t, e.reverse, e.m), reverse).uppos ==
      Wrap(if IsData(e, reverse) && e.end > high then e.end else high)
    ensures IsData(e, reverse) ==> FlowOf(Fed(t, e.reverse, e.m), reverse).upposPrev == Wrap(high)
    ensures IsData(e, reverse) ==> FlowOf(Fed(t, e.reverse, e.m), reverse).pos == Wrap(e.end)
  {
    if IsData(e, reverse) {
      Ahead(e.end, high);
    }
    hide Wrap;
  }

  /** From a state in which uppos is right, it stays the highest end position, despite wraparound. */
  lemma {:induction false} RunHighest(t: Positions, start: int, es: seq<Event>, reverse: bool)
    requires FlowOf(t, reverse).uppos == Wrap(start) && AllRegular(t, start, es, reverse)
    ensures FlowOf(After(t, es), reverse).uppos == Wrap(Highest(start, es, reverse))
  {
    hide Wrap, Fed, Regular;
    if |es| > 0 {
      var n := |es| - 1;
      assert AllRegular(t, start, es[..n], reverse) by {
        assert forall i | 0 <= i < n :: es[..n][..i] == es[..i];
      }
      RunHighest(t, start, es[..n], reverse);
      StepHighest(After(t, es[..n]), Highest(start, es[..n], reverse), es[n], reverse);
    }
  }

  /** The same for is_retransmission right after a data segment. */
  lemma RunRetransmission(t: Positions, start: int, es: seq<Event>, reverse: bool)
    requires FlowOf(t, reverse).uppos == Wrap(start) && AllRegular(t, start, es, reverse)
    requires |es| > 0 && IsData(es[|es|-1], reverse)
    ensures IsRetransmission(FlowOf(After(t, es), reverse)) <==>
      es[|es|-1].end <= Highest(start, es[..|es|-1], reverse)
  {
    hide Wrap, Fed, Regular, IsRetransmission;
    var n := |es| - 1;
    var h := Highest(start, es[..n], reverse);
    assert AllRegular(t, start, es[..n], reverse) by {
      assert forall i | 0 <= i < n :: es[..n][..i] == es[..i];
    }
    RunHighest(t, start, es[..n], reverse);
    assert Regular(After(t, es[..n]), h, es[n], reverse);
    StepHighest(After(t, es[..n]), h, es[n], reverse);
    RegularNear(After(t, es[..n]), h, es[n], reverse);
    hide AllRegular;
    Compared(FlowOf(After(t, es), reverse), h, es[n].end);
  }

  lemma RegularNear(t: Positions, high: int, e: Event, reverse: bool)
    requires Regular(t, high, e, reverse) && IsData(e, reverse)
    ensures -HALF < e.end - high < HALF
  {
  }

  lemma Compared(f: Flow, high: int, end: int)
    requires f.upposPrev == Wrap(high) && f.pos == Wrap(end) && -HALF < end - high < HALF
    ensures IsRetransmission(f) <==> end <= high
  {
    Ahead(high, end);
  }

  // ----- a whole run, by the kinds of its segments -----

  /** The client's starting number according to the segment that opens a connection. */
  function ClientNumber(m: Segment): Word {
    if m.kind == Syn then m.seqNo else Wrap(m.ackNo - 1)
  }

  /** Segment j opens a connection: a SYN, or a SYN-ACK that fits none, because no number of the client is known
      or because the SYN stage is over and the number is another one. */
  ghost predicate Opens(es: seq<Event>, j: nat)
    requires j < |es|
  {
    var t, m := After(NEW_TRACK, es[..j]), es[j].m;
    m.kind == Syn ||
    (m.kind == SynAck && t.client.seq0 != Wrap(m.ackNo - 1) && (t.client.seq0 == 0 || t.state != SYN))
  }

  ghost predicate Holds(es: seq<Event>, k: nat, kind: Kind) {
    exists i :: k <= i < |es| && es[i].m.kind == kind
  }

  /** The state and the client's number after segment k - 1 opened the last connection; k is 0 if none did.
      The SYN stage lasts until the first segment that is neither SYN nor SYN-ACK. */
  ghost predicate StageSince(t: Positions, es: seq<Event>, k: nat)
    requires k <= |es|
  {
    && t.state == (if Holds(es, k, FinRst) then FIN else if Holds(es, k, Plain) then ESTABLISHED else SYN)
    && t.client.seq0 == (if k == 0 then 0 else ClientNumber(es[k-1].m))
  }

  lemma FedStage(t: Positions, reverse: bool, m: Segment)
    ensures var u, v := Fed(t, reverse, m), Entered(t, reverse, m);
      u.state == v.state && u.client.seq0 == v.client.seq0 && u.server.seq0 == v.server.seq0
  {
    hide Wrap;
  }

  lemma HoldsLast(es: seq<Event>, k: nat, kind: Kind)
    requires k < |es|
    ensures Holds(es, k, kind) <==> Holds(es[..|es|-1], k, kind) || es[|es|-1].m.kind == kind
  {
    var n := |es| - 1;
    assert forall i :: 0 <= i < n ==> es[..n][i] == es[i];
    if Holds(es[..n], k, kind) {
      var i :| k <= i < n && es[..n][i].m.kind == kind;
      assert es[i].m.kind == kind;
    }
  }

  /** The state over any run: it is told by the kinds of the segments since the last opening. */
  lemma {:induction false} StageIs(es: seq<Event>, k: nat)
    requires k <= |es| && (k > 0 ==> Opens(es, k - 1)) && forall j :: k <= j < |es| ==> !Opens(es, j)
    ensures StageSince(After(NEW_TRACK, es), es, k)
  {
    hide Wrap, Fed;
    var n := |es| - 1;
    if k == |es| {
      if k > 0 {
        FedStage(After(NEW_TRACK, es[..n]), es[n].reverse, es[n].m);
      }
    } else {
      forall j | 0 <= j < n ensures Opens(es[..n], j) <==> Opens(es, j) {
        assert es[..n][..j] == es[..j];
      }
      StageIs(es[..n], k);
      assert !Opens(es, n);
      FedStage(After(NEW_TRACK, es[..n]), es[n].reverse, es[n].m);
      HoldsLast(es, k, FinRst);
      HoldsLast(es, k, Plain);
      hide Holds;
    }
  }

  /** A SYN after the SYN stage starts again from nothing. */
  lemma {:induction false} RestartForgets(before: seq<Event>, es: seq<Event>)
    requires |es| > 0 && es[0].m.kind == Syn && After(NEW_TRACK, before).state != SYN
    ensures After(NEW_TRACK, before + es) == After(NEW_TRACK, es)
    decreases |es|
  {
    var n := |es| - 1;
    assert (before + es)[..|before|+n] == before + es[..n];
    if n == 0 {
      assert before + es[..0] == before;
    } else {
      RestartForgets(before, es[..n]);
    }
  }

  /** One connection: opened by its first segment, with no later SYN and only SYN-ACKs of the same number. */
  ghost predicate Connection(es: seq<Event>) {
    && |es| > 0 && (es[0].m.kind == Syn || es[0].m.kind == SynAck)
    && (forall i :: 0 < i < |es| ==> es[i].m.kind != Syn)
    && (forall i :: 0 < i < |es| && es[i].m.kind == SynAck ==> Wrap(es[i].m.ackNo - 1) == ClientNumber(es[0].m))
  }

  /** The segment ends the SYN stage. */
  predicate Leaves(e: Event) {
    e.m.kind == Plain || e.m.kind == FinRst
  }

  /** p is the number of segments before the SYN stage ends. */
  ghost predicate SynStage(es: seq<Event>, p: nat) {
    p <= |es| && (forall i :: 0 <= i < p ==> !Leaves(es[i])) && (p < |es| ==> Leaves(es[p]))
  }

  /** A connection never restarts, leaves the SYN stage with the first segment that is neither SYN nor SYN-ACK,
      and keeps the number of its client. */
  lemma {:induction false} ConnectionStage(es: seq<Event>, p: nat)
    requires Connection(es) && SynStage(es, p)
    ensures var t := After(NEW_TRACK, es);
      (t.state == SYN <==> p == |es|) && t.client.seq0 == ClientNumber(es[0].m)
    ensures !Restarts(After(NEW_TRACK, es[..|es|-1]), es[|es|-1].m)
  {
    hide Wrap, Fed;
    var n := |es| - 1;
    FedStage(After(NEW_TRACK, es[..n]), es[n].reverse, es[n].m);
    if n > 0 {
      ConnectionPrefix(es, p);
      ConnectionStage(es[..n], if p < n then p else n);
    }
  }

  /** j is the last SYN-ACK, or -1. */
  ghost predicate LastSynAck(es: seq<Event>, j: int) {
    -1 <= j < |es| && (j >= 0 ==> es[j].m.kind == SynAck) && forall i :: j < i < |es| ==> es[i].m.kind != SynAck
  }

  /** The server's number is that of the last SYN-ACK. Without one (or if its number is 0) the client's first segment
      behind the SYN stage tells it, unless another segment ended the stage. */
  lemma {:induction false} ServerNumber(es: seq<Event>, j: int, p: nat)
    requires Connection(es) && LastSynAck(es, j) && SynStage(es, p)
    ensures After(NEW_TRACK, es).server.seq0 ==
      var v := if j < 0 then 0 else es[j].m.seqNo;
      if v == 0 && j < p < |es| && es[p].m.kind == Plain && !es[p].reverse then Wrap(es[p].m.ackNo - 1) else v
  {
    hide Wrap, Fed;
    var n := |es| - 1;
    ConnectionStage(es, p);
    FedStage(After(NEW_TRACK, es[..n]), es[n].reverse, es[n].m);
    if n > 0 {
      var q := if p < n then p else n;
      ConnectionPrefix(es, p);
      ConnectionStage(es[..n], q);
      var i := if j < n then j else EarlierSynAck(es[..n]);
      ServerNumber(es[..n], i, q);
    }
    hide Connection;
  }

  lemma ConnectionPrefix(es: seq<Event>, p: nat)
    requires Connection(es) && SynStage(es, p) && |es| > 1
    ensures var n := |es| - 1; Connection(es[..n]) && SynStage(es[..n], if p < n then p else n)
  {
  }

  ghost function EarlierSynAck(es: seq<Event>): (j: int)
    ensures LastSynAck(es, j)
  {
    if |es| == 0 then -1 else if es[|es|-1].m.kind == SynAck then |es| - 1 else EarlierSynAck(es[..|es|-1])
  }

  lemma {:induction false} AfterConcat(t: Positions, es: seq<Event>, fs: seq<Event>)
    ensures After(t, es + fs) == After(After(t, es), fs)
    decreases |fs|
  {
    if |fs| == 0 {
      assert es + fs == es;
    } else {
      var n := |fs| - 1;
      assert (es + fs)[..|es|+n] == es + fs[..n];
      AfterConcat(t, es, fs[..n]);
    }
  }

  /** Segment s is the last one of its direction in the SYN stage; the ends are the true positions, and each is near
      the highest one before it. */
  ghost predicate Positioned(es: seq<Event>, s: nat, reverse: bool) {
    && s < |es| && es[s].reverse == reverse && !Leaves(es[s]) && Wrap(es[s].end) == Wrap(es[s].m.seqNo + es[s].m.len)
    && (forall i :: s < i < |es| && IsData(es[i], reverse) ==>
          && Wrap(es[i].end) == Wrap(es[i].m.seqNo + es[i].m.len)
          && -HALF < es[i].end - Highest(es[s].end, es[s+1..i], reverse) < HALF)
  }

  /** The part of a connection behind s is regular. */
  lemma BehindSyn(es: seq<Event>, s: nat, p: nat, reverse: bool)
    requires Connection(es) && SynStage(es, p) && Positioned(es, s, reverse) && s < p
    requires forall i :: s < i < p ==> es[i].reverse != reverse
    ensures var t := After(NEW_TRACK, es[..s+1]);
      FlowOf(t, reverse).uppos == Wrap(es[s].end) && AllRegular(t, es[s].end, es[s+1..], reverse)
    ensures After(After(NEW_TRACK, es[..s+1]), es[s+1..]) == After(NEW_TRACK, es)
  {
    var t, rest := After(NEW_TRACK, es[..s+1]), es[s+1..];
    forall i | 0 <= i < |rest|
      ensures Regular(After(t, rest[..i]), Highest(es[s].end, rest[..i], reverse), rest[i], reverse)
    {
      OneRegular(es, s, p, reverse, i);
    }
    StartOfRun(es, s, p);
    assert es == es[..s+1] + rest;
    AfterConcat(NEW_TRACK, es[..s+1], rest);
  }

  lemma StartOfRun(es: seq<Event>, s: nat, p: nat)
    requires Connection(es) && SynStage(es, p) && s < p && Wrap(es[s].end) == Wrap(es[s].m.seqNo + es[s].m.len)
    ensures FlowOf(After(NEW_TRACK, es[..s+1]), es[s].reverse).uppos == Wrap(es[s].end)
  {
    hide Wrap, Fed;
    var upto := es[..s+1];
    assert upto[..s] == es[..s];
    ConnectionStage(upto, s + 1);
    FedStage(After(NEW_TRACK, es[..s]), es[s].reverse, es[s].m);
    SynStarts(After(NEW_TRACK, es[..s]), es[s]);
  }

  lemma OneRegular(es: seq<Event>, s: nat, p: nat, reverse: bool, i: nat)
    requires Connection(es) && SynStage(es, p) && Positioned(es, s, reverse) && s < p && s + 1 + i < |es|
    requires forall i :: s < i < p ==> es[i].reverse != reverse
    ensures var rest := es[s+1..];
      Regular(After(After(NEW_TRACK, es[..s+1]), rest[..i]), Highest(es[s].end, rest[..i], reverse), rest[i], reverse)
  {
    hide Regular, Highest, After, Connection, SynStage, Positioned;
    RegularAt(es, s, p, reverse, s + 1 + i);
    SplitAt(es, s + 1, i);
    AfterConcat(NEW_TRACK, es[..s+1], es[s+1..][..i]);
  }

  lemma RegularAt(es: seq<Event>, s: nat, p: nat, reverse: bool, k: nat)
    requires Connection(es) && SynStage(es, p) && Positioned(es, s, reverse) && s < k < |es|
    requires forall i :: s < i < p ==> es[i].reverse != reverse
    ensures Regular(After(NEW_TRACK, es[..k]), Highest(es[s].end, es[s+1..k], reverse), es[k], reverse)
  {
    NoRestart(es, p, k);
    hide Wrap, Fed, Highest, After, Connection, SynStage, Restarts, Entered;
  }

  lemma SplitAt<T>(s: seq<T>, a: nat, i: nat)
    requires a + i < |s|
    ensures s[..a] + s[a..][..i] == s[..a+i] && s[a..a+i] == s[a..][..i] && s[a..][i] == s[a+i]
  {
  }

  lemma NoRestart(es: seq<Event>, p: nat, k: nat)
    requires Connection(es) && SynStage(es, p) && k < |es|
    ensures var t := After(NEW_TRACK, es[..k]);
      !Restarts(t, es[k].m) && (Entered(t, es[k].reverse, es[k].m).state != SYN <==> p <= k)
  {
    hide Wrap, Fed, Restarts, Entered;
    var upto := es[..k+1];
    assert upto[..k] == es[..k];
    ConnectionStage(upto, if p <= k then p else k + 1);
    FedStage(After(NEW_TRACK, es[..k]), es[k].reverse, es[k].m);
  }

  /** Over a whole connection, uppos is the highest end position of the data sent in a direction since its last
      segment in the SYN stage, despite wraparound. */
  lemma UpposIsHighest(es: seq<Event>, s: nat, p: nat, reverse: bool)
    requires Connection(es) && SynStage(es, p) && Positioned(es, s, reverse) && s < p
    requires forall i :: s < i < p ==> es[i].reverse != reverse
    ensures FlowOf(After(NEW_TRACK, es), reverse).uppos == Wrap(Highest(es[s].end, es[s+1..], reverse))
  {
    hide Wrap, Fed, AllRegular;
    BehindSyn(es, s, p, reverse);
    RunHighest(After(NEW_TRACK, es[..s+1]), es[s].end, es[s+1..], reverse);
  }

  /** Right after a data segment behind the SYN stage, is_retransmission says whether it ends no later than the
      highest end before it. */
  lemma RetransmissionIs(es: seq<Event>, s: nat, p: nat, reverse: bool)
    requires Connection(es) && SynStage(es, p) && Positioned(es, s, reverse) && s < p && s + 1 < |es|
    requires forall i :: s < i < p ==> es[i].reverse != reverse
    requires IsData(es[|es|-1], reverse)
    ensures IsRetransmission(FlowOf(After(NEW_TRACK, es), reverse)) <==>
      es[|es|-1].end <= Highest(es[s].end, es[s+1..|es|-1], reverse)
  {
    hide Wrap, Fed, AllRegular, IsRetransmission, Highest;
    BehindSyn(es, s, p, reverse);
    var rest := es[s+1..];
    assert rest[..|rest|-1] == es[s+1..|es|-1];
    RunRetransmission(After(NEW_TRACK, es[..s+1]), es[s].end, rest, reverse);
  }

  /** A side is flagged exactly if a segment came whose number, or acknowledgement for it, was 2 GiB or more ahead of
      the side's starting number. */
  lemma {:induction false} Over2G(es: seq<Event>, reverse: bool)
    requires |es| == 0 || Connection(es)
    ensures FlowOf(After(NEW_TRACK, es), reverse).over2G <==> exists i :: 0 <= i < |es| && FarAhead(es, i, reverse)
  {
    if |es| > 0 {
      var n := |es| - 1;
      assert n > 0 ==> Connection(es[..n]);
      OneFlag(es, reverse);
      hide After, FarAhead, Connection, FlowOf;
      Over2G(es[..n], reverse);
      FarLast(es, reverse);
    } else {
      hide Connection;
    }
  }

  lemma OneFlag(es: seq<Event>, reverse: bool)
    requires Connection(es)
    ensures var n := |es| - 1;
      FlowOf(After(NEW_TRACK, es), reverse).over2G <==>
      (FlowOf(After(NEW_TRACK, es[..n]), reverse).over2G || FarAhead(es, n, reverse))
  {
    hide Wrap, Fed, FlowOf, Far;
    var n := |es| - 1;
    ConnectionStage(es, StageEnd(es));
    FlagStep(After(NEW_TRACK, es[..n]), es[n], reverse);
    assert es[..n+1] == es;
  }

  lemma FarLast(es: seq<Event>, reverse: bool)
    requires |es| > 0
    ensures var n := |es| - 1;
      (exists i :: 0 <= i < |es| && FarAhead(es, i, reverse)) <==>
      ((exists i :: 0 <= i < n && FarAhead(es[..n], i, reverse)) || FarAhead(es, n, reverse))
  {
    var n := |es| - 1;
    forall i | 0 <= i < n ensures FarAhead(es[..n], i, reverse) <==> FarAhead(es, i, reverse) {
      assert es[..n][..i+1] == es[..i+1];
    }
    hide FarAhead;
  }

  ghost predicate FarAhead(es: seq<Event>, i: nat, reverse: bool)
    requires i < |es|
  {
    Far(FlowOf(After(NEW_TRACK, es[..i+1]), reverse), es[i], reverse)
  }

  predicate Far(f: Flow, e: Event, reverse: bool) {
    Wrap((if e.reverse == reverse then e.m.seqNo else e.m.ackNo) - f.seq0) >= 0x8000_0000
  }

  lemma FlagStep(t: Positions, e: Event, reverse: bool)
    requires !Restarts(t, e.m)
    ensures var f := FlowOf(Fed(t, e.reverse, e.m), reverse);
      f.over2G <==> (FlowOf(t, reverse).over2G || Far(f, e, reverse))
  {
    hide Wrap;
  }

  ghost function StageEnd(es: seq<Event>): (p: nat)
    ensures SynStage(es, p)
  {
    if |es| == 0 then 0
    else
      var p := StageEnd(es[..|es|-1]);
      if p < |es| - 1 then p else if Leaves(es[|es|-1]) then |es| - 1 else |es|
  }

  // ----- the pool -----

  datatype Conn = Conn(l3proto: Byte, l4proto: Byte, src: seq<Byte>, dst: seq<Byte>, sport: nat, dport: nat)
  datatype Packet = Tcp(m: Segment) | Udp

  /** connswap. */
  function Swap(c: Conn): Conn {
    Conn(c.l3proto, c.l4proto, c.dst, c.src, c.dport, c.sport)
  }

  function FedPacket(t: Positions, reverse: bool, p: Packet): Positions {
    match p
    case Tcp(m) => Fed(t, reverse, m)
    case Udp => t
  }

  predicate Creates(p: Packet) {
    p.Udp? || p.m.kind == Syn || p.m.kind == SynAck
  }

  type Table = map<Conn, Positions>

  /** No connection is stored in both directions. */
  ghost predicate OneWay(pool: Table) {
    forall c :: c in pool && Swap(c) in pool ==> Swap(c) == c
  }

  /** The packet belongs to an entry or creates one. */
  predicate Found(pool: Table, c: Conn, p: Packet) {
    c in pool || Swap(c) in pool || Creates(p)
  }

  /** The packet runs against the direction of its entry; an entry created by a SYN-ACK starts with its receiver. */
  predicate Reverse(pool: Table, c: Conn, p: Packet) {
    c !in pool && (Swap(c) in pool || (p.Tcp? && p.m.kind == SynAck))
  }

  ghost function PoolFed(pool: Table, c: Conn, p: Packet): Table {
    if Found(pool, c, p) then
      var r := Reverse(pool, c, p);
      var k := if r then Swap(c) else c;
      pool[k := FedPacket(if k in pool then pool[k] else NEW_TRACK, r, p)]
    else pool
  }

  /** A packet of the opposite direction finds the same entry, with the flag inverted. */
  lemma BothDirections(pool: Table, c: Conn, p: Packet, q: Packet)
    requires OneWay(pool) && Swap(c) != c && Found(pool, c, p)
    ensures var after := PoolFed(pool, c, p);
      && OneWay(after) && Found(after, Swap(c), q)
      && Reverse(after, Swap(c), q) == !Reverse(pool, c, p)
      && PoolFed(after, Swap(c), q).Keys == after.Keys
  {
    hide FedPacket;
  }

  /** The packets of one connection of the pool, in both directions. */
  ghost function PoolAfter(pool: Table, c: Conn, es: seq<Event>): Table {
    if |es| == 0 then pool
    else
      var n := |es| - 1;
      PoolFed(PoolAfter(pool, c, es[..n]), if es[n].reverse then Swap(c) else c, Tcp(es[n].m))
  }

  /** The entry of a connection that a SYN or SYN-ACK creates holds what the run of its packets, in both directions,
      makes of a new track; every other entry stays as it was. */
  lemma {:induction false} PoolRun(pool: Table, c: Conn, es: seq<Event>)
    requires c !in pool && Swap(c) !in pool && Swap(c) != c && |es| > 0
    requires if es[0].reverse then es[0].m.kind == SynAck else es[0].m.kind == Syn
    ensures PoolAfter(pool, c, es) == pool[c := After(NEW_TRACK, es)]
  {
    hide Fed;
    var n := |es| - 1;
    assert Swap(Swap(c)) == c;
    if n == 0 {
      assert PoolAfter(pool, c, es[..0]) == pool;
    } else {
      PoolRun(pool, c, es[..n]);
    }
  }

  /** Packets of no stored connection are ignored unless they open one. */
  lemma PoolIgnores(pool: Table, c: Conn, p: Packet)
    requires c !in pool && Swap(c) !in pool
    ensures PoolFed(pool, c, p) == pool <==> p.Tcp? && (p.m.kind == Plain || p.m.kind == FinRst)
  {
    hide FedPacket;
  }

  class Pool {
    var pool: Table

    ghost predicate Valid()
      reads this
    {
      OneWay(pool)
    }

    constructor ()
      ensures Valid() && pool == map[]
    {
      pool := map[];
    }

    /** ConntrackPoolFeedPool for a packet of the connection c. */
    method Feed(c: Conn, p: Packet) returns (found: bool, reverse: bool)
      requires Valid()
      modifies this
      ensures Valid() && pool == PoolFed(old(pool), c, p)
      ensures found <==> Found(old(pool), c, p)
      ensures found <==> c in pool || Swap(c) in pool
      ensures found ==> reverse == Reverse(old(pool), c, p)
    {
      var conn := Swap(c);
      if c in pool {
        found, reverse := true, false;
        pool := pool[c := FedPacket(pool[c], false, p)];
      } else if conn in pool {
        found, reverse := true, true;
        pool := pool[conn := FedPacket(pool[conn], true, p)];
      } else {
        reverse := p.Tcp? && p.m.kind == SynAck;
        found := (p.Tcp? && p.m.kind == Syn) || reverse || p.Udp?;
        if found {
          var k := if reverse then conn else c;
          pool := pool[k := FedPacket(NEW_TRACK, reverse, p)];
        }
      }
    }
  }
}
