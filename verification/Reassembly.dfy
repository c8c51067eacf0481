/** t_reassemble of conntrack.c: a byte stream put together from TCP segments with overlaps. */
module Reassembly {
  import opened Numbers
  import opened Sequences
  import opened Bytes
  import opened Serial

  const REASM_MAX_NEG := 0x10_0000

  /** What is known of a session: the first sequence number, the expected size and the bytes received. */
  datatype Session = Session(start: Word, size: nat, data: seq<Byte>)

  /** The position in the stream that the sequence number seq means: the one nearest to the end of the data. */
  function Position(s: Session, seq_: Word): int {
    var d := Wrap(seq_ - (s.start + |s.data|));
    |s.data| + (if d < HALF then d else d - U32)
  }

  /** data with payload written at position p, as far as it lies behind the start. */
  function Overwritten(data: seq<Byte>, p: int, payload: seq<Byte>): (r: seq<Byte>)
    requires p <= |data|
    ensures |r| == if p + |payload| > |data| then p + |payload| else |data|
  {
    if p + |payload| <= 0 then data
    else
      var q := if p < 0 then 0 else p;
      data[..q] + payload[q-p..] + (if p + |payload| < |data| then data[p+|payload|..] else [])
  }

  /** Which segments are accepted: they leave no gap, do not reach too far back and fit the expected size. */
  predicate Accepts(s: Session, p: int, len: nat) {
    |s.data| - REASM_MAX_NEG <= p <= |s.data| && (p + len <= 0 || p + len <= s.size)
  }

  ghost function Fed(s: Session, seq_: Word, payload: seq<Byte>): Session {
    var p := Position(s, seq_);
    if Accepts(s, p, |payload|) then s.(data := Overwritten(s.data, p, payload)) else s
  }

  class Reassemble {
    var packet: array<Byte>
    var seq_: Word
    var size: nat
    var sizePresent: nat
    ghost var start: Word

    ghost predicate Valid()
      reads this
    {
      sizePresent <= size == packet.Length && seq_ == Wrap(start + sizePresent)
    }

    ghost function Abs(): Session
      requires Valid()
      reads this, packet
    {
      Session(start, size, packet[..sizePresent])
    }

    /** ReasmInit. */
    constructor (sizeRequested: nat, seqStart: Word)
      ensures Valid() && fresh(packet) && Abs() == Session(seqStart, sizeRequested, [])
    {
      packet := new Byte[sizeRequested];
      size, sizePresent, seq_, start := sizeRequested, 0, seqStart, seqStart;
    }

    /** ReasmHasSpace. */
    method HasSpace(len: nat) returns (r: bool)
      requires Valid()
      ensures r <==> sizePresent + len <= size
      ensures r <==> Accepts(Abs(), |Abs().data|, len)
    {
      r := sizePresent + len <= size;
    }

    /** ReasmFeed. */
    method Feed(seqNo: Word, payload: seq<Byte>) returns (ok: bool)
      requires Valid()
      modifies this, packet
      ensures Valid() && packet == old(packet)
      ensures Abs() == Fed(old(Abs()), seqNo, payload)
      ensures ok <==> Accepts(old(Abs()), Position(old(Abs()), seqNo), |payload|)
      ensures !ok ==> packet[..] == old(packet[..]) && sizePresent == old(sizePresent) && seq_ == old(seq_)
      ensures FedNumbers(old(packet[..sizePresent]), size, old(seq_), seqNo, payload, ok, packet[..sizePresent])
    {
      FeedMeaning(Abs(), seqNo, payload);
      hide Wrap, Position, Fed, Accepts, FedNumbers;
      ok := Take(seqNo, payload);
    }

    /** The statements of ReasmFeed. */
    method Take(seqNo: Word, payload: seq<Byte>) returns (ok: bool)
      requires Valid()
      modifies this, packet
      ensures Valid() && packet == old(packet) && size == old(size)
      ensures Abs() == Fed(old(Abs()), seqNo, payload)
      ensures ok <==> Accepts(old(Abs()), Position(old(Abs()), seqNo), |payload|)
      ensures !ok ==> packet[..] == old(packet[..]) && sizePresent == old(sizePresent) && seq_ == old(seq_)
    {
      ghost var s := Abs();
      NearEnd(s, seqNo, seq_);
      FedIs(s, seqNo, payload);
      ghost var p := Position(s, seqNo);
      AcceptsIs(s, p, |payload|);
      hide Wrap, Position, Overwritten, Patched, Fed, Accepts;
      var dseq := Wrap(seqNo - seq_);
      if dseq != 0 && dseq < REASM_MAX_NEG {
        return false;
      }
      var negOverlap := Wrap(seq_ - seqNo);
      if negOverlap > REASM_MAX_NEG {
        return false;
      }
      assert Position(s, seqNo) == sizePresent - negOverlap;
      ok := Merge(negOverlap, payload);
    }

    /** The rest of ReasmFeed: payload overlaps the data by negOverlap bytes, or reaches further back. */
    method Merge(overlap: nat, payload: seq<Byte>) returns (ok: bool)
      requires Valid()
      modifies this, packet
      ensures Valid() && packet == old(packet)
      ensures var s, p := old(Abs()), old(sizePresent) - overlap;
        && (ok <==> p + |payload| <= 0 || p + |payload| <= s.size)
        && Abs() == if ok then s.(data := Overwritten(s.data, p, payload)) else s
      ensures !ok ==> packet[..] == old(packet[..]) && sizePresent == old(sizePresent) && seq_ == old(seq_)
    {
      hide Wrap, Overwritten, Patched;
      ghost var data, p := packet[..sizePresent], sizePresent - overlap;
      var negOverlap, len := overlap, |payload|;
      var szignore := if negOverlap > sizePresent then negOverlap - sizePresent else 0;
      if szignore >= len {
        AllBefore(data, p, payload);
        return true;
      }
      var szcopy := len - szignore;
      negOverlap := negOverlap - szignore;
      if sizePresent - negOverlap + szcopy > size {
        return false;
      }
      StoredIs(data, p, payload, szignore);
      Store(sizePresent - negOverlap, payload[szignore..], sizePresent);
      if szcopy > negOverlap {
        WrapAdd(start + sizePresent, szcopy - negOverlap);
        seq_ := Wrap(seq_ + szcopy - negOverlap);
        sizePresent := sizePresent + szcopy - negOverlap;
      }
      assert packet[..sizePresent] == Overwritten(data, p, payload);
      return true;
    }

    /** The memcpy of ReasmFeed. */
    method Store(to: nat, bytes: seq<Byte>, present: nat)
      requires to <= present <= packet.Length && to + |bytes| <= packet.Length
      modifies packet
      ensures packet[..Later(present, to + |bytes|)] == Patched(old(packet[..present]), to, bytes)
    {
      ghost var was := packet[..];
      forall i | 0 <= i < |bytes| {
        packet[to + i] := bytes[i];
      }
      PatchedIs(was, to, bytes, present, packet[..]);
    }
  }

  function Later(i: nat, j: int): nat {
    if i < j then j else i
  }

  /** now is was, except that payload stands at position p of the stream. */
  ghost predicate Replaced(was: seq<Byte>, p: int, payload: seq<Byte>, now: seq<Byte>) {
    && |now| == Later(|was|, p + |payload|) && p <= |was|
    && forall i :: 0 <= i < |now| ==>
         now[i] == if p <= i < p + |payload| then payload[i-p] else if i < |was| then was[i] else 0
  }

  lemma OverwrittenReplaces(data: seq<Byte>, p: int, payload: seq<Byte>)
    requires p <= |data|
    ensures Replaced(data, p, payload, Overwritten(data, p, payload))
    ensures |Overwritten(data, p, payload)| == if p + |payload| > |data| then p + |payload| else |data|
  {
    hide Overwritten;
    forall i | 0 <= i < |Overwritten(data, p, payload)|
      ensures Overwritten(data, p, payload)[i] ==
        if p <= i < p + |payload| then payload[i-p] else if i < |data| then data[i] else 0
    {
      OverwrittenAt(data, p, payload, i);
    }
  }

  /** What ReasmFeed promises, in numbers: how far the segment begins behind the end of the data, modulo 2^32,
      decides; an accepted payload stands at its place afterwards, up to its end. */
  ghost predicate FedNumbers(was: seq<Byte>, size: nat, end: Word, seqNo: Word, payload: seq<Byte>, ok: bool,
                             now: seq<Byte>)
  {
    var back := Wrap(end - seqNo);
    && (ok <==> back <= 0x10_0000 && |was| - back + |payload| <= size)
    && (1 <= Wrap(seqNo - end) <= 0xF_FFFF ==> !ok)
    && |now| == (if ok && |payload| > back then |was| - back + |payload| else |was|)
    && (if ok then Replaced(was, |was| - back, payload, now) else now == was)
  }

  lemma FeedMeaning(s: Session, seqNo: Word, payload: seq<Byte>)
    requires |s.data| <= s.size
    ensures FedNumbers(s.data, s.size, Wrap(s.start + |s.data|), seqNo, payload,
                       Accepts(s, Position(s, seqNo), |payload|), Fed(s, seqNo, payload).data)
  {
    hide Wrap, Position, Overwritten, Accepts, Fed, Replaced;
    var p := Position(s, seqNo);
    AcceptsNumbers(s, seqNo, |payload|);
    FedIs(s, seqNo, payload);
    if Accepts(s, p, |payload|) {
      OverwrittenReplaces(s.data, p, payload);
      assert Replaced(s.data, p, payload, Fed(s, seqNo, payload).data);
    } else {
      assert Fed(s, seqNo, payload).data == s.data;
    }
  }

  lemma AcceptsNumbers(s: Session, seqNo: Word, len: nat)
    requires |s.data| <= s.size
    ensures var end, p := Wrap(s.start + |s.data|), Position(s, seqNo);
      && (Accepts(s, p, len) <==> Wrap(end - seqNo) <= 0x10_0000 && |s.data| - Wrap(end - seqNo) + len <= s.size)
      && (Accepts(s, p, len) ==> p == |s.data| - Wrap(end - seqNo))
      && (1 <= Wrap(seqNo - end) <= 0xF_FFFF ==> !Accepts(s, p, len))
  {
    NearEnd(s, seqNo, Wrap(s.start + |s.data|));
    hide Wrap, Position;
  }

  /** data with bytes at index i, which may reach beyond its end. */
  function Patched(data: seq<Byte>, i: nat, bytes: seq<Byte>): seq<Byte>
    requires i <= |data|
  {
    data[..i] + bytes + (if i + |bytes| < |data| then data[i+|bytes|..] else [])
  }

  lemma PatchedIs(was: seq<Byte>, to: nat, bytes: seq<Byte>, present: nat, now: seq<Byte>)
    requires to <= present <= |was| == |now| && to + |bytes| <= |was|
    requires forall i :: 0 <= i < |now| ==> now[i] == if to <= i < to + |bytes| then bytes[i-to] else was[i]
    ensures now[..Later(present, to + |bytes|)] == Patched(was[..present], to, bytes)
  {
  }

  lemma AcceptsIs(s: Session, p: int, len: nat)
    ensures Accepts(s, p, len) <==> |s.data| - REASM_MAX_NEG <= p <= |s.data| && (p + len <= 0 || p + len <= s.size)
  {
  }

  lemma FedIs(s: Session, seqNo: Word, payload: seq<Byte>)
    ensures var p := Position(s, seqNo);
      if Accepts(s, p, |payload|) then
        p <= |s.data| && Fed(s, seqNo, payload) == s.(data := Overwritten(s.data, p, payload))
      else Fed(s, seqNo, payload) == s
  {
  }

  lemma AllBefore(data: seq<Byte>, p: int, payload: seq<Byte>)
    requires p <= |data| && (|payload| == 0 || p + |payload| <= 0)
    ensures Overwritten(data, p, payload) == data
  {
  }

  lemma StoredIs(data: seq<Byte>, p: int, payload: seq<Byte>, ignore: nat)
    requires p <= |data| && ignore == (if p < 0 then -p else 0) < |payload|
    ensures Overwritten(data, p, payload) == Patched(data, p + ignore, payload[ignore..])
  {
  }

  /** The two differences that ReasmFeed computes, in terms of positions. */
  lemma NearEnd(s: Session, seqNo: Word, end: Word)
    requires end == Wrap(s.start + |s.data|)
    ensures var d := Position(s, seqNo) - |s.data|;
      && -HALF <= d < HALF
      && Wrap(seqNo - end) == (if d >= 0 then d else d + U32)
      && Wrap(end - seqNo) == (if d > 0 then U32 - d else -d)
  {
    WrapBoth(seqNo, s.start + |s.data|);
    hide Wrap;
  }

  // ----- runs over a byte stream -----

  /** A segment, by its true position in the stream; negative positions lie before the session. */
  datatype Segment = Segment(at: int, payload: seq<Byte>)

  ghost predicate Prefix(stream: int -> Byte, data: seq<Byte>) {
    forall i :: 0 <= i < |data| ==> data[i] == stream(i)
  }

  ghost predicate Agrees(stream: int -> Byte, m: Segment) {
    forall i :: 0 <= i < |m.payload| ==> m.payload[i] == stream(m.at + i)
  }

  /** The segment reaches ReasmFeed with its position wrapped to 32 bits. */
  ghost function FedSegment(s: Session, m: Segment): Session {
    Fed(s, Wrap(s.start + m.at), m.payload)
  }

  ghost function Run(s: Session, ms: seq<Segment>): Session {
    if |ms| == 0 then s else FedSegment(Run(s, ms[..|ms|-1]), ms[|ms|-1])
  }

  ghost predicate Near(s: Session, m: Segment) {
    -HALF <= m.at - |s.data| < HALF
  }

  /** No segment is half the range away from the end of the data when it is fed. */
  ghost predicate AllNear(s: Session, ms: seq<Segment>) {
    forall i :: 0 <= i < |ms| ==> Near(Run(s, ms[..i]), ms[i])
  }

  /** The sequence number stands for the true position. */
  lemma PositionIs(s: Session, m: Segment)
    requires Near(s, m)
    ensures Position(s, Wrap(s.start + m.at)) == m.at
  {
    var end := s.start + |s.data|;
    WrapNear(s.start + m.at, end);
    WrapSub(s.start + m.at, end);
    WrapBoth(Wrap(s.start + m.at), end);
  }

  /** New data replaces old. */
  lemma OverwrittenAt(data: seq<Byte>, p: int, payload: seq<Byte>, i: nat)
    requires p <= |data| && i < |Overwritten(data, p, payload)|
    ensures p <= i < p + |payload| ==> Overwritten(data, p, payload)[i] == payload[i-p]
    ensures !(p <= i < p + |payload|) ==> i < |data| && Overwritten(data, p, payload)[i] == data[i]
  {
    hide Overwritten, Patched;
    var ignore := if p < 0 then -p else 0;
    if ignore < |payload| {
      StoredIs(data, p, payload, ignore);
      PatchedAt(data, p + ignore, payload[ignore..], i);
    } else {
      AllBefore(data, p, payload);
    }
  }

  lemma PatchedAt(data: seq<Byte>, i: nat, bytes: seq<Byte>, k: nat)
    requires i <= |data| && k < |Patched(data, i, bytes)|
    ensures i <= k < i + |bytes| ==> Patched(data, i, bytes)[k] == bytes[k-i]
    ensures !(i <= k < i + |bytes|) ==> k < |data| && Patched(data, i, bytes)[k] == data[k]
  {
    ConcatAt(data[..i], bytes, if i + |bytes| < |data| then data[i+|bytes|..] else [], k);
  }

  lemma OverwrittenPrefix(stream: int -> Byte, data: seq<Byte>, m: Segment)
    requires Prefix(stream, data) && Agrees(stream, m) && m.at <= |data|
    ensures Prefix(stream, Overwritten(data, m.at, m.payload))
  {
    hide Overwritten;
    var r := Overwritten(data, m.at, m.payload);
    forall i | 0 <= i < |r| ensures r[i] == stream(i) {
      OverwrittenAt(data, m.at, m.payload, i);
      assert m.at <= i < m.at + |m.payload| ==> m.payload[i - m.at] == stream(m.at + (i - m.at));
    }
  }

  /** Feeding a segment of the stream leaves a longer or equal prefix of the stream. */
  lemma FedHoldsStream(stream: int -> Byte, s: Session, m: Segment)
    requires Near(s, m) && Prefix(stream, s.data) && Agrees(stream, m) && |s.data| <= s.size
    ensures var t := FedSegment(s, m);
      && Prefix(stream, t.data) && |t.data| <= t.size == s.size && t.start == s.start
      && |t.data| ==
         if Accepts(s, m.at, |m.payload|) && m.at + |m.payload| > |s.data| then m.at + |m.payload| else |s.data|
  {
    hide Position, Prefix, Agrees, Overwritten, Wrap;
    PositionIs(s, m);
    if Accepts(s, m.at, |m.payload|) {
      OverwrittenPrefix(stream, s.data, m);
    }
  }

  /** Over any run the session holds exactly a prefix of the stream and never more than its size. */
  lemma {:induction false} RunHoldsStream(stream: int -> Byte, start: Word, size: nat, ms: seq<Segment>)
    requires AllNear(Session(start, size, []), ms) && forall i :: 0 <= i < |ms| ==> Agrees(stream, ms[i])
    ensures var t := Run(Session(start, size, []), ms);
      Prefix(stream, t.data) && |t.data| <= t.size == size && t.start == start
  {
    hide Agrees, FedSegment, Near;
    var s := Session(start, size, []);
    if |ms| > 0 {
      var n := |ms| - 1;
      assert AllNear(s, ms[..n]) by {
        assert forall i | 0 <= i < n :: ms[..n][..i] == ms[..i];
      }
      RunHoldsStream(stream, start, size, ms[..n]);
      FedHoldsStream(stream, Run(s, ms[..n]), ms[n]);
    }
  }

  /** A message that arrives in order, in pieces of any sizes, is received completely. */
  lemma {:induction false} InOrderCompletes(start: Word, size: nat, ms: seq<Segment>)
    requires forall i :: 0 <= i < |ms| ==> ms[i].at == |Joined(ms[..i])|
    requires |Joined(ms)| <= size
    ensures Run(Session(start, size, []), ms) == Session(start, size, Joined(ms))
  {
    hide FedSegment;
    var s := Session(start, size, []);
    if |ms| > 0 {
      var n := |ms| - 1;
      assert forall i | 0 <= i < n :: ms[..n][..i] == ms[..i];
      InOrderCompletes(start, size, ms[..n]);
      AppendSegment(Run(s, ms[..n]), ms[n]);
    }
  }

  ghost function Joined(ms: seq<Segment>): seq<Byte> {
    if |ms| == 0 then [] else Joined(ms[..|ms|-1]) + ms[|ms|-1].payload
  }

  lemma AppendSegment(s: Session, m: Segment)
    requires m.at == |s.data| && |s.data| + |m.payload| <= s.size
    ensures FedSegment(s, m) == s.(data := s.data + m.payload)
  {
    PositionIs(s, m);
    hide Position, Wrap, Overwritten;
    OverwrittenAtEnd(s.data, m.payload);
  }

  lemma OverwrittenAtEnd(data: seq<Byte>, payload: seq<Byte>)
    ensures Overwritten(data, |data|, payload) == data + payload
  {
  }

  /** How far the segments reach. */
  ghost function Reach(ms: seq<Segment>): int {
    if |ms| == 0 then 0
    else
      var r, m := Reach(ms[..|ms|-1]), ms[|ms|-1];
      if m.at + |m.payload| > r then m.at + |m.payload| else r
  }

  /** Reach is the maximum of 0 and all ends. */
  lemma {:induction false} ReachIsMaximum(ms: seq<Segment>)
    ensures Reach(ms) >= 0 && forall i :: 0 <= i < |ms| ==> ms[i].at + |ms[i].payload| <= Reach(ms)
    ensures Reach(ms) == 0 || exists i :: 0 <= i < |ms| && ms[i].at + |ms[i].payload| == Reach(ms)
  {
    if |ms| > 0 {
      var n := |ms| - 1;
      ReachIsMaximum(ms[..n]);
      assert forall i :: 0 <= i < n ==> ms[..n][i] == ms[i];
    }
  }

  /** No segment leaves a gap, reaches back more than 1 MiB or goes beyond the expected size. */
  ghost predicate Gapless(size: nat, ms: seq<Segment>) {
    forall i :: 0 <= i < |ms| ==>
      Reach(ms[..i]) - 0x10_0000 <= ms[i].at <= Reach(ms[..i]) && ms[i].at + |ms[i].payload| <= size
  }

  /** Pieces of a stream that overlap in any way, some of them again and again, put it together without a gap:
      the session then holds the stream as far as they reach. */
  lemma {:induction false} OverlapsComplete(stream: int -> Byte, start: Word, size: nat, ms: seq<Segment>)
    requires Gapless(size, ms) && forall i :: 0 <= i < |ms| ==> Agrees(stream, ms[i])
    ensures var t := Run(Session(start, size, []), ms);
      |t.data| == Reach(ms) <= size && Prefix(stream, t.data) && t.start == start && t.size == size
  {
    hide Agrees, FedSegment;
    var s := Session(start, size, []);
    if |ms| > 0 {
      var n := |ms| - 1;
      assert Gapless(size, ms[..n]) by {
        assert forall i | 0 <= i < n :: ms[..n][..i] == ms[..i];
      }
      OverlapsComplete(stream, start, size, ms[..n]);
      hide Gapless, Run;
      PieceAccepted(stream, Run(s, ms[..n]), ms[n]);
    }
  }

  lemma PieceAccepted(stream: int -> Byte, s: Session, m: Segment)
    requires Prefix(stream, s.data) && Agrees(stream, m) && |s.data| <= s.size
    requires |s.data| - 0x10_0000 <= m.at <= |s.data| && m.at + |m.payload| <= s.size
    ensures var t := FedSegment(s, m);
      && Prefix(stream, t.data) && t.size == s.size && t.start == s.start
      && |t.data| == if m.at + |m.payload| > |s.data| then m.at + |m.payload| else |s.data|
  {
    FedHoldsStream(stream, s, m);
  }
}
