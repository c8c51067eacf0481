/** The records of dnsredir.c: their keys, and what the two handlers do to them. */
module DnsRecords {
  import opened Numbers
  import opened Bytes

  type Port = p: int | 0 <= p < 0x1_0000

  /** An address field: four 32-bit words, of which IPv4 uses the first. */
  datatype Addr = Addr(w0: Word, w1: Word, w2: Word, w3: Word)

  /** ipv4_copy_addr and ipv6_copy_addr. */
  function CopyAddr(ipv6: bool, src: Addr): Addr {
    if ipv6 then src else Addr(src.w0, 0, 0, 0)
  }

  // ----- keys -----

  const UDP_CONNRECORD_KEY_LEN := 19
  type Key = k: seq<Byte> | |k| == UDP_CONNRECORD_KEY_LEN witness seq(UDP_CONNRECORD_KEY_LEN, _ => 0)

  function AddrBytes(a: Addr): (r: seq<Byte>)
    ensures |r| == 16
  {
    ToLe(a.w0, 4) + ToLe(a.w1, 4) + ToLe(a.w2, 4) + ToLe(a.w3, 4)
  }

  /** The 32-bit word at offset i. */
  function WordAt(s: seq<Byte>, i: nat): Word
    requires i + 4 <= |s|
  {
    FromLe(s[i..i+4]) % U32
  }

  /** fill_key_data: the letter 4 or 6, the client address and the client port. */
  function FillKey(ipv6: bool, src: Addr, port: Port): Key {
    [if ipv6 then 0x36 else 0x34] + AddrBytes(CopyAddr(ipv6, src)) + ToLe(port, 2)
  }

  /** fill_data_from_key. */
  function FillData(key: Key): (bool, Addr, Port) {
    var ipv6 := key[0] == 0x36;
    (ipv6,
     CopyAddr(ipv6, Addr(WordAt(key, 1), WordAt(key, 5), WordAt(key, 9), WordAt(key, 13))),
     FromLe(key[17..]) % 0x1_0000)
  }

  lemma WordBytes(w: Word)
    ensures |ToLe(w, 4)| == 4 && FromLe(ToLe(w, 4)) == w
  {
    Pow2Is32();
    FromToLe(w, 4);
  }

  lemma PortBytes(p: Port)
    ensures |ToLe(p, 2)| == 2 && FromLe(ToLe(p, 2)) == p
  {
    assert Pow2(8) == 256;
    assert Pow2(16) == 0x1_0000;
    FromToLe(p, 2);
  }

  /** Reading a key back gives the family, the address as far as the family uses it, and the port. */
  lemma KeyRoundTrip(ipv6: bool, src: Addr, port: Port)
    ensures FillData(FillKey(ipv6, src, port)) == (ipv6, CopyAddr(ipv6, src), port)
  {
    hide FromLe, ToLe;
    var a := CopyAddr(ipv6, src);
    var key := FillKey(ipv6, src, port);
    WordBytes(a.w0);
    WordBytes(a.w1);
    WordBytes(a.w2);
    WordBytes(a.w3);
    PortBytes(port);
    KeyParts(if ipv6 then 0x36 else 0x34, ToLe(a.w0, 4), ToLe(a.w1, 4), ToLe(a.w2, 4), ToLe(a.w3, 4), ToLe(port, 2));
  }

  lemma KeyParts(x: Byte, a: seq<Byte>, b: seq<Byte>, c: seq<Byte>, d: seq<Byte>, p: seq<Byte>)
    requires |a| == |b| == |c| == |d| == 4
    ensures var k := [x] + (a + b + c + d) + p;
      k[0] == x && k[1..5] == a && k[5..9] == b && k[9..13] == c && k[13..17] == d && k[17..] == p
  {
    var k := [x] + (a + b + c + d) + p;
    assert forall i :: 0 <= i < 4 ==> k[1+i] == a[i];
    assert forall i :: 0 <= i < 4 ==> k[5+i] == b[i];
    assert forall i :: 0 <= i < 4 ==> k[9+i] == c[i];
    assert forall i :: 0 <= i < 4 ==> k[13+i] == d[i];
  }

  /** Two clients share a key exactly if family, port and address, as far as the family uses it, agree. */
  lemma SameKey(ipv6: bool, src: Addr, port: Port, ipv6': bool, src': Addr, port': Port)
    ensures FillKey(ipv6, src, port) == FillKey(ipv6', src', port') <==>
      ipv6 == ipv6' && CopyAddr(ipv6, src) == CopyAddr(ipv6', src') && port == port'
  {
    hide FillKey, FillData, CopyAddr;
    KeyRoundTrip(ipv6, src, port);
    KeyRoundTrip(ipv6', src', port');
    KeyOfCopy(ipv6, src, port);
    KeyOfCopy(ipv6', src', port');
  }

  lemma KeyOfCopy(ipv6: bool, src: Addr, port: Port)
    ensures FillKey(ipv6, src, port) == FillKey(ipv6, CopyAddr(ipv6, src), port)
  {
  }

  // ----- DNS packets -----

  /** ntohs of the two bytes at offset i. */
  function Be16(p: seq<Byte>, i: nat): nat
    requires i + 2 <= |p|
  {
    256 * (p[i] as int) + p[i+1]
  }

  /** dns_is_dns_packet for outgoing packets: a standard query without answers. The mask 0xFA00 looks at the
      first byte of the flags only. */
  predicate IsQuery(p: seq<Byte>) {
    |p| >= 16 && (p[2] as bv8) & 0xFA == 0 && Be16(p, 6) == 0
  }

  /** dns_is_dns_packet for incoming packets: a response with opcode 0; the mask is 0xF800. */
  predicate IsResponse(p: seq<Byte>) {
    |p| >= 16 && (p[2] as bv8) & 0xF8 == 0x80
  }

  /** QR, the opcode and TC are zero, AA and RD are free, and there are no answers; the number of questions and
      the other fields may be anything. */
  predicate LooksLikeQuery(p: seq<Byte>) {
    |p| >= 16 && (p[2] == 0 || p[2] == 1 || p[2] == 4 || p[2] == 5) && p[6] == p[7] == 0
  }

  lemma QueryBytes(p: seq<Byte>)
    ensures IsQuery(p) <==> LooksLikeQuery(p)
  {
    if |p| >= 16 {
      QueryByte(p[2]);
    }
  }

  lemma QueryByte(b: Byte)
    ensures (b as bv8) & 0xFA == 0 <==> b == 0 || b == 1 || b == 4 || b == 5
  {
  }

  /** QR is set, the opcode is zero. */
  lemma ResponseBytes(p: seq<Byte>)
    ensures IsResponse(p) <==> |p| >= 16 && 0x80 <= p[2] < 0x88
  {
    if |p| >= 16 {
      ResponseByte(p[2]);
    }
  }

  lemma ResponseByte(b: Byte)
    ensures (b as bv8) & 0xF8 == 0x80 <==> 0x80 <= b < 0x88
  {
  }

  // ----- the records as a map -----

  const CLEANUP_INTERVAL := 30

  datatype Record = Record(key: Key, time: int, dstip: Addr, dstport: Port)
  datatype Info = Info(ipv6: bool, srcip: Addr, srcport: Port, dstip: Addr, dstport: Port)
  datatype State = State(records: map<Key, Record>, lastCleanup: int)

  /** A call of a handler. The clock is read once to test whether to clean up (t0),
      again to store the time of the cleanup (t1) and again for a new record (t2). */
  datatype Event =
    | Outgoing(ipv6: bool, src: Addr, srcport: Port, dst: Addr, dstport: Port, packet: seq<Byte>,
               t0: int, t1: int, t2: int)
    | Incoming(ipv6: bool, src: Addr, srcport: Port, packet: seq<Byte>, t0: int, t1: int)

  datatype Outcome = Refused | Tracked | Answered(info: Info)

  predicate Young(r: Record, now: int) {
    now - r.time < CLEANUP_INTERVAL
  }

  /** dns_cleanup. */
  ghost function Cleaned(s: State, t0: int, t1: int): State {
    if s.lastCleanup == 0 then s.(lastCleanup := t0)
    else if t0 - s.lastCleanup >= CLEANUP_INTERVAL then
      State(map k | k in s.records && Young(s.records[k], t1) :: s.records[k], t1)
    else s
  }

  /** dns_handle_outgoing and dns_handle_incoming. */
  ghost function Step(s: State, e: Event): (State, Outcome) {
    if |e.packet| < 16 then (s, Refused)
    else
      var c := Cleaned(s, e.t0, e.t1);
      var key := FillKey(e.ipv6, e.src, e.srcport);
      match e
      case Outgoing(ipv6, src, srcport, dst, dstport, packet, t0, t1, t2) =>
        if IsQuery(packet) && srcport != 0 && dstport != 0 && key !in c.records then
          (State(c.records[key := Record(key, t2, CopyAddr(ipv6, dst), dstport)], c.lastCleanup), Tracked)
        else (c, Refused)
      case Incoming(ipv6, src, srcport, packet, t0, t1) =>
        if IsResponse(packet) && key in c.records then
          var r := c.records[key];
          (State(c.records - {key}, c.lastCleanup),
           Answered(Info(ipv6, CopyAddr(ipv6, src), srcport, CopyAddr(ipv6, r.dstip), r.dstport)))
        else (c, Refused)
  }

  // ----- runs -----

  ghost function After(es: seq<Event>): State {
    if |es| == 0 then State(map[], 0) else Step(After(es[..|es|-1]), es[|es|-1]).0
  }

  ghost function OutcomeAt(es: seq<Event>, i: nat): Outcome
    requires i < |es|
  {
    Step(After(es[..i]), es[i]).1
  }

  function LastTime(e: Event): int {
    match e
    case Outgoing(_, _, _, _, _, _, _, _, t2) => t2
    case Incoming(_, _, _, _, _, t1) => t1
  }

  /** The clock starts at c or later and never runs backwards. */
  ghost predicate ClockFrom(es: seq<Event>, c: int) {
    && (forall i :: 0 <= i < |es| ==> c <= es[i].t0 <= es[i].t1 <= LastTime(es[i]))
    && (forall i, j :: 0 <= i < j < |es| ==> LastTime(es[i]) <= es[j].t0)
  }

  /** The clock is past its epoch and never runs backwards. */
  ghost predicate Clock(es: seq<Event>) {
    ClockFrom(es, 1)
  }

  /** Call i made the record r under the key k, and no answer used that key since. */
  ghost predicate Origin(es: seq<Event>, i: nat, k: Key, r: Record) {
    && i < |es| && es[i].Outgoing? && OutcomeAt(es, i) == Tracked
    && k == FillKey(es[i].ipv6, es[i].src, es[i].srcport)
    && r == Record(k, es[i].t2, CopyAddr(es[i].ipv6, es[i].dst), es[i].dstport)
    && NoAnswer(es, i, k)
  }

  ghost predicate NoAnswer(es: seq<Event>, i: nat, k: Key) {
    forall j :: i < j < |es| && OutcomeAt(es, j).Answered? ==> FillKey(es[j].ipv6, es[j].src, es[j].srcport) != k
  }

  ghost predicate HasOrigin(es: seq<Event>, k: Key, r: Record) {
    exists i: nat :: Origin(es, i, k, r)
  }

  /** Every record stems from a query that has not been answered. */
  ghost predicate AllOrigins(es: seq<Event>) {
    forall k :: k in After(es).records ==> HasOrigin(es, k, After(es).records[k])
  }

  lemma OutcomePrefix(es: seq<Event>, n: nat, i: nat)
    requires i < n <= |es|
    ensures OutcomeAt(es[..n], i) == OutcomeAt(es, i)
  {
    assert es[..n][..i] == es[..i];
  }

  /** One more call that does not answer k leaves the origin of k in place. */
  lemma OriginExtends(es: seq<Event>, k: Key, r: Record)
    requires |es| > 0 && HasOrigin(es[..|es|-1], k, r)
    requires OutcomeAt(es, |es| - 1).Answered? ==>
      FillKey(es[|es|-1].ipv6, es[|es|-1].src, es[|es|-1].srcport) != k
    ensures HasOrigin(es, k, r)
  {
    hide OutcomeAt, FillKey, CopyAddr;
    var n := |es| - 1;
    var i: nat :| Origin(es[..n], i, k, r);
    OutcomePrefix(es, n, i);
    forall j | i < j < |es| && OutcomeAt(es, j).Answered?
      ensures FillKey(es[j].ipv6, es[j].src, es[j].srcport) != k
    {
      if j < n {
        OutcomePrefix(es, n, j);
        assert es[..n][j] == es[j];
      }
    }
    assert Origin(es, i, k, r);
  }

  /** What a call leaves of the records: an old one that was not answered, or the one it made. */
  lemma StepRecords(s: State, e: Event, k: Key)
    ensures var (t, o) := Step(s, e); var key := FillKey(e.ipv6, e.src, e.srcport);
      k in t.records ==>
        (k in s.records && t.records[k] == s.records[k] && (o.Answered? ==> k != key))
        || (o == Tracked && e.Outgoing? && k == key &&
          t.records[k] == Record(k, e.t2, CopyAddr(e.ipv6, e.dst), e.dstport))
  {
    hide FillKey, CopyAddr, IsQuery, IsResponse;
  }

  lemma {:induction false} RecordsHaveOrigins(es: seq<Event>)
    ensures AllOrigins(es)
  {
    if |es| > 0 {
      var n := |es| - 1;
      RecordsHaveOrigins(es[..n]);
      var s, t := After(es[..n]), After(es);
      forall k | k in t.records ensures HasOrigin(es, k, t.records[k]) {
        RecordHasOrigin(es, k);
      }
    }
  }

  lemma RecordHasOrigin(es: seq<Event>, k: Key)
    requires |es| > 0 && AllOrigins(es[..|es|-1]) && k in After(es).records
    ensures HasOrigin(es, k, After(es).records[k])
  {
    hide Step, FillKey, CopyAddr;
    var n := |es| - 1;
    var s := After(es[..n]);
    var r := After(es).records[k];
    StepRecords(s, es[n], k);
    var key := FillKey(es[n].ipv6, es[n].src, es[n].srcport);
    if k in s.records && r == s.records[k] && (OutcomeAt(es, n).Answered? ==> k != key) {
      OriginExtends(es, k, r);
    } else {
      assert Origin(es, n, k, r);
    }
  }

  // ----- ages -----

  /** No record was older than the interval at the last cleanup. */
  ghost predicate Aged(s: State, now: int) {
    && 0 <= s.lastCleanup <= now
    && (forall k :: k in s.records ==>
          s.lastCleanup > 0 && s.lastCleanup - CLEANUP_INTERVAL < s.records[k].time <= now)
  }

  ghost predicate YoungerThan(s: State, now: int, age: int) {
    forall k :: k in s.records ==> now - s.records[k].time < age
  }

  lemma CleanedAges(s: State, now: int, t0: int, t1: int)
    requires Aged(s, now) && 0 < t0 && now <= t0 <= t1
    ensures Aged(Cleaned(s, t0, t1), t1) && Cleaned(s, t0, t1).lastCleanup > 0
    ensures YoungerThan(Cleaned(s, t0, t1), t0, 2 * CLEANUP_INTERVAL)
  {
  }

  lemma StepAges(s: State, now: int, e: Event)
    requires Aged(s, now) && 0 < e.t0 && now <= e.t0 <= e.t1 <= LastTime(e)
    ensures Aged(Step(s, e).0, LastTime(e))
    ensures |e.packet| >= 16 ==> YoungerThan(Step(s, e).0, e.t0, 2 * CLEANUP_INTERVAL)
  {
    hide FillKey, CopyAddr, IsQuery, IsResponse, Cleaned;
    if |e.packet| >= 16 {
      CleanedAges(s, now, e.t0, e.t1);
    }
  }

  lemma {:induction false} RunAges(es: seq<Event>)
    requires Clock(es)
    ensures Aged(After(es), if |es| == 0 then 0 else LastTime(es[|es|-1]))
  {
    if |es| > 0 {
      var n := |es| - 1;
      RunAges(es[..n]);
      StepAges(After(es[..n]), if n == 0 then 0 else LastTime(es[n-1]), es[n]);
    }
  }

  /** After any call that runs the cleanup no record is 60 seconds old. */
  lemma NoOldRecords(es: seq<Event>)
    requires Clock(es) && |es| > 0 && |es[|es|-1].packet| >= 16
    ensures YoungerThan(After(es), es[|es|-1].t0, 60)
  {
    var n := |es| - 1;
    RunAges(es[..n]);
    StepAges(After(es[..n]), if n == 0 then 0 else LastTime(es[n-1]), es[n]);
  }

  /** The clock has to be past its epoch: a first call at time 0 leaves the cleanup time unset,
      and the next call then keeps a record of any age. */
  lemma ZeroClock(q: Event, e: Event, age: nat)
    requires q.Outgoing? && IsQuery(q.packet) && q.srcport != 0 && q.dstport != 0 && q.t0 == q.t1 == q.t2 == 0
    requires e.Incoming? && |e.packet| >= 16 && !IsResponse(e.packet) && e.t0 == age
    ensures exists k :: k in After([q, e]).records && e.t0 - After([q, e]).records[k].time == age
  {
    assert |q.packet| >= 16;
    hide FillKey, CopyAddr, IsQuery, IsResponse;
    assert [q, e][..1] == [q] && [q][..0] == [];
    var key := FillKey(q.ipv6, q.src, q.srcport);
    assert After([q]) == Step(State(map[], 0), q).0;
    assert key in After([q]).records;
    assert After([q, e]) == Step(After([q]), e).0;
    assert key in After([q, e]).records;
  }

  /** No call that runs the cleanup ever leaves a record of 60 seconds, in any run on a clock from c on. */
  ghost predicate CleanFrom(c: int) {
    forall es: seq<Event> :: ClockFrom(es, c) && |es| > 0 && |es[|es|-1].packet| >= 16 ==>
      YoungerThan(After(es), es[|es|-1].t0, 60)
  }

  /** The cleanup works in every run exactly if the clock starts past its epoch. */
  lemma CleanExactly(c: int)
    ensures CleanFrom(c) <==> c > 0
  {
    hide YoungerThan, After;
    if c > 0 {
      forall es: seq<Event> | ClockFrom(es, c) && |es| > 0 && |es[|es|-1].packet| >= 16
        ensures YoungerThan(After(es), es[|es|-1].t0, 60)
      {
        assert Clock(es);
        NoOldRecords(es);
      }
    } else {
      var (q, e) := QueryAndLater();
      ZeroClock(q, e, 60);
      OldRecord([q, e], 60);
    }
  }

  /** A query at time 0 and a packet that answers nothing a minute later. */
  ghost function QueryAndLater(): (r: (Event, Event))
    ensures r.0.Outgoing? && IsQuery(r.0.packet) && r.0.srcport != 0 && r.0.dstport != 0
    ensures r.0.t0 == r.0.t1 == r.0.t2 == 0
    ensures r.1.Incoming? && |r.1.packet| >= 16 && !IsResponse(r.1.packet) && r.1.t0 == r.1.t1 == 60
  {
    var p: seq<Byte> := seq(16, _ => 0);
    assert Be16(p, 2) == 0 && Be16(p, 6) == 0;
    var a := Addr(0, 0, 0, 0);
    (Outgoing(false, a, 1, a, 53, p, 0, 0, 0), Incoming(false, a, 53, p, 60, 60))
  }

  lemma OldRecord(es: seq<Event>, age: int)
    requires |es| > 0 && exists k :: k in After(es).records && es[|es|-1].t0 - After(es).records[k].time == age
    ensures !YoungerThan(After(es), es[|es|-1].t0, age)
  {
  }

  // ----- the main result -----

  /** Call i is the query that call j answers. */
  ghost predicate Answers(es: seq<Event>, i: nat, j: nat) {
    && i < j < |es| && es[i].Outgoing? && OutcomeAt(es, i) == Tracked
    && es[i].ipv6 == es[j].ipv6 && es[i].srcport == es[j].srcport
    && CopyAddr(es[i].ipv6, es[i].src) == CopyAddr(es[j].ipv6, es[j].src)
    && OutcomeAt(es, j) == Answered(Info(es[i].ipv6, CopyAddr(es[i].ipv6, es[i].src), es[i].srcport,
                                         CopyAddr(es[i].ipv6, es[i].dst), es[i].dstport))
    && es[j].t0 - es[i].t2 < 60
    && NoAnswer(es[..j], i, FillKey(es[i].ipv6, es[i].src, es[i].srcport))
  }

  /** A response is rewritten only for a query of that client, port and family that is less than 60 seconds old
      and not answered yet, and it gets back the server address and port of that query. */
  lemma AnsweredHasQuery(es: seq<Event>, j: nat)
    requires Clock(es) && j < |es| && OutcomeAt(es, j).Answered?
    ensures exists i: nat :: Answers(es, i, j)
  {
    var past, e := es[..j], es[j];
    var key := FillKey(e.ipv6, e.src, e.srcport);
    AnsweredRecord(es, j);
    var r := After(past).records[key];
    RecordsHaveOrigins(past);
    hide FillKey, CopyAddr, After, OutcomeAt, Clock;
    assert HasOrigin(past, key, r);
    var i: nat :| Origin(past, i, key, r);
    OriginAnswers(es, i, j, r);
  }

  /** The record that is answered: it is there before the call, young enough, and gives the answer. */
  lemma AnsweredRecord(es: seq<Event>, j: nat)
    requires Clock(es) && j < |es| && OutcomeAt(es, j).Answered?
    ensures var s, e := After(es[..j]), es[j];
      var key := FillKey(e.ipv6, e.src, e.srcport);
      && key in s.records && e.t0 - s.records[key].time < 60
      && var r := s.records[key];
         OutcomeAt(es, j) == Answered(Info(e.ipv6, CopyAddr(e.ipv6, e.src), e.srcport,
                                           CopyAddr(e.ipv6, r.dstip), r.dstport))
  {
    hide FillKey, CopyAddr, Cleaned, IsQuery, IsResponse;
    var s, e := After(es[..j]), es[j];
    RunAges(es[..j]);
    CleanedAges(s, if j == 0 then 0 else LastTime(es[j-1]), e.t0, e.t1);
    CleanedLess(s, e.t0, e.t1);
  }

  lemma OriginAnswers(es: seq<Event>, i: nat, j: nat, r: Record)
    requires j < |es| && es[j].t0 - r.time < 60
    requires var e := es[j];
      && Origin(es[..j], i, FillKey(e.ipv6, e.src, e.srcport), r)
      && OutcomeAt(es, j) == Answered(Info(e.ipv6, CopyAddr(e.ipv6, e.src), e.srcport,
                                           CopyAddr(e.ipv6, r.dstip), r.dstport))
    ensures Answers(es, i, j)
  {
    hide FillKey, CopyAddr, OutcomeAt, NoAnswer;
    var e := es[j];
    OutcomePrefix(es, j, i);
    SameKey(es[i].ipv6, es[i].src, es[i].srcport, e.ipv6, e.src, e.srcport);
    CopyTwice(e.ipv6, es[i].dst);
  }

  lemma CleanedLess(s: State, t0: int, t1: int)
    ensures forall k :: k in Cleaned(s, t0, t1).records ==>
      k in s.records && Cleaned(s, t0, t1).records[k] == s.records[k]
  {
  }

  lemma CopyTwice(ipv6: bool, a: Addr)
    ensures CopyAddr(ipv6, CopyAddr(ipv6, a)) == CopyAddr(ipv6, a)
  {
  }

  /** An answer consumes its record: the same client is not answered again before it asks again. */
  lemma AnsweredOnce(es: seq<Event>, i: nat, j: nat)
    requires Clock(es) && i < j < |es| && OutcomeAt(es, i).Answered? && OutcomeAt(es, j).Answered?
    requires FillKey(es[i].ipv6, es[i].src, es[i].srcport) == FillKey(es[j].ipv6, es[j].src, es[j].srcport)
    ensures exists m: nat :: i < m < j && Answers(es, m, j)
  {
    hide FillKey, CopyAddr, Cleaned, IsQuery, IsResponse, OutcomeAt;
    AnsweredHasQuery(es, j);
    var m: nat :| Answers(es, m, j);
    SameKey(es[m].ipv6, es[m].src, es[m].srcport, es[j].ipv6, es[j].src, es[j].srcport);
    if m < i {
      OutcomePrefix(es, j, i);
      assert false;
    }
  }

  // ----- the other direction: queries are tracked and their responses rewritten -----

  /** Two calls are about the same client: family, port and the address as far as the family uses it. */
  ghost predicate SameClient(e: Event, f: Event) {
    && e.ipv6 == f.ipv6 && e.srcport == f.srcport && e.src.w0 == f.src.w0
    && (e.ipv6 ==> e.src == f.src)
  }

  lemma SameClientKey(e: Event, f: Event)
    ensures SameClient(e, f) <==> FillKey(e.ipv6, e.src, e.srcport) == FillKey(f.ipv6, f.src, f.srcport)
  {
    SameKey(e.ipv6, e.src, e.srcport, f.ipv6, f.src, f.srcport);
  }

  /** A response to the client of call i was rewritten between the calls i and j. */
  ghost predicate AnsweredBetween(es: seq<Event>, i: nat, j: nat) {
    exists m :: i < m < j < |es| && OutcomeAt(es, m).Answered? && SameClient(es[i], es[m])
  }

  /** A query is tracked if both ports are set and every earlier query of the client was answered. */
  lemma QueryTracked(es: seq<Event>, j: nat)
    requires j < |es| && es[j].Outgoing? && LooksLikeQuery(es[j].packet) && es[j].srcport != 0 && es[j].dstport != 0
    requires forall i :: 0 <= i < j && OutcomeAt(es, i) == Tracked && SameClient(es[i], es[j]) ==>
      AnsweredBetween(es, i, j)
    ensures OutcomeAt(es, j) == Tracked
  {
    var e := es[j];
    var key := FillKey(e.ipv6, e.src, e.srcport);
    QueryBytes(e.packet);
    NoRecordLeft(es, j);
    CleanedLess(After(es[..j]), e.t0, e.t1);
    hide FillKey, CopyAddr, Cleaned, IsQuery, IsResponse, LooksLikeQuery;
  }

  lemma NoRecordLeft(es: seq<Event>, j: nat)
    requires j < |es|
    requires forall i :: 0 <= i < j && OutcomeAt(es, i) == Tracked && SameClient(es[i], es[j]) ==>
      AnsweredBetween(es, i, j)
    ensures FillKey(es[j].ipv6, es[j].src, es[j].srcport) !in After(es[..j]).records
  {
    hide FillKey, CopyAddr, OutcomeAt, After, SameClient;
    var past := es[..j];
    var key := FillKey(es[j].ipv6, es[j].src, es[j].srcport);
    if key in After(past).records {
      RecordsHaveOrigins(past);
      var r := After(past).records[key];
      assert HasOrigin(past, key, r);
      var i: nat :| Origin(past, i, key, r);
      OutcomePrefix(es, j, i);
      SameClientKey(es[i], es[j]);
      var m :| i < m < j && OutcomeAt(es, m).Answered? && SameClient(es[i], es[m]);
      OutcomePrefix(es, j, m);
      SameClientKey(es[i], es[m]);
      assert false;
    }
  }

  /** The record that call i makes. */
  ghost function RecordOf(e: Event): Record
    requires e.Outgoing?
  {
    Record(FillKey(e.ipv6, e.src, e.srcport), e.t2, CopyAddr(e.ipv6, e.dst), e.dstport)
  }

  lemma TrackedOutgoing(es: seq<Event>, i: nat)
    requires i < |es| && OutcomeAt(es, i) == Tracked
    ensures es[i].Outgoing? && var r := RecordOf(es[i]); var s := After(es[..i+1]).records; r.key in s && s[r.key] == r
  {
    hide FillKey, CopyAddr, Cleaned, IsQuery, IsResponse;
    assert es[..i+1][..i] == es[..i];
  }

  /** A record is kept for 30 seconds unless it is answered. */
  lemma {:induction false} RecordKept(es: seq<Event>, i: nat, n: nat)
    requires i < n <= |es| && OutcomeAt(es, i) == Tracked && es[i].Outgoing?
    requires forall m :: i < m < n && OutcomeAt(es, m).Answered? ==> !SameClient(es[i], es[m])
    requires forall m :: i < m < n ==> es[m].t1 - es[i].t2 < 30
    ensures var r := RecordOf(es[i]); var s := After(es[..n]).records; r.key in s && s[r.key] == r
    decreases n
  {
    hide FillKey, CopyAddr, SameClient, OutcomeAt, After;
    if n == i + 1 {
      TrackedOutgoing(es, i);
    } else {
      RecordKept(es, i, n - 1);
      SameClientKey(es[i], es[n-1]);
      AfterOne(es, n - 1);
      StepKeeps(After(es[..n-1]), es[n-1], RecordOf(es[i]));
    }
  }

  lemma AfterOne(es: seq<Event>, n: nat)
    requires n < |es|
    ensures After(es[..n+1]) == Step(After(es[..n]), es[n]).0 && OutcomeAt(es, n) == Step(After(es[..n]), es[n]).1
  {
    assert es[..n+1][..n] == es[..n];
  }

  lemma StepKeeps(s: State, e: Event, r: Record)
    requires r.key in s.records && s.records[r.key] == r && e.t1 - r.time < 30
    requires Step(s, e).1.Answered? ==> FillKey(e.ipv6, e.src, e.srcport) != r.key
    ensures var t := Step(s, e).0.records; r.key in t && t[r.key] == r
  {
    hide FillKey, CopyAddr, IsQuery, IsResponse;
  }

  /** A response is rewritten if a query of its client was tracked less than 30 seconds before and no response was
      rewritten since: it gets the server address and port of that query. */
  lemma QueryAnswered(es: seq<Event>, i: nat, j: nat, c: int)
    requires ClockFrom(es, c) && i < j < |es| && OutcomeAt(es, i) == Tracked && !AnsweredBetween(es, i, j)
    requires es[j].Incoming? && |es[j].packet| >= 16 && 0x80 <= es[j].packet[2] < 0x88 && SameClient(es[i], es[j])
    requires es[i].Outgoing? ==> es[j].t1 - es[i].t2 < 30
    ensures es[i].Outgoing? && OutcomeAt(es, j) ==
      Answered(Info(es[j].ipv6, CopyAddr(es[j].ipv6, es[j].src), es[j].srcport,
                    CopyAddr(es[i].ipv6, es[i].dst), es[i].dstport))
  {
    TrackedOutgoing(es, i);
    ResponseBytes(es[j].packet);
    SameClientKey(es[i], es[j]);
    CopyTwice(es[i].ipv6, es[i].dst);
    forall m | i < m < j ensures es[m].t1 <= es[j].t1 {
      assert LastTime(es[m]) <= es[j].t0;
    }
    hide FillKey, CopyAddr, IsQuery, IsResponse, SameClient, OutcomeAt, After;
    RecordKept(es, i, j);
    StepAnswers(After(es[..j]), es[j], RecordOf(es[i]));
    AfterOne(es, j);
  }

  lemma StepAnswers(s: State, e: Event, r: Record)
    requires e.Incoming? && IsResponse(e.packet) && e.t1 - r.time < 30
    requires r.key == FillKey(e.ipv6, e.src, e.srcport) && r.key in s.records && s.records[r.key] == r
    ensures Step(s, e).1 == Answered(Info(e.ipv6, CopyAddr(e.ipv6, e.src), e.srcport,
                                          CopyAddr(e.ipv6, r.dstip), r.dstport))
  {
    hide FillKey, CopyAddr, IsQuery;
  }

  /** Nothing else is tracked or rewritten: only queries between set ports, and only responses. */
  lemma OnlyQueriesAndResponses(es: seq<Event>, j: nat)
    requires j < |es|
    ensures OutcomeAt(es, j) == Tracked ==>
      es[j].Outgoing? && LooksLikeQuery(es[j].packet) && es[j].srcport != 0 && es[j].dstport != 0
    ensures OutcomeAt(es, j).Answered? ==> es[j].Incoming? && |es[j].packet| >= 16 && 0x80 <= es[j].packet[2] < 0x88
  {
    QueryBytes(es[j].packet);
    ResponseBytes(es[j].packet);
    hide FillKey, CopyAddr, Cleaned, IsQuery, IsResponse, After;
  }

  /** The first query of a client and the response to it, on a clock that does not run backwards. */
  lemma AskAndAnswer(q: Event, a: Event)
    requires q.Outgoing? && LooksLikeQuery(q.packet) && q.srcport != 0 && q.dstport != 0
    requires a.Incoming? && |a.packet| >= 16 && 0x80 <= a.packet[2] < 0x88 && SameClient(q, a)
    requires q.t0 <= q.t1 <= q.t2 <= a.t0 <= a.t1 < q.t2 + 30
    ensures OutcomeAt([q, a], 0) == Tracked && OutcomeAt([q, a], 1) ==
      Answered(Info(a.ipv6, CopyAddr(a.ipv6, a.src), a.srcport, CopyAddr(q.ipv6, q.dst), q.dstport))
  {
    var es := [q, a];
    QueryTracked(es, 0);
    QueryAnswered(es, 0, 1, q.t0);
  }
}
