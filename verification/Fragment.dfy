/** send_native_fragment of hayalet.c: one TCP segment sent as two, in place and in either order. */
module Fragment {
  import opened Numbers
  import opened Sequences
  import opened Bytes
  import opened Serial

  /** Where things lie in the packet: the family of the IP header at 0, the TCP header and the payload. */
  datatype Layout = Layout(v4: bool, tcp: nat, data: nat)

  predicate Fits(l: Layout, len: nat) {
    (if l.v4 then 20 else 40) <= l.tcp && l.tcp + 20 <= l.data <= len
  }

  // ----- big-endian fields -----

  function ToBe(v: int, n: nat): (r: seq<Byte>)
    ensures |r| == n
    decreases n
  {
    if n == 0 then [] else ToBe(v / 256, n - 1) + [v % 256]
  }

  function FromBe(s: seq<Byte>): nat {
    if |s| == 0 then 0 else 256 * FromBe(s[..|s|-1]) + s[|s|-1]
  }

  lemma BeStep(v: int, n: nat)
    ensures FromBe(ToBe(v, n + 1)) == 256 * FromBe(ToBe(v / 256, n)) + v % 256
  {
    var t := ToBe(v / 256, n);
    assert (t + [v % 256])[..n] == t;
  }

  lemma Be2(v: int)
    ensures FromBe(ToBe(v, 2)) == FromBe(Field16(v)) == v % 0x1_0000
  {
    BeStep(v, 1);
    BeStep(v / 256, 0);
    assert FromBe(ToBe(v / 256 / 256, 0)) == 0;
    hide ToBe, FromBe;
    Chop2(v);
  }

  lemma Chop2(v: int)
    ensures 256 * (v / 256 % 256) + v % 256 == v % 0x1_0000
  {
  }

  lemma Be4(v: int)
    ensures FromBe(Field32(v)) == Wrap(v)
  {
    hide ToBe, FromBe;
    var w := v / 256;
    BeStep(v, 3);
    BeStep(w, 2);
    Be2(w / 256);
    Chop3(w);
    Chop4(v);
  }

  lemma Chop3(v: int)
    ensures 256 * (v / 256 % 0x1_0000) + v % 256 == v % 0x100_0000
  {
    var a := v / 256;
    DivModUnique(v, a / 0x1_0000, 256 * (a % 0x1_0000) + v % 256, 0x100_0000);
  }

  lemma Chop4(v: int)
    ensures 256 * (v / 256 % 0x100_0000) + v % 256 == v % 0x1_0000_0000
  {
    var a := v / 256;
    DivModUnique(v, a / 0x100_0000, 256 * (a % 0x100_0000) + v % 256, 0x1_0000_0000);
  }

  function Field16(v: int): (r: seq<Byte>)
    ensures |r| == 2
  {
    ToBe(v, 2)
  }

  function Field32(v: int): (r: seq<Byte>)
    ensures |r| == 4
  {
    ToBe(v, 4)
  }

  function Put(s: seq<Byte>, i: nat, bytes: seq<Byte>): (r: seq<Byte>)
    requires i + |bytes| <= |s|
    ensures |r| == |s|
  {
    s[..i] + bytes + s[i+|bytes|..]
  }

  function LengthAt(l: Layout): nat {
    if l.v4 then 2 else 4
  }

  /** The length field of the IP header. */
  function Length(p: seq<Byte>, l: Layout): nat
    requires Fits(l, |p|)
  {
    FromBe(p[LengthAt(l)..LengthAt(l)+2])
  }

  function SeqNum(p: seq<Byte>, l: Layout): nat
    requires Fits(l, |p|)
  {
    FromBe(p[l.tcp+4..l.tcp+8])
  }

  function Payload(p: seq<Byte>, l: Layout): seq<Byte>
    requires Fits(l, |p|)
  {
    p[l.data..]
  }

  /** The IP length agrees with the packet: IPv4 counts all of it, IPv6 not its 40-byte header. */
  predicate Consistent(p: seq<Byte>, l: Layout)
    requires Fits(l, |p|)
  {
    Length(p, l) == |p| - (if l.v4 then 0 else 40)
  }

  /** The two fields byte by byte: bytes 2 and 3 of the IPv4 header, 4 and 5 of the IPv6 header, and bytes 4 to 7 of
      the TCP header, the most significant byte first. */
  lemma FieldBytes(p: seq<Byte>, l: Layout)
    requires Fits(l, |p|)
    ensures Length(p, l) == if l.v4 then 256 * (p[2] as int) + p[3] else 256 * (p[4] as int) + p[5]
    ensures var t := l.tcp;
      SeqNum(p, l) == 0x100_0000 * (p[t+4] as int) + 0x1_0000 * (p[t+5] as int) + 256 * (p[t+6] as int) + p[t+7]
  {
    var i, t := if l.v4 then 2 else 4, l.tcp;
    FromBe2(p[i..i+2]);
    FromBe4(p[t+4..t+8]);
  }

  lemma FromBe2(s: seq<Byte>)
    requires |s| == 2
    ensures FromBe(s) == 256 * (s[0] as int) + s[1]
  {
    assert s[..1][..0] == [];
    assert FromBe(s[..1]) == s[0];
  }

  lemma FromBe4(s: seq<Byte>)
    requires |s| == 4
    ensures FromBe(s) == 0x100_0000 * (s[0] as int) + 0x1_0000 * (s[1] as int) + 256 * (s[2] as int) + s[3]
  {
    var t := s[..3];
    assert t[..2] == s[..2];
    FromBe2(s[..2]);
    assert FromBe(t) == 256 * FromBe(s[..2]) + s[2];
  }

  /** The length field has 16 bits, so a consistent packet is no longer than it can say. */
  lemma LengthBound(p: seq<Byte>, l: Layout)
    requires Fits(l, |p|)
    ensures Length(p, l) < 0x1_0000
  {
    var s := p[LengthAt(l)..LengthAt(l)+2];
    assert s[..1][..0] == [];
    assert FromBe(s[..1]) == s[0];
  }

  /** The headers agree except for the IP length and the TCP sequence number. */
  predicate SameHeaders(p: seq<Byte>, q: seq<Byte>, l: Layout)
    requires Fits(l, |p|) && Fits(l, |q|)
  {
    forall i :: 0 <= i < l.data && !(LengthAt(l) <= i < LengthAt(l) + 2) && !(l.tcp + 4 <= i < l.tcp + 8) ==>
      p[i] == q[i]
  }

  // ----- the pieces -----

  /** Step 0: the packet cut after the first f bytes of payload. */
  function First(p: seq<Byte>, l: Layout, f: nat): (r: seq<Byte>)
    requires Fits(l, |p|) && l.data + f <= |p|
    ensures Fits(l, |r|)
  {
    Put(p[..l.data+f], LengthAt(l), Field16(Length(p, l) - (|p| - l.data) + f))
  }

  /** Step 1: the packet without the first f bytes of payload. */
  function Second(p: seq<Byte>, l: Layout, f: nat): (r: seq<Byte>)
    requires Fits(l, |p|) && l.data + f <= |p|
    ensures Fits(l, |r|)
  {
    Put(Put(p[..l.data] + p[l.data+f..], LengthAt(l), Field16(Length(p, l) - f)), l.tcp + 4, Field32(SeqNum(p, l) + f))
  }

  /** The packets that one call sends: none for step 0 when the fragment would be the whole payload. */
  function Sent(p: seq<Byte>, l: Layout, f: nat, step1: bool): seq<seq<Byte>>
    requires Fits(l, |p|)
  {
    if f >= |p| - l.data then
      if step1 then [Second(p, l, 0)] else []
    else if step1 then [Second(p, l, f)]
    else [First(p, l, f)]
  }

  lemma SentIs(p: seq<Byte>, l: Layout, f: nat, step1: bool)
    requires Fits(l, |p|)
    ensures Sent(p, l, f, step1) ==
      if f >= |p| - l.data then (if step1 then [Second(p, l, 0)] else [])
      else if step1 then [Second(p, l, f)]
      else [First(p, l, f)]
  {
  }

  lemma PutGet(s: seq<Byte>, i: nat, bytes: seq<Byte>)
    requires i + |bytes| <= |s|
    ensures Put(s, i, bytes)[i..i+|bytes|] == bytes
    ensures forall j :: 0 <= j < |s| && !(i <= j < i + |bytes|) ==> Put(s, i, bytes)[j] == s[j]
  {
  }

  lemma PutKeeps(s: seq<Byte>, i: nat, bytes: seq<Byte>, j: nat, k: nat)
    requires i + |bytes| <= |s| && j <= k <= |s| && (k <= i || i + |bytes| <= j)
    ensures Put(s, i, bytes)[j..k] == s[j..k]
  {
  }

  lemma CutSlice(p: seq<Byte>, n: nat, i: nat, j: nat)
    requires i <= j <= n <= |p|
    ensures p[..n][i..j] == p[i..j]
  {
  }

  lemma FirstFields(p: seq<Byte>, l: Layout, f: nat)
    requires Fits(l, |p|) && l.data + f <= |p| && Consistent(p, l)
    ensures var a := First(p, l, f);
      && Payload(a, l) == Payload(p, l)[..f] && SeqNum(a, l) == SeqNum(p, l)
      && Consistent(a, l) && SameHeaders(a, p, l)
  {
    hide Put, FromBe, ToBe, Field16, Field32;
    LengthBound(p, l);
    var v := Length(p, l) - (|p| - l.data) + f;
    var c, i := p[..l.data+f], LengthAt(l);
    PutGet(c, i, Field16(v));
    Be2(v);
    var a := First(p, l, f);
    PutKeeps(c, i, Field16(v), l.tcp + 4, l.tcp + 8);
    PutKeeps(c, i, Field16(v), l.data, |c|);
    CutSlice(p, l.data + f, l.tcp + 4, l.tcp + 8);
    CutSlice(p, l.data + f, l.data, l.data + f);
    assert p[l.data..l.data+f] == p[l.data..][..f];
    assert |a| == |c|;
  }

  lemma SecondFields(p: seq<Byte>, l: Layout, f: nat)
    requires Fits(l, |p|) && l.data + f <= |p| && Consistent(p, l)
    ensures var b := Second(p, l, f);
      && Payload(b, l) == Payload(p, l)[f..] && SeqNum(b, l) == Wrap(SeqNum(p, l) + f)
      && Consistent(b, l) && SameHeaders(b, p, l)
  {
    hide Put, FromBe, ToBe, Field16, Field32, Wrap;
    LengthBound(p, l);
    var v, w := Length(p, l) - f, SeqNum(p, l) + f;
    var c, i := p[..l.data] + p[l.data+f..], LengthAt(l);
    PutGet(c, i, Field16(v));
    Be2(v);
    var d := Put(c, i, Field16(v));
    PutGet(d, l.tcp + 4, Field32(w));
    Be4(w);
    var b := Second(p, l, f);
    PutKeeps(d, l.tcp + 4, Field32(w), i, i + 2);
    PutKeeps(d, l.tcp + 4, Field32(w), l.data, |d|);
    PutKeeps(c, i, Field16(v), l.data, |c|);
    assert c[l.data..|c|] == p[l.data..][f..] && b[l.data..|b|] == b[l.data..];
  }

  /** Cutting nothing off changes nothing. */
  lemma SecondWhole(p: seq<Byte>, l: Layout)
    requires Fits(l, |p|) && Consistent(p, l)
    ensures Second(p, l, 0) == p
  {
    hide Put, FromBe, ToBe;
    var n, q := p[LengthAt(l)..LengthAt(l)+2], p[l.tcp+4..l.tcp+8];
    BeFrom(n);
    BeFrom(q);
    assert p[..l.data] + p[l.data+0..] == p;
    PutSame(p, LengthAt(l), 2);
    PutSame(p, l.tcp + 4, 4);
  }

  lemma PutSame(p: seq<Byte>, i: nat, n: nat)
    requires i + n <= |p|
    ensures Put(p, i, p[i..i+n]) == p
  {
  }

  lemma {:induction false} BeFrom(s: seq<Byte>)
    ensures ToBe(FromBe(s), |s|) == s
  {
    if |s| > 0 {
      var t, b := s[..|s|-1], s[|s|-1];
      BeFrom(t);
      assert FromBe(s) / 256 == FromBe(t) && FromBe(s) % 256 == b;
      assert s == t + [b];
    }
  }

  // ----- the two calls -----

  /** a and b, in the order of their sequence numbers, are the packet p split in two. */
  predicate SplitsInto(p: seq<Byte>, l: Layout, a: seq<Byte>, b: seq<Byte>)
    requires Fits(l, |p|)
  {
    && Fits(l, |a|) && Fits(l, |b|)
    && Payload(a, l) + Payload(b, l) == Payload(p, l)
    && SeqNum(a, l) == SeqNum(p, l) && SeqNum(b, l) == Wrap(SeqNum(a, l) + |Payload(a, l)|)
    && Consistent(a, l) && Consistent(b, l) && SameHeaders(a, p, l) && SameHeaders(b, p, l)
  }

  /** Both calls, in either order, send the two halves, or the whole packet once when the fragment is not smaller. */
  lemma BothCalls(p: seq<Byte>, l: Layout, f: nat, reverse: bool)
    requires Fits(l, |p|) && Consistent(p, l) && f > 0
    ensures var out := Sent(p, l, f, reverse) + Sent(p, l, f, !reverse);
      if f >= |Payload(p, l)| then out == [p]
      else
        && |out| == 2
        && |Payload(out[if reverse then 1 else 0], l)| == f
        && SplitsInto(p, l, out[if reverse then 1 else 0], out[if reverse then 0 else 1])
  {
    hide First, Second;
    if f >= |p| - l.data {
      SecondWhole(p, l);
    } else {
      FirstFields(p, l, f);
      SecondFields(p, l, f);
      assert Payload(p, l)[..f] + Payload(p, l)[f..] == Payload(p, l);
      WrapWord(SeqNum(p, l) % U32);
    }
  }

  /** s after a memmove of n bytes from i + f to i. */
  function Moved(s: seq<Byte>, i: nat, f: nat, n: nat): (r: seq<Byte>)
    requires i + f + n <= |s|
    ensures |r| == |s|
  {
    s[..i] + s[i+f..i+f+n] + s[i+n..]
  }

  lemma MovedIs(s: seq<Byte>, i: nat, f: nat, n: nat, t: seq<Byte>)
    requires i + f + n <= |s| == |t|
    requires forall j {:trigger t[j]} :: i <= j < i + n ==> t[j] == s[j+f]
    requires forall j {:trigger t[j]} :: 0 <= j < |t| && !(i <= j < i + n) ==> t[j] == s[j]
    ensures t == Moved(s, i, f, n)
  {
    assert t[..i] == s[..i];
    assert t[i..i+n] == s[i+f..i+f+n];
    assert t[i+n..] == s[i+n..];
    ThreeParts(t, i, i + n);
  }

  lemma PutPrefix(s: seq<Byte>, i: nat, bytes: seq<Byte>, n: nat)
    requires i + |bytes| <= n <= |s|
    ensures Put(s, i, bytes)[..n] == Put(s[..n], i, bytes) && Put(s, i, bytes)[n..] == s[n..]
  {
  }

  lemma PutConcat(s: seq<Byte>, i: nat, bytes: seq<Byte>, t: seq<Byte>)
    requires i + |bytes| <= |s|
    ensures Put(s + t, i, bytes) == Put(s, i, bytes) + t
  {
  }

  /** The buffer when step 0 sends. */
  lemma FirstInPlace(was: seq<Byte>, len: nat, l: Layout, f: nat)
    requires len <= |was| && Fits(l, len) && l.data + f <= len
    ensures var p := was[..len];
      var now := Put(was, LengthAt(l), Field16(Length(p, l) - (len - l.data) + f));
      now[..l.data+f] == First(p, l, f) && now[len..] == was[len..]
  {
    hide Put, FromBe, ToBe, Field16, Field32;
    var p := was[..len];
    var x := Field16(Length(p, l) - (len - l.data) + f);
    PutPrefix(was, LengthAt(l), x, l.data + f);
    PutPrefix(was, LengthAt(l), x, len);
    assert was[..l.data+f] == p[..l.data+f];
  }

  /** The buffer after the first two writes of step 1, with x as the new length field. */
  lemma HalfWay(was: seq<Byte>, len: nat, l: Layout, f: nat, x: seq<Byte>)
    requires len <= |was| && Fits(l, len) && l.data + f <= len && |x| == 2
    ensures var p := was[..len];
      var mid := Moved(Put(was, LengthAt(l), x), l.data, f, len - l.data - f);
      mid[..len-f] == Put(p[..l.data] + p[l.data+f..], LengthAt(l), x) && mid[len..] == was[len..]
  {
    hide Put;
    var p, i := was[..len], LengthAt(l);
    var a := Put(was, i, x);
    PutPrefix(was, i, x, l.data);
    PutPrefix(was, i, x, len);
    assert was[..l.data] == p[..l.data];
    PutPrefix(was, i, x, l.data + f);
    assert a[l.data+f..len] == p[l.data+f..];
    PutConcat(p[..l.data], i, x, p[l.data+f..]);
    MovedParts(a, l.data, f, len - l.data - f, len);
  }

  lemma MovedParts(a: seq<Byte>, i: nat, f: nat, n: nat, len: nat)
    requires len == i + f + n <= |a|
    ensures Moved(a, i, f, n)[..i+n] == a[..i] + a[i+f..len] && Moved(a, i, f, n)[len..] == a[len..]
  {
  }

  /** The sequence number lies behind the length field and before the payload. */
  lemma SeqNumKept(p: seq<Byte>, l: Layout, f: nat, x: seq<Byte>)
    requires Fits(l, |p|) && l.data + f <= |p| && |x| == 2
    ensures SeqNum(Put(p[..l.data] + p[l.data+f..], LengthAt(l), x), l) == SeqNum(p, l)
  {
    hide Put;
    var c := p[..l.data] + p[l.data+f..];
    PutKeeps(c, LengthAt(l), x, l.tcp + 4, l.tcp + 8);
    assert c[l.tcp+4..l.tcp+8] == p[l.tcp+4..l.tcp+8];
  }

  lemma SecondIs(p: seq<Byte>, l: Layout, f: nat, x: seq<Byte>, y: seq<Byte>)
    requires Fits(l, |p|) && l.data + f <= |p| && x == Field16(Length(p, l) - f) && y == Field32(SeqNum(p, l) + f)
    ensures Second(p, l, f) == Put(Put(p[..l.data] + p[l.data+f..], LengthAt(l), x), l.tcp + 4, y)
  {
    hide Put, ToBe, Field16, Field32, FromBe, Length, SeqNum, LengthAt;
  }

  /** Copying the saved packet back restores the whole buffer. */
  lemma Restored(was: seq<Byte>, now: seq<Byte>, len: nat)
    requires len <= |was| == |now| && now[len..] == was[len..]
    ensures Put(now, 0, was[..len]) == was
  {
    assert was == was[..len] + was[len..];
  }

  /** The WinDivert handle: what it was given to send. */
  class Handle {
    var sent: seq<seq<Byte>>

    constructor ()
      ensures sent == []
    {
      sent := [];
    }

    method Send(packet: array<Byte>, len: nat)
      requires len <= packet.Length
      modifies this
      ensures sent == old(sent) + [packet[..len]]
    {
      sent := sent + [packet[..len]];
    }

    /** send_native_fragment. */
    method SendNativeFragment(packet: array<Byte>, packetLen0: nat, l: Layout, fragmentSize0: nat, step: nat)
      requires packetLen0 <= packet.Length && Fits(l, packetLen0) && step <= 1
      modifies this, packet
      ensures sent == old(sent) + Sent(old(packet[..packetLen0]), l, fragmentSize0, step == 1)
      ensures packet[..] == old(packet[..])
    {
      SentIs(packet[..packetLen0], l, fragmentSize0, step == 1);
      hide First, Second, Sent, Fits;
      var fragmentSize := fragmentSize0;
      var packetDataLen := packetLen0 - l.data;
      ghost var was := packet[..];
      var bak := packet[..packetLen0];
      if fragmentSize >= packetDataLen {
        if step == 1 {
          fragmentSize := 0;
        } else {
          return;
        }
      }
      var packetLen;
      if step == 0 {
        packetLen := CutEnd(packet, packetLen0, l, fragmentSize);
      } else {
        packetLen := CutFront(packet, packetLen0, l, fragmentSize);
      }
      assert packet[..packetLen] == if step == 0 then First(bak, l, fragmentSize) else Second(bak, l, fragmentSize);
      Send(packet, packetLen);
      Restored(was, packet[..], packetLen0);
      Write(packet, 0, bak);
    }

    /** Step 0: shortens the packet to the first f bytes of payload. */
    method CutEnd(packet: array<Byte>, len: nat, l: Layout, f: nat) returns (n: nat)
      requires len <= packet.Length && Fits(l, len) && l.data + f <= len
      modifies packet
      ensures n <= len && packet[..n] == First(old(packet[..len]), l, f) && packet[len..] == old(packet[len..])
    {
      hide Put, FromBe, ToBe, Field16, Field32, First;
      FirstInPlace(packet[..], len, l, f);
      assert packet[..][..len] == packet[..len];
      Write(packet, LengthAt(l), Field16(Length(packet[..len], l) - (len - l.data) + f));
      n := l.data + f;
    }

    /** Step 1: takes the first f bytes out of the payload and moves the sequence number on. */
    method CutFront(packet: array<Byte>, len: nat, l: Layout, f: nat) returns (n: nat)
      requires len <= packet.Length && Fits(l, len) && l.data + f <= len
      modifies packet
      ensures n <= len && packet[..n] == Second(old(packet[..len]), l, f) && packet[len..] == old(packet[len..])
    {
      hide Put, FromBe, ToBe, Field16, Field32, Second, Moved, Length, SeqNum;
      ghost var was, p := packet[..], packet[..len];
      assert was[..len] == p;
      ghost var x, y := Field16(Length(p, l) - f), Field32(SeqNum(p, l) + f);
      Write(packet, LengthAt(l), Field16(Length(packet[..len], l) - f));
      MoveDown(packet, l.data, f, len - l.data - f);
      n := len - f;
      HalfWay(was, len, l, f, x);
      SeqNumKept(p, l, f, x);
      SecondIs(p, l, f, x, y);
      ghost var mid := packet[..];
      assert mid[..n] == packet[..n];
      PutPrefix(mid, l.tcp + 4, y, n);
      PutPrefix(mid, l.tcp + 4, y, len);
      Write(packet, l.tcp + 4, Field32(SeqNum(packet[..n], l) + f));
    }

    method Write(packet: array<Byte>, i: nat, bytes: seq<Byte>)
      requires i + |bytes| <= packet.Length
      modifies packet
      ensures packet[..] == Put(old(packet[..]), i, bytes)
    {
      ghost var was := packet[..];
      forall j | 0 <= j < |bytes| {
        packet[i + j] := bytes[j];
      }
    }

    /** memmove of n bytes from i + f to i. */
    method MoveDown(packet: array<Byte>, i: nat, f: nat, n: nat)
      requires i + f + n <= packet.Length
      modifies packet
      ensures packet[..] == Moved(old(packet[..]), i, f, n)
    {
      ghost var was := packet[..];
      forall j | 0 <= j < n {
        packet[i + j] := packet[i + f + j];
      }
      MovedIs(was, i, f, n, packet[..]);
    }

    /** The end of the TCP handling: both calls, in the order that the reverse flag selects. */
    method SendFragments(packet: array<Byte>, packetLen: nat, l: Layout, fragmentSize: nat, reverse: bool)
      requires packetLen <= packet.Length && Fits(l, packetLen)
      modifies this, packet
      ensures packet[..] == old(packet[..])
      ensures var p := old(packet[..packetLen]);
        sent == old(sent) + if fragmentSize == 0 then []
                            else Sent(p, l, fragmentSize, reverse) + Sent(p, l, fragmentSize, !reverse)
    {
      hide Sent;
      if fragmentSize != 0 {
        ghost var was := packet[..];
        assert was[..packetLen] == packet[..packetLen];
        SendNativeFragment(packet, packetLen, l, fragmentSize, if reverse then 1 else 0);
        assert packet[..packetLen] == was[..packetLen];
        SendNativeFragment(packet, packetLen, l, fragmentSize, if reverse then 0 else 1);
      }
    }
  }
}
