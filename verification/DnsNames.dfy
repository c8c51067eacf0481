/** DNS names: dns_mk_query_blob of mdig.c writes them, dns_extract_name of desync.c reads them. */
module DnsNames {
  import opened Sequences
  import opened Bytes

  const DOT: Byte := 0x2E
  const MAX_LABEL := 63

  type Label = seq<Byte>

  datatype Option<T> = None | Some(value: T)

  // ----- names, labels and their encoding -----

  /** The index of the first dot, or the length. */
  function DotAt(s: seq<Byte>): (d: nat)
    ensures d <= |s| && (d < |s| ==> s[d] == DOT)
    ensures forall i :: 0 <= i < d ==> s[i] != DOT
  {
    if |s| == 0 || s[0] == DOT then 0 else 1 + DotAt(s[1..])
  }

  /** The labels between the dots. */
  function Split(s: seq<Byte>): (ls: seq<Label>)
    ensures |ls| > 0
    decreases |s|
  {
    var d := DotAt(s);
    if d == |s| then [s] else [s[..d]] + Split(s[d+1..])
  }

  /** Section 3.1 of RFC 1035: each label with its length in front. */
  function Encode(ls: seq<Label>): (r: seq<int>) {
    if |ls| == 0 then [] else [|ls[0]|] + ls[0] + Encode(ls[1..])
  }

  predicate GoodLabel(l: Label) {
    1 <= |l| <= MAX_LABEL
  }

  predicate GoodLabels(ls: seq<Label>) {
    forall i :: 0 <= i < |ls| ==> GoodLabel(ls[i])
  }

  /** tolower in the C locale. */
  function ToLower(c: Byte): Byte {
    if 0x41 <= c <= 0x5A then c + 0x20 else c
  }

  function Lower(s: seq<Byte>): (r: seq<Byte>)
    ensures |r| == |s|
  {
    seq(|s|, i requires 0 <= i < |s| => ToLower(s[i]))
  }

  lemma EncodeConcat(a: seq<Label>, b: seq<Label>)
    ensures Encode(a + b) == Encode(a) + Encode(b)
  {
    if |a| == 0 {
      assert a + b == b;
    } else {
      assert (a + b)[1..] == a[1..] + b;
      EncodeConcat(a[1..], b);
      assert [|a[0]|] + a[0] + (Encode(a[1..]) + Encode(b)) == [|a[0]|] + a[0] + Encode(a[1..]) + Encode(b);
    }
  }

  /** The encoding is one byte longer than the name. */
  lemma {:induction false} EncodeLength(s: seq<Byte>)
    ensures |Encode(Split(s))| == |s| + 1
    decreases |s|
  {
    var d := DotAt(s);
    if d < |s| {
      EncodeLength(s[d+1..]);
      assert Split(s)[1..] == Split(s[d+1..]);
    } else {
      assert Split(s)[1..] == [];
    }
  }

  // ----- dns_extract_name -----

  /** The walk over the labels at p, which appends them to name. */
  function Walk(buf: seq<Byte>, p: nat, name: seq<Byte>, size: nat): Option<(seq<Byte>, nat)>
    requires p < |buf|
    decreases |buf| - p
  {
    var y := buf[p];
    if y == 0 then
      if |name| >= size then None else Some((name, p + 1))
    else if |name| >= size && |name| > 0 then None
    else
      var dotted := if |name| > 0 then name + [DOT] else name;
      if y >= 0x40 || p + y + 1 >= |buf| || y + 1 >= size - |dotted| then None
      else Walk(buf, p + y + 1, dotted + Lower(buf[p+1..p+1+y]), size)
  }

  /** dns_extract_name at offset a of the message buf, with a name buffer of the given size:
      the name and the offset behind it. */
  function Extract(buf: seq<Byte>, a: nat, size: nat): Option<(seq<Byte>, nat)>
    requires a < |buf|
  {
    if size == 0 then None
    else if buf[a] >= 0xC0 then
      if a + 1 >= |buf| then None
      else
        var p := 0x100 * (buf[a] - 0xC0 as int) + buf[a+1];
        if p >= |buf| then None
        else
          match Walk(buf, p, [], size)
          case None => None
          case Some(r) => Some((r.0, a + 2))
    else Walk(buf, a, [], size)
  }

  /** The name that the walk builds out of labels. */
  function Joined(name: seq<Byte>, ls: seq<Label>): seq<Byte>
    decreases |ls|
  {
    if |ls| == 0 then name
    else Joined((if |name| > 0 then name + [DOT] else name) + Lower(ls[0]), ls[1..])
  }

  ghost predicate StartsAt(buf: seq<Byte>, p: nat, s: seq<int>) {
    p + |s| <= |buf| && forall i :: 0 <= i < |s| ==> buf[p+i] == s[i]
  }

  lemma {:induction false} JoinedLength(name: seq<Byte>, ls: seq<Label>)
    ensures |Joined(name, ls)| >= |name|
    ensures |ls| > 0 ==> |Joined(name, ls)| >= |name| + |ls[0]| + (if |name| > 0 then 1 else 0)
    decreases |ls|
  {
    if |ls| > 0 {
      JoinedLength((if |name| > 0 then name + [DOT] else name) + Lower(ls[0]), ls[1..]);
    }
  }

  /** The walk is the inverse of the encoding. */
  lemma {:induction false} WalkDecodes(buf: seq<Byte>, p: nat, ls: seq<Label>, name: seq<Byte>, size: nat)
    requires GoodLabels(ls) && StartsAt(buf, p, Encode(ls) + [0]) && |Joined(name, ls)| + 1 < size
    ensures p < |buf| && Walk(buf, p, name, size) == Some((Joined(name, ls), p + |Encode(ls)| + 1))
    decreases |ls|
  {
    JoinedLength(name, ls);
    var e := Encode(ls) + [0];
    assert buf[p] == e[0];
    if |ls| > 0 {
      var l := ls[0];
      var q := p + |l| + 1;
      var rest := Encode(ls[1..]) + [0];
      assert e == [|l|] + l + rest;
      assert GoodLabel(l);
      forall i | 0 <= i < |l| ensures buf[p+1+i] == l[i] {
        assert e[1 + i] == l[i];
      }
      assert buf[p+1..q] == l;
      forall i | 0 <= i < |rest| ensures buf[q+i] == rest[i] {
        assert e[1 + |l| + i] == rest[i];
      }
      WalkDecodes(buf, q, ls[1..], (if |name| > 0 then name + [DOT] else name) + Lower(l), size);
    }
  }

  /** A name that does not fit the buffer with two bytes to spare is refused. */
  lemma {:induction false} WalkRefuses(buf: seq<Byte>, p: nat, ls: seq<Label>, name: seq<Byte>, size: nat)
    requires |ls| > 0 && GoodLabels(ls) && StartsAt(buf, p, Encode(ls) + [0]) && |Joined(name, ls)| + 1 >= size
    ensures p < |buf| && Walk(buf, p, name, size) == None
    decreases |ls|
  {
    var l := ls[0];
    var q, e, rest := p + |l| + 1, Encode(ls) + [0], Encode(ls[1..]) + [0];
    assert e == [|l|] + l + rest && GoodLabel(l);
    assert buf[p] == e[0];
    forall i | 0 <= i < |l| ensures buf[p+1+i] == l[i] {
      assert e[1 + i] == l[i];
    }
    assert buf[p+1..q] == l;
    if |ls| > 1 {
      forall i | 0 <= i < |rest| ensures buf[q+i] == rest[i] {
        assert e[1 + |l| + i] == rest[i];
      }
      WalkRefuses(buf, q, ls[1..], (if |name| > 0 then name + [DOT] else name) + Lower(l), size);
    }
  }

  /** Section 4.1.4 of RFC 1035: two bytes at a, with their top bits set, point to the name at p. The result is that
      name, and the offset behind the two bytes; there is none exactly if the buffer is too small. */
  lemma PointerDecodes(buf: seq<Byte>, a: nat, p: nat, ls: seq<Label>, size: nat)
    requires a + 1 < |buf| && p < 0x4000 && buf[a] == 0xC0 + p / 256 && buf[a+1] == p % 256
    requires |ls| > 0 && GoodLabels(ls) && StartsAt(buf, p, Encode(ls) + [0])
    ensures |Joined([], ls)| + 1 < size ==> Extract(buf, a, size) == Some((Joined([], ls), a + 2))
    ensures |Joined([], ls)| + 1 >= size ==> Extract(buf, a, size) == None
  {
    hide Walk, Joined, Encode;
    assert p == 0x100 * (buf[a] - 0xC0 as int) + buf[a+1];
    if |Joined([], ls)| + 1 < size {
      WalkDecodes(buf, p, ls, [], size);
    } else {
      WalkRefuses(buf, p, ls, [], size);
    }
  }

  /** A name that starts at a itself: the result goes on behind its last byte. */
  lemma NameDecodes(buf: seq<Byte>, a: nat, ls: seq<Label>, size: nat)
    requires |ls| > 0 && GoodLabels(ls) && StartsAt(buf, a, Encode(ls) + [0])
    ensures a < |buf|
    ensures |Joined([], ls)| + 1 < size ==> Extract(buf, a, size) == Some((Joined([], ls), a + |Encode(ls)| + 1))
    ensures |Joined([], ls)| + 1 >= size ==> Extract(buf, a, size) == None
  {
    assert GoodLabel(ls[0]);
    assert buf[a] == (Encode(ls) + [0])[0] == |ls[0]|;
    hide Walk, Joined, Encode;
    if |Joined([], ls)| + 1 < size {
      WalkDecodes(buf, a, ls, [], size);
    } else {
      WalkRefuses(buf, a, ls, [], size);
    }
  }

  /** A label length of 64 or more, such as a pointer behind a label or behind a pointer, is refused. */
  lemma MixedRefused(buf: seq<Byte>, p: nat, name: seq<Byte>, size: nat)
    requires p < |buf| && buf[p] >= 0x40
    ensures Walk(buf, p, name, size) == None
  {
  }

  /** Joining the labels of a name gives the name in lower case. */
  lemma {:induction false} JoinedSplit(name: seq<Byte>, s: seq<Byte>)
    requires |name| > 0 || DotAt(s) > 0
    ensures Joined(name, Split(s)) == (if |name| > 0 then name + [DOT] else name) + Lower(s)
    decreases |s|
  {
    var d := DotAt(s);
    var l, head := s[..d], if |name| > 0 then name + [DOT] else name;
    var more := head + Lower(l);
    assert Split(s)[0] == l && Joined(name, Split(s)) == Joined(more, Split(s)[1..]);
    if d == |s| {
      assert Split(s)[1..] == [] && l == s;
    } else {
      var t := s[d+1..];
      assert Split(s)[1..] == Split(t);
      hide Split, Joined;
      JoinedSplit(more, t);
      LowerParts(s, d);
      assert head + Lower(l) + [DOT] + Lower(t) == head + (Lower(l) + [DOT] + Lower(t));
    }
  }

  lemma LowerParts(s: seq<Byte>, d: nat)
    requires d < |s| && s[d] == DOT
    ensures Lower(s) == Lower(s[..d]) + [DOT] + Lower(s[d+1..])
  {
  }

  // ----- the query -----

  /** The name without one trailing dot. */
  function Trimmed(dname: seq<Byte>): seq<Byte> {
    if |dname| > 0 && dname[|dname|-1] == DOT then dname[..|dname|-1] else dname
  }

  /** Which names can be encoded: at most 253 bytes, and every label has 1 to 63. */
  predicate Encodable(t: seq<Byte>) {
    |t| <= 253 && (|t| > 0 ==> GoodLabels(Split(t)))
  }

  /** No label is empty or longer than 63 bytes, in terms of where the dots are. */
  ghost predicate WellDotted(s: seq<Byte>) {
    && |s| > 0 && s[0] != 0x2E && s[|s|-1] != 0x2E
    && (forall i, j :: 0 <= i < j < |s| && j == i + 1 && s[i] == 0x2E ==> s[j] != 0x2E)
    && (forall i :: 0 <= i <= |s| - 64 ==> DotWithin(s, i, 64))
  }

  ghost predicate DotWithin(s: seq<Byte>, i: nat, n: nat) {
    exists j :: i <= j < i + n && j < |s| && s[j] == 0x2E
  }

  /** Which names can be encoded, without splitting them. */
  lemma EncodableMeaning(t: seq<Byte>)
    ensures Encodable(t) <==> |t| <= 253 && (|t| > 0 ==> WellDotted(t))
  {
    if |t| > 0 {
      LabelsMeaning(t);
    }
  }

  lemma {:induction false} LabelsMeaning(s: seq<Byte>)
    ensures GoodLabels(Split(s)) <==> WellDotted(s)
    decreases |s|
  {
    var d := DotAt(s);
    if d == |s| {
      assert Split(s)[0] == s && Split(s) == [s];
      OneLabel(s);
    } else {
      var t := s[d+1..];
      LabelsMeaning(t);
      assert Split(s) == [s[..d]] + Split(t);
      MoreLabels([s[..d]], Split(t));
      DottedTail(s, d);
    }
  }

  lemma OneLabel(s: seq<Byte>)
    requires DotAt(s) == |s|
    ensures WellDotted(s) <==> 1 <= |s| <= 63
  {
    if |s| >= 64 {
      assert !DotWithin(s, 0, 64);
    }
  }

  lemma MoreLabels(l: seq<Label>, ls: seq<Label>)
    requires |l| == 1
    ensures GoodLabels(l + ls) <==> GoodLabel(l[0]) && GoodLabels(ls)
  {
    var m := l + ls;
    assert m[0] == l[0] && forall i :: 0 <= i < |ls| ==> m[i+1] == ls[i];
  }

  /** A dot splits off a label of 1 to 63 bytes exactly if what is behind it is well dotted too. */
  lemma DottedTail(s: seq<Byte>, d: nat)
    requires d == DotAt(s) < |s|
    ensures WellDotted(s) <==> 1 <= d <= 63 && WellDotted(s[d+1..])
  {
    hide WellDotted;
    if WellDotted(s) {
      TailDotted(s, d);
    } else if 1 <= d <= 63 && WellDotted(s[d+1..]) {
      LabelDotted(s, d);
    }
  }

  lemma TailDotted(s: seq<Byte>, d: nat)
    requires d == DotAt(s) < |s| && WellDotted(s)
    ensures 1 <= d <= 63 && WellDotted(s[d+1..])
  {
    FirstDot(s, d);
    hide DotAt, DotWithin;
    var t := s[d+1..];
    assert forall i :: 0 <= i < |t| ==> t[i] == s[d+1+i];
    forall i | 0 <= i <= |t| - 64 ensures DotWithin(t, i, 64) {
      assert DotWithin(s, d + 1 + i, 64);
      ShiftedWithin(s, d + 1, i, 64);
    }
  }

  lemma FirstDot(s: seq<Byte>, d: nat)
    requires d == DotAt(s) < |s| && WellDotted(s)
    ensures 1 <= d <= 63 && d + 1 < |s| && s[d] == DOT != s[d+1]
  {
    LastNoDot(s, d);
    assert s[d] == 0x2E;
    if |s| >= 64 {
      assert DotWithin(s, 0, 64);
      hide WellDotted;
      var j :| 0 <= j < 64 && j < |s| && s[j] == 0x2E;
      assert j >= d;
    }
  }

  lemma LastNoDot(s: seq<Byte>, d: nat)
    requires d < |s| && s[d] == 0x2E && WellDotted(s)
    ensures d + 1 < |s| && d > 0 && s[d+1] != 0x2E
  {
    hide DotWithin;
  }

  lemma ShiftedWithin(s: seq<Byte>, d: nat, i: nat, n: nat)
    requires d <= |s|
    ensures DotWithin(s[d..], i, n) <==> DotWithin(s, d + i, n)
  {
    if DotWithin(s, d + i, n) {
      var j :| d + i <= j < d + i + n && j < |s| && s[j] == DOT;
      assert s[d..][j-d] == DOT;
    }
    if DotWithin(s[d..], i, n) {
      var j :| i <= j < i + n && j < |s| - d && s[d..][j] == DOT;
      assert s[d+j] == DOT;
    }
  }

  lemma LabelDotted(s: seq<Byte>, d: nat)
    requires d == DotAt(s) < |s| && 1 <= d <= 63 && WellDotted(s[d+1..])
    ensures WellDotted(s)
  {
    LabelNoDouble(s, d);
    var t := s[d+1..];
    assert s[|s|-1] == t[|t|-1] && s[0] != DOT;
    hide DotAt;
    forall i | 0 <= i <= |s| - 64 ensures DotWithin(s, i, 64) {
      if i > d {
        assert DotWithin(t, i - d - 1, 64);
        ShiftedWithin(s, d + 1, i - d - 1, 64);
      }
    }
  }

  lemma LabelNoDouble(s: seq<Byte>, d: nat)
    requires d == DotAt(s) < |s| && WellDotted(s[d+1..])
    ensures s[d] == 0x2E && forall i, j :: 0 <= i < j < |s| && j == i + 1 && s[i] == 0x2E ==> s[j] != 0x2E
  {
    var t := s[d+1..];
    hide DotWithin;
    forall i, j | 0 <= i < j < |s| && j == i + 1 && s[i] == 0x2E ensures s[j] != 0x2E {
      if i == d {
        assert s[j] == t[0];
      } else {
        assert t[i-d-1] == s[i] && t[j-d-1] == s[j];
      }
    }
  }

  /** The length of the message for a trimmed name. */
  function BlobLength(t: seq<Byte>): nat {
    17 + |t| + (if |t| > 0 then 1 else 0)
  }

  /** The message after the two bytes of its id. */
  function Blob(op: nat, t: seq<Byte>, qclass: Byte, qtype: Byte): seq<int> {
    Header(op) + Name(t) + Trailer(qclass, qtype)
  }

  /** The flags and counts: the operation, recursion desired, one question. */
  function Header(op: nat): (r: seq<int>)
    ensures |r| == 10
  {
    [8 * op + 1, 0, 0, 1, 0, 0, 0, 0, 0, 0]
  }

  function Name(t: seq<Byte>): seq<int> {
    if |t| > 0 then Encode(Split(t)) else []
  }

  /** The root label, the type and the class. */
  function Trailer(qclass: Byte, qtype: Byte): (r: seq<int>)
    ensures |r| == 5
  {
    [0, 0, qtype, 0, qclass]
  }

  predicate Accepted(op: nat, dname: seq<Byte>, buflen: nat) {
    var t := Trimmed(dname);
    Encodable(t) && BlobLength(t) <= buflen && op <= 15
  }

  /** Which calls succeed, and how long the message is: the name, without a dot at its end, has at most 253 bytes and no
      label that is empty or longer than 63, the operation has four bits and the buffer is large enough. */
  lemma AcceptedMeaning(op: nat, dname: seq<Byte>, buflen: nat)
    ensures var l := |dname|;
      var t := if l > 0 && dname[l-1] == 0x2E then dname[..l-1] else dname;
      var n := if t == [] then 17 else 18 + |t|;
      && (Accepted(op, dname, buflen) <==> op < 16 && n <= buflen && |t| <= 253 && (t != [] ==> WellDotted(t)))
      && BlobLength(Trimmed(dname)) == n
  {
    EncodableMeaning(Trimmed(dname));
    hide WellDotted, Encodable;
  }

  /** Capital letters become small ones and nothing else changes. */
  lemma LowerBytes(s: seq<Byte>, i: nat)
    requires i < |s|
    ensures !(0x41 <= Lower(s)[i] <= 0x5A)
    ensures if 0x41 <= s[i] <= 0x5A then Lower(s)[i] - s[i] == 0x61 - 0x41 else Lower(s)[i] == s[i]
  {
  }

  /** The labels done are encoded up to i. */
  ghost predicate Coded(b: seq<Byte>, i: nat, done: seq<Label>) {
    i == 13 + |Encode(done)| && i <= |b| && b[12..i-1] == Encode(done) && GoodLabels(done)
  }

  /** The text rest, which starts at i, is not encoded yet. */
  ghost predicate Uncoded(b: seq<Byte>, t: seq<Byte>, i: nat, done: seq<Label>, rest: seq<Byte>)
    requires BlobLength(t) <= |b|
  {
    && (if |rest| > 0 then
          i + |rest| == 13 + |t| && b[i..13+|t|] == rest && rest[|rest|-1] != DOT && Split(t) == done + Split(rest)
        else if |t| > 0 then i == 14 + |t| && Split(t) == done
        else i == 13 && done == [])
    && (forall k :: 0 <= k < |rest| ==> rest[k] != 0)
  }

  /** The header is in place and the last bytes are zero. */
  ghost predicate Framed(b: seq<Byte>, op: nat, t: seq<Byte>)
    requires BlobLength(t) <= |b|
  {
    && (forall k :: BlobLength(t) - 5 <= k < BlobLength(t) ==> b[k] == 0)
    && b[2..12] == Header(op)
  }

  /** How far the rewrite is. */
  ghost predicate Progress(b: seq<Byte>, op: nat, t: seq<Byte>, i: nat, done: seq<Label>, rest: seq<Byte>) {
    BlobLength(t) <= |b| && Coded(b, i, done) && Uncoded(b, t, i, done, rest) && Framed(b, op, t)
  }

  lemma ProgressBegins(b: seq<Byte>, op: nat, t: seq<Byte>)
    requires BlobLength(t) <= |b| && (|t| > 0 ==> t[|t|-1] != DOT) && forall k :: 0 <= k < |t| ==> t[k] != 0
    requires b[13..13+|t|] == t && Framed(b, op, t)
    ensures Progress(b, op, t, 13, [], t)
  {
    if |t| > 0 {
      assert [] + Split(t) == Split(t);
    }
  }

  /** The loop condition: the text goes on exactly where the byte is not zero. */
  lemma ProgressByte(b: seq<Byte>, op: nat, t: seq<Byte>, i: nat, done: seq<Label>, rest: seq<Byte>)
    requires Progress(b, op, t, i, done, rest)
    ensures i + |rest| < BlobLength(t) <= |b| && i >= 13
    ensures forall k :: 0 <= k < |rest| ==> b[i+k] == rest[k] != 0
    ensures b[i+|rest|] == 0 && (|rest| > 0 ==> b[i] != 0)
  {
    hide Encode, Split;
    if |rest| > 0 {
      assert b[i..13+|t|][0] == rest[0];
    }
    forall k | 0 <= k < |rest| ensures b[i+k] == rest[k] {
      assert b[i..13+|t|][k] == rest[k];
    }
  }

  /** A label of a bad length makes the name impossible to encode. */
  lemma BadLabel(b: seq<Byte>, op: nat, t: seq<Byte>, i: nat, done: seq<Label>, rest: seq<Byte>)
    requires Progress(b, op, t, i, done, rest) && |rest| > 0 && !(1 <= DotAt(rest) <= MAX_LABEL)
    ensures |t| > 0 && !GoodLabels(Split(t))
  {
    hide Encode;
    assert Split(rest)[0] == rest[..DotAt(rest)];
    assert Split(t)[|done|] == Split(rest)[0];
  }

  lemma CodedStep(b: seq<Byte>, i: nat, done: seq<Label>, l: Label)
    requires Coded(b, i, done) && GoodLabel(l) && i + |l| < |b| && b[i..i+|l|] == l
    ensures Coded(b[i-1 := |l|], i + |l| + 1, done + [l])
  {
    var c, d := b[i-1 := |l|], |l|;
    EncodeConcat(done, [l]);
    assert Encode([l]) == [d] + l;
    hide Encode;
    assert c[12..i-1] == b[12..i-1] && c[i..i+d] == b[i..i+d];
    assert c[12..i+d] == c[12..i-1] + [c[i-1]] + c[i..i+d];
  }

  lemma RestSlice(b: seq<Byte>, i: nat, end: nat, rest: seq<Byte>, d: nat, v: Byte)
    requires 0 < i <= end <= |b| && b[i..end] == rest && d < |rest|
    ensures b[i-1 := v][i+d+1..end] == rest[d+1..]
  {
  }

  lemma SplitStep(done: seq<Label>, rest: seq<Byte>)
    requires |rest| > 0
    ensures var d := DotAt(rest);
      && (d < |rest| ==> done + Split(rest) == (done + [rest[..d]]) + Split(rest[d+1..]))
      && (d == |rest| ==> done + Split(rest) == done + [rest[..d]])
  {
    var d := DotAt(rest);
    if d < |rest| {
      assert Split(rest) == [rest[..d]] + Split(rest[d+1..]);
      Assoc(done, rest[..d], Split(rest[d+1..]));
    } else {
      assert rest[..d] == rest;
    }
  }

  lemma Assoc(a: seq<Label>, l: Label, b: seq<Label>)
    ensures a + ([l] + b) == (a + [l]) + b
  {
  }

  lemma UncodedIs(b: seq<Byte>, t: seq<Byte>, i: nat, done: seq<Label>, rest: seq<Byte>)
    requires BlobLength(t) <= |b| && |rest| > 0 && i + |rest| == 13 + |t| && b[i..13+|t|] == rest
    requires rest[|rest|-1] != DOT && Split(t) == done + Split(rest) && forall k :: 0 <= k < |rest| ==> rest[k] != 0
    ensures Uncoded(b, t, i, done, rest)
  {
  }

  lemma TextGoesOn(rest: seq<Byte>, d: nat)
    requires d < |rest| && rest[d] == DOT != rest[|rest|-1] && forall k :: 0 <= k < |rest| ==> rest[k] != 0
    ensures var more := rest[d+1..];
      |more| > 0 && more[|more|-1] != DOT && forall k :: 0 <= k < |more| ==> more[k] != 0
  {
  }

  lemma UncodedStep(b: seq<Byte>, t: seq<Byte>, i: nat, done: seq<Label>, rest: seq<Byte>, v: Byte)
    requires BlobLength(t) <= |b| && i >= 13 && Uncoded(b, t, i, done, rest) && |rest| > 0
    ensures var d := DotAt(rest);
      Uncoded(b[i-1 := v], t, i + d + 1, done + [rest[..d]], if d < |rest| then rest[d+1..] else [])
  {
    hide Uncoded, Split, DotAt;
    var d := DotAt(rest);
    SplitStep(done, rest);
    UncodedFacts(b, t, i, done, rest);
    if d < |rest| {
      RestSlice(b, i, 13 + |t|, rest, d, v);
      TextGoesOn(rest, d);
      var more := rest[d+1..];
      assert i + d + 1 + |more| == 13 + |t|;
      UncodedIs(b[i-1 := v], t, i + d + 1, done + [rest[..d]], more);
    } else {
      assert d == |rest| && Split(t) == done + [rest[..d]];
      UncodedEnd(b[i-1 := v], t, i + d + 1, done + [rest[..d]]);
    }
  }

  lemma UncodedFacts(b: seq<Byte>, t: seq<Byte>, i: nat, done: seq<Label>, rest: seq<Byte>)
    requires BlobLength(t) <= |b| && Uncoded(b, t, i, done, rest) && |rest| > 0
    ensures i + |rest| == 13 + |t| && b[i..13+|t|] == rest && rest[|rest|-1] != DOT && Split(t) == done + Split(rest)
    ensures forall k :: 0 <= k < |rest| ==> rest[k] != 0
  {
  }

  lemma UncodedEnd(b: seq<Byte>, t: seq<Byte>, i: nat, done: seq<Label>)
    requires BlobLength(t) <= |b| && |t| > 0 && i == 14 + |t| && Split(t) == done
    ensures Uncoded(b, t, i, done, [])
  {
  }

  lemma LabelSlice(b: seq<Byte>, t: seq<Byte>, i: nat, done: seq<Label>, rest: seq<Byte>)
    requires BlobLength(t) <= |b| && i >= 13 && Uncoded(b, t, i, done, rest) && |rest| > 0
    ensures var d := DotAt(rest); i + d <= 13 + |t| < |b| && b[i..i+d] == rest[..d]
  {
    hide Uncoded, Split;
    UncodedFacts(b, t, i, done, rest);
    assert b[i..i+DotAt(rest)] == b[i..13+|t|][..DotAt(rest)];
  }

  lemma ProgressStep(b: seq<Byte>, op: nat, t: seq<Byte>, i: nat, done: seq<Label>, rest: seq<Byte>)
    requires Progress(b, op, t, i, done, rest) && |rest| > 0 && 1 <= DotAt(rest) <= MAX_LABEL && i >= 13
    ensures var d := DotAt(rest);
      Progress(b[i-1 := d], op, t, i + d + 1, done + [rest[..d]], if d < |rest| then rest[d+1..] else [])
  {
    var d := DotAt(rest);
    hide Uncoded, Coded, Framed, DotAt;
    UncodedStep(b, t, i, done, rest, d);
    LabelSlice(b, t, i, done, rest);
    CodedStep(b, i, done, rest[..d]);
    FramedStep(b, op, t, i - 1, d);
  }

  lemma FramedStep(b: seq<Byte>, op: nat, t: seq<Byte>, k: nat, v: Byte)
    requires BlobLength(t) <= |b| && Framed(b, op, t) && 12 <= k < BlobLength(t) - 5
    ensures Framed(b[k := v], op, t)
  {
    hide Header;
    assert b[k := v][2..12] == b[2..12];
  }

  lemma ProgressEnds(b: seq<Byte>, op: nat, t: seq<Byte>, i: nat, done: seq<Label>)
    requires Progress(b, op, t, i, done, [])
    ensures i + 4 == BlobLength(t) && i >= 13 && (|t| > 0 ==> GoodLabels(Split(t))) && b[12..i-1] == Name(t)
  {
    if |t| > 0 {
      EncodeLength(t);
    }
  }

  lemma BlobIs(c: seq<Byte>, op: nat, t: seq<Byte>, i: nat, qclass: Byte, qtype: Byte)
    requires 13 <= i && |c| == i + 4 && c[2..12] == Header(op) && c[12..i-1] == Name(t)
    requires c[i-1..] == Trailer(qclass, qtype)
    ensures c[2..] == Blob(op, t, qclass, qtype)
  {
    hide Header, Name, Trailer;
    var d := c[2..];
    ThreeParts(d, 10, i - 3);
    assert d[..10] == c[2..12] && d[10..i-3] == c[12..i-1] && d[i-3..] == c[i-1..];
  }

  /** The template of dns_mk_query_blob before the labels are counted: zeros, the header and the text. */
  method Template(op: Byte, t: seq<Byte>, buf: array<Byte>)
    requires op <= 15 && BlobLength(t) <= buf.Length && (|t| > 0 ==> t[|t|-1] != DOT)
    requires forall k :: 0 <= k < |t| ==> t[k] != 0
    modifies buf
    ensures Progress(buf[..], op, t, 13, [], t) && buf[BlobLength(t)..] == old(buf[BlobLength(t)..])
  {
    var n := BlobLength(t);
    forall k | 0 <= k < n {
      buf[k] := 0;
    }
    buf[2] := 8 * op + 1;
    buf[5] := 1;
    forall k | 0 <= k < |t| {
      buf[13 + k] := t[k];
    }
    hide Progress;
    assert buf[2..12] == Header(op);
    ProgressBegins(buf[..], op, t);
  }

  /** The loop of dns_mk_query_blob: puts the length of each label in the place of the dot before it. */
  method CountLabels(op: Byte, t: seq<Byte>, buf: array<Byte>) returns (ok: bool, i: nat)
    requires BlobLength(t) <= buf.Length && Progress(buf[..], op, t, 13, [], t)
    modifies buf
    ensures ok <==> (|t| > 0 ==> GoodLabels(Split(t)))
    ensures ok ==> exists done :: Progress(buf[..], op, t, i, done, [])
    ensures buf[BlobLength(t)..] == old(buf[BlobLength(t)..])
  {
    hide Progress, Split, GoodLabels;
    ghost var done: seq<Label>, rest := [], t;
    ghost var tail := buf[BlobLength(t)..];
    ProgressByte(buf[..], op, t, 13, [], t);
    i := 13;
    while buf[i] != 0
      invariant Progress(buf[..], op, t, i, done, rest)
      invariant 13 <= i && i + |rest| < BlobLength(t) <= buf.Length && buf[BlobLength(t)..] == tail
      decreases buf.Length - i
    {
      ProgressByte(buf[..], op, t, i, done, rest);
      var d := LabelEnd(buf, i, rest);
      var j := i + d;
      if d == 0 || d - 1 > 62 {
        BadLabel(buf[..], op, t, i, done, rest);
        ok := false;
        return;
      }
      ProgressStep(buf[..], op, t, i, done, rest);
      ghost var was := buf[..];
      buf[i-1] := d;
      assert buf[..] == was[i-1 := d];
      assert buf[BlobLength(t)..] == was[BlobLength(t)..];
      done, rest := done + [rest[..d]], if d < |rest| then rest[d+1..] else [];
      i := j + 1;
      ProgressByte(buf[..], op, t, i, done, rest);
    }
    ProgressByte(buf[..], op, t, i, done, rest);
    ProgressEnds(buf[..], op, t, i, done);
    ok := true;
  }

  /** The inner loop: the length of the label at i. */
  method LabelEnd(buf: array<Byte>, i: nat, ghost rest: seq<Byte>) returns (d: nat)
    requires i + |rest| < buf.Length && (forall k :: 0 <= k < |rest| ==> buf[i+k] == rest[k] != 0) && buf[i+|rest|] == 0
    ensures d == DotAt(rest)
  {
    d := 0;
    while buf[i+d] != 0 && buf[i+d] != DOT
      invariant 0 <= d <= |rest| && d <= DotAt(rest)
      decreases |rest| - d
    {
      assert rest[d] == buf[i+d];
      d := d + 1;
    }
    assert d < |rest| ==> rest[d] == buf[i+d];
  }

  /** dns_mk_query_blob; the id comes from the clock. The name is a C string, so it holds no zero byte. */
  method MkQueryBlob(op: Byte, dname: seq<Byte>, qclass: Byte, qtype: Byte, buf: array<Byte>, idHigh: Byte, idLow: Byte)
    returns (n: nat)
    requires forall k :: 0 <= k < |dname| ==> dname[k] != 0
    modifies buf
    ensures n == if Accepted(op, dname, buf.Length) then BlobLength(Trimmed(dname)) else 0
    ensures n > 0 ==> n <= buf.Length && buf[..n] == [idHigh, idLow] + Blob(op, Trimmed(dname), qclass, qtype)
    ensures n > 0 ==> buf[n..] == old(buf[n..])
    ensures n > 0 ==> n >= 17 && QueryFields(buf[..n], op, qclass, qtype)
  {
    var l := if |dname| <= 255 then |dname| else 255;
    if l > 0 && dname[l-1] == DOT {
      l := l - 1;
    }
    if l > 0 && dname[l-1] == DOT {
      DoubleDot(dname, l);
      return 0;
    }
    n := 17 + l + (if l > 0 then 1 else 0);
    if l > 253 || buf.Length < n || op > 15 {
      return 0;
    }
    ghost var t := Trimmed(dname);
    assert dname[..l] == t;
    Template(op, dname[..l], buf);
    var ok, i := CountLabels(op, dname[..l], buf);
    if !ok {
      return 0;
    }
    ghost var done :| Progress(buf[..], op, t, i, done, []);
    Finish(op, t, buf, i, qclass, qtype, idHigh, idLow, done);
    BlobFields(buf[..n], [idHigh, idLow], op, t, qclass, qtype);
  }

  /** The fields of a query, byte by byte: sections 4.1.1 and 4.1.2 of RFC 1035. It is no response, has the
      operation op, asks for recursion, and holds one question and no records; the root label, type and class end it. */
  ghost predicate QueryFields(msg: seq<Byte>, op: nat, qclass: Byte, qtype: Byte)
    requires |msg| >= 17
  {
    && msg[2] / 8 == op && msg[2] % 8 == 1 && msg[3] == 0
    && msg[4] == 0 && msg[5] == 1
    && (forall k :: 6 <= k < 12 ==> msg[k] == 0)
    && var m := |msg|;
       msg[m-5] == 0 && msg[m-4] == 0 && msg[m-3] == qtype && msg[m-2] == 0 && msg[m-1] == qclass
  }

  lemma BlobFields(msg: seq<Byte>, id: seq<Byte>, op: nat, t: seq<Byte>, qclass: Byte, qtype: Byte)
    requires |id| == 2 && op <= 15 && msg == id + Blob(op, t, qclass, qtype)
    ensures |msg| >= 17 && QueryFields(msg, op, qclass, qtype)
  {
    var h, e, r := Header(op), Name(t), Trailer(qclass, qtype);
    assert msg == id + (h + e + r);
    hide Name, Blob;
    assert |msg| == 17 + |e|;
    assert forall k :: 0 <= k < 10 ==> msg[2+k] == h[k];
    assert forall k :: 0 <= k < 5 ==> msg[|msg|-5+k] == r[k];
    assert msg[2] == h[0] && msg[3] == h[1] && msg[4] == h[2] && msg[5] == h[3];
    forall k | 6 <= k < 12 ensures msg[k] == 0 {
      assert msg[2 + (k - 2)] == h[k-2];
    }
    assert msg[|msg|-5+0] == r[0] && msg[|msg|-5+1] == r[1] && msg[|msg|-5+2] == r[2];
    assert msg[|msg|-5+3] == r[3] && msg[|msg|-5+4] == r[4];
  }

  /** The end of dns_mk_query_blob: the type, the class and the id. */
  method Finish(op: Byte, ghost t: seq<Byte>, buf: array<Byte>, i: nat, qclass: Byte, qtype: Byte,
                idHigh: Byte, idLow: Byte,
                ghost done: seq<Label>)
    requires Progress(buf[..], op, t, i, done, [])
    modifies buf
    ensures var n := BlobLength(t);
      && n <= buf.Length && buf[..n] == [idHigh, idLow] + Blob(op, t, qclass, qtype) && buf[n..] == old(buf[n..])
      && (|t| > 0 ==> GoodLabels(Split(t)))
  {
    ProgressEnds(buf[..], op, t, i, done);
    ghost var was := buf[..];
    assert |was| >= i + 4 && was[2..12] == Header(op) && was[i-1] == was[i] == was[i+2] == 0;
    buf[i+1] := qtype;
    buf[i+3] := qclass;
    buf[0] := idHigh;
    buf[1] := idLow;
    hide Progress, Header, Name, Split, GoodLabels;
    ghost var c := buf[..i+4];
    WrittenAround(was, c, i, qclass, qtype);
    BlobIs(c, op, t, i, qclass, qtype);
    assert c == [idHigh, idLow] + c[2..];
  }

  /** What the four bytes written last leave of the buffer. */
  lemma WrittenAround(was: seq<Byte>, c: seq<Byte>, i: nat, qclass: Byte, qtype: Byte)
    requires 13 <= i && |c| == i + 4 <= |was| && was[i-1] == was[i] == was[i+2] == 0
    requires c == was[..i+4][i+1 := qtype][i+3 := qclass][0 := c[0]][1 := c[1]]
    ensures c[2..12] == was[2..12] && c[12..i-1] == was[12..i-1] && c[i-1..] == Trailer(qclass, qtype)
  {
  }

  /** A name that ends in two dots has an empty label; a name that is still longer than 253 bytes is too long. */
  lemma DoubleDot(dname: seq<Byte>, l: nat)
    requires 0 < l <= |dname| && dname[l-1] == DOT
    requires (l == |dname| - 1 && dname[l] == DOT) || (|dname| > 255 && l >= 254)
    ensures !Encodable(Trimmed(dname))
  {
    if |dname| <= 255 {
      EmptyLast(Trimmed(dname));
    }
  }

  lemma {:induction false} EmptyLast(t: seq<Byte>)
    requires |t| > 0 && t[|t|-1] == DOT
    ensures !GoodLabels(Split(t))
    decreases |t|
  {
    var d := DotAt(t);
    var rest := t[d+1..];
    assert Split(t)[1..] == Split(rest);
    if |rest| > 0 {
      EmptyLast(rest);
      var i :| 0 <= i < |Split(rest)| && !GoodLabel(Split(rest)[i]);
      assert Split(t)[i+1] == Split(rest)[i];
    } else {
      assert Split(t)[1] == rest;
    }
  }

  // ----- the round trip -----

  /** Decoding the name of an accepted query gives it back in lower case, with the offset of the type field. */
  lemma QueryRoundTrip(msg: seq<Byte>, id: seq<Byte>, op: Byte, dname: seq<Byte>, qclass: Byte, qtype: Byte)
    requires |id| == 2 && Trimmed(dname) != [] && Accepted(op, dname, |msg|)
    requires msg == id + Blob(op, Trimmed(dname), qclass, qtype)
    ensures 12 < |msg| && Extract(msg, 12, 256) == Some((Lower(Trimmed(dname)), |msg| - 4))
    ensures msg[|msg|-4..] == [0, qtype, 0, qclass]
  {
    var t := Trimmed(dname);
    NameJoined(t);
    EncodeLength(t);
    hide Encode, Split, Joined, Lower, Header, Trailer, GoodLabels, Walk, DotAt, Extract;
    BlobParts(msg, id, op, t, qclass, qtype);
    NameDecodes(msg, 12, Split(t), 256);
  }

  lemma NameJoined(t: seq<Byte>)
    requires t != [] && GoodLabels(Split(t))
    ensures Joined([], Split(t)) == Lower(t)
  {
    assert Split(t)[0] == t[..DotAt(t)] && GoodLabel(Split(t)[0]);
    hide Split, Joined, Lower;
    JoinedSplit([], t);
    assert [] + Lower(t) == Lower(t);
  }

  lemma BlobParts(msg: seq<Byte>, id: seq<Byte>, op: Byte, t: seq<Byte>, qclass: Byte, qtype: Byte)
    requires |id| == 2 && t != [] && msg == id + Blob(op, t, qclass, qtype)
    ensures var e := Encode(Split(t));
      |msg| == 17 + |e| && StartsAt(msg, 12, e + [0]) && msg[|msg|-4..] == [0, qtype, 0, qclass]
  {
    hide Encode, Split, Header;
    var e := Encode(Split(t));
    var front := id + Header(op);
    assert msg == front + e + Trailer(qclass, qtype);
    hide Blob, Name;
    forall i | 0 <= i < |e| + 1 ensures msg[12+i] == (e + [0])[i] {
      ConcatAt(front, e, Trailer(qclass, qtype), 12 + i);
    }
    assert msg[|msg|-4..] == Trailer(qclass, qtype)[1..];
  }

  /** dns_extract_name: the name goes to the array name, with a zero byte behind it. */
  method ExtractName(buf: seq<Byte>, a: nat, name: array<Byte>) returns (next: Option<nat>)
    requires a < |buf|
    modifies name
    ensures match Extract(buf, a, name.Length)
      case None => next == None
      case Some(r) => next == Some(r.1) && |r.0| < name.Length && name[..|r.0|] == r.0 && name[|r.0|] == 0
  {
    if name.Length == 0 {
      return None;
    }
    var pointer := buf[a] >= 0xC0;
    var p := a;
    if pointer {
      if a + 1 >= |buf| {
        return None;
      }
      p := 0x100 * (buf[a] - 0xC0 as int) + buf[a+1];
    }
    if p >= |buf| {
      return None;
    }
    hide Walk;
    var ok, q := WalkName(buf, p, name);
    next := if ok then Some(if pointer then a + 2 else q) else None;
  }

  /** The loop of dns_extract_name from the label at start. */
  method WalkName(buf: seq<Byte>, start: nat, name: array<Byte>) returns (ok: bool, p: nat)
    requires start < |buf|
    modifies name
    ensures match Walk(buf, start, [], name.Length)
      case None => !ok
      case Some(r) => ok && p == r.1 && |r.0| < name.Length && name[..|r.0|] == r.0 && name[|r.0|] == 0
  {
    hide Lower, Walk;
    var nl: nat := 0;
    ok, p := false, start;
    while buf[p] != 0
      invariant p < |buf| && nl <= name.Length && !ok
      invariant Walk(buf, p, name[..nl], name.Length) == Walk(buf, start, [], name.Length)
      decreases |buf| - p
    {
      WalkOne(buf, p, name[..nl], name.Length);
      ghost var was := name[..nl];
      if nl > 0 {
        if nl >= name.Length {
          return;
        }
        name[nl] := DOT;
        nl := nl + 1;
      }
      assert name[..nl] == if |was| > 0 then was + [DOT] else was;
      var y := buf[p];
      if y >= 0x40 || p + y + 1 >= |buf| || y + 1 >= name.Length - nl {
        return;
      }
      CopyLower(buf[p+1..p+1+y], name, nl);
      p, nl := p + 1 + y, nl + y;
    }
    WalkOne(buf, p, name[..nl], name.Length);
    if nl < name.Length {
      name[nl] := 0;
      ok, p := true, p + 1;
    }
  }

  lemma WalkOne(buf: seq<Byte>, p: nat, name: seq<Byte>, size: nat)
    requires p < |buf| && |name| <= size
    ensures buf[p] == 0 ==> Walk(buf, p, name, size) == if |name| >= size then None else Some((name, (p + 1) as nat))
    ensures buf[p] != 0 && 0 < |name| == size ==> Walk(buf, p, name, size) == None
    ensures buf[p] != 0 && !(0 < |name| == size) ==>
      var y := buf[p];
      var dotted := if |name| > 0 then name + [DOT] else name;
      Walk(buf, p, name, size) ==
        if y >= 0x40 || p + y + 1 >= |buf| || y + 1 >= size - |dotted| then None
        else Walk(buf, p + y + 1, dotted + Lower(buf[p+1..p+1+y]), size)
  {
    hide Lower;
  }

  method CopyLower(s: seq<Byte>, name: array<Byte>, nl: nat)
    requires nl + |s| <= name.Length
    modifies name
    ensures name[..nl+|s|] == old(name[..nl]) + Lower(s)
  {
    ghost var was := name[..nl];
    forall x | 0 <= x < |s| {
      name[nl + x] := ToLower(s[x]);
    }
    assert name[..nl] == was && name[nl..nl+|s|] == Lower(s);
    assert name[..nl+|s|] == name[..nl] + name[nl..nl+|s|];
  }
}
