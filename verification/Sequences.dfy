/** Sequences without repetition. */
module Sequences {
  ghost predicate NoDup<T>(s: seq<T>) {
    forall i, j :: 0 <= i < j < |s| ==> s[i] != s[j]
  }

  lemma NoDupConcat<T>(l: seq<T>, x: T, r: seq<T>)
    ensures NoDup(l + [x] + r) <==>
      NoDup(l) && NoDup(r) && x !in l && x !in r && forall y :: y in l ==> y !in r
  {
    var s := l + [x] + r;
    assert s[|l|] == x;
    assert forall i | 0 <= i < |r| :: r[i] == s[|l| + 1 + i];
    if NoDup(s) {
      forall y | y in l ensures y !in r {
        var i :| 0 <= i < |l| && l[i] == y;
        assert s[i] == y;
      }
      assert forall i | 0 <= i < |l| :: l[i] == s[i];
    }
    if NoDup(l) && NoDup(r) && x !in l && x !in r && forall y :: y in l ==> y !in r {
      forall i, j | 0 <= i < j < |s| ensures s[i] != s[j] {
        if j < |l| {
        } else if j == |l| {
          assert s[i] == l[i];
        } else if i > |l| {
          assert s[i] == r[i - |l| - 1] && s[j] == r[j - |l| - 1];
        } else {
          assert s[j] == r[j - |l| - 1] && s[j] in r;
          assert i < |l| ==> s[i] == l[i] && s[i] in l;
        }
      }
    }
  }

  lemma NoDupDrop<T>(a: seq<T>, x: T, b: seq<T>)
    requires NoDup(a + [x] + b)
    ensures NoDup(a + b)
  {
    var s, t := a + [x] + b, a + b;
    forall i, j | 0 <= i < j < |t| ensures t[i] != t[j] {
      var i', j' := if i < |a| then i else i + 1, if j < |a| then j else j + 1;
      assert s[i'] == t[i] && s[j'] == t[j];
    }
  }

  lemma NoDupInsert<T>(a: seq<T>, x: T, b: seq<T>)
    requires NoDup(a + b) && x !in a + b
    ensures NoDup(a + [x] + b)
  {
    var s := a + b;
    assert forall i | 0 <= i < |a| :: a[i] == s[i];
    assert forall i | 0 <= i < |b| :: b[i] == s[|a| + i];
    forall y | y in a ensures y !in b {
      var i :| 0 <= i < |a| && a[i] == y;
      assert s[i] == y;
    }
    NoDupConcat(a, x, b);
  }

  /** s without the first x. */
  ghost function Dropped<T>(s: seq<T>, x: T): seq<T> {
    if |s| == 0 then [] else if s[0] == x then s[1..] else [s[0]] + Dropped(s[1..], x)
  }

  lemma {:induction false} DroppedAt<T>(s: seq<T>, i: nat)
    requires i < |s| && NoDup(s)
    ensures Dropped(s, s[i]) == s[..i] + s[i+1..]
  {
    DroppedFirst(s, s[i]);
    hide Dropped;
    if i > 0 {
      var t := s[1..];
      assert NoDup(t) && t[i-1] == s[i] != s[0];
      DroppedAt(t, i - 1);
      MoveFirst(s, i);
    } else {
      assert s[..0] + s[1..] == s[1..];
    }
  }

  lemma DroppedFirst<T>(s: seq<T>, x: T)
    requires |s| > 0
    ensures Dropped(s, x) == if s[0] == x then s[1..] else [s[0]] + Dropped(s[1..], x)
  {
  }

  lemma MoveFirst<T>(s: seq<T>, i: nat)
    requires 0 < i < |s|
    ensures [s[0]] + (s[1..][..i-1] + s[1..][i..]) == s[..i] + s[i+1..]
  {
  }

  lemma DroppedFacts<T>(s: seq<T>, x: T)
    requires NoDup(s) && x in s
    ensures NoDup(Dropped(s, x)) && x !in Dropped(s, x) && |Dropped(s, x)| == |s| - 1
    ensures (set y | y in Dropped(s, x)) == (set y | y in s) - {x}
  {
    var i :| 0 <= i < |s| && s[i] == x;
    DroppedAt(s, i);
    assert s == s[..i] + [x] + s[i+1..];
    NoDupDrop(s[..i], x, s[i+1..]);
    NoDupConcat(s[..i], x, s[i+1..]);
  }

  lemma ConcatAt<T>(a: seq<T>, b: seq<T>, c: seq<T>, i: nat)
    requires i < |a| + |b| + |c|
    ensures (a + b + c)[i] == if i < |a| then a[i] else if i < |a| + |b| then b[i-|a|] else c[i-|a|-|b|]
  {
  }

  lemma ThreeParts<T>(s: seq<T>, i: nat, j: nat)
    requires i <= j <= |s|
    ensures s == s[..i] + s[i..j] + s[j..]
  {
  }
}
