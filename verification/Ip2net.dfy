/** The subnet grouping of ip2net. Addresses are unsigned numbers of 32 or 128
    bits; a network is given by an address and its number of zero bits (zct). */
module Ip2net {
  import opened Numbers
  import opened Orders
  import Q = Qsort

  /** x & mask_from_bitcount(z): the lowest z bits cleared. */
  function MaskOff(x: nat, z: nat): int {
    x - x % Pow2(z)
  }

  /** ip_start | ~mask: the last address of the network. */
  function NetEnd(x: nat, z: nat): int {
    MaskOff(x, z) + Pow2(z) - 1
  }

  /** Clearing one more bit is clearing one bit less of the half. */
  lemma MaskStep(x: nat, z: nat)
    ensures MaskOff(x, z + 1) == 2 * MaskOff(x / 2, z)
  {
    var p := Pow2(z);
    assert Pow2(z + 1) == 2 * p;
    hide Pow2;
    var h := x / 2;
    var q, r := h / p, h % p;
    DivMod(h, p);
    TwiceProduct(q, p);
    DivModUnique(x, q, 2 * r + x % 2, 2 * p);
  }

  lemma {:induction false} InNet(x: nat, z: nat)
    ensures MaskOff(x, z) <= x <= NetEnd(x, z)
  {
    if z > 0 {
      MaskStep(x, z - 1);
      InNet(x / 2, z - 1);
    }
  }

  /** A network is the same for each of its addresses. */
  lemma {:induction false} SameNet(x: nat, y: nat, z: nat)
    requires MaskOff(x, z) <= y <= NetEnd(x, z)
    ensures MaskOff(y, z) == MaskOff(x, z)
  {
    if z > 0 {
      MaskStep(x, z - 1);
      MaskStep(y, z - 1);
      SameNet(x / 2, y / 2, z - 1);
    }
  }

  /** Networks around one address are nested. */
  lemma {:induction false} Nested(x: nat, z: nat, w: nat)
    requires z <= w
    ensures MaskOff(x, w) <= MaskOff(x, z) && NetEnd(x, z) <= NetEnd(x, w)
    decreases w
  {
    if z < w {
      if z == 0 {
        InNet(x, w);
      } else {
        MaskStep(x, z - 1);
        MaskStep(x, w - 1);
        Nested(x / 2, z - 1, w - 1);
      }
    }
  }

  // ----- when a network is worth emitting -----

  /** The threshold options: mult/div of the addresses (v4), or a fixed number of addresses (v6). */
  datatype Rule = V4(mult: nat, div: nat) | V6(threshold: nat)

  ghost predicate ValidRule(rule: Rule) {
    match rule
    case V4(mult, div) => 1 <= mult < div
    case V6(threshold) => threshold >= 1
  }

  /** How many addresses a network must hold; the product is a 32-bit one. */
  function Needed(rule: Rule, z: nat): int
    requires rule.V4? ==> rule.div > 0
  {
    match rule
    case V4(mult, div) => Pow2(z) * mult % U32 / div
    case V6(threshold) => threshold
  }

  /** v4 only: the last address from which the search is tried at all. */
  function LastTried(start: int, mult: nat, div: nat, z: nat): int
    requires div > mult
  {
    (start + Pow2(z) * (div - mult) % U32 / div) % U32
  }

  predicate Skipped(rule: Rule, x: nat, z: nat)
    requires rule.V4? ==> rule.div > rule.mult
  {
    rule.V4? && x > LastTried(MaskOff(x, z), rule.mult, rule.div, z)
  }

  /** How many of the addresses from position p on are at most end. */
  function Run(ips: seq<nat>, p: nat, end: int): nat
    decreases |ips| - p
  {
    if p < |ips| && ips[p] <= end then 1 + Run(ips, p + 1, end) else 0
  }

  function CountIn(ips: seq<nat>, pos: nat, z: nat): nat
    requires pos < |ips|
  {
    Run(ips, pos, NetEnd(ips[pos], z))
  }

  ghost predicate Increasing(ips: seq<nat>) {
    forall i, j :: 0 <= i < j < |ips| ==> ips[i] < ips[j]
  }

  /** The network of z zero bits around the address at pos qualifies. */
  predicate Qualifies(rule: Rule, ips: seq<nat>, pos: nat, z: nat)
    requires pos < |ips| && (rule.V4? ==> rule.div > rule.mult)
  {
    !Skipped(rule, ips[pos], z) && CountIn(ips, pos, z) >= 2 && CountIn(ips, pos, z) >= Needed(rule, z)
  }

  /** What the search at pos has to find: no network if none in the range qualifies, else the
      smallest one that covers as many addresses as any qualifying one. */
  ghost predicate Best(rule: Rule, ips: seq<nat>, pos: nat, zmin: nat, zmax: nat, zct: nat)
    requires pos < |ips| && ValidRule(rule)
  {
    if zct == 0 then forall z :: zmin <= z <= zmax ==> !Qualifies(rule, ips, pos, z)
    else
      && zmin <= zct <= zmax && Qualifies(rule, ips, pos, zct)
      && (forall z :: zmin <= z <= zmax && Qualifies(rule, ips, pos, z) ==>
        CountIn(ips, pos, z) <= CountIn(ips, pos, zct))
      && (forall z :: zmin <= z < zct && Qualifies(rule, ips, pos, z) ==> CountIn(ips, pos, z) < CountIn(ips, pos, zct))
  }

  /** The position after the addresses that the result covers. */
  function Behind(ips: seq<nat>, pos: nat, zct: nat): nat
    requires pos < |ips|
  {
    if zct == 0 then pos + 1 else pos + CountIn(ips, pos, zct)
  }

  lemma {:induction false} RunBounds(ips: seq<nat>, p: nat, end: int)
    requires p <= |ips|
    ensures p + Run(ips, p, end) <= |ips|
    ensures forall k :: p <= k < p + Run(ips, p, end) ==> ips[k] <= end
    ensures var q := p + Run(ips, p, end); q < |ips| ==> ips[q] > end
    decreases |ips| - p
  {
    if p < |ips| && ips[p] <= end {
      RunBounds(ips, p + 1, end);
    }
  }

  lemma {:induction false} RunMono(ips: seq<nat>, p: nat, end: int, end': int)
    requires end <= end'
    ensures Run(ips, p, end) <= Run(ips, p, end')
    decreases |ips| - p
  {
    if p < |ips| && ips[p] <= end {
      RunMono(ips, p + 1, end, end');
    }
  }

  /** A larger network covers at least as many addresses. */
  lemma CountMono(ips: seq<nat>, pos: nat, z: nat, w: nat)
    requires pos < |ips| && z <= w
    ensures 1 <= CountIn(ips, pos, z) <= CountIn(ips, pos, w)
  {
    InNet(ips[pos], z);
    Nested(ips[pos], z, w);
    RunMono(ips, pos, NetEnd(ips[pos], z), NetEnd(ips[pos], w));
  }

  // ----- the two searches -----

  /** The v4 counting loop: addresses up to ip_end. */
  method CountV4(ips: array<nat>, ipct: nat, pos: nat, end: int) returns (p: nat, ipCt: nat)
    requires pos < ipct <= ips.Length && ips[pos] <= end
    ensures ipCt == Run(ips[..ipct], pos, end) && p == pos + ipCt
  {
    p, ipCt := pos + 1, 1;
    while p < ipct && ips[p] <= end
      invariant pos < p <= ipct && p == pos + ipCt
      invariant Run(ips[..ipct], pos, end) == ipCt + Run(ips[..ipct], p, end)
    {
      p, ipCt := p + 1, ipCt + 1;
    }
  }

  /** The v6 counting loop: addresses with the same masked value. */
  method CountV6(ips: array<nat>, ipct: nat, pos: nat, z: nat) returns (p: nat, ipCt: nat)
    requires pos < ipct <= ips.Length && Increasing(ips[..ipct])
    ensures ipCt == CountIn(ips[..ipct], pos, z) && p == pos + ipCt
  {
    ghost var s, end := ips[..ipct], NetEnd(ips[pos], z);
    var start := MaskOff(ips[pos], z);
    InNet(ips[pos], z);
    p, ipCt := pos + 1, 1;
    while p < ipct && MaskOff(ips[p], z) == start
      invariant pos < p <= ipct && p == pos + ipCt
      invariant Run(s, pos, end) == ipCt + Run(s, p, end)
    {
      InNet(ips[p], z);
      p, ipCt := p + 1, ipCt + 1;
    }
    if p < ipct {
      assert s[pos] < s[p];
      if ips[p] <= end {
        SameNet(ips[pos], ips[p], z);
        assert false;
      }
    }
  }

  lemma BestSkip(rule: Rule, ips: seq<nat>, pos: nat, z: nat, zmax: nat, zct: nat)
    requires pos < |ips| && ValidRule(rule) && Best(rule, ips, pos, z + 1, zmax, zct) && !Qualifies(rule, ips, pos, z)
    ensures Best(rule, ips, pos, z, zmax, zct)
  {
  }

  lemma BestTake(rule: Rule, ips: seq<nat>, pos: nat, z: nat, zmax: nat, zct: nat)
    requires pos < |ips| && ValidRule(rule) && Best(rule, ips, pos, z + 1, zmax, zct) && Qualifies(rule, ips, pos, z)
    requires 0 < z <= zmax && (zct == 0 || CountIn(ips, pos, zct) == CountIn(ips, pos, z))
    ensures Best(rule, ips, pos, z, zmax, z)
  {
  }

  /** Once a network holds one address only, or fewer than the best so far, no smaller one can matter. */
  lemma BestStop(rule: Rule, ips: seq<nat>, pos: nat, z: nat, zmin: nat, zmax: nat, zct: nat)
    requires pos < |ips| && ValidRule(rule) && Best(rule, ips, pos, z + 1, zmax, zct) && 0 < zmin <= z
    requires CountIn(ips, pos, z) == 1 || (zct != 0 && CountIn(ips, pos, z) != CountIn(ips, pos, zct))
    ensures Best(rule, ips, pos, zmin, zmax, zct)
  {
    forall w | zmin <= w <= z
      ensures CountIn(ips, pos, w) <= CountIn(ips, pos, z)
      ensures zct != 0 ==> CountIn(ips, pos, z) <= CountIn(ips, pos, zct)
    {
      CountMono(ips, pos, w, z);
      if zct != 0 { CountMono(ips, pos, z, zct); }
    }
  }

  /** The v4 search for the network to emit at pos. */
  method SearchV4(ips: array<nat>, ipct: nat, pos: nat, mult: nat, div: nat, zmin: nat, zmax: nat)
    returns (zctBest: nat, posEnd: nat)
    requires pos < ipct <= ips.Length && 1 <= mult < div && 1 <= zmin <= zmax + 1
    ensures Best(V4(mult, div), ips[..ipct], pos, zmin, zmax, zctBest) && posEnd == Behind(ips[..ipct], pos, zctBest)
  {
    hide Best, Run, Needed, MaskOff, NetEnd, LastTried;
    ghost var s, rule := ips[..ipct], V4(mult, div);
    var ipCtBest, zct := 0, zmax;
    zctBest, posEnd := 0, 0;
    BestNothing(rule, s, pos, zmax);
    while zct >= zmin
      invariant zmin <= zct + 1 <= zmax + 1 && Best(rule, s, pos, zct + 1, zmax, zctBest)
      invariant zctBest == 0 <==> ipCtBest == 0
      invariant zctBest != 0 ==> ipCtBest == CountIn(s, pos, zctBest) && posEnd == pos + ipCtBest
      decreases zct
    {
      var start := MaskOff(ips[pos], zct);
      if ips[pos] > LastTried(start, mult, div, zct) {
        BestSkip(rule, s, pos, zct, zmax, zctBest);
        zct := zct - 1;
        continue;
      }
      InNet(ips[pos], zct);
      var p, ipCt := CountV4(ips, ipct, pos, NetEnd(ips[pos], zct));
      if ipCt == 1 {
        BestStop(rule, s, pos, zct, zmin, zmax, zctBest);
        break;
      }
      CountMono(s, pos, zct, zct);
      if ipCt >= Needed(V4(mult, div), zct) {
        if ipCtBest == 0 || ipCt == ipCtBest {
          BestTake(rule, s, pos, zct, zmax, zctBest);
          ipCtBest, zctBest, posEnd := ipCt, zct, p;
        } else {
          BestStop(rule, s, pos, zct, zmin, zmax, zctBest);
          break;
        }
      } else {
        BestSkip(rule, s, pos, zct, zmax, zctBest);
      }
      zct := zct - 1;
    }
    if zctBest == 0 { posEnd := pos + 1; }
  }

  lemma BestNothing(rule: Rule, ips: seq<nat>, pos: nat, zmax: nat)
    requires pos < |ips| && ValidRule(rule)
    ensures Best(rule, ips, pos, zmax + 1, zmax, 0)
  {
  }

  /** What the v6 search promises, in numbers of addresses: the networks that hold at least two addresses and
      at least threshold are candidates; the result covers as many addresses as the largest candidate and no smaller
      network in the range covers them; there is no result exactly if there is no candidate. */
  ghost predicate V6Tight(threshold: nat, ips: seq<nat>, pos: nat, zmin: nat, zmax: nat, zct: nat)
    requires pos < |ips|
  {
    && (zct == 0 <==>
        forall z :: zmin <= z <= zmax ==> CountIn(ips, pos, z) < 2 || CountIn(ips, pos, z) < threshold)
    && (zct != 0 ==>
        && zmin <= zct <= zmax && CountIn(ips, pos, zct) >= 2 && CountIn(ips, pos, zct) >= threshold
        && (forall z :: zct <= z <= zmax ==> CountIn(ips, pos, z) == CountIn(ips, pos, zct))
        && (forall z :: zmin <= z < zct ==> CountIn(ips, pos, z) < CountIn(ips, pos, zct)))
  }

  lemma BestIsV6Tight(threshold: nat, ips: seq<nat>, pos: nat, zmin: nat, zmax: nat, zct: nat)
    requires pos < |ips| && threshold >= 1 && Best(V6(threshold), ips, pos, zmin, zmax, zct) && zmin >= 1
    ensures V6Tight(threshold, ips, pos, zmin, zmax, zct)
  {
    hide Run, MaskOff, NetEnd;
    if zct != 0 {
      forall z | zct <= z <= zmax ensures CountIn(ips, pos, z) == CountIn(ips, pos, zct) {
        CountMono(ips, pos, zct, z);
        assert Qualifies(V6(threshold), ips, pos, z);
      }
      forall z | zmin <= z < zct ensures CountIn(ips, pos, z) < CountIn(ips, pos, zct) {
        CountMono(ips, pos, z, zct);
      }
      assert CountIn(ips, pos, zct) >= threshold;
    } else {
      forall z | zmin <= z <= zmax ensures CountIn(ips, pos, z) < 2 || CountIn(ips, pos, z) < threshold {
        assert !Qualifies(V6(threshold), ips, pos, z);
      }
    }
  }

  /** The counted addresses are those whose upper bits agree with the first one's. */
  lemma CountIsNetwork(ips: seq<nat>, pos: nat, z: nat, i: nat)
    requires Increasing(ips) && pos <= i < |ips|
    ensures i < pos + CountIn(ips, pos, z) <==> ips[i] / Pow2(z) == ips[pos] / Pow2(z)
  {
    var x, y := ips[pos], ips[i];
    RunBounds(ips, pos, NetEnd(x, z));
    assert pos < i ==> x < y;
    var q := pos + CountIn(ips, pos, z);
    assert q < i ==> ips[q] < y;
    InNet(x, z);
    SameQuotient(x, y, Pow2(z));
    hide Pow2;
    assert y <= NetEnd(x, z) <==> y / Pow2(z) == x / Pow2(z);
  }

  lemma SameQuotient(x: nat, y: nat, p: nat)
    requires p > 0 && x <= y
    ensures y <= x - x % p + p - 1 <==> y / p == x / p
  {
    DivMod(x, p);
    DivMod(y, p);
    if y <= x - x % p + p - 1 {
      DivModUnique(y, x / p, y - x / p * p, p);
    }
  }

  /** The v6 search; the threshold is a fixed number of addresses and nothing is skipped. */
  method SearchV6(ips: array<nat>, ipct: nat, pos: nat, threshold: nat, zmin: nat, zmax: nat)
    returns (zctBest: nat, posEnd: nat)
    requires pos < ipct <= ips.Length && Increasing(ips[..ipct]) && threshold >= 1 && 1 <= zmin <= zmax + 1
    ensures Best(V6(threshold), ips[..ipct], pos, zmin, zmax, zctBest) && posEnd == Behind(ips[..ipct], pos, zctBest)
    ensures V6Tight(threshold, ips[..ipct], pos, zmin, zmax, zctBest)
  {
    hide Best, Run, MaskOff, NetEnd, Increasing;
    ghost var s, rule := ips[..ipct], V6(threshold);
    var ipCtBest, zct := 0, zmax;
    zctBest, posEnd := 0, pos + 1;
    BestNothing(rule, s, pos, zmax);
    while zct >= zmin
      invariant zmin <= zct + 1 <= zmax + 1 && Best(rule, s, pos, zct + 1, zmax, zctBest)
      invariant zctBest == 0 <==> ipCtBest == 0
      invariant posEnd == Behind(s, pos, zctBest) && (zctBest != 0 ==> ipCtBest == CountIn(s, pos, zctBest))
      decreases zct
    {
      var p, ipCt := CountV6(ips, ipct, pos, zct);
      if ipCt == 1 {
        BestStop(rule, s, pos, zct, zmin, zmax, zctBest);
        break;
      }
      CountMono(s, pos, zct, zct);
      if ipCt >= threshold {
        if ipCtBest == 0 || ipCt == ipCtBest {
          BestTake(rule, s, pos, zct, zmax, zctBest);
          ipCtBest, zctBest, posEnd := ipCt, zct, p;
        } else {
          BestStop(rule, s, pos, zct, zmin, zmax, zctBest);
          break;
        }
      } else {
        BestSkip(rule, s, pos, zct, zmax, zctBest);
      }
      zct := zct - 1;
    }
    if zctBest == 0 { posEnd := pos + 1; }
    BestIsV6Tight(threshold, s, pos, zmin, zmax, zctBest);
  }

  // ----- the output -----

  /** One line of output: a network, or a single address when zct is 0. */
  datatype Item = Item(start: int, zct: nat) {
    function End(): int { start + Pow2(zct) - 1 }
    predicate Holds(x: int) { start <= x <= End() }
  }

  /** Line k is what the search finds at position cut[k], and the next one starts behind it. */
  ghost predicate Grouped(rule: Rule, ips: seq<nat>, zmin: nat, zmax: nat, out: seq<Item>, cut: seq<nat>) {
    && ValidRule(rule) && |cut| == |out| + 1 && cut[0] == 0
    && forall k :: 0 <= k < |out| ==>
          && cut[k] < |ips| && out[k].start == MaskOff(ips[cut[k]], out[k].zct)
          && Best(rule, ips, cut[k], zmin, zmax, out[k].zct) && cut[k+1] == Behind(ips, cut[k], out[k].zct)
  }

  lemma {:induction false} MaskOrdered(x: nat, y: nat, z: nat)
    requires x <= y
    ensures MaskOff(x, z) == MaskOff(y, z) || NetEnd(x, z) < MaskOff(y, z)
  {
    if z > 0 {
      MaskStep(x, z - 1);
      MaskStep(y, z - 1);
      MaskOrdered(x / 2, y / 2, z - 1);
    }
  }

  lemma {:induction false} RunFromEarlier(ips: seq<nat>, e: nat, n: nat, end: int)
    requires e <= n < |ips| && Increasing(ips) && ips[n] <= end
    ensures Run(ips, e, end) == n - e + Run(ips, n, end)
    decreases n - e
  {
    if e < n {
      assert ips[e] < ips[n];
      RunFromEarlier(ips, e + 1, n, end);
    }
  }

  lemma {:induction false} CutsIncrease(rule: Rule, ips: seq<nat>, zmin: nat, zmax: nat, out: seq<Item>,
                                        cut: seq<nat>, k: nat, l: nat)
    requires Grouped(rule, ips, zmin, zmax, out, cut) && k < l <= |out|
    ensures cut[k] < cut[k+1] <= cut[l]
    decreases l - k
  {
    InNet(ips[cut[k]], out[k].zct);
    if k + 1 < l {
      CutsIncrease(rule, ips, zmin, zmax, out, cut, k + 1, l);
    }
  }

  /** The addresses behind a line lie beyond its network. */
  lemma BeyondNet(ips: seq<nat>, e: nat, zct: nat, n: nat)
    requires e < |ips| && Increasing(ips) && Behind(ips, e, zct) <= n < |ips|
    ensures e < n && ips[n] > NetEnd(ips[e], zct)
  {
    InNet(ips[e], zct);
    RunBounds(ips, e, NetEnd(ips[e], zct));
    var q := Behind(ips, e, zct);
    assert ips[q] <= ips[n];
    if zct == 0 {
      assert ips[e] < ips[n] && MaskOff(ips[e], 0) == ips[e];
    }
  }

  /** A network that qualifies at a later position and holds an earlier address would
      already have qualified there, with all the addresses in between. */
  lemma WouldQualify(rule: Rule, ips: seq<nat>, e: nat, n: nat, z: nat)
    requires ValidRule(rule) && Increasing(ips) && e < n < |ips| && Qualifies(rule, ips, n, z)
    requires MaskOff(ips[e], z) == MaskOff(ips[n], z)
    ensures Qualifies(rule, ips, e, z) && CountIn(ips, e, z) > n - e
  {
    InNet(ips[n], z);
    RunFromEarlier(ips, e, n, NetEnd(ips[n], z));
    assert ips[e] < ips[n];
  }

  /** Lines come in increasing order and never overlap. */
  lemma LinesDisjoint(rule: Rule, ips: seq<nat>, zmin: nat, zmax: nat, out: seq<Item>, cut: seq<nat>, k: nat, l: nat)
    requires Grouped(rule, ips, zmin, zmax, out, cut) && Increasing(ips) && zmin >= 1 && k < l < |out|
    ensures out[k].End() < out[l].start
  {
    var e, n, z, w := cut[k], cut[l], out[k].zct, out[l].zct;
    CutsIncrease(rule, ips, zmin, zmax, out, cut, k, l);
    BeyondNet(ips, e, z, n);
    var m := if w <= z then z else w;
    MaskOrdered(ips[e], ips[n], m);
    Nested(ips[n], w, m);
    Nested(ips[e], z, m);
    InNet(ips[n], m);
    if MaskOff(ips[e], m) == MaskOff(ips[n], m) && w > z {
      WouldQualify(rule, ips, e, n, w);
    }
  }

  /** The inputs held by line k are exactly those between its position and the next one. */
  lemma LineHolds(rule: Rule, ips: seq<nat>, zmin: nat, zmax: nat, out: seq<Item>, cut: seq<nat>, k: nat, i: nat)
    requires Grouped(rule, ips, zmin, zmax, out, cut) && Increasing(ips) && zmin >= 1 && k < |out| && i < |ips|
    ensures cut[k] <= i < cut[k+1] ==> out[k].Holds(ips[i])
  {
    if cut[k] <= i < cut[k+1] {
      var e, z := cut[k], out[k].zct;
      InNet(ips[e], z);
      RunBounds(ips, e, NetEnd(ips[e], z));
      assert e < i ==> ips[e] < ips[i];
    }
  }

  lemma {:induction false} FindLine(rule: Rule, ips: seq<nat>, zmin: nat, zmax: nat, out: seq<Item>,
                                    cut: seq<nat>, i: nat, m: nat) returns (k: nat)
    requires Grouped(rule, ips, zmin, zmax, out, cut) && m <= |out| && i < cut[m]
    ensures k < m && cut[k] <= i < cut[k+1]
  {
    if cut[m-1] <= i { k := m - 1; } else { k := FindLine(rule, ips, zmin, zmax, out, cut, i, m - 1); }
  }

  ghost predicate InSomeLine(out: seq<Item>, x: nat) {
    exists k :: 0 <= k < |out| && out[k].Holds(x)
  }

  ghost predicate HoldsSome(g: Item, input: seq<nat>) {
    exists x :: x in input && g.Holds(x)
  }

  /** Every input address lies in a line, lines are in increasing order without
      overlap (so it lies in one line only), and each line holds an input address. */
  ghost predicate Partitions(out: seq<Item>, input: seq<nat>) {
    && (forall x :: x in input ==> InSomeLine(out, x))
    && (forall k, l :: 0 <= k < l < |out| ==> out[k].End() < out[l].start)
    && (forall k :: 0 <= k < |out| ==> HoldsSome(out[k], input))
  }

  /** The whole output partitions the input. */
  lemma OutputPartitions(rule: Rule, ips: seq<nat>, zmin: nat, zmax: nat, out: seq<Item>, cut: seq<nat>)
    requires Grouped(rule, ips, zmin, zmax, out, cut) && Increasing(ips) && zmin >= 1 && cut[|out|] == |ips|
    ensures Partitions(out, ips)
  {
    forall x | x in ips ensures InSomeLine(out, x) {
      var i :| 0 <= i < |ips| && ips[i] == x;
      var k := FindLine(rule, ips, zmin, zmax, out, cut, i, |out|);
      LineHolds(rule, ips, zmin, zmax, out, cut, k, i);
    }
    forall k, l | 0 <= k < l < |out| ensures out[k].End() < out[l].start {
      LinesDisjoint(rule, ips, zmin, zmax, out, cut, k, l);
    }
    forall k | 0 <= k < |out| ensures HoldsSome(out[k], ips) {
      CutsIncrease(rule, ips, zmin, zmax, out, cut, k, k + 1);
      LineHolds(rule, ips, zmin, zmax, out, cut, k, cut[k]);
      assert ips[cut[k]] in ips;
    }
  }

  // ----- the early skip -----

  /** No 32-bit product of the v4 tests overflows. */
  predicate NoOverflow(rule: Rule, z: nat) {
    rule.V4? ==> rule.mult <= rule.div && Pow2(z) * rule.mult < U32 && Pow2(z) * (rule.div - rule.mult) < U32
  }

  lemma NoOverflowMono(rule: Rule, z: nat, w: nat)
    requires ValidRule(rule) && z <= w && NoOverflow(rule, w)
    ensures NoOverflow(rule, z)
  {
    Pow2Mono(z, w);
    if rule.V4? {
      MulMono(rule.mult, Pow2(z), Pow2(w));
      MulMono(rule.div - rule.mult, Pow2(z), Pow2(w));
    }
  }

  /** The number of addresses that the threshold asks for, rounded down. */
  function Quota(mult: nat, div: nat, z: nat): int
    requires div > 0
  {
    Pow2(z) * mult / div
  }

  /** The threshold is a whole number of addresses. */
  predicate WholeQuota(mult: nat, div: nat, z: nat)
    requires div > 0
  {
    Pow2(z) * mult % div == 0
  }

  /** floor((n div - n mult) / div) = n - ceil(n mult / div). */
  lemma Complement(n: nat, mult: nat, div: nat)
    requires 1 <= mult < div
    ensures n * (div - mult) / div == if n * mult % div == 0 then n - n * mult / div else n - n * mult / div - 1
    ensures 0 <= n * (div - mult) / div <= n && 0 <= n * mult / div <= n
  {
    var q, r := n * mult / div, n * mult % div;
    DivMod(n * mult, div);
    assert n * (div - mult) == n * div - n * mult by { Distribute(div, mult, n); }
    Distribute(n, q, div);
    if r == 0 {
      DivModUnique(n * (div - mult), n - q, 0, div);
    } else {
      Distribute(n, q + 1, div);
      assert (q + 1) * div == q * div + div;
      DivModUnique(n * (div - mult), n - q - 1, div - r, div);
    }
    MulMono(n, mult, div);
    MulMono(n, div - mult, div);
    DivAtMost(n * mult, n, div);
    DivAtMost(n * (div - mult), n, div);
  }

  /** Without overflow the tests compare with the exact quotients. */
  lemma ExactTests(x: nat, mult: nat, div: nat, z: nat)
    requires 1 <= mult < div && NoOverflow(V4(mult, div), z) && NetEnd(x, z) < U32
    ensures Needed(V4(mult, div), z) == Quota(mult, div, z)
    ensures LastTried(MaskOff(x, z), mult, div, z) ==
      MaskOff(x, z) + Pow2(z) - Quota(mult, div, z) - if WholeQuota(mult, div, z) then 0 else 1
    ensures 0 <= Quota(mult, div, z) < Pow2(z)
  {
    var n := Pow2(z);
    MulMono(n, 0, mult);
    MulMono(n, 0, div - mult);
    Complement(n, mult, div);
    InNet(x, z);
    MaskNonNegative(x, z);
    hide Pow2;
    SmallMod(n * mult, U32);
    SmallMod(n * (div - mult), U32);
    Below(n, mult, div);
    Below(n, div - mult, div);
    SmallMod(MaskOff(x, z) + n * (div - mult) / div, U32);
  }

  lemma Below(n: nat, mult: nat, div: nat)
    requires 1 <= mult < div && n > 0
    ensures n * mult / div < n
  {
    Complement(n, mult, div);
    if n * mult / div == n {
      DivMod(n * mult, div);
      Distribute(div, mult, n);
      MulAtLeast(div - mult, n);
    }
  }

  lemma {:induction false} MaskNonNegative(x: nat, z: nat)
    ensures MaskOff(x, z) >= 0
  {
    if z > 0 {
      MaskStep(x, z - 1);
      MaskNonNegative(x / 2, z - 1);
    }
  }

  /** At most as many addresses as there are numbers up to end. */
  lemma {:induction false} RunAtMost(ips: seq<nat>, p: nat, end: int)
    requires Increasing(ips) && p < |ips| && ips[p] <= end
    ensures Run(ips, p, end) <= end - ips[p] + 1
    decreases |ips| - p
  {
    if p + 1 < |ips| && ips[p+1] <= end {
      assert ips[p] < ips[p+1];
      RunAtMost(ips, p + 1, end);
    }
  }

  /** Enough addresses for the threshold, whatever the early skip says. */
  predicate Enough(rule: Rule, ips: seq<nat>, pos: nat, z: nat)
    requires pos < |ips| && (rule.V4? ==> rule.div > 0)
  {
    CountIn(ips, pos, z) >= 2 && CountIn(ips, pos, z) >= Needed(rule, z)
  }

  /** The skip hides a network that holds enough addresses exactly if the threshold is not a whole
      number and the addresses are the last ones of the network, as many as the quota asks for. */
  lemma SkippedIsFull(ips: seq<nat>, pos: nat, mult: nat, div: nat, z: nat)
    requires 1 <= mult < div && Increasing(ips) && pos < |ips|
    requires NoOverflow(V4(mult, div), z) && NetEnd(ips[pos], z) < U32
    ensures Skipped(V4(mult, div), ips[pos], z) && Enough(V4(mult, div), ips, pos, z) <==>
      && !WholeQuota(mult, div, z) && Quota(mult, div, z) >= 2 && CountIn(ips, pos, z) == Quota(mult, div, z)
      && NetEnd(ips[pos], z) + 1 - ips[pos] == Quota(mult, div, z)
  {
    ExactTests(ips[pos], mult, div, z);
    InNet(ips[pos], z);
    RunAtMost(ips, pos, NetEnd(ips[pos], z));
  }

  /** The end of the upper half of a network is the end of the network. */
  lemma UpperHalf(x: nat, z: nat)
    requires z > 0 && NetEnd(x, z) + 1 - x <= Pow2(z - 1)
    ensures NetEnd(x, z - 1) == NetEnd(x, z) && MaskOff(x, z - 1) == MaskOff(x, z) + Pow2(z - 1)
  {
    var h := Pow2(z - 1);
    Pow2Next(z - 1);
    hide Pow2;
    var q, r := x / (2 * h), x % (2 * h);
    DivMod(x, 2 * h);
    TwiceProduct(q, h);
    assert (2 * q + 1) * h == 2 * (q * h) + h;
    DivModUnique(x, 2 * q + 1, r - h, h);
  }

  lemma HalfQuota(mult: nat, div: nat, z: nat)
    requires div > 0 && z > 0
    ensures 2 * Quota(mult, div, z - 1) <= Quota(mult, div, z)
  {
    var a := Pow2(z - 1) * mult;
    assert Pow2(z) * mult == 2 * a by { Pow2Next(z - 1); }
    DivMod(a, div);
    DivMod(2 * a, div);
    var p, q := a / div, 2 * a / div;
    TwiceProduct(div, p);
    if 2 * p > q {
      Distribute(2 * p, q, div);
      MulAtLeast(2 * p - q, div);
    }
  }

  /** The skip hides no network of z zero bits for good: none at all, or the upper half is found instead. */
  predicate Harmless(mult: nat, div: nat, zmin: nat, z: nat)
    requires div > 0
  {
    || WholeQuota(mult, div, z) || Quota(mult, div, z) <= 1
    || (z > zmin && 2 * Quota(mult, div, z) <= Pow2(z))
  }

  predicate SkipHarmless(rule: Rule, zmin: nat, zmax: nat)
    requires rule.V4? ==> rule.div > 0
  {
    rule.V4? ==> forall z :: zmin <= z <= zmax ==> Harmless(rule.mult, rule.div, zmin, z)
  }

  /** Instead of a skipped network that holds enough addresses the search finds its upper half. */
  lemma FoundInHalf(ips: seq<nat>, pos: nat, mult: nat, div: nat, zmin: nat, z: nat)
    requires 1 <= mult < div && Increasing(ips) && pos < |ips|
    requires NoOverflow(V4(mult, div), z) && NetEnd(ips[pos], z) < U32 && Harmless(mult, div, zmin, z)
    requires Skipped(V4(mult, div), ips[pos], z) && Enough(V4(mult, div), ips, pos, z)
    ensures z > zmin && Qualifies(V4(mult, div), ips, pos, z - 1) && CountIn(ips, pos, z - 1) == CountIn(ips, pos, z)
  {
    SkippedIsFull(ips, pos, mult, div, z);
    Pow2Next(z - 1);
    UpperHalf(ips[pos], z);
    NoOverflowMono(V4(mult, div), z - 1, z);
    ExactTests(ips[pos], mult, div, z - 1);
    HalfQuota(mult, div, z);
  }

  /** The addresses are IPv4 addresses. */
  ghost predicate Addresses(rule: Rule, ips: seq<nat>) {
    Increasing(ips) && (rule.V4? ==> forall i :: 0 <= i < |ips| ==> ips[i] < U32)
  }

  /** A network with enough addresses is found, or a smaller one in range with the same addresses is. */
  lemma FoundSomewhere(rule: Rule, ips: seq<nat>, pos: nat, zmin: nat, zmax: nat, z: nat) returns (w: nat)
    requires ValidRule(rule) && Addresses(rule, ips) && pos < |ips| && (rule.V4? ==> zmax < 32)
    requires NoOverflow(rule, zmax) && SkipHarmless(rule, zmin, zmax) && zmin <= z <= zmax && Enough(rule, ips, pos, z)
    ensures zmin <= w <= z && Qualifies(rule, ips, pos, w) && CountIn(ips, pos, w) == CountIn(ips, pos, z)
  {
    w := z;
    if Skipped(rule, ips[pos], z) {
      NetInRange(ips[pos], z);
      NoOverflowMono(rule, z, zmax);
      FoundInHalf(ips, pos, rule.mult, rule.div, zmin, z);
      w := z - 1;
    }
  }

  /** A line is a network that meets its threshold, covers the same inputs as the largest prefix that does,
      and no smaller prefix in the range covers those inputs; or no prefix in the range meets its threshold. */
  ghost predicate Tight(rule: Rule, ips: seq<nat>, pos: nat, zmin: nat, zmax: nat, zct: nat)
    requires pos < |ips| && (rule.V4? ==> rule.div > 0)
  {
    if zct == 0 then forall z :: zmin <= z <= zmax ==> !Enough(rule, ips, pos, z)
    else
      && zmin <= zct <= zmax && Enough(rule, ips, pos, zct)
      && (forall z :: zct <= z <= zmax && Enough(rule, ips, pos, z) ==> CountIn(ips, pos, z) == CountIn(ips, pos, zct))
      && (forall z :: zmin <= z < zct ==> CountIn(ips, pos, z) < CountIn(ips, pos, zct))
  }

  lemma LineIsTight(rule: Rule, ips: seq<nat>, pos: nat, zmin: nat, zmax: nat, zct: nat)
    requires ValidRule(rule) && Addresses(rule, ips) && pos < |ips| && (rule.V4? ==> zmax < 32)
    requires NoOverflow(rule, zmax) && SkipHarmless(rule, zmin, zmax) && Best(rule, ips, pos, zmin, zmax, zct)
    ensures Tight(rule, ips, pos, zmin, zmax, zct)
  {
    hide Addresses, NoOverflow, SkipHarmless, Run, MaskOff, NetEnd, Needed, LastTried;
    forall z | zmin <= z <= zmax && Enough(rule, ips, pos, z)
      ensures zct != 0 && CountIn(ips, pos, z) <= CountIn(ips, pos, zct)
      ensures z < zct ==> CountIn(ips, pos, z) < CountIn(ips, pos, zct)
    {
      var w := FoundSomewhere(rule, ips, pos, zmin, zmax, z);
    }
    if zct != 0 {
      forall z | zct <= z <= zmax && Enough(rule, ips, pos, z) ensures CountIn(ips, pos, z) == CountIn(ips, pos, zct) {
        CountMono(ips, pos, zct, z);
      }
      forall z | zmin <= z < zct ensures CountIn(ips, pos, z) < CountIn(ips, pos, zct) {
        CountMono(ips, pos, z, zct);
        NeededMono(rule, z, zct, zmax);
      }
    }
  }

  /** The same for v4 in numbers of addresses: a candidate holds two addresses and mult/div of the network, rounded
      down. */
  lemma V4LineMeaning(mult: nat, div: nat, ips: seq<nat>, pos: nat, zmin: nat, zmax: nat, zct: nat)
    requires 1 <= mult < div && Addresses(V4(mult, div), ips) && pos < |ips| && zmax < 32 && zmin >= 1
    requires NoOverflow(V4(mult, div), zmax) && SkipHarmless(V4(mult, div), zmin, zmax)
    requires Best(V4(mult, div), ips, pos, zmin, zmax, zct)
    ensures zct == 0 <==>
      forall z :: zmin <= z <= zmax ==> CountIn(ips, pos, z) < 2 || CountIn(ips, pos, z) < Pow2(z) * mult / div
    ensures zct != 0 ==>
      && zmin <= zct <= zmax && CountIn(ips, pos, zct) >= 2 && CountIn(ips, pos, zct) >= Pow2(zct) * mult / div
      && (forall z :: zct <= z <= zmax && CountIn(ips, pos, z) >= 2 && CountIn(ips, pos, z) >= Pow2(z) * mult / div ==>
            CountIn(ips, pos, z) == CountIn(ips, pos, zct))
      && (forall z :: zmin <= z < zct ==> CountIn(ips, pos, z) < CountIn(ips, pos, zct))
  {
    LineIsTight(V4(mult, div), ips, pos, zmin, zmax, zct);
    forall z | zmin <= z <= zmax
      ensures Enough(V4(mult, div), ips, pos, z) <==>
        CountIn(ips, pos, z) >= 2 && CountIn(ips, pos, z) >= Pow2(z) * mult / div
    {
      NetInRange(ips[pos], z);
      NoOverflowMono(V4(mult, div), z, zmax);
      ExactTests(ips[pos], mult, div, z);
    }
    hide Best, Enough, CountIn, Pow2, Addresses, NoOverflow, SkipHarmless;
  }

  lemma HighMask(x: nat, z: nat)
    requires x < Pow2(z)
    ensures MaskOff(x, z) == 0
  {
    SmallMod(x, Pow2(z));
  }

  lemma NetInRange(x: nat, z: nat)
    requires x < U32 && z <= 32
    ensures NetEnd(x, z) < U32
  {
    Pow2Is32();
    HighMask(x, 32);
    Nested(x, z, 32);
  }

  lemma NeededMono(rule: Rule, z: nat, w: nat, zmax: nat)
    requires ValidRule(rule) && z <= w <= zmax && NoOverflow(rule, zmax)
    ensures Needed(rule, z) <= Needed(rule, w)
  {
    if rule.V4? {
      var mult, div := rule.mult, rule.div;
      NoOverflowMono(rule, z, zmax);
      NoOverflowMono(rule, w, zmax);
      Pow2Mono(z, w);
      MulMono(mult, Pow2(z), Pow2(w));
      MulMono(mult, 0, Pow2(z));
      hide Pow2;
      SmallMod(Pow2(z) * mult, U32);
      SmallMod(Pow2(w) * mult, U32);
      DivMono(Pow2(z) * mult, Pow2(w) * mult, div);
    }
  }

  /** The search always has a result. */
  lemma {:induction false} BestExists(rule: Rule, ips: seq<nat>, pos: nat, z: nat, zmax: nat) returns (zct: nat)
    requires pos < |ips| && ValidRule(rule) && 1 <= z <= zmax + 1
    ensures Best(rule, ips, pos, z, zmax, zct)
    decreases zmax + 1 - z
  {
    if z == zmax + 1 {
      zct := 0;
      BestNothing(rule, ips, pos, zmax);
    } else {
      zct := BestExists(rule, ips, pos, z + 1, zmax);
      if !Qualifies(rule, ips, pos, z) {
        BestSkip(rule, ips, pos, z, zmax, zct);
      } else if zct == 0 || CountIn(ips, pos, zct) == CountIn(ips, pos, z) {
        BestTake(rule, ips, pos, z, zmax, zct);
        zct := z;
      } else {
        BestStop(rule, ips, pos, z, z, zmax, zct);
      }
    }
  }

  /** Otherwise the skip makes the search miss a network: the last addresses of the first network
      of z zero bits, as many as the quota asks for, do not get a tight line. */
  lemma SkipLosesNetwork(mult: nat, div: nat, zmin: nat, zmax: nat, z: nat) returns (ips: seq<nat>, zct: nat)
    requires 1 <= mult < div && 1 <= zmin <= z <= zmax < 32 && NoOverflow(V4(mult, div), zmax)
    requires !Harmless(mult, div, zmin, z)
    ensures ips != [] && Addresses(V4(mult, div), ips) && Best(V4(mult, div), ips, 0, zmin, zmax, zct)
    ensures !Tight(V4(mult, div), ips, 0, zmin, zmax, zct)
  {
    var rule, n, q := V4(mult, div), Pow2(z), Quota(mult, div, z);
    NoOverflowMono(rule, z, zmax);
    ips := LastOnes(mult, div, z);
    zct := BestExists(rule, ips, 0, zmin, zmax);
    SkippedIsFull(ips, 0, mult, div, z);
    hide Run, MaskOff, NetEnd, Needed, LastTried, Pow2, Quota, WholeQuota;
    if zct > z {
      LargerNeedsMore(ips, mult, div, z, zct, zmax);
    } else if zct != 0 && zct < z {
      SmallerHoldsLess(ips, mult, div, z, zct);
    }
  }

  /** The last q addresses of the network that starts at 0. */
  lemma LastOnes(mult: nat, div: nat, z: nat) returns (ips: seq<nat>)
    requires 1 <= mult < div && z < 32 && NoOverflow(V4(mult, div), z) && Quota(mult, div, z) >= 1
    ensures Addresses(V4(mult, div), ips) && 1 <= |ips| == Quota(mult, div, z) <= Pow2(z)
    ensures ips[0] == Pow2(z) - |ips| && MaskOff(ips[0], z) == 0 && CountIn(ips, 0, z) == |ips|
    ensures NetEnd(ips[0], z) < U32
  {
    var n, q := Pow2(z), Quota(mult, div, z);
    Complement(n, mult, div);
    Pow2Mono(z, 32);
    Pow2Is32();
    hide Pow2;
    ips := seq(q, i requires 0 <= i < q => n - q + i);
    assert ips[0] == n - q < n;
    HighMask(n - q, z);
    FullRun(ips, 0, n - 1);
  }

  /** Without addresses outside the network, a larger network is not full enough. */
  lemma LargerNeedsMore(ips: seq<nat>, mult: nat, div: nat, z: nat, w: nat, zmax: nat)
    requires 1 <= mult < div && z < w <= zmax && NoOverflow(V4(mult, div), zmax)
    requires 1 <= |ips| == Quota(mult, div, z)
    ensures !Enough(V4(mult, div), ips, 0, w)
  {
    var rule := V4(mult, div);
    RunBounds(ips, 0, NetEnd(ips[0], w));
    NoOverflowMono(rule, z + 1, zmax);
    HalfQuota(mult, div, z + 1);
    NeededMono(rule, z + 1, w, zmax);
    hide Pow2;
    MulMono(mult, 0, Pow2(z + 1));
    SmallMod(Pow2(z + 1) * mult, U32);
  }

  /** If the addresses begin in the lower half, a smaller network does not hold all of them. */
  lemma SmallerHoldsLess(ips: seq<nat>, mult: nat, div: nat, z: nat, w: nat)
    requires w < z && 1 <= |ips| && 2 * |ips| > Pow2(z) && ips[0] == Pow2(z) - |ips| && Increasing(ips)
    ensures CountIn(ips, 0, w) < |ips|
  {
    Pow2Next(z - 1);
    HighMask(ips[0], z - 1);
    CountMono(ips, 0, w, z - 1);
    RunAtMost(ips, 0, NetEnd(ips[0], z - 1));
  }

  lemma {:induction false} FullRun(ips: seq<nat>, p: nat, end: int)
    requires p <= |ips| && forall i :: 0 <= i < |ips| ==> ips[i] <= end
    ensures Run(ips, p, end) == |ips| - p
    decreases |ips| - p
  {
    if p < |ips| {
      FullRun(ips, p + 1, end);
    }
  }

  /** For every list and every position the search finds a tight line. */
  ghost predicate AlwaysTight(rule: Rule, zmin: nat, zmax: nat)
    requires ValidRule(rule)
  {
    forall ips: seq<nat>, pos: nat, zct: nat ::
      pos < |ips| && Addresses(rule, ips) && Best(rule, ips, pos, zmin, zmax, zct) ==>
        Tight(rule, ips, pos, zmin, zmax, zct)
  }

  /** Lines are tight for every input exactly if the skip is harmless at every size in the range. */
  lemma TightExactly(rule: Rule, zmin: nat, zmax: nat)
    requires ValidRule(rule) && 1 <= zmin && (rule.V4? ==> zmax < 32) && NoOverflow(rule, zmax)
    ensures AlwaysTight(rule, zmin, zmax) <==> SkipHarmless(rule, zmin, zmax)
  {
    hide Best, Tight, Addresses, NoOverflow, Harmless;
    if SkipHarmless(rule, zmin, zmax) {
      forall ips: seq<nat>, pos: nat, zct: nat
        | pos < |ips| && Addresses(rule, ips) && Best(rule, ips, pos, zmin, zmax, zct)
        ensures Tight(rule, ips, pos, zmin, zmax, zct)
      {
        LineIsTight(rule, ips, pos, zmin, zmax, zct);
      }
    } else {
      var z :| zmin <= z <= zmax && !Harmless(rule.mult, rule.div, zmin, z);
      var ips, zct := SkipLosesNetwork(rule.mult, rule.div, zmin, zmax, z);
    }
  }

  lemma ThreeQuarters(zmin: nat, z: nat)
    requires z >= 1
    ensures Harmless(3, 4, zmin, z)
  {
    if z >= 2 {
      Pow2Next(z - 1);
      Pow2Next(z - 2);
      hide Pow2;
      FourTimes(3 * Pow2(z - 2));
    } else {
      assert Pow2(1) == 2;
    }
  }

  lemma FourTimes(k: int)
    ensures 4 * k % 4 == 0
  {
  }

  lemma ThreeQuartersFit(z: nat)
    requires z <= 30
    ensures NoOverflow(V4(3, 4), z)
  {
    Pow2Mono(z, 30);
    Pow2Is32();
    assert Pow2(32) == 4 * Pow2(30) by { Pow2Next(31); Pow2Next(30); }
  }

  /** Three quarters, the default threshold, is harmless in every range without overflow. */
  lemma DefaultIsTight(zmin: nat, zmax: nat)
    requires 1 <= zmin && zmax <= 30
    ensures NoOverflow(V4(3, 4), zmax) && AlwaysTight(V4(3, 4), zmin, zmax)
  {
    ThreeQuartersFit(zmax);
    hide AlwaysTight, NoOverflow, Harmless;
    forall z | zmin <= z <= zmax ensures Harmless(3, 4, zmin, z) {
      ThreeQuarters(zmin, z);
    }
    TightExactly(V4(3, 4), zmin, zmax);
  }

  // ----- from the list to the output -----

  function Ucmp(a: nat, b: nat): int {
    if a < b then -1 else if a > b then 1 else 0
  }

  /** cmp6: the upper 64 bits first, then the lower ones. */
  function Cmp6(a: nat, b: nat): int {
    var m := 0x1_0000_0000_0000_0000;
    if a / m < b / m then -1 else if a / m > b / m then 1
    else if a % m < b % m then -1 else if a % m > b % m then 1 else 0
  }

  lemma Cmp6IsNumeric(a: nat, b: nat)
    ensures Cmp6(a, b) == Ucmp(a, b)
  {
  }

  lemma UcmpOrder()
    ensures TotalPreorder(Ucmp)
  {
  }

  ghost predicate SameValues(s: seq<nat>, t: seq<nat>) {
    forall x :: x in s <==> x in t
  }

  ghost predicate NonDecreasing(s: seq<nat>) {
    forall i, j :: 0 <= i < j < |s| ==> s[i] <= s[j]
  }

  lemma AppendIncreasing(t: seq<nat>, u: nat)
    requires Increasing(t) && (t != [] ==> t[|t|-1] < u)
    ensures Increasing(t + [u])
  {
  }

  lemma AppendValues(t: seq<nat>, s: seq<nat>, j0: nat, j: nat, u: nat)
    requires j0 < j <= |s| && SameValues(t, s[..j0]) && forall k :: j0 <= k < j ==> s[k] == u
    ensures SameValues(t + [u], s[..j])
  {
    assert s[..j] == s[..j0] + s[j0..j];
    assert s[j0..j][0] == u;
    assert forall x :: x in s[j0..j] ==> x == u;
  }

  /** unique and unique6: compacts a sorted array in place. */
  method Unique(pu: array<nat>) returns (n: nat)
    requires NonDecreasing(pu[..])
    modifies pu
    ensures n <= pu.Length && Increasing(pu[..n]) && SameValues(pu[..n], old(pu[..]))
  {
    hide SameValues, Increasing;
    ghost var s := pu[..];
    var i, j := 0, 0;
    assert Increasing(pu[..0]) && SameValues(pu[..0], s[..0]) by { NothingYet(pu[..0], s[..0]); }
    while j < pu.Length
      invariant i <= j <= pu.Length && forall k :: j <= k < pu.Length ==> pu[k] == s[k]
      invariant Increasing(pu[..i]) && SameValues(pu[..i], s[..j])
      invariant i > 0 && j < |s| ==> pu[i-1] < s[j]
    {
      var u := pu[j];
      ghost var j0 := j;
      j := j + 1;
      while j < pu.Length && pu[j] == u
        invariant j0 < j <= pu.Length && forall k :: j0 <= k < j ==> s[k] == u
      {
        j := j + 1;
      }
      AppendIncreasing(pu[..i], u);
      AppendValues(pu[..i], s, j0, j, u);
      ghost var t := pu[..i];
      pu[i] := u;
      assert pu[..i+1] == t + [u];
      i := i + 1;
    }
    n := i;
    assert s[..j] == s;
  }

  lemma NothingYet(t: seq<nat>, s: seq<nat>)
    requires t == [] && s == []
    ensures Increasing(t) && SameValues(t, s)
  {
  }

  /** The grouping loop of main on the sorted unique addresses; printing appends to out. */
  method Group(ips: array<nat>, ipct: nat, rule: Rule, zmin: nat, zmax: nat)
    returns (out: seq<Item>, ghost cut: seq<nat>)
    requires ipct <= ips.Length && Increasing(ips[..ipct]) && ValidRule(rule) && 1 <= zmin <= zmax + 1
    ensures Grouped(rule, ips[..ipct], zmin, zmax, out, cut) && cut[|out|] == ipct
  {
    hide Best, Behind, Increasing, MaskOff;
    ghost var s := ips[..ipct];
    var pos := 0;
    out, cut := [], [0];
    while pos < ipct
      invariant pos <= ipct && Grouped(rule, s, zmin, zmax, out, cut) && cut[|out|] == pos
      decreases ipct - pos
    {
      var zctBest, posEnd;
      match rule {
        case V4(mult, div) => zctBest, posEnd := SearchV4(ips, ipct, pos, mult, div, zmin, zmax);
        case V6(threshold) => zctBest, posEnd := SearchV6(ips, ipct, pos, threshold, zmin, zmax);
      }
      BehindBounds(s, pos, zctBest);
      assert MaskOff(ips[pos], 0) == ips[pos] by { MaskNothing(ips[pos]); }
      var start := if zctBest != 0 then MaskOff(ips[pos], zctBest) else ips[pos];
      out, cut := out + [Item(start, zctBest)], cut + [posEnd];
      pos := posEnd;
    }
  }

  lemma MaskNothing(x: nat)
    ensures MaskOff(x, 0) == x
  {
  }

  lemma BehindBounds(ips: seq<nat>, pos: nat, zct: nat)
    requires pos < |ips|
    ensures pos < Behind(ips, pos, zct) <= |ips|
  {
    InNet(ips[pos], zct);
    RunBounds(ips, pos, NetEnd(ips[pos], zct));
  }

  lemma SortedIsNonDecreasing(cmp: Cmp<nat>, s: seq<nat>)
    requires Sorted(cmp, s) && forall a: nat, b: nat :: cmp(a, b) == Ucmp(a, b)
    ensures NonDecreasing(s)
  {
    forall i, j | 0 <= i < j < |s| ensures s[i] <= s[j] {
      assert Le(cmp, s[i], s[j]);
    }
  }

  lemma SameMultiset(s: seq<nat>, t: seq<nat>)
    requires multiset(s) == multiset(t)
    ensures SameValues(s, t)
  {
    forall x ensures x in s <==> x in t {
      assert x in s <==> x in multiset(s);
      assert x in t <==> x in multiset(t);
    }
  }

  lemma Cmp6Order()
    ensures TotalPreorder(Cmp6)
  {
    forall a: nat, b: nat ensures Cmp6(a, b) == Ucmp(a, b) {
      Cmp6IsNumeric(a, b);
    }
  }

  lemma PartitionsSame(out: seq<Item>, ips: seq<nat>, input: seq<nat>)
    requires Partitions(out, ips) && SameValues(ips, input)
    ensures Partitions(out, input)
  {
    hide InSomeLine;
    forall k | 0 <= k < |out| ensures HoldsSome(out[k], input) {
      assert HoldsSome(out[k], ips);
      var x :| x in ips && out[k].Holds(x);
      assert x in input;
    }
  }

  method SortList(list: array<nat>, ipv6: bool)
    requires list.Length < Pow2(Q.STACK_SIZE)
    modifies list
    ensures NonDecreasing(list[..]) && SameValues(list[..], old(list[..]))
  {
    hide Pow2, TotalPreorder, Sorted, Ucmp, Cmp6, SameValues, NonDecreasing;
    ghost var input := list[..];
    if ipv6 {
      Cmp6Order();
      Q.GnuQuicksort(list, Cmp6);
      forall a: nat, b: nat ensures Cmp6(a, b) == Ucmp(a, b) { Cmp6IsNumeric(a, b); }
      SortedIsNonDecreasing(Cmp6, list[..]);
    } else {
      UcmpOrder();
      Q.GnuQuicksort(list, Ucmp);
      SortedIsNonDecreasing(Ucmp, list[..]);
    }
    SameMultiset(list[..], input);
  }

  /** ip2net on the list it read: sort, drop duplicates, group. */
  method Ip2NetMain(list: array<nat>, rule: Rule, zmin: nat, zmax: nat)
    returns (out: seq<Item>, ghost ips: seq<nat>, ghost cut: seq<nat>)
    requires list.Length < Pow2(Q.STACK_SIZE) && ValidRule(rule) && 1 <= zmin <= zmax + 1
    modifies list
    ensures Increasing(ips) && SameValues(ips, old(list[..]))
    ensures Grouped(rule, ips, zmin, zmax, out, cut) && cut[|out|] == |ips|
    ensures Partitions(out, old(list[..]))
  {
    hide Increasing, SameValues, NonDecreasing, Grouped, Partitions;
    ghost var input := list[..];
    SortList(list, rule.V6?);
    ghost var sorted := list[..];
    var n := Unique(list);
    ips := list[..n];
    SameTrans(ips, sorted, input);
    out, cut := Group(list, n, rule, zmin, zmax);
    CutLength(rule, ips, zmin, zmax, out, cut);
    OutputPartitions(rule, ips, zmin, zmax, out, cut);
    PartitionsSame(out, ips, input);
  }

  lemma CutLength(rule: Rule, ips: seq<nat>, zmin: nat, zmax: nat, out: seq<Item>, cut: seq<nat>)
    requires Grouped(rule, ips, zmin, zmax, out, cut)
    ensures |cut| == |out| + 1
  {
  }

  lemma SameTrans(s: seq<nat>, t: seq<nat>, u: seq<nat>)
    requires SameValues(s, t) && SameValues(t, u)
    ensures SameValues(s, u)
  {
  }
}
