/** dnsredir.c: the tracker of DNS queries, on a uthash table of records. */
module DnsRedir {
  import opened Numbers
  import opened Sequences
  import opened Bytes
  import opened HashItems
  import opened MergeSorts
  import opened HashChains
  import opened Uthash
  import opened DnsRecords

  const KEY_OF: Record -> Key := (r: Record) => r.key

  ghost function Records(s: Items<Record>): map<Key, Record> {
    var m := AsMap(s, KEY_OF);
    map k | k in m :: m[k].data
  }

  class Tracker {
    const conntrack: Hash<Key, Record>
    var lastCleanup: int

    ghost predicate Valid()
      reads this, conntrack, conntrack.buckets, Nodes(conntrack.items)
    {
      conntrack.Valid() && conntrack.keyOf == KEY_OF && UniqueKeys(conntrack.items, KEY_OF)
    }

    ghost function Abs(): State
      reads this, conntrack
    {
      State(Records(conntrack.items), lastCleanup)
    }

    constructor (hash: Key -> nat)
      ensures Valid() && Abs() == State(map[], 0)
      ensures fresh(conntrack) && fresh(conntrack.buckets)
    {
      conntrack := new Hash(hash, KEY_OF);
      lastCleanup := 0;
    }

    /** dns_cleanup, which reads the clock at t0 and, to clean up, at t1. */
    method Cleanup(t0: int, t1: int)
      requires Valid()
      modifies this, conntrack, conntrack.buckets, Nodes(conntrack.items)
      ensures Valid() && Abs() == Cleaned(old(Abs()), t0, t1)
      ensures conntrack.buckets == old(conntrack.buckets) && Nodes(conntrack.items) <= old(Nodes(conntrack.items))
      ensures |conntrack.items| <= old(|conntrack.items|)
    {
      if lastCleanup == 0 {
        lastCleanup := t0;
        return;
      }
      if t0 - lastCleanup >= CLEANUP_INTERVAL {
        lastCleanup := t1;
        var keep := (r: Record) => !(t1 - r.time >= CLEANUP_INTERVAL);
        RecordsClean(conntrack.items, keep, t1);
        hide Records, Kept, UniqueKeys;
        conntrack.DeleteUnless(keep);
      }
    }

    /** check_get_udp_conntrack_key. */
    method Lookup(key: Key) returns (record: Elem?<Record>)
      requires Valid()
      ensures record == null <==> key !in Abs().records
      ensures record != null ==>
        record in conntrack.items && record.data == Abs().records[key] && record.data.key == key
    {
      record := conntrack.Find(key);
      FindRefines(conntrack.items, KEY_OF, key, record);
    }

    /** HASH_ADD of a record with a new key. */
    method Track(data: Record)
      requires Valid() && |conntrack.items| + 1 < U32 && data.key !in Abs().records
      modifies conntrack, conntrack.buckets, Nodes(conntrack.items)
      ensures Valid() && Abs() == AddRecord(old(Abs()), data)
      ensures conntrack.buckets == old(conntrack.buckets) || fresh(conntrack.buckets)
      ensures fresh(Nodes(conntrack.items) - old(Nodes(conntrack.items)))
    {
      assert allocated(conntrack.items);
      assert allocated(Nodes(conntrack.items));
      hide AsMap, Records, UniqueKeys, Nodes;
      var record := new Elem(data);
      RecordsAdd(conntrack.items, record);
      NodesAppend(conntrack.items, record);
      conntrack.Add(record);
    }

    /** add_udp_conntrack at time t2. */
    method AddConn(ipv6: bool, src: Addr, srcport: Port, dst: Addr, dstport: Port, t2: int) returns (ok: bool)
      requires Valid() && |conntrack.items| + 1 < U32
      modifies this, conntrack, conntrack.buckets, Nodes(conntrack.items)
      ensures Valid()
      ensures ok <==> srcport != 0 && dstport != 0 && FillKey(ipv6, src, srcport) !in old(Abs()).records
      ensures Abs() ==
        if !ok then old(Abs())
        else AddRecord(old(Abs()), Record(FillKey(ipv6, src, srcport), t2, CopyAddr(ipv6, dst), dstport))
      ensures conntrack.buckets == old(conntrack.buckets) || fresh(conntrack.buckets)
      ensures fresh(Nodes(conntrack.items) - old(Nodes(conntrack.items)))
    {
      assert allocated(conntrack.items) && allocated(Nodes(conntrack.items));
      hide Valid, Records, FillKey, CopyAddr, Nodes;
      if srcport == 0 || dstport == 0 {
        return false;
      }
      var key := FillKey(ipv6, src, srcport);
      var found := Lookup(key);
      ok := found == null;
      if ok {
        Track(Record(key, t2, CopyAddr(ipv6, dst), dstport));
      }
    }

    /** dns_handle_outgoing. */
    method HandleOutgoing(ipv6: bool, src: Addr, srcport: Port, dst: Addr, dstport: Port, packet: seq<Byte>,
                          t0: int, t1: int, t2: int) returns (ok: bool)
      requires Valid() && |conntrack.items| + 1 < U32
      modifies this, conntrack, conntrack.buckets, Nodes(conntrack.items)
      ensures Valid()
      ensures (Abs(), if ok then Tracked else Refused) ==
        Step(old(Abs()), Outgoing(ipv6, src, srcport, dst, dstport, packet, t0, t1, t2))
      ensures ok ==> LooksLikeQuery(packet) && srcport != 0 && dstport != 0
      ensures LooksLikeQuery(packet) && srcport != 0 && dstport != 0 ==>
        FillKey(ipv6, src, srcport) in old(Abs()).records || ok
      ensures conntrack.buckets == old(conntrack.buckets) || fresh(conntrack.buckets)
      ensures fresh(Nodes(conntrack.items) - old(Nodes(conntrack.items)))
    {
      QueryBytes(packet);
      CleanedLess(Abs(), t0, t1);
      hide Valid, Records, FillKey, CopyAddr, Cleaned, IsQuery;
      if |packet| < 16 {
        return false;
      }
      Cleanup(t0, t1);
      if IsQuery(packet) {
        ok := AddConn(ipv6, src, srcport, dst, dstport, t2);
      } else {
        ok := false;
      }
    }

    /** dns_handle_incoming; info is filled in only if the packet is to be rewritten. */
    method HandleIncoming(ipv6: bool, src: Addr, srcport: Port, packet: seq<Byte>, t0: int, t1: int)
      returns (ok: bool, info: Info)
      requires Valid()
      modifies this, conntrack, conntrack.buckets, Nodes(conntrack.items)
      ensures Valid()
      ensures (Abs(), if ok then Answered(info) else Refused) ==
        Step(old(Abs()), Incoming(ipv6, src, srcport, packet, t0, t1))
      ensures conntrack.buckets == old(conntrack.buckets)
      ensures Nodes(conntrack.items) <= old(Nodes(conntrack.items))
    {
      hide Valid, Records, FillKey, CopyAddr, Cleaned, IsResponse, FillData;
      ok, info := false, Info(false, Addr(0, 0, 0, 0), 0, Addr(0, 0, 0, 0), 0);
      if |packet| < 16 {
        return;
      }
      Cleanup(t0, t1);
      if IsResponse(packet) {
        var key := FillKey(ipv6, src, srcport);
        var record := Lookup(key);
        if record != null {
          var (v6, srcip, port) := FillData(key);
          KeyRoundTrip(ipv6, src, srcport);
          ok, info := true, Info(v6, srcip, port, CopyAddr(v6, record.data.dstip), record.data.dstport);
          Forget(record);
        }
      }
    }

    /** HASH_DEL of a record. */
    method Forget(record: Elem<Record>)
      requires Valid() && record in conntrack.items
      modifies conntrack, conntrack.buckets, Nodes(conntrack.items)
      ensures Valid() && Abs() == State(old(Abs()).records - {record.data.key}, lastCleanup)
      ensures conntrack.buckets == old(conntrack.buckets) && Nodes(conntrack.items) <= old(Nodes(conntrack.items))
    {
      conntrack.ItemsDiffer();
      hide AsMap, Records, UniqueKeys, Nodes, Dropped;
      RecordsDelete(conntrack.items, record);
      conntrack.Delete(record);
    }

    /** dnsredir_clear. */
    method Clear()
      requires Valid()
      modifies this, conntrack, conntrack.buckets, Nodes(conntrack.items)
      ensures Valid() && Abs() == State(map[], 0)
    {
      ghost var s := conntrack.items;
      var keep := (_: Record) => false;
      conntrack.DeleteUnless(keep);
      KeptRefines(keep, s, KEY_OF);
      lastCleanup := 0;
    }
  }

  ghost function AddRecord(s: State, r: Record): State {
    State(s.records[r.key := r], s.lastCleanup)
  }

  lemma RecordsAdd(s: Items<Record>, e: Elem<Record>)
    requires UniqueKeys(s, KEY_OF) && e.data.key !in Records(s)
    ensures UniqueKeys(s + [e], KEY_OF) && Records(s + [e]) == Records(s)[e.data.key := e.data]
  {
    hide AsMap, UniqueKeys;
    AddRefines(s, KEY_OF, e);
  }

  lemma RecordsDelete(s: Items<Record>, e: Elem<Record>)
    requires UniqueKeys(s, KEY_OF) && NoDup(s) && e in s
    ensures UniqueKeys(Dropped(s, e), KEY_OF) && Records(Dropped(s, e)) == Records(s) - {e.data.key}
    ensures Nodes(Dropped(s, e)) <= Nodes(s)
  {
    hide AsMap, UniqueKeys, Dropped;
    DeleteRefines(s, KEY_OF, e);
    NodesDropped(s, e);
  }

  lemma RecordsClean(s: Items<Record>, keep: Record -> bool, t1: int)
    requires UniqueKeys(s, KEY_OF) && forall r :: keep(r) <==> Young(r, t1)
    ensures UniqueKeys(Kept(keep, s), KEY_OF) && Nodes(Kept(keep, s)) <= Nodes(s) && |Kept(keep, s)| <= |s|
    ensures Records(Kept(keep, s)) == map k | k in Records(s) && Young(Records(s)[k], t1) :: Records(s)[k]
  {
    hide AsMap, UniqueKeys, Kept;
    KeptRefines(keep, s, KEY_OF);
    KeptIs(keep, s);
    KeptShorter(keep, s);
  }
}
