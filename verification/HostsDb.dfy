/** The hosts database as a value: hosts by address, each with five tables of traffic by protocol or port. */
module HostsDb {
  import opened Wrappers
  import opened Bytes
  import opened Addrs
  import opened Collections

  /** The byte counters of a bucket. */
  datatype Flow = Flow(inn: u64, out: u64, total: u64)

  /** The total is what came in and what went out. */
  predicate CleanFlow(f: Flow) {
    f.total == Add64(f.inn, f.out)
  }

  /** A protocol or port of a host; only TCP ports count SYN packets. */
  datatype Entry = Entry(flow: Flow, syn: u64)

  /** The tables of a host, in the order in which they are exported. */
  datatype TableId = Protos | Tcp | Udp | TcpRemote | UdpRemote

  datatype Tables = Tables(protos: map<nat, Entry>, tcp: map<nat, Entry>, udp: map<nat, Entry>,
                           tcpRemote: map<nat, Entry>, udpRemote: map<nat, Entry>)

  /** The protocol and ports of a packet; only what is served as JSON tells them. */
  datatype Latest = Latest(proto: nat, srcPort: nat, dstPort: nat)

  datatype Host = Host(flow: Flow, dns: Option<seq<bv8>>, mac: seq<bv8>, lastSeen: int, latest: Option<Latest>,
                       tables: Tables)

  type Db = map<Addr, Host>

  datatype Limits = Limits(hostsMax: nat, hostsKeep: nat, portsMax: nat, portsKeep: nat)

  const NO_FLOW: Flow := Flow(0, 0, 0)
  const NEW_ENTRY: Entry := Entry(NO_FLOW, 0)
  const NEW_HOST: Host := Host(NO_FLOW, None, [0, 0, 0, 0, 0, 0], 0, None, Tables(map[], map[], map[], map[], map[]))

  function Table(ts: Tables, t: TableId): map<nat, Entry> {
    match t
    case Protos => ts.protos
    case Tcp => ts.tcp
    case Udp => ts.udp
    case TcpRemote => ts.tcpRemote
    case UdpRemote => ts.udpRemote
  }

  function WithTable(ts: Tables, t: TableId, m: map<nat, Entry>): (r: Tables)
    ensures Table(r, t) == m && forall u :: u != t ==> Table(r, u) == Table(ts, u)
  {
    match t
    case Protos => ts.(protos := m)
    case Tcp => ts.(tcp := m)
    case Udp => ts.(udp := m)
    case TcpRemote => ts.(tcpRemote := m)
    case UdpRemote => ts.(udpRemote := m)
  }

  /** The most entries a table may have before it is reduced, and how many are then kept. */
  function Max(t: TableId, lim: Limits): nat {
    if t == Protos then 512 else lim.portsMax
  }

  function Keep(t: TableId, lim: Limits): nat {
    if t == Protos then 256 else lim.portsKeep
  }

  // ----- Reducing a table -----

  /** The keys whose total reaches that of `k`. */
  function Rivals<K(==, !new), V>(m: map<K, V>, total: V -> nat, k: K): set<K>
    requires k in m
  {
    set j | j in m && total(m[j]) >= total(m[k])
  }

  /** hashtable_reduce(): a key stays if no more than `keep` keys reach its total. */
  function Trim<K(==, !new), V>(m: map<K, V>, total: V -> nat, keep: nat): (r: map<K, V>)
    ensures r.Keys <= m.Keys && forall k :: k in r ==> r[k] == m[k]
  {
    map k | k in m && |Rivals(m, total, k)| <= keep :: m[k]
  }

  lemma {:induction false} Least<K(!new), V>(s: set<K>, m: map<K, V>, total: V -> nat) returns (k: K)
    requires s != {} && s <= m.Keys
    ensures k in s && forall j :: j in s ==> total(m[k]) <= total(m[j])
    decreases |s|
  {
    k :| k in s;
    if s != {k} {
      var j := Least(s - {k}, m, total);
      if total(m[j]) < total(m[k]) {
        k := j;
      }
    }
  }

  /** At most `keep` keys stay, and each of them beats each one that goes. */
  lemma TrimKeeps<K(!new), V>(m: map<K, V>, total: V -> nat, keep: nat)
    ensures var r := Trim(m, total, keep);
            |r| <= keep && forall j, k :: j in m && j !in r && k in r ==> total(m[j]) < total(m[k])
  {
    var r := Trim(m, total, keep);
    if r.Keys != {} {
      var k := Least(r.Keys, m, total);
      SubsetSize(r.Keys, Rivals(m, total, k));
    }
    forall j, k | j in m && j !in r && k in r
      ensures total(m[j]) < total(m[k])
    {
      if total(m[j]) >= total(m[k]) {
        SubsetSize(Rivals(m, total, j), Rivals(m, total, k));
      }
    }
  }

  function EntryTotal(e: Entry): nat {
    e.flow.total
  }

  function HostTotal(h: Host): nat {
    h.flow.total
  }

  /** The table when there has to be room for one more. */
  function Roomy(m: map<nat, Entry>, max: nat, keep: nat): (r: map<nat, Entry>)
    ensures r.Keys <= m.Keys && forall k :: k in r ==> r[k] == m[k]
    ensures if |m| < max then r == m else |r| <= keep
  {
    TrimKeeps(m, EntryTotal, keep);
    if |m| >= max then Trim(m, EntryTotal, keep) else m
  }

  lemma RoomyExactly(m: map<nat, Entry>, max: nat, keep: nat)
    ensures |m| >= max ==> forall k :: k in Roomy(m, max, keep) <==> k in m && |Rivals(m, EntryTotal, k)| <= keep
  {
  }

  /** hashtable_find_or_insert(), which may reduce the table first. */
  function FindOrInsert(m: map<nat, Entry>, max: nat, keep: nat, key: nat): (r: map<nat, Entry>)
    ensures key in r && r[key] == if key in m then m[key] else NEW_ENTRY
    ensures forall k :: k in r && k != key ==> k in m && r[k] == m[k]
    ensures key in m || |m| < max ==> m.Keys <= r.Keys
    ensures key !in m && |m| >= max ==> |r| <= keep + 1
  {
    assert Roomy(m, max, keep)[key := NEW_ENTRY].Keys == Roomy(m, max, keep).Keys + {key};
    if key in m then m else Roomy(m, max, keep)[key := NEW_ENTRY]
  }
}
