/** The RSS redirection table, `configure_rss_reta` and `query_rss_reta` of dpdk-net/src/api/rte/eth.rs. */
module Reta {
  import opened Bytes

  const GROUP: nat := 64

  function DivCeil(a: nat, b: nat): nat
    requires b > 0
  {
    if a % b == 0 then a / b else a / b + 1
  }

  lemma GroupsCover(size: nat)
    ensures forall i :: 0 <= i < size ==> i / GROUP < DivCeil(size, GROUP)
  {
  }

  /** The device: its table, and the update and query calls through groups of 64 entries. */
  class EthDev {
    var table: seq<nat>

    constructor (size: nat)
      ensures |table| == size
    {
      table := seq(size, _ => 0);
    }

    /** `rte_eth_dev_rss_reta_update` with every mask bit set. */
    method Update(conf: array2<nat>)
      requires conf.Length1 == GROUP && conf.Length0 == DivCeil(|table|, GROUP)
      modifies this
      ensures |table| == |old(table)|
      ensures forall i :: 0 <= i < |table| ==> i / GROUP < conf.Length0 && table[i] == conf[i / GROUP, i % GROUP]
    {
      var size := |table|;
      GroupsCover(size);
      table := seq(size, i requires 0 <= i < size && i / GROUP < conf.Length0 && conf.Length1 == GROUP reads conf =>
        conf[i / GROUP, i % GROUP]);
    }

    /** `rte_eth_dev_rss_reta_query`. */
    method Query(conf: array2<nat>)
      requires conf.Length1 == GROUP && conf.Length0 == DivCeil(|table|, GROUP)
      modifies conf
      ensures forall i :: 0 <= i < |table| ==> i / GROUP < conf.Length0 && conf[i / GROUP, i % GROUP] == table[i]
    {
      GroupsCover(|table|);
      forall g, k | 0 <= g < conf.Length0 && 0 <= k < GROUP && g * GROUP + k < |table| {
        conf[g, k] := table[g * GROUP + k];
      }
    }

    /** The entries of one group that exist. */
    static method FillGroup(conf: array2<nat>, g: nat, size: nat, queues: nat)
      requires g < conf.Length0 && conf.Length1 == GROUP && queues > 0
      modifies conf
      ensures forall j :: 0 <= j < GROUP && g * GROUP + j < size ==> conf[g, j] == (g * GROUP + j) % queues
      ensures forall h, j :: 0 <= h < conf.Length0 && 0 <= j < GROUP && h != g ==> conf[h, j] == old(conf[h, j])
    {
      for k := 0 to GROUP
        invariant forall j :: 0 <= j < k && g * GROUP + j < size ==> conf[g, j] == (g * GROUP + j) % queues
        invariant forall h, j :: 0 <= h < conf.Length0 && 0 <= j < GROUP && h != g ==> conf[h, j] == old(conf[h, j])
      {
        var entry := g * GROUP + k;
        if entry < size {
          conf[g, k] := entry % queues;
        }
      }
    }

    /** Round-robin assignment; a device without a table is left alone. */
    method Configure(queues: nat)
      requires |table| > 0 ==> queues > 0
      modifies this
      ensures |table| == |old(table)|
      ensures forall i :: 0 <= i < |table| ==> table[i] == i % queues
    {
      if |table| == 0 {
        return;
      }
      var groups := DivCeil(|table|, GROUP);
      var conf := new nat[groups, GROUP]((_, _) => 0);
      for g := 0 to groups
        modifies conf
        invariant forall i :: 0 <= i < |table| && i / GROUP < g ==> conf[i / GROUP, i % GROUP] == i % queues
      {
        FillGroup(conf, g, |table|, queues);
      }
      Update(conf);
    }

    /** Reads the whole table back, entry by entry through the groups. */
    method QueryAll() returns (entries: seq<nat>)
      ensures entries == table
    {
      if |table| == 0 {
        return [];
      }
      var groups := DivCeil(|table|, GROUP);
      var conf := new nat[groups, GROUP]((_, _) => 0);
      Query(conf);
      entries := [];
      for g := 0 to groups
        invariant entries == table[..Min(g * GROUP, |table|)]
      {
        for k := 0 to GROUP
          invariant entries == table[..Min(g * GROUP + k, |table|)]
        {
          var entry := g * GROUP + k;
          if entry < |table| {
            assert entry / GROUP == g && entry % GROUP == k;
            entries := entries + [conf[g, k]];
          }
        }
      }
    }
  }

  /** How many of the entries point at queue `q`. */
  function Load(entries: seq<nat>, q: nat): nat {
    if entries == [] then 0
    else Load(entries[..|entries| - 1], q) + if entries[|entries| - 1] == q then 1 else 0
  }

  function RoundRobin(size: nat, queues: nat): (r: seq<nat>)
    requires queues > 0
    ensures |r| == size && forall i :: 0 <= i < size ==> r[i] == i % queues
  {
    seq(size, i requires 0 <= i => i % queues)
  }

  /** Each queue gets the integer share of the table, plus one for the first `size mod queues` of them. */
  lemma {:induction false} Balanced(size: nat, queues: nat, q: nat)
    requires queues > 0 && q < queues
    ensures Load(RoundRobin(size, queues), q) == size / queues + if q < size % queues then 1 else 0
  {
    if size > 0 {
      Balanced(size - 1, queues, q);
      assert RoundRobin(size, queues)[..size - 1] == RoundRobin(size - 1, queues);
      NextQuotient(size - 1, queues);
    } else {
      assert 0 / queues == 0 && 0 % queues == 0;
    }
  }

  lemma NextQuotient(a: nat, m: nat)
    requires m > 0
    ensures a % m + 1 < m ==> (a + 1) / m == a / m && (a + 1) % m == a % m + 1
    ensures a % m + 1 == m ==> (a + 1) / m == a / m + 1 && (a + 1) % m == 0
  {
    var q, r := a / m, a % m;
    assert a == m * q + r;
    if r + 1 < m {
      DivModUnique(a + 1, m, q, r + 1);
    } else {
      assert a + 1 == m * (q + 1) + 0;
      DivModUnique(a + 1, m, q + 1, 0);
    }
  }

  lemma DivModUnique(a: nat, m: nat, q: nat, r: nat)
    requires m > 0 && r < m && a == m * q + r
    ensures a / m == q && a % m == r
  {
    var d := a / m - q;
    assert m * (a / m) + a % m == a;
    assert m * d == r - a % m;
    NoSmallMultiple(m, d, r - a % m);
  }

  lemma NoSmallMultiple(m: int, d: int, e: int)
    requires m > 0 && m * d == e && -m < e < m
    ensures d == 0
  {
    if d > 0 {
      AtLeast(m, d);
    } else if d < 0 {
      AtLeast(m, -d);
    }
  }

  lemma {:induction false} AtLeast(m: int, d: int)
    requires m > 0 && d >= 1
    ensures m * d >= m
    decreases d
  {
    if d > 1 {
      AtLeast(m, d - 1);
      assert m * d == m * (d - 1) + m;
    }
  }

  /** After configuration and read-back the loads of any two queues differ by at most one. */
  method ConfigureAndQuery(dev: EthDev, queues: nat) returns (entries: seq<nat>)
    requires queues > 0
    modifies dev
    ensures entries == dev.table && |entries| == |old(dev.table)|
    ensures forall i :: 0 <= i < |entries| ==> entries[i] == i % queues
    ensures forall q :: 0 <= q < queues ==>
              Load(entries, q) == |entries| / queues + if q < |entries| % queues then 1 else 0
    ensures forall p, q :: 0 <= p < queues && 0 <= q < queues ==> Load(entries, p) <= Load(entries, q) + 1
  {
    dev.Configure(queues);
    entries := dev.QueryAll();
    assert entries == RoundRobin(|entries|, queues);
    forall q | 0 <= q < queues
      ensures Load(entries, q) == |entries| / queues + if q < |entries| % queues then 1 else 0
    {
      Balanced(|entries|, queues, q);
    }
  }
}
