/**
 * The `Router` of lab02/roteador.py: its bootstrap, the Bellman-Ford merge
 * done by the `/receive_update` endpoint on the router instance, and the
 * tables `send_updates_to_neighbors` sends, summarized and poisoned per
 * neighbour.
 *
 * The HTTP layer is reduced to its inputs and outputs: a request is its
 * `sender_address` and `routing_table` fields (None when missing or of the
 * wrong kind), a response is a Status, and the POSTs sent to the
 * neighbours are a sequence of messages.
 */
module Roteador {
  import opened Wrappers
  import opened PyDict
  import opened Ipv4
  import opened Routing
  import opened Summarization

  /** The three answers of `/receive_update`: 400, "ignored" and "success". */
  datatype Status = BadRequest | Ignored | Success

  /** The JSON payload POSTed to `http://<to>/receive_update`. */
  datatype Message = Message(to: string, senderAddress: string, table: Table)

  class Router {
    const myAddress: string
    const neighbors: Dict<string, int>
    const myNetwork: string
    const updateInterval: int
    var routingTable: Table

    /** The neighbour list and the routing table are well-formed dicts. */
    ghost predicate Valid()
      reads this
    {
      PyDict.Valid(neighbors) && PyDict.Valid(routingTable)
    }

    /** `__init__`: the own network at cost 0, then each neighbour at its link cost. */
    constructor(myAddress: string, neighbors: Dict<string, int>, myNetwork: string, updateInterval: int)
      requires PyDict.Valid(neighbors)
      ensures Valid()
      ensures this.myAddress == myAddress && this.neighbors == neighbors
      ensures this.myNetwork == myNetwork && this.updateInterval == updateInterval
      ensures routingTable == InitialTable(myAddress, neighbors, myNetwork)
    {
      this.myAddress := myAddress;
      this.neighbors := neighbors;
      this.myNetwork := myNetwork;
      this.updateInterval := updateInterval;
      var start := Set(Empty(), myNetwork, Route(0, myAddress));
      var table := start;
      var items := Items(neighbors);
      for i := 0 to |items|
        invariant table == AddNeighbors(start, neighbors, i)
      {
        var (neighbor, cost) := items[i];
        table := Set(table, neighbor, Route(cost, neighbor));
      }
      routingTable := table;
      InitialTableEntries(myAddress, neighbors, myNetwork, myNetwork);
    }

    /**
     * `receive_update()`: a request without a sender or without a table is
     * refused, one from a router that is not a neighbour is ignored, and
     * otherwise each advertised route is relaxed into the table in the
     * order of the advertisement; `changed` is `tabela_mudou`.
     */
    method ReceiveUpdate(senderAddress: Option<string>, senderTable: Option<Dict<string, Advert>>)
      returns (status: Status, changed: bool)
      requires Valid()
      requires senderTable.Some? ==> PyDict.Valid(senderTable.value)
      modifies this
      ensures Valid()
      ensures status == BadRequest
        <==> senderAddress.None? || senderAddress.value == "" || senderTable.None?
      ensures status == Ignored
        <==> status != BadRequest && senderAddress.value !in neighbors.keys
      ensures status != Success ==> routingTable == old(routingTable) && !changed
      ensures status == Success ==>
        var sender := senderAddress.value;
        var items := Items(senderTable.value);
        && routingTable == Merge(old(routingTable), sender, neighbors.vals[sender], items)
        && changed == Changed(old(routingTable), sender, neighbors.vals[sender], items)
    {
      if senderAddress.None? || senderAddress.value == "" || senderTable.None? {
        return BadRequest, false;
      }
      var sender := senderAddress.value;
      if sender !in neighbors.keys {
        return Ignored, false;
      }
      var linkCost := neighbors.vals[sender];
      var items := Items(senderTable.value);
      changed := false;
      for i := 0 to |items|
        invariant routingTable == Merge(old(routingTable), sender, linkCost, items[..i])
        invariant changed == Changed(old(routingTable), sender, linkCost, items[..i])
      {
        MergePrefix(old(routingTable), sender, linkCost, items, i);
        var (network, advert) := items[i];
        ghost var prev := routingTable;
        var received := if advert.cost.Some? then advert.cost.value else Infinity;
        var candidate := linkCost + received;
        if candidate > Infinity {
          candidate := Infinity;
        }
        assert candidate == Candidate(linkCost, advert);
        if network !in routingTable.vals {
          assert Relax(Get(prev, network), sender, candidate) == (Route(candidate, sender), true);
          routingTable := Set(routingTable, network, Route(candidate, sender));
          changed := true;
        } else {
          var current := routingTable.vals[network];
          if candidate < current.cost {
            assert Relax(Get(prev, network), sender, candidate) == (Route(candidate, sender), true);
            routingTable := Set(routingTable, network, Route(candidate, sender));
            changed := true;
          } else if current.nextHop == sender {
            assert Relax(Get(prev, network), sender, candidate) == (Route(candidate, sender), true);
            routingTable := Set(routingTable, network, Route(candidate, current.nextHop));
            changed := true;
          } else {
            assert Relax(Get(prev, network), sender, candidate) == (current, false);
          }
        }
      }
      assert items[..|items|] == items;
      MergeValid(old(routingTable), sender, linkCost, items);
      status := Success;
    }

    /**
     * `send_updates_to_neighbors()` up to the POST: for each neighbour in
     * order, the summary of a copy of the table, poisoned for that
     * neighbour. `collapsed` is what `collapse_addresses` returns for the
     * networks of the table. The table itself is not changed.
     */
    method SendUpdates(collapsed: seq<Prefix>) returns (outbox: seq<Message>)
      requires Valid()
      requires IsCollapseOf(collapsed, Networks(routingTable).keys)
      ensures |outbox| == |neighbors.keys|
      ensures forall i :: 0 <= i < |outbox| ==>
        outbox[i] == Message(neighbors.keys[i], myAddress, Poisoned(Summarize(routingTable, collapsed), neighbors.keys[i]))
      ensures forall i :: 0 <= i < |outbox| ==> SafeToSend(outbox[i].table, collapsed, outbox[i].to)
    {
      outbox := [];
      for i := 0 to |neighbors.keys|
        invariant |outbox| == i
        invariant forall j :: 0 <= j < i ==>
          outbox[j] == Message(neighbors.keys[j], myAddress, Poisoned(Summarize(routingTable, collapsed), neighbors.keys[j]))
      {
        var neighborAddress := neighbors.keys[i];
        var copy := routingTable;
        var summary := Summarize(copy, collapsed);
        var sent := PoisonReverse(summary, neighborAddress);
        outbox := outbox + [Message(neighborAddress, myAddress, sent)];
      }
      forall i | 0 <= i < |outbox|
        ensures SafeToSend(outbox[i].table, collapsed, outbox[i].to)
      {
        forall k | k in outbox[i].table.vals
          ensures SentEntryOk(outbox[i].table, collapsed, outbox[i].to, k)
        {
          SentTable(routingTable, collapsed, outbox[i].to, k);
        }
      }
    }
  }

  /**
   * The poison-reverse loop of `send_updates_to_neighbors`: the cost of
   * every entry whose next hop is `neighbor` is set to INFINITY in place.
   */
  method PoisonReverse(table: Table, neighbor: string) returns (sent: Table)
    requires PyDict.Valid(table)
    ensures sent == Poisoned(table, neighbor)
  {
    sent := table;
    for i := 0 to |table.keys|
      invariant sent.keys == table.keys && sent.vals.Keys == table.vals.Keys
      invariant forall j :: 0 <= j < i ==>
        sent.vals[table.keys[j]] == (if table.vals[table.keys[j]].nextHop == neighbor then Route(Infinity, neighbor) else table.vals[table.keys[j]])
      invariant forall j :: i <= j < |table.keys| ==> sent.vals[table.keys[j]] == table.vals[table.keys[j]]
    {
      var destination := table.keys[i];
      var info := sent.vals[destination];
      if info.nextHop == neighbor {
        sent := Set(sent, destination, Route(Infinity, info.nextHop));
      }
    }
    forall k | k in table.vals
      ensures sent.vals[k] == if table.vals[k].nextHop == neighbor then Route(Infinity, neighbor) else table.vals[k]
    {
      var j :| 0 <= j < |table.keys| && table.keys[j] == k;
    }
    assert sent.vals == Poisoned(table, neighbor).vals;
  }

  /**
   * Entry k of a table sent to `neighbor`: its key is the text of one of the
   * aggregates (never an "ip:port" key), and a route through `neighbor` is
   * sent as unreachable.
   */
  ghost predicate SentEntryOk(sent: Table, collapsed: seq<Prefix>, neighbor: string, k: string)
    requires k in sent.vals
  {
    && ':' !in k
    && (exists i :: 0 <= i < |collapsed| && Parse(k) == Some(collapsed[i]))
    && (sent.vals[k].nextHop == neighbor ==> sent.vals[k].cost == Infinity)
  }

  /** Every entry of a table sent to `neighbor` satisfies SentEntryOk. */
  ghost predicate SafeToSend(sent: Table, collapsed: seq<Prefix>, neighbor: string)
  {
    forall k :: k in sent.vals ==> SentEntryOk(sent, collapsed, neighbor, k)
  }

  /**
   * What a neighbour receives: every key is the text of an aggregate of the
   * table's networks (never an "ip:port" key), and every route that goes
   * through that neighbour is advertised as unreachable.
   */
  lemma SentTable(t: Table, collapsed: seq<Prefix>, neighbor: string, k: string)
    requires PyDict.Valid(t) && IsCollapseOf(collapsed, Networks(t).keys)
    requires k in Poisoned(Summarize(t, collapsed), neighbor).vals
    ensures ':' !in k && exists i :: 0 <= i < |collapsed| && Parse(k) == Some(collapsed[i])
    ensures Poisoned(Summarize(t, collapsed), neighbor).vals[k].nextHop == neighbor
      ==> Poisoned(Summarize(t, collapsed), neighbor).vals[k].cost == Infinity
  {
    SummaryNoLarger(t, collapsed);
    SummaryKeysAreNetworks(t, collapsed, k);
  }
}
