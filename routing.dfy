/**
 * The routing-table rules of lab02/roteador.py as functions on values: the
 * initial table built by `Router.__init__`, the relaxation applied by
 * `receive_update` to each network a neighbour advertises, and the poisoned
 * reverse view sent to one neighbour. The `Router` class in module
 * Roteador runs these rules step by step and is proved to compute them.
 */
module Routing {
  import opened Wrappers
  import opened PyDict

  /** `INFINITY`: the metric that means "unreachable". */
  const Infinity: int := 16

  /** A routing-table entry `{'cost': ..., 'next_hop': ...}`. */
  datatype Route = Route(cost: int, nextHop: string)

  /** `routing_table`: destination (a network or a router address) to route. */
  type Table = Dict<string, Route>

  /** An entry of a received table; only its optional "cost" field is read. */
  datatype Advert = Advert(cost: Option<int>)

  /** `info.get("cost", INFINITY)` */
  function AdvertisedCost(a: Advert): int
  {
    match a.cost
    case Some(c) => c
    case None => Infinity
  }

  /** `novo_custo`: the link cost plus the advertised cost, capped at INFINITY. */
  function Candidate(linkCost: int, a: Advert): (c: int)
    ensures c <= Infinity && c <= linkCost + AdvertisedCost(a)
    ensures c == Infinity || c == linkCost + AdvertisedCost(a)
  {
    var c := linkCost + AdvertisedCost(a);
    if c > Infinity then Infinity else c
  }

  /** Over a link of non-negative cost, an entry without a cost is unreachable. */
  lemma MissingCostIsUnreachable(linkCost: int)
    requires linkCost >= 0
    ensures Candidate(linkCost, Advert(None)) == Infinity
  {
  }

  /**
   * Steps 5a-5c for one advertised network: the entry the table holds
   * afterwards, and whether `tabela_mudou` is set. A missing network is
   * added; a strictly better candidate replaces cost and next hop; a route
   * through the sender takes the candidate cost whatever it is; any other
   * route is kept.
   */
  function Relax(current: Option<Route>, sender: string, candidate: int): (r: (Route, bool))
    ensures current.None? ==> r == (Route(candidate, sender), true)
    ensures current.Some? && candidate < current.value.cost ==> r == (Route(candidate, sender), true)
    ensures current.Some? && current.value.nextHop == sender ==> r == (Route(candidate, sender), true)
    ensures current.Some? && current.value.nextHop != sender && current.value.cost <= candidate
      ==> r == (current.value, false)
  {
    match current
    case None => (Route(candidate, sender), true)
    case Some(route) =>
      if candidate < route.cost then (Route(candidate, sender), true)
      else if route.nextHop == sender then (Route(candidate, route.nextHop), true)
      else (route, false)
  }

  /**
   * The table after the loop of `receive_update` has processed `items`
   * (the advertised table's items, in order) from `sender` over a link of
   * cost `linkCost`.
   */
  function Merge(t: Table, sender: string, linkCost: int, items: seq<(string, Advert)>): (r: Table)
    ensures t.vals.Keys <= r.vals.Keys
    decreases |items|
  {
    if items == [] then t
    else
      var prev := Merge(t, sender, linkCost, items[..|items| - 1]);
      var (network, advert) := items[|items| - 1];
      var (route, written) := Relax(Get(prev, network), sender, Candidate(linkCost, advert));
      if written then Set(prev, network, route) else prev
  }

  /** `tabela_mudou` after the loop has processed `items`. */
  function Changed(t: Table, sender: string, linkCost: int, items: seq<(string, Advert)>): bool
    decreases |items|
  {
    if items == [] then false
    else
      var prev := Merge(t, sender, linkCost, items[..|items| - 1]);
      var (network, advert) := items[|items| - 1];
      Changed(t, sender, linkCost, items[..|items| - 1])
        || Relax(Get(prev, network), sender, Candidate(linkCost, advert)).1
  }

  /** One more item is one more relaxation step, of the table and of the flag. */
  lemma MergePrefix(t: Table, sender: string, linkCost: int, items: seq<(string, Advert)>, i: nat)
    requires i < |items|
    ensures var prev := Merge(t, sender, linkCost, items[..i]);
      var step := Relax(Get(prev, items[i].0), sender, Candidate(linkCost, items[i].1));
      && Merge(t, sender, linkCost, items[..i + 1]) == (if step.1 then Set(prev, items[i].0, step.0) else prev)
      && Changed(t, sender, linkCost, items[..i + 1]) == (Changed(t, sender, linkCost, items[..i]) || step.1)
  {
    assert items[..i + 1][..i] == items[..i];
  }

  /** The networks of an advertisement are distinct (they are the keys of a dict). */
  ghost predicate DistinctNetworks(items: seq<(string, Advert)>)
  {
    forall i, j :: 0 <= i < j < |items| ==> items[i].0 != items[j].0
  }

  /** The items of a received dict satisfy DistinctNetworks. */
  lemma ItemsDistinct(d: Dict<string, Advert>)
    requires Valid(d)
    ensures DistinctNetworks(Items(d))
  {
  }

  /** The loop keeps the table a well-formed dict. */
  lemma {:induction false} MergeValid(t: Table, sender: string, linkCost: int, items: seq<(string, Advert)>)
    requires Valid(t)
    ensures Valid(Merge(t, sender, linkCost, items))
    decreases |items|
  {
    if items != [] {
      MergeValid(t, sender, linkCost, items[..|items| - 1]);
    }
  }

  /** Some item of the advertisement is about destination k. */
  ghost predicate Mentions(items: seq<(string, Advert)>, k: string)
  {
    exists j :: 0 <= j < |items| && items[j].0 == k
  }

  /**
   * Known destinations keep their place in the table; the destinations
   * afterwards are the known ones plus the advertised ones.
   */
  lemma {:induction false} MergeKeys(t: Table, sender: string, linkCost: int, items: seq<(string, Advert)>)
    requires Valid(t)
    ensures t.keys <= Merge(t, sender, linkCost, items).keys
    ensures forall k :: (k in Merge(t, sender, linkCost, items).keys) <==> (k in t.keys || Mentions(items, k))
    decreases |items|
  {
    if items != [] {
      var front := items[..|items| - 1];
      MergeKeys(t, sender, linkCost, front);
      MergeValid(t, sender, linkCost, front);
      forall k
        ensures Mentions(items, k) <==> Mentions(front, k) || items[|items| - 1].0 == k
      {
        if Mentions(items, k) {
          var j :| 0 <= j < |items| && items[j].0 == k;
          if j < |front| {
            assert front[j].0 == k;
          }
        }
        if Mentions(front, k) {
          var j :| 0 <= j < |front| && front[j].0 == k;
          assert items[j].0 == k;
        }
        if items[|items| - 1].0 == k {
          assert Mentions(items, k);
        }
      }
    }
  }

  /** A destination the advertisement does not mention is left alone. */
  lemma {:induction false} MergeUnmentioned(t: Table, sender: string, linkCost: int, items: seq<(string, Advert)>, n: string)
    requires forall j :: 0 <= j < |items| ==> items[j].0 != n
    ensures Get(Merge(t, sender, linkCost, items), n) == Get(t, n)
    decreases |items|
  {
    if items != [] {
      MergeUnmentioned(t, sender, linkCost, items[..|items| - 1], n);
    }
  }

  /**
   * The entry for an advertised network after the whole loop, whatever
   * the other networks of the advertisement.
   */
  lemma {:induction false} MergeMentioned(t: Table, sender: string, linkCost: int, items: seq<(string, Advert)>, j: nat)
    requires DistinctNetworks(items) && j < |items|
    ensures Get(Merge(t, sender, linkCost, items), items[j].0)
      == Some(Relax(Get(t, items[j].0), sender, Candidate(linkCost, items[j].1)).0)
    decreases |items|
  {
    var front := items[..|items| - 1];
    var n := items[j].0;
    if j == |items| - 1 {
      MergeUnmentioned(t, sender, linkCost, front, n);
    } else {
      MergeMentioned(t, sender, linkCost, front, j);
      assert front[j] == items[j];
    }
  }

  /**
   * The per-destination rule of `receive_update`, for a network the sender
   * advertises with candidate cost c:
   * unknown, or strictly better: (c, sender); known through the sender:
   * cost c even if higher; known through another hop at cost <= c: kept.
   */
  lemma RelaxationRule(t: Table, sender: string, linkCost: int, items: seq<(string, Advert)>, j: nat)
    requires DistinctNetworks(items) && j < |items|
    ensures var c := Candidate(linkCost, items[j].1);
      var before := Get(t, items[j].0);
      var after := Get(Merge(t, sender, linkCost, items), items[j].0);
      && (before.None? ==> after == Some(Route(c, sender)))
      && (before.Some? && c < before.value.cost ==> after == Some(Route(c, sender)))
      && (before.Some? && before.value.nextHop == sender ==> after == Some(Route(c, sender)))
      && (before.Some? && before.value.nextHop != sender && before.value.cost <= c ==> after == before)
  {
    MergeMentioned(t, sender, linkCost, items, j);
  }

  /**
   * Bellman-Ford's bound: afterwards every advertised network costs at
   * most the candidate through the sender, and exactly that when the
   * sender is its next hop.
   */
  lemma MergeRelaxes(t: Table, sender: string, linkCost: int, items: seq<(string, Advert)>, j: nat)
    requires DistinctNetworks(items) && j < |items|
    ensures var after := Get(Merge(t, sender, linkCost, items), items[j].0);
      && after.Some?
      && after.value.cost <= Candidate(linkCost, items[j].1)
      && (after.value.nextHop == sender ==> after.value.cost == Candidate(linkCost, items[j].1))
  {
    MergeMentioned(t, sender, linkCost, items, j);
  }

  /** Every entry the update writes has a cost of at most INFINITY. */
  lemma MergeBounded(t: Table, sender: string, linkCost: int, items: seq<(string, Advert)>, n: string)
    requires DistinctNetworks(items)
    requires Get(Merge(t, sender, linkCost, items), n) != Get(t, n)
    ensures Get(Merge(t, sender, linkCost, items), n).Some?
    ensures Get(Merge(t, sender, linkCost, items), n).value.cost <= Infinity
    ensures Get(Merge(t, sender, linkCost, items), n).value.nextHop == sender
  {
    if Mentions(items, n) {
      var j :| 0 <= j < |items| && items[j].0 == n;
      MergeMentioned(t, sender, linkCost, items, j);
    } else {
      MergeUnmentioned(t, sender, linkCost, items, n);
    }
  }

  /** When `tabela_mudou` stays false the table is exactly as before. */
  lemma {:induction false} UnchangedFlagMeansSameTable(t: Table, sender: string, linkCost: int, items: seq<(string, Advert)>)
    requires !Changed(t, sender, linkCost, items)
    ensures Merge(t, sender, linkCost, items) == t
    decreases |items|
  {
    if items != [] {
      UnchangedFlagMeansSameTable(t, sender, linkCost, items[..|items| - 1]);
    }
  }

  /** The loop body writes `item` when it meets it in table t. */
  predicate Writes(t: Table, sender: string, linkCost: int, item: (string, Advert))
  {
    Relax(Get(t, item.0), sender, Candidate(linkCost, item.1)).1
  }

  /**
   * `tabela_mudou` ends true exactly when some advertised destination is
   * new, strictly improved, or already routed through the sender, judged
   * against the table as it was before the update.
   */
  lemma {:induction false} ChangedIff(t: Table, sender: string, linkCost: int, items: seq<(string, Advert)>)
    requires DistinctNetworks(items)
    ensures Changed(t, sender, linkCost, items)
      <==> exists j :: 0 <= j < |items| && Writes(t, sender, linkCost, items[j])
    decreases |items|
  {
    if items != [] {
      var front := items[..|items| - 1];
      var last := items[|items| - 1];
      assert DistinctNetworks(front) by {
        forall i, j | 0 <= i < j < |front| ensures front[i].0 != front[j].0 {
          assert front[i] == items[i] && front[j] == items[j];
        }
      }
      ChangedIff(t, sender, linkCost, front);
      forall j | 0 <= j < |front| ensures front[j].0 != last.0 {
        assert front[j] == items[j];
      }
      MergeUnmentioned(t, sender, linkCost, front, last.0);
      assert Writes(Merge(t, sender, linkCost, front), sender, linkCost, last) == Writes(t, sender, linkCost, last);
      if exists j :: 0 <= j < |items| && Writes(t, sender, linkCost, items[j]) {
        var j :| 0 <= j < |items| && Writes(t, sender, linkCost, items[j]);
        if j < |front| {
          assert front[j] == items[j];
        }
      }
      if exists j :: 0 <= j < |front| && Writes(t, sender, linkCost, front[j]) {
        var j :| 0 <= j < |front| && Writes(t, sender, linkCost, front[j]);
        assert front[j] == items[j];
      }
    }
  }

  /** In particular, a route already through the sender always sets the flag. */
  lemma FlagSetThroughSender(t: Table, sender: string, linkCost: int, items: seq<(string, Advert)>, j: nat)
    requires DistinctNetworks(items) && j < |items|
    requires items[j].0 in t.vals && t.vals[items[j].0].nextHop == sender
    ensures Changed(t, sender, linkCost, items)
  {
    ChangedIff(t, sender, linkCost, items);
    assert Writes(t, sender, linkCost, items[j]);
  }

  /**
   * The flag is set even when nothing changes: a route through the sender
   * re-advertised at the cost it already has.
   */
  lemma FlagWithoutChange(network: string, sender: string)
    ensures var t := Set(Empty(), network, Route(5, sender));
      var items := [(network, Advert(Some(4)))];
      Changed(t, sender, 1, items) && Merge(t, sender, 1, items) == t
  {
    var t := Set(Empty(), network, Route(5, sender));
    var items := [(network, Advert(Some(4)))];
    assert items[..0] == [];
    assert t.vals[network := Route(5, sender)] == t.vals;
  }

  // ---- bootstrap ----

  /** The loop of `__init__` over the first n neighbours, writing into t. */
  function AddNeighbors(t: Table, neighbors: Dict<string, int>, n: nat): (r: Table)
    requires Valid(neighbors) && n <= |neighbors.keys|
    ensures t.vals.Keys <= r.vals.Keys
    ensures forall j :: 0 <= j < n ==> neighbors.keys[j] in r.vals
  {
    if n == 0 then t
    else
      var k := neighbors.keys[n - 1];
      Set(AddNeighbors(t, neighbors, n - 1), k, Route(neighbors.vals[k], k))
  }

  /** The table `__init__` builds: the own network, then one entry per neighbour. */
  function InitialTable(myAddress: string, neighbors: Dict<string, int>, myNetwork: string): Table
    requires Valid(neighbors)
  {
    AddNeighbors(Set(Empty(), myNetwork, Route(0, myAddress)), neighbors, |neighbors.keys|)
  }

  lemma {:induction false} AddNeighborsEntries(t: Table, neighbors: Dict<string, int>, n: nat, k: string)
    requires Valid(neighbors) && n <= |neighbors.keys| && Valid(t)
    ensures Valid(AddNeighbors(t, neighbors, n))
    ensures t.keys <= AddNeighbors(t, neighbors, n).keys
    ensures Get(AddNeighbors(t, neighbors, n), k)
      == if k in neighbors.keys[..n] then Some(Route(neighbors.vals[k], k)) else Get(t, k)
    decreases n
  {
    if n > 0 {
      AddNeighborsEntries(t, neighbors, n - 1, k);
      assert neighbors.keys[..n] == neighbors.keys[..n - 1] + [neighbors.keys[n - 1]];
    }
  }

  /**
   * `__init__`: the own network maps to (0, my_address) unless a neighbour
   * has the same key, each neighbour maps to (its link cost, itself),
   * nothing else is in the table, and the own network comes first.
   */
  lemma InitialTableEntries(myAddress: string, neighbors: Dict<string, int>, myNetwork: string, k: string)
    requires Valid(neighbors)
    ensures Valid(InitialTable(myAddress, neighbors, myNetwork))
    ensures InitialTable(myAddress, neighbors, myNetwork).keys[0] == myNetwork
    ensures k in neighbors.keys ==> Get(InitialTable(myAddress, neighbors, myNetwork), k) == Some(Route(neighbors.vals[k], k))
    ensures k !in neighbors.keys && k == myNetwork ==> Get(InitialTable(myAddress, neighbors, myNetwork), k) == Some(Route(0, myAddress))
    ensures k !in neighbors.keys && k != myNetwork ==> Get(InitialTable(myAddress, neighbors, myNetwork), k) == None
  {
    var start := Set(Empty(), myNetwork, Route(0, myAddress));
    AddNeighborsEntries(start, neighbors, |neighbors.keys|, k);
    assert neighbors.keys[..|neighbors.keys|] == neighbors.keys;
  }

  // ---- poison reverse ----

  /**
   * The view of a table sent to `neighbor`: every route whose next hop is
   * that neighbour is advertised at INFINITY.
   */
  function Poisoned(t: Table, neighbor: string): (r: Table)
    ensures r.keys == t.keys && r.vals.Keys == t.vals.Keys
    ensures forall k :: k in r.vals ==> r.vals[k].nextHop == t.vals[k].nextHop
    ensures forall k :: k in r.vals && r.vals[k].nextHop == neighbor ==> r.vals[k].cost == Infinity
    ensures forall k :: k in r.vals && r.vals[k].nextHop != neighbor ==> r.vals[k] == t.vals[k]
  {
    Dict(t.keys, map k | k in t.vals :: if t.vals[k].nextHop == neighbor then Route(Infinity, neighbor) else t.vals[k])
  }

  /** Poisoning again changes nothing. */
  lemma PoisonedIdempotent(t: Table, neighbor: string)
    ensures Poisoned(Poisoned(t, neighbor), neighbor) == Poisoned(t, neighbor)
  {
  }

  /** The advertisement a receiver reads out of a sent table: the cost of each entry. */
  function AsAdvert(t: Table): Dict<string, Advert>
  {
    Dict(t.keys, map k | k in t.vals :: Advert(Some(t.vals[k].cost)))
  }

  /**
   * Split horizon with poisoned reverse: when the neighbour merges the view
   * sent to it over a link of non-negative cost, a route it had taught the
   * sender comes back as unreachable, so routing loops through the two are
   * not kept alive.
   */
  lemma PoisonedRouteIsUnreachable(t: Table, neighbor: string, linkCost: int, k: string)
    requires linkCost >= 0 && k in t.vals && t.vals[k].nextHop == neighbor
    ensures Candidate(linkCost, AsAdvert(Poisoned(t, neighbor)).vals[k]) == Infinity
  {
  }
}
