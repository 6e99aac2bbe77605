/**
 * `Router.summarize_table` of lab02/roteador.py: the destinations that
 * parse as IPv4 networks are aggregated by `ipaddress.collapse_addresses`,
 * and each aggregate takes the lowest cost among the networks it holds and
 * the next hop of the first of them with that cost.
 *
 * `collapse_addresses` is library code: its result is a parameter, and
 * IsCollapseOf states what the library promises of it.
 */
module Summarization {
  import opened Wrappers
  import opened PyDict
  import opened Ipv4
  import opened Routing

  /** A destination as `ip_network` parses it (None when that raises), with its route. */
  type Entry = (Option<Prefix>, Route)

  /** The items of the table in order, each destination parsed. */
  function Parsed(t: Table): (es: seq<Entry>)
    requires Valid(t)
    ensures |es| == |t.keys|
  {
    seq(|t.keys|, i requires 0 <= i < |t.keys| => (Parse(t.keys[i]), t.vals[t.keys[i]]))
  }

  /** `redes_obj` after the entries es: each network keeps the route of its last entry. */
  function NetIndex(es: seq<Entry>): (idx: Dict<Prefix, Route>)
    ensures Valid(idx)
    decreases |es|
  {
    if es == [] then Empty()
    else
      var prev := NetIndex(es[..|es| - 1]);
      var e := es[|es| - 1];
      match e.0
      case None => prev
      case Some(p) => Set(prev, p, e.1)
  }

  /** `redes_obj`: every destination that is a network, once per network. */
  function Networks(t: Table): Dict<Prefix, Route>
    requires Valid(t)
  {
    NetIndex(Parsed(t))
  }

  /**
   * What `collapse_addresses` promises of its output, for the input
   * networks `ins`: valid networks in increasing order, pairwise disjoint,
   * together holding exactly the addresses of the inputs, and as large as
   * possible (the network one bit shorter than an output is never covered).
   */
  ghost predicate IsCollapseOf(out: seq<Prefix>, ins: seq<Prefix>)
  {
    && (forall i :: 0 <= i < |out| ==> IsNetwork(out[i]))
    && (forall i, j :: 0 <= i < j < |out| ==> out[i].addr < out[j].addr)
    && (forall i, j :: 0 <= i < j < |out| ==> Disjoint(out[i], out[j]))
    && (forall n :: n in ins ==> exists i :: 0 <= i < |out| && SubnetOf(n, out[i]))
    && (forall i :: 0 <= i < |out| ==> Covered(out[i], ins))
    && (forall i :: 0 <= i < |out| && out[i].len > 0 ==> !Covered(Supernet(out[i]), ins))
  }

  /** Every address of p is an address of one of the networks. */
  ghost predicate Covered(p: Prefix, ins: seq<Prefix>)
  {
    forall x :: Contains(p, x) ==> exists n :: n in ins && Contains(n, x)
  }

  /** `redes_contidas`: the networks of `ps` that are subnets of o, in order. */
  function Members(ps: seq<Prefix>, o: Prefix): (ms: seq<Prefix>)
    ensures |ms| <= |ps|
    ensures forall p :: p in ms <==> p in ps && SubnetOf(p, o)
    decreases |ps|
  {
    if ps == [] then []
    else
      var front := Members(ps[..|ps| - 1], o);
      var p := ps[|ps| - 1];
      assert forall q :: q in ps <==> q in ps[..|ps| - 1] || q == p by {
        assert ps == ps[..|ps| - 1] + [p];
      }
      if SubnetOf(p, o) then front + [p] else front
  }

  /** x comes before y in ps. */
  ghost predicate Before(ps: seq<Prefix>, x: Prefix, y: Prefix)
  {
    exists a, b :: 0 <= a < b < |ps| && ps[a] == x && ps[b] == y
  }

  /** `redes_contidas` keeps the order of `redes_obj`. */
  lemma {:induction false} MembersInOrder(ps: seq<Prefix>, o: Prefix)
    ensures forall i, j :: 0 <= i < j < |Members(ps, o)| ==> Before(ps, Members(ps, o)[i], Members(ps, o)[j])
    decreases |ps|
  {
    if ps != [] {
      var init := ps[..|ps| - 1];
      var front := Members(init, o);
      var ms := Members(ps, o);
      MembersInOrder(init, o);
      forall i, j | 0 <= i < j < |ms| ensures Before(ps, ms[i], ms[j]) {
        if j < |front| {
          assert ms[i] == front[i] && ms[j] == front[j];
          assert Before(init, front[i], front[j]);
          var a, b :| 0 <= a < b < |init| && init[a] == front[i] && init[b] == front[j];
          assert ps[a] == ms[i] && ps[b] == ms[j];
        } else {
          assert ms[j] == ps[|ps| - 1] && ms[i] == front[i];
          assert front[i] in init;
          var a :| 0 <= a < |init| && init[a] == front[i];
          assert ps[a] == ms[i];
        }
      }
    }
  }

  /** `min(redes_obj[net]['cost'] for net in redes_contidas)` */
  function MinCost(ms: seq<Prefix>, idx: Dict<Prefix, Route>): (c: int)
    requires |ms| > 0 && forall m :: m in ms ==> m in idx.vals
    ensures forall j :: 0 <= j < |ms| ==> c <= idx.vals[ms[j]].cost
    ensures exists j :: 0 <= j < |ms| && c == idx.vals[ms[j]].cost
    decreases |ms|
  {
    if |ms| == 1 then idx.vals[ms[0]].cost
    else
      var front := ms[..|ms| - 1];
      var c := MinCost(front, idx);
      var last := idx.vals[ms[|ms| - 1]].cost;
      assert forall j :: 0 <= j < |front| ==> front[j] == ms[j];
      if last < c then last else c
  }

  /** `min(redes_contidas, key=cost)`: Python keeps the first of equal minima. */
  function Best(ms: seq<Prefix>, idx: Dict<Prefix, Route>): (b: Prefix)
    requires |ms| > 0 && forall m :: m in ms ==> m in idx.vals
    ensures b in ms
    decreases |ms|
  {
    if |ms| == 1 then ms[0]
    else
      var front := ms[..|ms| - 1];
      var b := Best(front, idx);
      if idx.vals[ms[|ms| - 1]].cost < idx.vals[b].cost then ms[|ms| - 1] else b
  }

  /** `melhor_rede` is the first member whose cost is the minimum. */
  lemma {:induction false} BestIsFirstMinimum(ms: seq<Prefix>, idx: Dict<Prefix, Route>)
    requires |ms| > 0 && forall m :: m in ms ==> m in idx.vals
    ensures exists j :: (0 <= j < |ms| && Best(ms, idx) == ms[j]
      && idx.vals[ms[j]].cost == MinCost(ms, idx)
      && forall j' :: 0 <= j' < j ==> idx.vals[ms[j']].cost > MinCost(ms, idx))
    decreases |ms|
  {
    if |ms| == 1 {
      assert Best(ms, idx) == ms[0];
    } else {
      var front := ms[..|ms| - 1];
      BestIsFirstMinimum(front, idx);
      var j :| 0 <= j < |front| && Best(front, idx) == front[j]
        && idx.vals[front[j]].cost == MinCost(front, idx)
        && forall j' :: 0 <= j' < j ==> idx.vals[front[j']].cost > MinCost(front, idx);
      BestStep(ms, idx, j);
    }
  }

  /** One more member either becomes the first minimum or leaves it where it was. */
  lemma BestStep(ms: seq<Prefix>, idx: Dict<Prefix, Route>, j: nat)
    requires |ms| > 1 && forall m :: m in ms ==> m in idx.vals
    requires var front := ms[..|ms| - 1];
      && j < |front| && Best(front, idx) == front[j]
      && idx.vals[front[j]].cost == MinCost(front, idx)
      && forall j' :: 0 <= j' < j ==> idx.vals[front[j']].cost > MinCost(front, idx)
    ensures exists j :: (0 <= j < |ms| && Best(ms, idx) == ms[j]
      && idx.vals[ms[j]].cost == MinCost(ms, idx)
      && forall j' :: 0 <= j' < j ==> idx.vals[ms[j']].cost > MinCost(ms, idx))
  {
    var front := ms[..|ms| - 1];
    var last := |ms| - 1;
    if idx.vals[ms[last]].cost < idx.vals[Best(front, idx)].cost {
      assert MinCost(ms, idx) == idx.vals[ms[last]].cost;
      forall j' | 0 <= j' < last ensures idx.vals[ms[j']].cost > MinCost(ms, idx) {
        assert ms[j'] == front[j'];
      }
      assert Best(ms, idx) == ms[last];
    } else {
      assert MinCost(ms, idx) == MinCost(front, idx);
      assert ms[j] == front[j];
      forall j' | 0 <= j' < j ensures idx.vals[ms[j']].cost > MinCost(ms, idx) {
        assert ms[j'] == front[j'];
      }
      assert Best(ms, idx) == ms[j];
    }
  }

  /** `nova_tabela` after the first aggregates `outs`, for the index idx. */
  function Build(idx: Dict<Prefix, Route>, outs: seq<Prefix>): (t: Table)
    requires Valid(idx)
    ensures Valid(t)
    decreases |outs|
  {
    if outs == [] then Empty()
    else
      var prev := Build(idx, outs[..|outs| - 1]);
      var o := outs[|outs| - 1];
      var ms := Members(idx.keys, o);
      assert forall m :: m in ms ==> m in idx.vals;
      if ms == [] then prev
      else Set(prev, Format(o), Route(MinCost(ms, idx), idx.vals[Best(ms, idx)].nextHop))
  }

  /** `summarize_table(table)`, given the output `collapsed` of collapse_addresses. */
  function Summarize(t: Table, collapsed: seq<Prefix>): (s: Table)
    requires Valid(t)
    ensures Valid(s)
  {
    Build(Networks(t), collapsed)
  }

  // ---- redes_obj ----

  /** `redes_obj` holds exactly the networks some entry parses to, at most one per entry. */
  lemma {:induction false} NetIndexKeys(es: seq<Entry>, p: Prefix)
    ensures |NetIndex(es).keys| <= |es|
    ensures p in NetIndex(es).keys <==> exists i :: 0 <= i < |es| && es[i].0 == Some(p)
    decreases |es|
  {
    if es != [] {
      var front := es[..|es| - 1];
      NetIndexKeys(front, p);
      if exists i :: 0 <= i < |front| && front[i].0 == Some(p) {
        var i :| 0 <= i < |front| && front[i].0 == Some(p);
        assert es[i] == front[i];
      }
      if exists i :: 0 <= i < |es| && es[i].0 == Some(p) {
        var i :| 0 <= i < |es| && es[i].0 == Some(p);
        if i < |front| {
          assert front[i] == es[i];
        }
      }
    }
  }

  /** An entry for another network, or for none, leaves the route of p as it was. */
  lemma NetIndexStepOther(es: seq<Entry>, p: Prefix)
    requires es != [] && es[|es| - 1].0 != Some(p) && p in NetIndex(es).keys
    ensures p in NetIndex(es[..|es| - 1]).keys
    ensures NetIndex(es).vals[p] == NetIndex(es[..|es| - 1]).vals[p]
  {
  }

  /** An entry for p sets its route. */
  lemma NetIndexStepSame(es: seq<Entry>, p: Prefix)
    requires es != [] && es[|es| - 1].0 == Some(p)
    ensures p in NetIndex(es).keys && NetIndex(es).vals[p] == es[|es| - 1].1
  {
  }

  /**
   * The route kept for a network comes from the last entry that parses to
   * it: a later key overwrites an earlier one.
   */
  lemma {:induction false} NetIndexLastWins(es: seq<Entry>, p: Prefix)
    requires p in NetIndex(es).keys
    ensures exists i :: (0 <= i < |es| && es[i] == (Some(p), NetIndex(es).vals[p])
      && forall i' :: i < i' < |es| ==> es[i'].0 != Some(p))
    decreases |es|
  {
    var last := |es| - 1;
    if es[last].0 == Some(p) {
      NetIndexStepSame(es, p);
      assert es[last] == (Some(p), NetIndex(es).vals[p]);
    } else {
      var front := es[..last];
      NetIndexStepOther(es, p);
      NetIndexLastWins(front, p);
      var i :| 0 <= i < |front| && front[i] == (Some(p), NetIndex(front).vals[p])
        && forall i' :: i < i' < |front| ==> front[i'].0 != Some(p);
      LastWinsStep(es, p, i);
    }
  }

  /** An entry for another network after the last entry for p keeps that entry the last. */
  lemma LastWinsStep(es: seq<Entry>, p: Prefix, i: nat)
    requires es != [] && es[|es| - 1].0 != Some(p) && p in NetIndex(es).keys
    requires var front := es[..|es| - 1];
      && i < |front| && front[i] == (Some(p), NetIndex(front).vals[p])
      && forall i' :: i < i' < |front| ==> front[i'].0 != Some(p)
    ensures exists i :: (0 <= i < |es| && es[i] == (Some(p), NetIndex(es).vals[p])
      && forall i' :: i < i' < |es| ==> es[i'].0 != Some(p))
  {
    var last := |es| - 1;
    var front := es[..last];
    NetIndexStepOther(es, p);
    assert es[i] == front[i];
    forall i' | i < i' < |es| ensures es[i'].0 != Some(p) {
      if i' < last {
        assert es[i'] == front[i'];
      }
    }
  }

  /** The index depends only on which entries are networks and on the routes of those. */
  lemma {:induction false} NetIndexDependsOnNetworks(es: seq<Entry>, es': seq<Entry>)
    requires |es| == |es'|
    requires forall i :: 0 <= i < |es| ==> es[i].0 == es'[i].0
    requires forall i :: 0 <= i < |es| && es[i].0.Some? ==> es[i].1 == es'[i].1
    ensures NetIndex(es) == NetIndex(es')
    decreases |es|
  {
    if es != [] {
      var front, front' := es[..|es| - 1], es'[..|es| - 1];
      assert forall i :: 0 <= i < |front| ==> front[i] == es[i] && front'[i] == es'[i];
      NetIndexDependsOnNetworks(front, front');
    }
  }

  /** An entry that is not a network at the end of the table adds nothing. */
  lemma NetIndexSkipsNonNetwork(es: seq<Entry>, r: Route)
    ensures NetIndex(es + [(None, r)]) == NetIndex(es)
  {
    assert (es + [(None, r)])[..|es|] == es;
  }

  /**
   * Destinations that are not networks, such as the neighbours' "ip:port"
   * keys, are dropped: adding or changing one does not change the summary.
   */
  lemma SummarizeIgnoresNonNetwork(t: Table, k: string, r: Route, collapsed: seq<Prefix>)
    requires Valid(t) && Parse(k) == None
    ensures Summarize(Set(t, k, r), collapsed) == Summarize(t, collapsed)
  {
    var t' := Set(t, k, r);
    var es, es' := Parsed(t), Parsed(t');
    if k in t.keys {
      assert t'.keys == t.keys;
      forall i | 0 <= i < |es| ensures es[i].0 == es'[i].0 && (es[i].0.Some? ==> es[i].1 == es'[i].1) {
        if t.keys[i] == k {
          assert es[i].0 == None;
        }
      }
      NetIndexDependsOnNetworks(es, es');
    } else {
      assert es' == es + [(None, r)];
      NetIndexSkipsNonNetwork(es, r);
    }
  }

  // ---- the output of collapse_addresses ----

  lemma FirstAddress(p: Prefix)
    ensures Contains(p, p.addr)
  {
  }

  /** Every aggregate holds at least one input network. */
  lemma CollapseOutputHasMember(out: seq<Prefix>, ins: seq<Prefix>, i: nat)
    requires IsCollapseOf(out, ins) && i < |out|
    ensures exists n :: n in ins && SubnetOf(n, out[i])
  {
    var x := out[i].addr;
    FirstAddress(out[i]);
    assert Covered(out[i], ins);
    var n :| n in ins && Contains(n, x);
    var j :| 0 <= j < |out| && SubnetOf(n, out[j]);
  }

  /** Some network of `ins` is a subnet of o. */
  ghost predicate HoldsMember(o: Prefix, ins: set<Prefix>)
  {
    exists n :: n in ins && SubnetOf(n, o)
  }

  /** Disjoint networks that each hold some network of a set use up distinct members of it. */
  lemma {:induction false} DisjointWitnessesCount(out: seq<Prefix>, ins: set<Prefix>)
    requires forall i, j :: 0 <= i < j < |out| ==> Disjoint(out[i], out[j])
    requires forall i :: 0 <= i < |out| ==> HoldsMember(out[i], ins)
    ensures |out| <= |ins|
    decreases |out|
  {
    if |out| > 0 {
      var last := |out| - 1;
      assert HoldsMember(out[last], ins);
      var w :| w in ins && SubnetOf(w, out[last]);
      var front := out[..last];
      var rest := ins - {w};
      forall i | 0 <= i < |front| ensures HoldsMember(front[i], rest) {
        assert HoldsMember(out[i], ins);
        var v :| v in ins && SubnetOf(v, out[i]);
        FirstAddress(v);
        assert Disjoint(out[i], out[last]);
        assert v != w;
        assert front[i] == out[i];
        assert v in rest;
      }
      assert forall i, j :: 0 <= i < j < |front| ==> Disjoint(front[i], front[j]);
      DisjointWitnessesCount(front, rest);
    }
  }

  /** A sequence has at least as many elements as its set. */
  lemma {:induction false} SetOfSeqSize<T>(s: seq<T>)
    ensures |set x | x in s| <= |s|
    decreases |s|
  {
    if |s| > 0 {
      var front := s[..|s| - 1];
      SetOfSeqSize(front);
      assert (set x | x in s) == (set x | x in front) + {s[|s| - 1]};
    }
  }

  /** Aggregation never yields more networks than it is given. */
  lemma CollapseNoLarger(out: seq<Prefix>, ins: seq<Prefix>)
    requires IsCollapseOf(out, ins)
    ensures |out| <= |ins|
  {
    var s := set x | x in ins;
    forall i | 0 <= i < |out| ensures HoldsMember(out[i], s) {
      CollapseOutputHasMember(out, ins, i);
      var n :| n in ins && SubnetOf(n, out[i]);
      assert n in s;
    }
    DisjointWitnessesCount(out, s);
    SetOfSeqSize(ins);
  }

  // ---- nova_tabela ----

  /** The last aggregate adds at most its own text as a key. */
  lemma BuildStepKeys(idx: Dict<Prefix, Route>, outs: seq<Prefix>, k: string)
    requires Valid(idx) && outs != []
    ensures |Build(idx, outs).keys| <= |Build(idx, outs[..|outs| - 1]).keys| + 1
    ensures k in Build(idx, outs).keys ==> k in Build(idx, outs[..|outs| - 1]).keys || k == Format(outs[|outs| - 1])
  {
  }

  /** Only aggregates become keys, and each adds at most one. */
  lemma {:induction false} BuildKeys(idx: Dict<Prefix, Route>, outs: seq<Prefix>)
    requires Valid(idx)
    ensures |Build(idx, outs).keys| <= |outs|
    ensures forall k :: k in Build(idx, outs).keys ==> exists i :: 0 <= i < |outs| && k == Format(outs[i])
    decreases |outs|
  {
    if outs != [] {
      var front := outs[..|outs| - 1];
      BuildKeys(idx, front);
      BuildStepKeys(idx, outs, "");
      forall k | k in Build(idx, outs).keys ensures exists i :: 0 <= i < |outs| && k == Format(outs[i]) {
        BuildStepKeys(idx, outs, k);
        if k in Build(idx, front).keys {
          var i :| 0 <= i < |front| && k == Format(front[i]);
          assert k == Format(outs[i]);
        } else {
          assert k == Format(outs[|outs| - 1]);
        }
      }
    }
  }

  /** The last aggregate, when it holds some network, writes its entry. */
  lemma BuildLast(idx: Dict<Prefix, Route>, outs: seq<Prefix>)
    requires Valid(idx) && |outs| > 0
    requires Members(idx.keys, outs[|outs| - 1]) != []
    ensures var ms := Members(idx.keys, outs[|outs| - 1]);
      Get(Build(idx, outs), Format(outs[|outs| - 1])) == Some(Route(MinCost(ms, idx), idx.vals[Best(ms, idx)].nextHop))
  {
  }

  /** The last aggregate writes no other key. */
  lemma BuildOther(idx: Dict<Prefix, Route>, outs: seq<Prefix>, key: string)
    requires Valid(idx) && |outs| > 0 && key != Format(outs[|outs| - 1])
    ensures Get(Build(idx, outs), key) == Get(Build(idx, outs[..|outs| - 1]), key)
  {
  }

  /** The entry written for aggregate outs[i] is the final one for its key. */
  lemma {:induction false} BuildAt(idx: Dict<Prefix, Route>, outs: seq<Prefix>, i: nat)
    requires Valid(idx) && i < |outs|
    requires forall b :: i < b < |outs| ==> Format(outs[i]) != Format(outs[b])
    requires Members(idx.keys, outs[i]) != []
    ensures var ms := Members(idx.keys, outs[i]);
      Get(Build(idx, outs), Format(outs[i])) == Some(Route(MinCost(ms, idx), idx.vals[Best(ms, idx)].nextHop))
    decreases |outs|
  {
    if i == |outs| - 1 {
      BuildLast(idx, outs);
    } else {
      var front := outs[..|outs| - 1];
      assert outs[i] == front[i];
      forall b | i < b < |front| ensures Format(front[i]) != Format(front[b]) {
        assert front[b] == outs[b];
      }
      BuildAt(idx, front, i);
      BuildOther(idx, outs, Format(outs[i]));
    }
  }

  /** Distinct valid networks in increasing order have distinct texts. */
  lemma CollapseFormatsDistinct(out: seq<Prefix>, ins: seq<Prefix>)
    requires IsCollapseOf(out, ins)
    ensures forall a, b :: 0 <= a < b < |out| ==> Format(out[a]) != Format(out[b])
  {
    forall a, b | 0 <= a < b < |out| ensures Format(out[a]) != Format(out[b]) {
      if Format(out[a]) == Format(out[b]) {
        FormatInjective(out[a], out[b]);
      }
    }
  }

  /**
   * Every key of the summary is the text of a network, so it parses back
   * to that network; in particular no "ip:port" key is ever advertised.
   * The summary has no more entries than the table has networks.
   */
  lemma SummaryKeysAreNetworks(t: Table, collapsed: seq<Prefix>, k: string)
    requires Valid(t) && IsCollapseOf(collapsed, Networks(t).keys)
    requires k in Summarize(t, collapsed).keys
    ensures exists i :: 0 <= i < |collapsed| && Parse(k) == Some(collapsed[i])
    ensures ':' !in k
  {
    BuildKeys(Networks(t), collapsed);
    var i :| 0 <= i < |collapsed| && k == Format(collapsed[i]);
    ParseFormat(collapsed[i]);
    if ':' in k {
      ParseRejectsColon(k);
    }
  }

  /** The summary never has more entries than the table has valid networks. */
  lemma SummaryNoLarger(t: Table, collapsed: seq<Prefix>)
    requires Valid(t) && IsCollapseOf(collapsed, Networks(t).keys)
    ensures Valid(Summarize(t, collapsed))
    ensures |Summarize(t, collapsed).keys| <= |Networks(t).keys| <= |t.keys|
  {
    BuildKeys(Networks(t), collapsed);
    CollapseNoLarger(collapsed, Networks(t).keys);
    NetIndexKeys(Parsed(t), Prefix(0, 0));
  }

  /** A destination that parses to p puts p in the index. */
  lemma NetworkIndexed(t: Table, k: string, p: Prefix)
    requires Valid(t) && k in t.keys && Parse(k) == Some(p)
    ensures p in Networks(t).keys
  {
    var es := Parsed(t);
    var n :| 0 <= n < |t.keys| && t.keys[n] == k;
    assert es[n].0 == Some(p);
    NetIndexKeys(es, p);
  }

  /** Every indexed network lies in an aggregate whose entry is written. */
  lemma AggregateWritten(idx: Dict<Prefix, Route>, collapsed: seq<Prefix>, p: Prefix)
    requires Valid(idx) && IsCollapseOf(collapsed, idx.keys) && p in idx.keys
    ensures exists i :: (0 <= i < |collapsed| && SubnetOf(p, collapsed[i])
      && Format(collapsed[i]) in Build(idx, collapsed).keys)
  {
    var i :| 0 <= i < |collapsed| && SubnetOf(p, collapsed[i]);
    assert p in Members(idx.keys, collapsed[i]);
    CollapseFormatsDistinct(collapsed, idx.keys);
    BuildAt(idx, collapsed, i);
    BuildKeys(idx, collapsed);
    assert Format(collapsed[i]) in Build(idx, collapsed).vals;
  }

  /** Every network of the table lies inside an aggregate that the summary advertises. */
  lemma SummaryCoversNetworks(t: Table, collapsed: seq<Prefix>, k: string, p: Prefix)
    requires Valid(t) && IsCollapseOf(collapsed, Networks(t).keys)
    requires k in t.keys && Parse(k) == Some(p)
    ensures exists i :: (0 <= i < |collapsed| && SubnetOf(p, collapsed[i])
      && Format(collapsed[i]) in Summarize(t, collapsed).keys)
  {
    NetworkIndexed(t, k, p);
    AggregateWritten(Networks(t), collapsed, p);
  }

  /** The route built from the members is their lowest cost with the first such member's next hop. */
  lemma MembersEntry(ms: seq<Prefix>, idx: Dict<Prefix, Route>, e: Route)
    requires |ms| > 0 && forall m :: m in ms ==> m in idx.vals
    requires e == Route(MinCost(ms, idx), idx.vals[Best(ms, idx)].nextHop)
    ensures forall j :: 0 <= j < |ms| ==> e.cost <= idx.vals[ms[j]].cost
    ensures exists j :: (0 <= j < |ms| && idx.vals[ms[j]] == Route(e.cost, e.nextHop)
      && forall j' :: 0 <= j' < j ==> idx.vals[ms[j']].cost > e.cost)
  {
    BestIsFirstMinimum(ms, idx);
    var j :| 0 <= j < |ms| && Best(ms, idx) == ms[j]
      && idx.vals[ms[j]].cost == MinCost(ms, idx)
      && forall j' :: 0 <= j' < j ==> idx.vals[ms[j']].cost > MinCost(ms, idx);
    assert idx.vals[ms[j]] == Route(e.cost, e.nextHop);
  }

  /** The aggregate collapsed[i] holds some indexed network, and its entry is written. */
  lemma AggregateHasEntry(idx: Dict<Prefix, Route>, collapsed: seq<Prefix>, i: nat)
    requires Valid(idx) && IsCollapseOf(collapsed, idx.keys) && i < |collapsed|
    ensures var ms := Members(idx.keys, collapsed[i]);
      && ms != []
      && (forall m :: m in ms ==> m in idx.vals)
      && Get(Build(idx, collapsed), Format(collapsed[i])) == Some(Route(MinCost(ms, idx), idx.vals[Best(ms, idx)].nextHop))
  {
    CollapseOutputHasMember(collapsed, idx.keys, i);
    var n :| n in idx.keys && SubnetOf(n, collapsed[i]);
    var ms := Members(idx.keys, collapsed[i]);
    assert n in ms;
    CollapseFormatsDistinct(collapsed, idx.keys);
    BuildAt(idx, collapsed, i);
  }

  /**
   * The entry of aggregate collapsed[i] in `summary`, for the index idx:
   * the aggregate holds some network, its text is a key, the cost is the
   * lowest cost among the networks inside it, and the next hop is that of
   * the first of them (in index order) with that cost.
   */
  ghost predicate IsAggregateEntry(idx: Dict<Prefix, Route>, collapsed: seq<Prefix>, i: nat, summary: Table)
    requires i < |collapsed|
  {
    var ms := Members(idx.keys, collapsed[i]);
    && ms != []
    && Format(collapsed[i]) in summary.vals
    && var e := summary.vals[Format(collapsed[i])];
    && (forall m :: m in ms ==> m in idx.vals)
    && (forall j :: 0 <= j < |ms| ==> e.cost <= idx.vals[ms[j]].cost)
    && (exists j :: (0 <= j < |ms| && idx.vals[ms[j]] == Route(e.cost, e.nextHop)
          && forall j' :: 0 <= j' < j ==> idx.vals[ms[j']].cost > e.cost))
  }

  /** The entry written for aggregate collapsed[i], in terms of the index. */
  lemma AggregateEntry(idx: Dict<Prefix, Route>, collapsed: seq<Prefix>, i: nat)
    requires Valid(idx) && IsCollapseOf(collapsed, idx.keys) && i < |collapsed|
    ensures IsAggregateEntry(idx, collapsed, i, Build(idx, collapsed))
  {
    AggregateHasEntry(idx, collapsed, i);
    var ms := Members(idx.keys, collapsed[i]);
    var e := Build(idx, collapsed).vals[Format(collapsed[i])];
    MembersEntry(ms, idx, e);
  }

  /**
   * The entry of aggregate collapsed[i]: its cost is the lowest cost among
   * the table's networks inside it, and its next hop is that of the first
   * of them in `redes_obj` order (the order of `Networks(t).keys`) with
   * that cost.
   */
  lemma SummaryEntry(t: Table, collapsed: seq<Prefix>, i: nat)
    requires Valid(t) && IsCollapseOf(collapsed, Networks(t).keys) && i < |collapsed|
    ensures IsAggregateEntry(Networks(t), collapsed, i, Summarize(t, collapsed))
  {
    AggregateEntry(Networks(t), collapsed, i);
  }
}
