# Distance-vector router and manual CRC, modelled in Dafny

This project models two laboratory programs.

**lab02/roteador.py** is a distance-vector router. Its routing table is a
Python dict mapping a destination to `{cost, next_hop}`. The model covers:

- the bootstrap in `Router.__init__`: the router's own network at cost 0,
  then one entry per direct neighbour at the link cost;
- the Bellman-Ford merge done by the `/receive_update` endpoint, with its
  request checks, its neighbour check and its three relaxation rules;
- `send_updates_to_neighbors` up to the POST: copy the table, summarize it,
  then apply poisoned reverse for each neighbour;
- `summarize_table`: parse the destinations that are IPv4 networks,
  aggregate them, and give each aggregate the lowest cost among its members
  and the next hop of the first member with that cost.

**lab01/deteccao_de_erro** computes CRCs. The model covers:

- the bit-string long division of `calcular_crc_manual`, done in place on a
  character list, in both its `codigo.py` and `benchmark_crc.py` variants;
- the two `xor_bits` helpers;
- the byte-wise CRC-16/MODBUS `crc16_modbus_py`: reflected polynomial
  0xA001, initial value 0xFFFF, no final XOR, as in section 6.2.2 of the
  MODBUS over Serial Line Specification V1.02.

## Modules

| file | module | what it holds |
|---|---|---|
| wrappers.dfy | Wrappers | `Option` |
| py_dict.dfy | PyDict | a Python dict: keys in insertion order plus a map |
| ipv4.dfy | Ipv4 | the part of Python's `ipaddress` that the summary uses, for IPv4 |
| routing.dfy | Routing | routes, relaxation, the merge loop as a fold, bootstrap, poisoned reverse, all as values |
| summarization.dfy | Summarization | `summarize_table` as a function, with its properties |
| roteador.dfy | Roteador | class `Router` with its methods, and `PoisonReverse` |
| crc_spec.dfy | CrcSpec | the division as a step function on strings, plus its algebra |
| crc_codigo.dfy | Codigo | the in-place loops of codigo.py |
| crc_benchmark.dfy | BenchmarkCrc | the functions of benchmark_crc.py |
| modbus.dfy | Modbus | CRC-16/MODBUS on `bv32` registers |

## How the model is built

- **Imperative code becomes methods.** The router's methods and the CRC
  loops are methods with loops. Each one is proved equal to a function of
  its inputs (`Merge`, `InitialTable`, `Poisoned`, `Divide`, `Crc16`), and
  the lemmas state what those functions promise.
- **Dict order is modelled.** Python dicts iterate in insertion order.
  Assigning to an existing key keeps its place. The summary's tie-break
  depends on this order, so `PyDict.Dict` keeps the key sequence.
- **`collapse_addresses` is a parameter.** It is library code, so
  `collapsed` is passed in. `Summarization.IsCollapseOf` states what the
  library promises of its output:
  - valid networks, in increasing address order, pairwise disjoint;
  - every input lies inside some output, and every output is covered by
    the inputs;
  - maximality: the network one bit shorter than an output is not covered.
- **`ip_network(s, strict=False)` is `Ipv4.Parse`.** It accepts a dotted
  quad with an optional `/len`:
  - an octet has 1 to 3 ASCII digits, no leading zero, and a value of at
    most 255;
  - a prefix length is ASCII digits, with leading zeros allowed, and at
    most 32;
  - host bits are cleared;
  - any other string gives `None`, which stands for the `ValueError` that
    `summarize_table` catches.

## Model

| member | source | states |
|---|---|---|
| PyDict.Set | lab02/roteador.py:270-276 | assigning `d[k] = v` keeps a well-formed dict valid |
| PyDict.GetSet | lab02/roteador.py:284-292 | after `d[k] = v`, a lookup of k gives v; a lookup of any other key is unchanged |
| Routing.Candidate | lab02/roteador.py:260-267 | the new cost is link + advertised cost, capped at INFINITY = 16; a missing cost counts as 16 |
| Routing.AdvertisedCost | lab02/roteador.py:260 | `info.get("cost", INFINITY)`: the advertised cost, or 16 when the entry has none; Candidate and MissingCostIsUnreachable state its use |
| Routing.MissingCostIsUnreachable | lab02/roteador.py:260 | over a non-negative link, an entry with no cost is unreachable |
| Routing.Relax | lab02/roteador.py:270-293 | the four cases for one destination: unknown → (c, sender); strictly better → (c, sender); known through the sender → (c, sender); otherwise kept |
| Routing.Merge | lab02/roteador.py:255-293 | the table after the update loop: one `Relax` per advertised item, in order; no destination is ever removed. Its per-destination outcome is stated by MergeMentioned, MergeUnmentioned and RelaxationRule |
| Routing.Changed | lab02/roteador.py:255-293 | `tabela_mudou` after the loop; when it is set is stated by ChangedIff, and what a false flag means by UnchangedFlagMeansSameTable |
| Routing.MergePrefix | lab02/roteador.py:258-293 | one more advertised item is one more relaxation of the table and of `tabela_mudou` |
| Routing.ItemsDistinct | lab02/roteador.py:258 | the destinations of a received dict are distinct |
| Routing.MergeValid | lab02/roteador.py:258-293 | the update loop keeps the table a well-formed dict |
| Routing.MergeKeys | lab02/roteador.py:270-276 | after the loop, the keys are exactly the old keys plus the advertised destinations; no key is lost |
| Routing.MergeUnmentioned | lab02/roteador.py:258-293 | a destination the sender does not advertise is left alone |
| Routing.MergeMentioned | lab02/roteador.py:258-293 | an advertised destination ends as its relaxation against its entry before the update |
| Routing.RelaxationRule | lab02/roteador.py:270-293 | the three rules (a), (b), (c) of the update hold per destination after the whole loop |
| Routing.MergeRelaxes | lab02/roteador.py:283-292 | afterwards each advertised destination costs at most the candidate through the sender, and exactly that when the sender is its next hop |
| Routing.MergeBounded | lab02/roteador.py:266-292 | every entry the update changes goes through the sender and costs at most 16 |
| Routing.UnchangedFlagMeansSameTable | lab02/roteador.py:255-293 | if `tabela_mudou` stays false, the table is unchanged |
| Routing.ChangedIff | lab02/roteador.py:255-293 | `tabela_mudou` is true exactly when some advertised destination is unknown, strictly improved, or routed through the sender in the table before the update |
| Routing.FlagSetThroughSender | lab02/roteador.py:290-293 | a known route through the sender always sets `tabela_mudou`, whatever the advertised cost |
| Routing.FlagWithoutChange | lab02/roteador.py:291-293 | the converse fails: rule (c) sets the flag even when the same cost is re-advertised |
| Routing.AddNeighbors | lab02/roteador.py:66-71 | the neighbour loop of `__init__` over the first n neighbours: keys already present stay, and each of those neighbours gets an entry (AddNeighborsEntries gives the values) |
| Routing.InitialTable | lab02/roteador.py:58-71 | the table `__init__` builds; its entries are stated by InitialTableEntries |
| Routing.AddNeighborsEntries | lab02/roteador.py:67-71 | the neighbour loop maps each neighbour to (link cost, itself) and leaves other keys alone |
| Routing.InitialTableEntries | lab02/roteador.py:58-71 | the initial table: own network first at (0, my_address) unless a neighbour has the same key, each neighbour at (cost, itself), nothing else |
| Routing.Poisoned | lab02/roteador.py:118-121 | the view sent to one neighbour: same keys in the same order and the same next hops; a route through that neighbour costs 16; every other route is unchanged |
| Routing.PoisonedIdempotent | lab02/roteador.py:119-121 | poisoning a table twice for the same neighbour is the same as once |
| Routing.PoisonedRouteIsUnreachable | lab02/roteador.py:119-121 | over a non-negative link, the neighbour reads every route it taught the sender as unreachable (16) |
| Ipv4.Mask | lab02/roteador.py:147 | strict=False clears the host bits: the result is aligned, at most the address, and less than one network size below it |
| Ipv4.SubnetOf | lab02/roteador.py:161 | `net.subnet_of(sum_net)`: every address of the first network lies in the second; Members states its use |
| Ipv4.Decimal | lab02/roteador.py:176 | the decimal text of n: digits only, value n, no leading zero |
| Ipv4.Format | lab02/roteador.py:176 | `str(network)`, "a.b.c.d/len"; ParseFormat proves that it parses back and FormatInjective that it is one-to-one |
| Ipv4.Split | lab02/roteador.py:147 | `str.split(sep)`, always at least one piece; its behaviour is stated by SplitNoSeparator, SplitFirst, SplitQuad and SplitKeepsChar |
| Ipv4.SplitNoSeparator | lab02/roteador.py:147 | `str.split(sep)` of a string without sep is the one-element list of that string |
| Ipv4.SplitFirst | lab02/roteador.py:147 | splitting x + sep + y, with no sep in x, gives x followed by the pieces of y |
| Ipv4.SplitQuad | lab02/roteador.py:147 | a dotted quad of dot-free parts splits into exactly those four parts |
| Ipv4.SplitKeepsChar | lab02/roteador.py:147 | a character other than the separator ends up in some piece |
| Ipv4.ParseOctet | lab02/roteador.py:147 | an accepted octet is all digits with value at most 255 |
| Ipv4.ParsePrefixLength | lab02/roteador.py:147 | an accepted prefix length is all digits with value at most 32 |
| Ipv4.ParseAddress | lab02/roteador.py:147 | an accepted address is below 2^32 |
| Ipv4.Parse | lab02/roteador.py:147 | every accepted string yields a valid network (aligned, length ≤ 32) |
| Ipv4.ParseFormat | lab02/roteador.py:147-176 | round trip: parsing `str(network)` yields the network back |
| Ipv4.FormatInjective | lab02/roteador.py:176 | distinct valid networks have distinct texts |
| Ipv4.ParseRejectsColon | lab02/roteador.py:146-149 | a string with ':' (a neighbour's "ip:port" key) never parses |
| Ipv4.ParseNoLength | lab02/roteador.py:147 | a key without `/len`, "10.0.0.0", parses to the /32 network 10.0.0.0 |
| Ipv4.ParseHostBitsSet | lab02/roteador.py:147 | with strict=False, "10.0.0.1/24" parses to 10.0.0.0/24: the host bits are cleared, not refused |
| Ipv4.ParseLeadingZero | lab02/roteador.py:147 | an octet with a leading zero, "010", is refused, so "10.0.0.010" is not a network |
| Summarization.Members | lab02/roteador.py:159-162 | `redes_contidas` holds exactly the indexed networks that are subnets of the aggregate |
| Summarization.MembersInOrder | lab02/roteador.py:159-162 | `redes_contidas` keeps the order of `redes_obj`, so "first member" in the tie-break means first in `redes_obj` |
| Summarization.MinCost | lab02/roteador.py:168 | `menor_custo` is at most every member's cost and equals one of them |
| Summarization.Best | lab02/roteador.py:171-174 | `melhor_rede` is a member |
| Summarization.BestIsFirstMinimum | lab02/roteador.py:171-174 | `melhor_rede` is the first member, in order, whose cost is the minimum |
| Summarization.Parsed | lab02/roteador.py:145-147 | the table's items in order, each destination replaced by what `ip_network(net, strict=False)` gives (None for a ValueError); one entry per destination |
| Summarization.NetIndex | lab02/roteador.py:144-149 | the `redes_obj` loop over those entries: a failed parse is skipped, a network is assigned its route; always a well-formed dict. NetIndexKeys and NetIndexLastWins state its contents |
| Summarization.Networks | lab02/roteador.py:144-149 | `redes_obj` for a routing table; NetworkIndexed and SummaryNoLarger state what it holds |
| Summarization.NetIndexKeys | lab02/roteador.py:144-149 | `redes_obj` holds exactly the networks some destination parses to, at most one per destination |
| Summarization.NetIndexLastWins | lab02/roteador.py:145-147 | a network's route comes from the last destination that parses to it |
| Summarization.NetIndexDependsOnNetworks | lab02/roteador.py:145-149 | `redes_obj` depends only on which destinations are networks and on the routes of those |
| Summarization.SummarizeIgnoresNonNetwork | lab02/roteador.py:146-149 | adding or changing a destination that does not parse leaves the summary unchanged |
| Summarization.CollapseOutputHasMember | lab02/roteador.py:152-165 | every aggregate contains some input network, so the `continue` at 164-165 is never taken |
| Summarization.CollapseNoLarger | lab02/roteador.py:152 | there are no more aggregates than input networks |
| Summarization.BuildKeys | lab02/roteador.py:154-179 | the summary's keys are aggregate texts, at most one per aggregate |
| Summarization.BuildAt | lab02/roteador.py:176-179 | the entry written for an aggregate is the final one for its key |
| Summarization.CollapseFormatsDistinct | lab02/roteador.py:152-176 | distinct aggregates never write the same key |
| Summarization.Build | lab02/roteador.py:154-179 | the `nova_tabela` loop over the aggregates: an aggregate with members gets (lowest cost, next hop of the first cheapest member) under `str(sum_net)`; always a well-formed dict. BuildKeys and BuildAt state its contents |
| Summarization.SummaryKeysAreNetworks | lab02/roteador.py:176 | each summary key parses back to its aggregate and contains no ':' |
| Summarization.SummaryNoLarger | lab02/roteador.py:144-181 | the summary is a valid dict with no more entries than there are networks, and no more networks than destinations |
| Summarization.SummaryCoversNetworks | lab02/roteador.py:144-179 | every destination that is a network lies inside an aggregate that the summary advertises |
| Summarization.SummaryEntry | lab02/roteador.py:167-179 | each aggregate's entry has the lowest member cost and the next hop of the first member with that cost |
| Summarization.Summarize | lab02/roteador.py:136-181 | `summarize_table`: always a well-formed dict; what it holds is stated by SummaryKeysAreNetworks, SummaryNoLarger, SummaryCoversNetworks, SummaryEntry and SummarizeIgnoresNonNetwork |
| Roteador.Router.constructor | lab02/roteador.py:29-71 | the fields are the arguments and the table is the bootstrap table `InitialTable` |
| Roteador.Router.ReceiveUpdate | lab02/roteador.py:209-299 | 400 exactly when the sender is missing or empty or the table is not a dict; "ignored" exactly for a non-neighbour; neither changes anything; otherwise the table becomes `Merge` of the items in order and the flag is `Changed` |
| Roteador.Router.SendUpdates | lab02/roteador.py:110-126 | one payload per neighbour, in order: my address plus the summary poisoned for that neighbour; the routing table is not modified; every sent key is an aggregate's text without ':', and every route through the receiving neighbour is sent at 16 |
| Roteador.PoisonReverse | lab02/roteador.py:119-121 | the in-place loop gives `Poisoned`: every entry through the neighbour becomes cost 16 and nothing else changes |
| Roteador.SentTable | lab02/roteador.py:110-121 | what a neighbour receives: aggregate texts only (never "ip:port"), and every route through that neighbour at 16 |
| CrcSpec.PyTail | lab01/deteccao_de_erro/codigo.py:54 | Python's `[-r:]` for every integer r: the last r elements, the whole list when r = 0 or r > \|s\|, and for r < 0 everything after the first -r elements |
| CrcSpec.Step | lab01/deteccao_de_erro/codigo.py:39-51 | one iteration: when bit i is 1, positions i+1 .. i+r are XOR-ed with the generator and nothing else changes |
| CrcSpec.Augmented | lab01/deteccao_de_erro/codigo.py:32 | `dados_bits + '0' * r` (also benchmark_crc.py:41): the data followed by r zeros, of length \|d\| + r |
| CrcSpec.Xor | lab01/deteccao_de_erro/codigo.py:1-11 | the XOR of two bit strings over the length of the first: the value that both `xor_bits` (Codigo.XorBits, BenchmarkCrc.XorBits) are proved to compute |
| CrcSpec.Divide | lab01/deteccao_de_erro/codigo.py:36-51 | the buffer after the first k iterations of the division loop, of unchanged length; DivideBits, DivideInert, DivideExtend and DivideLinear state its algebra and DivisionIdentity its meaning |
| CrcSpec.CrcManual | lab01/deteccao_de_erro/codigo.py:14-55 | the result has r = \|G\| - 1 characters when \|G\| ≥ 2 |
| CrcSpec.DivideBits | lab01/deteccao_de_erro/codigo.py:36-51 | dividing a bit string keeps it a bit string |
| CrcSpec.DivideInert | lab01/deteccao_de_erro/codigo.py:39 | iterations that find '0' change nothing |
| CrcSpec.DivideExtend | lab01/deteccao_de_erro/codigo.py:36-51 | characters past the last window are carried along untouched |
| CrcSpec.DivideLinear | lab01/deteccao_de_erro/codigo.py:36-51 | the division is linear over GF(2) on the positions not yet passed |
| CrcSpec.CrcEmptyGenerator | lab01/deteccao_de_erro/codigo.py:29-54 | an empty generator (r = -1) returns the data without its first character |
| CrcSpec.CrcDegreeZeroGenerator | lab01/deteccao_de_erro/codigo.py:29-54 | a one-character generator returns the whole data (see Findings) |
| CrcSpec.CrcOfZeros | lab01/deteccao_de_erro/codigo.py:14-55 | all-zero data has an all-zero CRC |
| CrcSpec.FrameDivisible | lab01/deteccao_de_erro/codigo.py:53-69 | the transmitted frame T(x) = M(x) followed by its CRC has CRC zero |
| CrcSpec.DivisionIdentity | lab01/deteccao_de_erro/codigo.py:14-55 | for a generator with a leading 1, the augmented message equals quotient × G XOR the CRC: the result is the GF(2) remainder |
| CrcSpec.TextbookExample | lab01/deteccao_de_erro/codigo.py:58-60 | the commented example M = 1101011111, G = 10011 gives 0010 |
| Codigo.XorBits | lab01/deteccao_de_erro/codigo.py:1-11 | '0' exactly where the inputs agree, one character per character of a |
| Codigo.DivideInPlace | lab01/deteccao_de_erro/codigo.py:36-51 | the in-place loop leaves the list equal to `Divide` of its old contents |
| Codigo.CalcularCrcManual | lab01/deteccao_de_erro/codigo.py:14-55 | the result is `CrcManual`: r characters when \|G\| ≥ 2, the whole data when \|G\| = 1 |
| BenchmarkCrc.XorBits | lab01/deteccao_de_erro/benchmark_crc.py:27-32 | the list-and-join variant computes the same XOR |
| BenchmarkCrc.CalcularCrcManual | lab01/deteccao_de_erro/benchmark_crc.py:34-56 | "" for a one-character generator, otherwise `CrcManual`; r characters whenever \|G\| ≥ 1 |
| BenchmarkCrc.Crc16ModbusPy | lab01/deteccao_de_erro/benchmark_crc.py:59-68 | the loops compute `Crc16(data)`, always below 0x10000 |
| Modbus.Crc16 | lab01/deteccao_de_erro/benchmark_crc.py:59-68 | the CRC always fits in 16 bits |
| Modbus.ShiftOnce | lab01/deteccao_de_erro/benchmark_crc.py:64-67 | one pass of the inner loop: shift right, XOR with 0xA001 when the low bit was 1; keeps 16 bits |
| Modbus.Shifts | lab01/deteccao_de_erro/benchmark_crc.py:63-67 | k passes of the inner `for _ in range(8)` loop; keeps 16 bits. UpdateByte uses eight of them |
| Modbus.UpdateByte | lab01/deteccao_de_erro/benchmark_crc.py:62-67 | one byte of the outer loop: XOR the byte in, then eight shift steps with 0xA001; a 16-bit register stays 16-bit. OwnValueClears and CheckValueByte fix its values |
| Modbus.CrcFrom | lab01/deteccao_de_erro/benchmark_crc.py:61-67 | the outer loop over the bytes from a given register; it keeps 16 bits, and CrcFromAppend proves it incremental |
| Modbus.Crc16Empty | lab01/deteccao_de_erro/benchmark_crc.py:60 | the CRC of no data is 0xFFFF |
| Modbus.CrcFromAppend | lab01/deteccao_de_erro/benchmark_crc.py:61-67 | the CRC is incremental: a + b continues from the register after a |
| Modbus.OwnValueClears | lab01/deteccao_de_erro/benchmark_crc.py:61-67 | feeding a register its own two bytes, low byte first, clears it |
| Modbus.FrameCheck | lab01/deteccao_de_erro/benchmark_crc.py:59-68 | a frame followed by its CRC, low byte first, has CRC 0 |
| Modbus.CheckValue | lab01/deteccao_de_erro/benchmark_crc.py:59-68 | the standard check value: "123456789" gives 0x4B37 |

## Left out

- HTTP and Flask are left out: routes, JSON encoding, status codes as numbers, and `get_routes`. A request is reduced to its two fields and a response to `Status`.
- The POST to each neighbour, its timeout and its failures are left out. `SendUpdates` returns the payloads instead.
- The periodic-update thread, `time.sleep` and `update_interval`'s use are left out; they are timing and concurrency. The value is kept as a field.
- `print` and `json.dumps` output is left out.
- The `__main__` block is left out: argparse, reading the neighbour CSV, `exit`.
- `router_instance` being None is left out. The model always has a router.
- `deepcopy` needs no code: Dafny values are immutable, so the summary works on a copy by construction.
- Advertised entries that are not dicts are left out. In Python `info.get` raises on such an entry mid-loop, and the items merged before it stay applied, so the table is partly updated. The model's advertisements are always well-formed.
- Costs that are not integers are left out. A float cost, or `True`/`False`, does not raise in Python: it is added, compared and stored. The cost field is `Option<int>`: present or missing.
- Senders that are truthy non-strings are left out. The sender is `Option<string>`.
- An empty or falsy JSON body gives 400 in Python, and the model maps it to a missing sender, which gives the same 400. A truthy body that is not an object (`[1]`, `5`, `"x"`) is left out: it passes the first check, and `update_data.get` then raises, which is a 500 response.
- Codigo.XorBits requires `|a| <= |b|`: when b is shorter, codigo.py:7 raises `IndexError`, and that error path is not modelled.
- BenchmarkCrc.XorBits requires `|a| <= |b|`: when b is shorter, benchmark_crc.py:31 raises `IndexError`, and that error path is not modelled.
- Python's `in` on a dict tests its keys. For a well-formed dict the model's test on the map's domain is equivalent.
- The `ipaddress` library is not part of this model. Its behaviour is stated from its documented semantics, restricted to what `summarize_table` needs:
  - IPv6, netmask and hostmask forms (`a.b.c.d/255.255.0.0`), integer and bytes arguments all parse as `None` here, where Python would accept some of them;
  - space around the text is not treated specially.
- The algorithm of `collapse_addresses` is left out. The model takes its result as a parameter and relies only on the properties in `IsCollapseOf`.
- The benchmark harness of benchmark_crc.py is left out: timing, tracemalloc, matplotlib, the `crc` library and the random payloads.
- The test-data `print`s at the end of codigo.py are left out.
- Modbus.Crc16: Python's unbounded int is held in a `bv32`. The contracts prove the register stays below 0x10000, so the width never matters.

## Findings

| source | as written | input that shows it | evidently intended | confidence | as-written member | corrected member |
|---|---|---|---|---|---|---|
| lab01/deteccao_de_erro/codigo.py:54 | `mensagem_aumentada[-r:]` with r = 0 is `[0:]`, the whole buffer | dados = "1", gerador = "1" returns "1" | a remainder of r = 0 bits, "" (benchmark_crc.py:54-55 adds exactly this guard) | not executed | Codigo.CalcularCrcManual, with CrcSpec.CrcDegreeZeroGenerator | BenchmarkCrc.CalcularCrcManual |
