# QuteFuzz differential-testing helpers in Dafny

QuteFuzz tests quantum-circuit compilers by differential testing. It runs a
circuit before and after a transformation, then compares the two results. This
project models the pure-data helpers of `helpers/helpers/qiskit_helpers.py`.
They sit around the Qiskit, Aer and SciPy calls.

- `GraphSampler`: `generate_custom_mapping`, the random coupling map used to
  stress the router. Phase one builds a random spanning tree. Phase two adds
  0 to 10 extra edges, each found by a rejection loop. The random source is a
  parameter: the finite sequence of raw draws it produces. `randrange(0, k)`
  is the next draw modulo k, and `randint(0, 10)` is the next draw modulo 11.
  Draws are consumed in the order the Python calls them.
- `CountPreprocessor`: `preprocess_counts`. Each bit-string key of a histogram
  has its spaces removed and is read in base 2. The result is listed in
  ascending key order. The histogram is given as its items in dictionary
  order, because a later key that denotes the same integer overwrites an
  earlier one.
- `DistributionTester`: `ks_test` up to its assertion. Both frequency maps are
  expanded into flat samples by a positional `zip_longest` walk. Both samples
  must have `total_shots` elements.
- `CircArgs`: `read_circ_args`, with `sys.argv` passed in as a parameter.
- `Wrappers`: `Option` and `Result`. `Err` stands for the exception the
  Python raises.

Each imperative Python loop is a Dafny `method` with a `while` loop. The
method's contract is stated through reference definitions: walks and
connectivity for graphs, `Grow`, `ExtraEdges` and `ExtraEdgesFixed` for the
two phases of the graph sampler, `ToMap` for dictionary assignment, `Expand`
for samples. Lemmas prove the promised properties of those definitions.

The model follows the code as written. In particular:

- `ks_test` pairs the two item lists by position, not by the union of their
  keys. Each sample depends only on its own map.
- `preprocess_counts` keeps every count only when no two keys denote the same
  integer. Otherwise the later key's count wins.
- `generate_custom_mapping` with one qubit raises as soon as an extra edge is
  requested (see Findings).

## Model

| member | source | states |
|---|---|---|
| `GraphSampler.GenerateCustomMapping` | helpers/helpers/qiskit_helpers.py:34-57 | on success every endpoint is below num_qubits, no edge is a self-loop and the map is one connected component; the first num_qubits-1 edges form a spanning tree whose placed qubits are a permutation of 0..num_qubits-1; the edge count is num_qubits-1 plus the randint draw, so at most 10 more; it raises on the unbound q1 exactly when num_qubits <= 1 and an extra edge is requested; it succeeds with just the tree when the draws cover the tree and randint yields 0; with num_qubits >= 2 and no extra q0 draw hitting the index of the stale q1, it succeeds with one draw per extra edge and every extra edge ends at the q1 of the last tree edge |
| `GraphSampler.BuildSpanningTree` | helpers/helpers/qiskit_helpers.py:42-48 | exactly num_qubits-1 edges; each edge attaches a qubit not yet placed to one already placed; paired_qubits is 0 followed by the attached qubits and is a permutation of 0..num_qubits-1; q1 is left at the partner of the last tree edge; tree, paired_qubits and q1 are exactly those of `Grow`, the pop-and-pair steps driven by draws 2(i-1) and 2(i-1)+1 |
| `GraphSampler.AddExtraEdges` | helpers/helpers/qiskit_helpers.py:50-55 | exactly k extra edges between placed qubits, none a self-loop; zero requested edges yield none and use no draw; it fails on the unbound q1 exactly when q1 was never assigned, an edge is requested and q0 could be drawn; the outcome and the next draw position are exactly those of `ExtraEdges`, the draw-by-draw reading of the loop in which the final q1 of one edge carries over to the next; when no q0 draw hits the stale q1 it succeeds with one draw per edge and joins each drawn q0 to the stale q1 |
| `GraphSampler.SpanningTree` | helpers/helpers/qiskit_helpers.py:42-48 | a tree-shaped edge list whose placed qubits are a permutation of 0..n-1 lies in range, has no self-loop and connects all n qubits |
| `GraphSampler.TreeReachesPlaced` | helpers/helpers/qiskit_helpers.py:44-48 | every placed qubit is reachable from qubit 0 along tree edges |
| `GraphSampler.TreeEdgesPlaced` | helpers/helpers/qiskit_helpers.py:45-48 | both endpoints of every tree edge are placed, and no tree edge is a self-loop |
| `GraphSampler.RootedIsConnected` | helpers/helpers/qiskit_helpers.py:42-48 | reaching every qubit from qubit 0 makes every pair of qubits reachable, so there is one component |
| `GraphSampler.ConnectedExtends` | helpers/helpers/qiskit_helpers.py:50-55 | appending extra edges, duplicates included, keeps a connected map connected |
| `GraphSampler.SingleQubitExtraEdgeRaises` | helpers/helpers/qiskit_helpers.py:51-53 | with one qubit and one requested extra edge, the code as written fails on the unbound q1 |
| `GraphSampler.AddExtraEdgesFixed` | helpers/helpers/qiskit_helpers.py:50-55 | corrected phase two: it never reads an unbound q1; every extra edge joins two placed qubits and is not a self-loop; with fewer than two placed qubits it adds none and uses no draw; the outcome and the next draw position are exactly those of `ExtraEdgesFixed`, in which each edge draws q0 and its own q1 and redraws q1 while they coincide; when no pair of draws collides it succeeds with two draws per edge and each edge is the pair drawn for it |
| `GraphSampler.GenerateCustomMappingFixed` | helpers/helpers/qiskit_helpers.py:34-57 | the corrected map keeps the range, no-self-loop, connectivity and spanning-tree guarantees for every num_qubits; one qubit yields the empty map; with enough draws for the tree and randint yielding 0 (or at most one qubit) it succeeds with just the tree; with num_qubits >= 2 and every extra pair of draws picking two different indices it succeeds with two draws per extra edge and exactly num_qubits-1 plus randint edges |
| `GraphSampler.GrowInvariant` | helpers/helpers/qiskit_helpers.py:42-48 | after every step of phase one the tree so far is tree-shaped, paired_qubits lists its placed qubits, paired and free qubits together are exactly 0..num_qubits-1, and q1 is the partner of the last edge |
| `GraphSampler.GrowLastPartner` | helpers/helpers/qiskit_helpers.py:46 | after phase one, q1 is the placed qubit picked by the last partner draw |
| `GraphSampler.PermutationDistinct` | helpers/helpers/qiskit_helpers.py:42-48 | in a permutation of 0..n-1 two different positions hold different qubits, so different draw indices pick different placed qubits |
| `GraphSampler.StaleQ1Reused` | helpers/helpers/qiskit_helpers.py:50-55 | under the loop as written, when no q0 draw equals the stale q1 every extra edge takes one draw and joins its q0 to that same q1 |
| `GraphSampler.FixedWithoutCollision` | helpers/helpers/qiskit_helpers.py:50-55 | under the corrected loop, when no pair of draws picks one qubit twice every edge takes two draws and is exactly that pair |
| `GraphSampler.StaleQ1Avoided` | helpers/helpers/qiskit_helpers.py:46-53 | when no extra q0 draw index equals the last partner draw index, no extra q0 equals the q1 that phase one leaves behind |
| `GraphSampler.PairsAvoidCollision` | helpers/helpers/qiskit_helpers.py:52-54 | two different draw indices per extra edge give two different placed qubits |
| `GraphSampler.SharedPartner` | helpers/helpers/qiskit_helpers.py:53-55 | extra edges that all end at the last tree edge's partner share its q1 |
| `GraphSampler.JoinedMapFacts` | helpers/helpers/qiskit_helpers.py:42-57 | the spanning tree followed by extra edges between distinct placed qubits is in range, has no self-loop, is connected and is led by the tree |
| `CountPreprocessor.PreprocessCounts` | helpers/helpers/qiskit_helpers.py:91-100 | it fails exactly when some key is not a bit string once its spaces are removed, reporting the first such key with its spaces removed, the string handed to `int`; otherwise the output keys are strictly ascending; the output, read as a dictionary, is the in-order assignment of each parsed key to its count; the output keys are exactly the parsed input keys; with no two keys denoting the same integer the counts sum to the input's total |
| `CountPreprocessor.StripSpaces` | helpers/helpers/qiskit_helpers.py:98 | the result holds no space, and every other character occurs in it as often as in the key |
| `CountPreprocessor.StripSpacesAppend` | helpers/helpers/qiskit_helpers.py:98 | removing spaces from a concatenation concatenates the stripped parts, so the other characters keep their order |
| `CountPreprocessor.StripSpacesNoSpace` | helpers/helpers/qiskit_helpers.py:98 | a key without spaces is passed to `int` unchanged |
| `CountPreprocessor.ParseKey` | helpers/helpers/qiskit_helpers.py:98 | a key parses exactly when its spaceless form is a non-empty bit string; the value is then below 2^w for the form's width w, and its w-bit encoding is that form |
| `CountPreprocessor.SortedItems` | helpers/helpers/qiskit_helpers.py:100 | the sorted items are strictly ascending by key and hold exactly the dictionary's entries |
| `CountPreprocessor.SortedUnique` | helpers/helpers/qiskit_helpers.py:100 | two strictly ascending item lists that denote the same dictionary are equal, so the sorted output is determined by the dictionary |
| `CountPreprocessor.LastIsLargest` | helpers/helpers/qiskit_helpers.py:100 | the last item of a strictly ascending list holds the dictionary's largest key and its count |
| `CountPreprocessor.DropLast` | helpers/helpers/qiskit_helpers.py:100 | dropping the last item of a strictly ascending list keeps it ascending and removes just that key from the dictionary |
| `CountPreprocessor.ToMapLastWins` | helpers/helpers/qiskit_helpers.py:97-98 | each key holds the count of the last item assigning it |
| `CountPreprocessor.ToMapKeys` | helpers/helpers/qiskit_helpers.py:97-98 | the dictionary's keys are exactly the keys assigned |
| `CountPreprocessor.TotalDistinct` | helpers/helpers/qiskit_helpers.py:97-98 | assigning distinct keys loses no count: the dictionary's values sum to the items' counts |
| `CountPreprocessor.SortedResultFacts` | helpers/helpers/qiskit_helpers.py:97-100 | the sorted output carries exactly the parsed keys, and without collisions the same total as the input histogram |
| `CountPreprocessor.ParseToBits` | helpers/helpers/qiskit_helpers.py:98 | writing an outcome below 2^w as a w-bit string and reading it back in base 2 gives the outcome |
| `CountPreprocessor.ToBitsParse` | helpers/helpers/qiskit_helpers.py:98 | a w-bit string denotes a value below 2^w, and writing that value back in w bits gives the string |
| `CountPreprocessor.FixedWidthInjective` | helpers/helpers/qiskit_helpers.py:98 | two bit strings of the same register width with the same value are equal |
| `CountPreprocessor.SameWidthKeysKeepAllCounts` | helpers/helpers/qiskit_helpers.py:97-98 | keys of one register width that differ once their spaces are removed denote pairwise different integers, so no count is overwritten |
| `CountPreprocessor.PreprocessExample` | helpers/helpers/qiskit_helpers.py:91-100 | preprocess_counts turns {"0 0": 500, "1 1": 524} into exactly [(0, 500), (3, 524)], which totals 1024 shots |
| `CountPreprocessor.TwoRegisterExample` | helpers/helpers/qiskit_helpers.py:91-100 | {"0 0": 500, "1 1": 524} parses to {0: 500, 3: 524}, and the input totals 1024 shots |
| `DistributionTester.BuildSamples` | helpers/helpers/qiskit_helpers.py:103-120 | the assertion passes exactly when both maps total total_shots; the samples are then each map's own expansion, and the other map has no influence on them |
| `DistributionTester.ExpandLength` | helpers/helpers/qiskit_helpers.py:107-120 | a sample is as long as its map's total count |
| `DistributionTester.ExpandCount` | helpers/helpers/qiskit_helpers.py:114 | each outcome occurs in the sample as often as the map counts it |
| `DistributionTester.SampleHoldsEachCount` | helpers/helpers/qiskit_helpers.py:109-118 | with distinct outcomes, each key of the map occurs in its sample exactly count times |
| `DistributionTester.AbsentOutcomeNotSampled` | helpers/helpers/qiskit_helpers.py:109-118 | an outcome the map does not mention never appears in its sample |
| `DistributionTester.ExpandAppend` | helpers/helpers/qiskit_helpers.py:109-118 | the sample follows the map's iteration order: expanding consecutive stretches of items concatenates their samples |
| `CircArgs.ReadCircArgs` | helpers/helpers/qiskit_helpers.py:61-79 | verbose holds exactly when argv has one or two flags and the first is "-v"; plot holds exactly when it has one or two flags and the last is "-p" |
| `CircArgs.SingleFlagNeverBoth` | helpers/helpers/qiskit_helpers.py:73-74 | a single flag never switches on both options |
| `CircArgs.FlagsArePositional` | helpers/helpers/qiskit_helpers.py:70-71 | "-p -v" switches on neither option |
| `CircArgs.OtherLengthsYieldDefaults` | helpers/helpers/qiskit_helpers.py:66-79 | any argv length other than 2 or 3 yields (false, false) |

## Left out

- The `opt_passes` registry (lines 18-32) only builds Qiskit transpiler pass objects.
- `simulate_circuit` and `compare_statevectors` (lines 81-89, 126-165) evolve complex floating-point
  statevectors in Qiskit and compare them with `np.isclose`. That is foreign floating-point code.
- The `ks_2samp` p-value (line 122) is SciPy floating-point code. The samples are sorted there with
  Python's built-in integer sort, but the sorted lists only feed `ks_2samp`, so the sort is left
  out with it. `ks_test` is modelled up to its assertion.
- `plot_qiskit_dist` (lines 167-173) creates directories and writes image files.
- `run_on_simulator`, `run_pass_on_simulator` and `run_routing_simulation` (lines 175-266) run
  simulators and print results. Their only logic is calling the modelled helpers.
- The usage message `read_circ_args` prints for other argv lengths (line 77) is output only.
- `run.py` is not part of this model. It covers argument parsing, running `make` and the generator,
  directory cleanup, log files and a progress bar.
- Random number generation is a parameter: the sequence of draws. The distribution of the draws
  is not modelled.
- `GraphSampler.GenerateCustomMapping`: success is promised for draws that request no extra edge,
  and for draws whose extra q0 indices all avoid the stale q1. A draw sequence that collides is
  covered only through `AddExtraEdges`, whose outcome is exactly that of `ExtraEdges`; the method
  does not relate its whole result to one function of the draws. A rejection loop that would keep
  redrawing past the injected draws returns `OutOfDraws`, a model-only outcome that stands for
  Python drawing again.
- `GraphSampler.GenerateCustomMappingFixed`: the same holds, with success promised for draws in
  which every extra pair picks two different indices.
- `CountPreprocessor.ParseKey`: reads a key only as a non-empty string of `0` and `1` once its
  spaces are removed. Python's `int(s, 2)` also accepts a sign, a `0b` prefix, underscores and
  surrounding whitespace other than spaces. The simulator never produces such keys.
- `CountPreprocessor.PreprocessCounts`: rejects the same keys, because it reads them with
  `ParseKey`.
- `DistributionTester.BuildSamples`: counts are natural numbers. Python would accept a negative
  count and expand it to nothing. Python also skips the assertion under `-O`; the model always
  checks it.

## Findings

| source | as written | input that shows it | evidently intended | confidence | as-written member | corrected member |
|---|---|---|---|---|---|---|
| helpers/helpers/qiskit_helpers.py:51-55 | the guard `while (q1 == q0)` reads the q1 left over by phase one; with one qubit phase one never assigns q1, so the first extra edge raises UnboundLocalError | num_qubits = 1 with randint returning 1 (draws [1, 0]) | each extra edge draws its own q1 before the check, and with fewer than two qubits no extra edge is added | not executed | `GraphSampler.SingleQubitExtraEdgeRaises` | `GraphSampler.GenerateCustomMappingFixed` |
