# Quickstep index scheme and worker directory, modelled in Dafny

This project models two small stateful components of the Quickstep database engine.

- **`IndexScheme`** is the catalog record of the indexes defined on one relation. It maps
  each index name to an `IndexSubBlockDescription`. The model is the class
  `Catalog.IndexScheme`. It covers the empty constructor, `getNumIndices`,
  `hasIndexWithName`, `hasIndexWithDescription`, `areIndexDescriptionsSame` and
  `addIndexMapEntry`.
  - Two descriptions count as the same when their sub-block types are equal and their
    serialized byte strings are equal once each string's bytes are sorted.
  - `areIndexDescriptionsSame` is modelled as the code runs it. It copies both
    serializations into arrays, sorts each in place (`ByteSort.SortInPlace`, a selection
    sort standing in for `std::sort`) and compares them.
  - `ByteSort.SortedEqualIffSameMultiset` proves that this comparison is the same as
    comparing the two strings as byte multisets. The specification predicate
    `SameDescription` is stated that way.
  - The doc comment at catalog/IndexScheme.hpp:118-119 speaks of "any matching attributes
    ids". The code at lines 131-138 compares sorted serializations. The model follows the
    code.
- **`WorkerDirectory`** is the scheduler's table of workers. For each worker it holds a NUMA
  node, a client id and a count of queued work orders. Only its unit test is part of this
  model, so the class `QueryExecution.WorkerDirectory` has exactly the behaviour the test
  asserts.
  - The test's reference helpers `getMinElement` and `getMaxElement` become
    `WorkerDirectoryTest.MinElement` and `WorkerDirectoryTest.MaxElement`.
  - Two of the test's scenarios become methods: the increment/decrement test is
    `WorkerDirectoryTest.IncrementDecrementSequence`, run on the test's own step sequence by
    `WorkerDirectoryTest.IncrementDecrementTest`, and the add-worker test is
    `WorkerDirectoryTest.AddWorkerScenario`. The NUMA-node and client-id test is covered
    by the constructor's contract, and the load test by
    `WorkerDirectoryTest.CheckLeastAndMostLoaded`.

Inputs and outside code:
- Protocol-buffer serialization (`SerializeToString`) is generated code. It is the
  function-valued field `IndexScheme.serialize`, supplied at construction. Every contract
  holds for any serializer.
- `std::unordered_map` visits entries in no fixed order. `HasIndexWithDescription` picks
  each next key with a nondeterministic choice (`:|`). Its postcondition therefore holds for
  every visiting order.
- The Mersenne-twister picks of the increment/decrement test become the `picks` parameter
  of `WorkerDirectoryTest.IncrementDecrementSequence`. The shuffled visiting orders are not
  modelled, because the constructor's contract and `CheckLeastAndMostLoaded` hold for every
  order.

Bytes are the integers 0 to 255 in ascending order. `std::sort` on a `std::string` orders by
`char`, which is signed on common platforms. Two sorted strings are equal under one total
order exactly when they are equal under any other, so the choice does not change any result.

## Model

| member | source | states |
|---|---|---|
| `Catalog.IndexScheme.constructor` | catalog/IndexScheme.hpp:47-48 | a new scheme has an empty index map, so it has zero indices |
| `Catalog.IndexScheme.NumIndices` | catalog/IndexScheme.hpp:82-84 | the count is the number of distinct index names in the map; it is zero exactly when no index is defined |
| `Catalog.IndexScheme.HasIndexWithName` | catalog/IndexScheme.hpp:92-94 | true exactly when some (name, description) entry of the map has that name |
| `Catalog.IndexScheme.AreIndexDescriptionsSame` | catalog/IndexScheme.hpp:125-139 | after sorting both serializations in place, the result is true iff the sub-block types are equal and the two serializations hold the same bytes the same number of times; it is false whenever the types differ |
| `Catalog.IndexScheme.HasIndexWithDescription` | catalog/IndexScheme.hpp:104-114 | true iff some stored description is the same as the given one; this holds whatever order the entries are visited in |
| `Catalog.IndexScheme.AddIndexMapEntry` | catalog/IndexScheme.hpp:150-158 | a name already present gives false and leaves the map unchanged; a new name gives true, maps to the given description and adds one to the count; every other entry is unchanged; the name is present afterwards; after a success an equivalent description is present; no equivalent description is ever lost |
| `Catalog.SameDescriptionIsEquivalence` | catalog/IndexScheme.hpp:125-139 | being the same description is reflexive, symmetric and transitive |
| `ByteSort.SortInPlace` | catalog/IndexScheme.hpp:135-136 | the sorted array is ascending and is a permutation of the bytes it held before |
| `ByteSort.IndexOfMin` | catalog/IndexScheme.hpp:135-136 | gives the first position of a smallest byte in the unsorted suffix; this is the selection step of the sort |
| `ByteSort.SortedEqualIffSameMultiset` | catalog/IndexScheme.hpp:131-138 | two sorted byte strings are equal iff their byte multisets are equal, so comparing sorted serializations compares byte multisets |
| `QueryExecution.WorkerDirectory.constructor` | query_execution/tests/WorkerDirectory_unittest.cpp:115-129 | with n workers and per-worker client-id and NUMA lists: the directory has n workers; worker i has the i-th client id and the i-th NUMA node; every queued count is 0 |
| `QueryExecution.WorkerDirectory.NumWorkers` | query_execution/tests/WorkerDirectory_unittest.cpp:120-127 | the number of workers; when the directory is consistent, the client-id and NUMA tables have that many entries too |
| `QueryExecution.WorkerDirectory.NUMANode` | query_execution/tests/WorkerDirectory_unittest.cpp:120-127 | the NUMA node recorded for worker w |
| `QueryExecution.WorkerDirectory.ClientID` | query_execution/tests/WorkerDirectory_unittest.cpp:120-127 | the client id recorded for worker w |
| `QueryExecution.WorkerDirectory.NumQueuedWorkOrders` | query_execution/tests/WorkerDirectory_unittest.cpp:120-127 | the queued count recorded for worker w |
| `QueryExecution.WorkerDirectory.IncrementNumQueuedWorkOrders` | query_execution/tests/WorkerDirectory_unittest.cpp:166-173 | worker w's count rises by exactly one; the other counts, the client ids and the NUMA nodes do not change |
| `QueryExecution.WorkerDirectory.DecrementNumQueuedWorkOrders` | query_execution/tests/WorkerDirectory_unittest.cpp:175-183 | worker w's count, which is positive, falls by exactly one; nothing else changes |
| `QueryExecution.WorkerDirectory.AddWorker` | query_execution/tests/WorkerDirectory_unittest.cpp:197-215 | the new worker's id is the old worker count; the count of workers rises by one; the new worker has the given client id and NUMA node and 0 queued work orders; the existing workers are unchanged |
| `QueryExecution.WorkerDirectory.GetLeastLoadedWorker` | query_execution/tests/WorkerDirectory_unittest.cpp:236-241 | returns the first worker holding the minimum queued count, together with that count |
| `QueryExecution.WorkerDirectory.GetMostLoadedWorker` | query_execution/tests/WorkerDirectory_unittest.cpp:238-242 | returns the first worker holding the maximum queued count, together with that count |
| `WorkerDirectoryTest.MinElement` | query_execution/tests/WorkerDirectory_unittest.cpp:38-45 | the `std::min_element` scan gives the first position of the minimum and the value there |
| `WorkerDirectoryTest.MaxElement` | query_execution/tests/WorkerDirectory_unittest.cpp:49-56 | the `std::max_element` scan gives the first position of the maximum and the value there |
| `WorkerDirectoryTest.CheckLeastAndMostLoaded` | query_execution/tests/WorkerDirectory_unittest.cpp:285-291 | the directory's least and most loaded (worker, count) pairs equal those of the reference helpers on the current counts, for every load |
| `WorkerDirectoryTest.Repeat` | query_execution/tests/WorkerDirectory_unittest.cpp:148-154 | n copies of the mini sequence have n times its length; the first copy is the mini sequence and every later step repeats the step one copy earlier, which is the content the appending loop builds |
| `WorkerDirectoryTest.DepthOfConcat` | query_execution/tests/WorkerDirectory_unittest.cpp:143-154 | the net increment depth of two step sequences joined is the sum of their depths |
| `WorkerDirectoryTest.BalancedConcat` | query_execution/tests/WorkerDirectory_unittest.cpp:148-154 | joining two balanced step sequences gives a balanced one |
| `WorkerDirectoryTest.MiniSequenceIsBalanced` | query_execution/tests/WorkerDirectory_unittest.cpp:143-144 | no prefix of the mini sequence decrements more than it increments, and the whole sequence nets to zero |
| `WorkerDirectoryTest.TestSequenceIsBalanced` | query_execution/tests/WorkerDirectory_unittest.cpp:146-154 | the mini sequence repeated once per worker is balanced for any number of workers |
| `WorkerDirectoryTest.IncrementDecrementSequence` | query_execution/tests/WorkerDirectory_unittest.cpp:162-194 | on a balanced step sequence with any worker picks: every decrement hits a worker with a positive count; afterwards every worker's count is back where it started (0 in the test); client ids and NUMA nodes are unchanged |
| `WorkerDirectoryTest.IncrementDecrementTest` | query_execution/tests/WorkerDirectory_unittest.cpp:143-194 | a fresh directory driven by the mini sequence repeated once per worker, with any worker picked at each increment, ends with every count at 0 and its client ids and NUMA nodes as constructed |
| `WorkerDirectoryTest.AddWorkerScenario` | query_execution/tests/WorkerDirectory_unittest.cpp:197-221 | the added worker gets the next id and the given client id and NUMA node; the counts end as the old counts followed by 0; the body checks that the new worker holds 1 work order between the increment and the decrement |

## Left out

- The optimizer's strategy classes (query_optimizer/strategy/) are outside this model.
- `ReconstructFromProto`, `ProtoIsValid` and `getProto` (catalog/IndexScheme.hpp:58, 68, 75) are declared but not defined in the header. They rely on generated protocol-buffer code.
- The byte format of `SerializeToString` is generated code. It is a parameter of the scheme. As a result, nothing is proved about how attribute ids map to bytes.
- Locking: `addIndexMapEntry` relies on the caller to hold the relation's locks. Concurrency is not modelled.
- The hashing and bucket layout of `std::unordered_map` are not modelled. The map is a Dafny `map`, and iteration order is a nondeterministic choice.
- query_execution/WorkerDirectory.hpp is not part of this model. The class is modelled from the assertions of its unit test.
- Client ids and NUMA nodes are plain integers. `client_id` is declared in a header that is not part of this model.
- Queued counts are unbounded naturals. `std::size_t` overflow is not modelled.
- `QueryExecution.WorkerDirectory.GetLeastLoadedWorker` and `QueryExecution.WorkerDirectory.GetMostLoadedWorker` require at least one worker. With none, `std::min_element` and `std::max_element` return the end iterator, and the test dereferences it. The test always has 100 workers.
- Test scaffolding is not modelled. This covers the gtest fixture, the fixture's concrete values (client id `2*w+1`, NUMA node `w % 4`, 100 workers), the shuffles, and the shadow vector of expected counts the test keeps. The contracts cover every input the fixture could choose.
- The load test's loops (query_execution/tests/WorkerDirectory_unittest.cpp:234-284) are not modelled as loops. The check made at each of their steps is `WorkerDirectoryTest.CheckLeastAndMostLoaded`, and it holds for every load.
