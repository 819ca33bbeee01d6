# A verified model of config_split's StorageWrapper

`StorageWrapper` (module `config_split`, `src/Config/StorageWrapper.php`) is a configuration store
that wraps another store. It passes every store operation through an ordered chain of filters:

- reads (`exists`, `read`, `readMultiple`, `listAll`, `getAllCollectionNames`,
  `getCollectionName`) ask the wrapped store first, then hand the answer to each filter in chain
  order;
- `write` hands the data to each filter in turn and stops once the data is empty. Non-empty data
  is written to the wrapped store. Empty data for an entry that exists is deleted when some
  filter says an empty write means delete: the first such filter in chain order triggers one
  delete, and later filters are not asked. In every other case nothing happens and the call
  reports success;
- `delete`, `rename` and `deleteAll` start from the verdict TRUE and let each filter revise it.
  The wrapped store is called only if the verdict is still TRUE at the end;
- `createCollection` asks each filter for its stand-in in the new collection. It keeps the answers
  that are not absent, in order, and wraps the wrapped store's derived collection with them;
- `encode` and `decode` go straight to the wrapped store.

## How the model is built

- `ConfigValues` (values.dfy): entry data is `map<string, Value>`. The empty map is the "falsy"
  data that `if ($data)` tests for. A missing entry reads as `None`, which stands for PHP's FALSE.
- `Filters` (filters.dfy): a `Filter` is a record of total functions, one per interception point
  of the filter interface. Their answers are left uninterpreted. `Chain(fs, step, x)` is a left fold:
  `x` goes through `fs[0]` first and the last filter last. `Chain` is the fold computed by the
  loops of the six reads, of `write`'s first loop and of `delete`/`rename`/`deleteAll`; each
  operation has its own step. `createCollection`'s loop computes `Derived`. `write`'s second loop
  returns at the first affirming filter and computes `FirstDeleter`. `WriteStep` carries the `if ($data)` guard, so the short-circuit
  is part of the fold.
- `Backend` (backend.dfy, tables.dfy): no concrete store is part of this model, so
  the model supplies a simple in-memory store of its own. A `Memory` object holds one table
  per collection. Each table lists its names in insertion order, the way an associative array
  keeps its keys. A `Store` is bound to one collection of a `Memory`, so a derived collection
  writes to the same medium. `Memory.writable` lets a store report FALSE, the way
  `StorageInterface` lets a store report failure. This keeps the store's FALSE apart from the
  wrapper's own TRUE. The ghost `Memory.log` records every mutating call made on a store. The
  wrapper's contracts use it to say which store calls happen ("exactly one delete", "no call at
  all"). The `Valid` predicates of `Table` and `Memory` (every name listed once) belong only to
  this stand-in store: its constructor sets them up and its mutating methods preserve them, and
  no contract of the wrapper depends on them.
- `ConfigSplit.StorageWrapper` (storage_wrapper.dfy): a class with the two `const` fields of the
  PHP class. Both fields are set once, in the constructor. So no operation changes the object's
  filter chain, and `createCollection` builds a new chain without touching the parent's. Each
  method with a loop has the PHP method's loop and is proved equal to the function its loop
  computes (`Chain`, `Derived` or `FirstDeleter`); `Encode` and `Decode` call the store directly. Only the methods
  that change the store have a `modifies` clause, so every read leaves the store as it was.
  `Write`'s ghost out-parameters record which filters' `filterWrite` ran (`invoked`) and which
  filters were asked about empty-is-delete (`asked`, as positions in the chain).
- `FilterLaws` (filter_laws.dfy): what a chain means, stated once for every operation: chain
  order, composition, short-circuit and early exit, the derived chain, and idempotence.
- `Scenarios` (scenarios.dfy): client code that uses only the contracts. With a first filter that
  empties the data and affirms empty-is-delete, an emptied write to an entry that exists issues
  exactly one delete and asks only that first filter. With a first filter that empties the data
  but declines and a second that affirms, both filters are asked and the second one's answer
  causes the one delete. A vetoed delete leaves the store alone.

After an emptied write the filters are asked in chain order. The first that affirms
empty-is-delete triggers the delete, and later filters are not asked (StorageWrapper.php:91-94).
`asked` lists the positions from 0 up to that filter's.

Idempotent listing filters do not by themselves make the chain idempotent.
`FilterLaws.ChainIdempotent` needs them to commute pairwise, and
`FilterLaws.IdempotentFiltersNeedNotCommute` gives a counterexample: two idempotent listing filters
whose chain maps `["z"]` to `["c"]` and then `["c"]` to `["e"]`.

## Model

| member | source | states |
|---|---|---|
| ConfigSplit.StorageWrapper.constructor | docroot/modules/contrib/config_split/src/Config/StorageWrapper.php:35-38 | a single filter becomes a one-element chain; a list of filters is kept as given; the wrapped store is the one passed in |
| ConfigSplit.StorageWrapper.Exists | docroot/modules/contrib/config_split/src/Config/StorageWrapper.php:43-50 | the result is the store's own `exists` answer folded through every filter's `filterExists` in chain order; nothing is modified |
| ConfigSplit.StorageWrapper.Read | docroot/modules/contrib/config_split/src/Config/StorageWrapper.php:55-62 | the result is the store's data (or its absence) folded through every `filterRead` in chain order; nothing is modified |
| ConfigSplit.StorageWrapper.ReadMultiple | docroot/modules/contrib/config_split/src/Config/StorageWrapper.php:67-74 | the store's batch for `names` folded through every `filterReadMultiple` in chain order; nothing is modified |
| ConfigSplit.StorageWrapper.Write | docroot/modules/contrib/config_split/src/Config/StorageWrapper.php:79-100 | filter i's `filterWrite` runs iff the data is still non-empty after filters 0..i-1. Non-empty filtered data is stored under `name` and nothing else changes: exactly one write call, no delete, the result is the store's. Empty data for a missing entry (by the store's own `exists`) makes no call and returns TRUE. Empty data for an existing entry: when `FirstDeleter` finds filter k, `asked` is exactly the positions 0..k, one delete call is made and its result returned; otherwise `asked` is every position of the chain, no call is made and TRUE is returned |
| ConfigSplit.StorageWrapper.Delete | docroot/modules/contrib/config_split/src/Config/StorageWrapper.php:105-116 | if the `filterDelete` fold from TRUE is FALSE, returns FALSE and leaves the store untouched; otherwise makes one delete call and returns its result |
| ConfigSplit.StorageWrapper.Rename | docroot/modules/contrib/config_split/src/Config/StorageWrapper.php:121-132 | if the `filterRename` fold from TRUE is FALSE, returns FALSE and leaves the store untouched; otherwise makes one rename call and returns its result |
| ConfigSplit.StorageWrapper.Encode | docroot/modules/contrib/config_split/src/Config/StorageWrapper.php:137-139 | the result is the store's encoding of the data; no filter takes part |
| ConfigSplit.StorageWrapper.Decode | docroot/modules/contrib/config_split/src/Config/StorageWrapper.php:144-146 | the result is the store's decoding of the raw string; no filter takes part |
| ConfigSplit.StorageWrapper.ListAll | docroot/modules/contrib/config_split/src/Config/StorageWrapper.php:151-158 | the store's listing for `prefix` folded through every `filterListAll` in chain order; nothing is modified |
| ConfigSplit.StorageWrapper.DeleteAll | docroot/modules/contrib/config_split/src/Config/StorageWrapper.php:163-174 | if the `filterDeleteAll` fold from TRUE is FALSE, returns FALSE and leaves the store untouched; otherwise makes one deleteAll call and returns its result |
| ConfigSplit.StorageWrapper.CreateCollection | docroot/modules/contrib/config_split/src/Config/StorageWrapper.php:179-189 | returns a new wrapper over a new store for `collection` on the same medium; its chain is `Derived(filters, collection)` |
| ConfigSplit.StorageWrapper.GetAllCollectionNames | docroot/modules/contrib/config_split/src/Config/StorageWrapper.php:194-201 | the store's collection names folded through every `filterGetAllCollectionNames` in chain order |
| ConfigSplit.StorageWrapper.GetCollectionName | docroot/modules/contrib/config_split/src/Config/StorageWrapper.php:206-213 | the store's collection name folded through every `filterGetCollectionName` in chain order |
| Filters.Derived | docroot/modules/contrib/config_split/src/Config/StorageWrapper.php:180-186 | the derived chain is no longer than the parent's; a filter is in it iff some parent filter answered it for this collection |
| Filters.FirstDeleter | docroot/modules/contrib/config_split/src/Config/StorageWrapper.php:91-95 | finds the first filter that affirms empty-is-delete: it affirms, and every filter before it does not; when none is found, no filter affirms |
| FilterLaws.ChainAppend | docroot/modules/contrib/config_split/src/Config/StorageWrapper.php:45-47 | running a chain `a + b` runs `a` and then runs `b` on its result |
| FilterLaws.ChainCons | docroot/modules/contrib/config_split/src/Config/StorageWrapper.php:44-47 | the first filter receives the store's raw answer, and the rest of the chain receives the first filter's answer |
| FilterLaws.ChainOfThree | docroot/modules/contrib/config_split/src/Config/StorageWrapper.php:56-59 | filters F1, F2, F3 give F3(F2(F1(x))) |
| FilterLaws.ChainOfNeutral | docroot/modules/contrib/config_split/src/Config/StorageWrapper.php:152-155 | filters that pass an operation through leave the store's answer, or the initial TRUE verdict, unchanged |
| FilterLaws.TagsInChainOrder | docroot/modules/contrib/config_split/src/Config/StorageWrapper.php:152-155 | listing filters that each append their own tag leave the tags after the store's names, in chain order |
| FilterLaws.WriteKeepsEmpty | docroot/modules/contrib/config_split/src/Config/StorageWrapper.php:80-84 | empty data goes through the whole chain unchanged, so no filter's `filterWrite` sees it |
| FilterLaws.WriteIgnoresLater | docroot/modules/contrib/config_split/src/Config/StorageWrapper.php:80-84 | once part `a` of the chain has emptied the data, no later filters `b` can change the result |
| FilterLaws.WriteStaysEmpty | docroot/modules/contrib/config_split/src/Config/StorageWrapper.php:80-84 | once the data is empty after i filters, it is empty after every later filter too |
| FilterLaws.WriteReachesBackend | docroot/modules/contrib/config_split/src/Config/StorageWrapper.php:80-88 | if no filter empties non-empty data, non-empty data reaches the store's write |
| FilterLaws.FirstDeleterIgnoresLater | docroot/modules/contrib/config_split/src/Config/StorageWrapper.php:91-94 | once a filter affirms empty-is-delete, filters after it cannot change the outcome |
| FilterLaws.FirstDeleterSkips | docroot/modules/contrib/config_split/src/Config/StorageWrapper.php:91-95 | filters that do not affirm are skipped: the outcome of `a + b` is that of `b`, shifted by the length of `a` |
| FilterLaws.DerivedAppend | docroot/modules/contrib/config_split/src/Config/StorageWrapper.php:181-186 | the derived chain of `a + b` is the derived chain of `a` followed by that of `b`, so chain order is kept |
| FilterLaws.DerivedSingle | docroot/modules/contrib/config_split/src/Config/StorageWrapper.php:182-185 | one filter contributes its answer, or nothing when it opts out |
| FilterLaws.DerivedSnoc | docroot/modules/contrib/config_split/src/Config/StorageWrapper.php:182-185 | a filter at the end of the chain that takes part adds its answer at the end of the derived chain |
| FilterLaws.DerivedWithOptOut | docroot/modules/contrib/config_split/src/Config/StorageWrapper.php:181-186 | for filters A, B, C where B opts out, the derived chain is A's answer followed by C's |
| FilterLaws.DerivedAllTakePart | docroot/modules/contrib/config_split/src/Config/StorageWrapper.php:181-186 | when every filter takes part, the derived chain has the same length and position i holds filter i's answer |
| FilterLaws.DerivedAllOptOut | docroot/modules/contrib/config_split/src/Config/StorageWrapper.php:181-188 | when every filter opts out, the derived collection's chain is empty |
| FilterLaws.ChainIdempotent | docroot/modules/contrib/config_split/src/Config/StorageWrapper.php:151-158 | filtering twice equals filtering once when the filters are idempotent and commute pairwise |
| FilterLaws.IdempotentFiltersNeedNotCommute | docroot/modules/contrib/config_split/src/Config/StorageWrapper.php:151-158 | two idempotent listing filters whose chain is not idempotent |

## Left out

- Exceptions from the store or a filter: they abort the PHP call and nothing recovers from them. The model's filters and store are total.
- What concrete filters decide: filters are uninterpreted records of functions. Filter state that changes between calls is not modelled; a filter answers the same way for the same arguments.
- Concrete stores (file system, database) and their I/O: the in-memory store stands in for them. Encoding and decoding are uninterpreted functions of the store.
- PHP truthiness of non-array values: data is always a mapping (`write` is declared with `array $data`), and verdicts are booleans. A filter returning a non-boolean verdict, or a non-filter truthy value from `filterCreateCollection`, is not modelled.
- `filterWrite` receives the wrapped store object; the model passes a snapshot of the bound collection's entries. So a filter in the model cannot look at other collections or call the store.
- Key order inside entry data: `Data` and `Value.Dict` are maps, so the key order of the PHP arrays that `read`, `readMultiple` and `write` pass through is not kept (nor the order of `readMultiple`'s batch).
- ConfigSplit.StorageWrapper.CreateCollection: the `new static` of a subclass is not modelled; the result is always a `StorageWrapper`.
- The default argument `$prefix = ''` of `listAll` and `deleteAll`: callers pass `""`.
- The namespace and the `StorageInterface` import are plumbing.
