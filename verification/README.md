# A verified model of the platform's hardest helpers

The repository is a TypeScript platform (gateway, billing, admin). This project models the parts of
it whose correctness is not obvious from one body, and proves what they are for:

- **DTO compiler** (`TsGrammar`, `TsRoundTrip`, `Splitter`, `DtoCompiler`, `DtoText`, `DtoMeaning`,
  `DtoBalance`, `DtoLimits`, `DtoInterface`, `DtoFile`): JSON Schema to TypeScript type text. The text is parsed back with
  TypeScript's precedence (postfix `[]` binds tighter than `|`), and what it denotes is compared with
  what the schema admits (JSON Schema Core 2020-12, section 10.2.1.2 for `anyOf`). The compiler
  re-reads its own output with a character scanner; the scanner is modelled as written.
- **Session try-lock** (`SessionLock`, `TryLockCall`): callers, pool connections, sessions and
  re-entrant advisory locks as an interleaved machine in which unlock, close, hook, release and the
  network fail at will; and one call statement by statement.
- **Ledger check** (`Ledger`): four relational queries over legs, accounts and authorizations, and
  what passing them implies for the money.
- **In-memory stores** (`ProviderTable`, `ProviderStore`, `MappingBindings`): rows mutated in place,
  soft delete, unique names, fresh ids, and rollback from a shallow snapshot.
- **Transaction retry and SQLSTATE classification** (`TxRetry`, `PgError`).
- **Errors as data** (`ErrorRecord`, `Catalog`): records of possibly cyclic cause chains, annotations,
  and catalogues whose codes decode uniquely.
- **Streaming and concurrency helpers** (`SseStream`, `MapLimit`, `Scheduler`): all chunkings, all
  interleavings, all runs.
- **Lint rule** (`ComponentRule`): one component or hook per file, none nested.

Values, trees and protocol machines are datatypes; objects that the code updates in place are classes
whose methods are proved against functions on their contents. Clocks, random draws, network, JSON
parsing, the callbacks and the order in which concurrent parts move are parameters or are quantified
over.

## Where the code does less than its comments

Each of these is proved, and most with the exact condition under which the promise does hold.

- The splitter is described as skipping bars in brackets, but does not count `<` and `>`. Inside a
  union, a map to a union is cut apart, and a member it shares with the rest is dropped:
  `null | Record<string, string | null | number>` loses the inner `null`. The text of a union is right
  if and only if no two members share a piece (`DtoText.MergePrints`, `DtoLimits.MapLosesMember`).
- The splitter reads quotes and brackets in literals and descriptions as if they were syntax. Those
  that pair up do no harm. One apostrophe in a description, or one double quote in a literal, and a
  list of it or null loses its parentheses (`DtoLimits.NullableListIff`, with both sides).
- An `anyOf` without a schema among its alternatives, and an empty `enum`, give text that is no type;
  an inline object writes property names unquoted, unlike an interface; a component can have the name
  of a reserved word or a predefined type (`DtoLimits.UnionParsesIff`, `EnumParsesIff`,
  `ObjectReadsBackIff`, `ReferenceIff`; `DtoFile.FileReadsBackIff`).
- The table of primitive types is a plain object: a schema whose `type` is `constructor` or `toString`
  gets an inherited member instead of `unknown` (`DtoLimits.InheritedTypeIff`).
- The snapshot of the stand-in database is described as restoring field changes too. It copies rows
  shallowly: a channel binding pushed in place survives the rollback
  (`MappingBindings.RollbackRestoresIff`).
- Restoring a deleted provider does not look for a live one of the same name
  (`ProviderTable.ApplyKeepsNamesUnique`).
- The name of a violated constraint is promised to be null unless the error is a unique violation. It
  is searched past other states (`PgError.ConstraintMatchesState`).
- Both searches walk causes without a bound. On a cycle of errors without a state neither ends, and on
  a cycle with other states the search for a constraint does not (`PgError.SearchEndsIff`,
  `PgError.SearchesPart`).
- The end-to-end kit's classifier is described as equal to the database package's. It stops after five
  layers, takes five-letter errno words, and reads through callables
  (`PgError.AgreementOnHit`, `PgError.AgreementWithoutHit`).
- A scheduler snapshot's result is described as null after a failure. It keeps the last successful one
  (`Scheduler.SnapshotsStick`, `Scheduler.StaleResultIsShown`).
- A catalogue keeps its definitions in a plain object, so it also answers for the names every object
  inherits, and issues an entry for `constructor` (`Catalog.HasExactly`, `Catalog.EntryExactly`).
- The bounded map returns an array of holes when its limit is below one (`MapLimit.RefinesMap`).
- The try-lock closes a connection whose unlock failed so that no idle connection holds a lock. Mutual
  exclusion does not rest on that: `SessionLock.MutualExclusion` has no such hypothesis, since the
  server refuses every other session. Availability does: a refusal always has a living reason
  (`SessionLock.IdleHoldsNothing`, `SessionLock.RefusalHasReason`).

## Model

| member | source | states |
|---|---|---|
| TsRoundTrip.ParsePrint | packages/api-client/scripts/generate-dto.ts:61-80 | Type text in the generator's layout parses, with postfix `[]` tighter than a bar, to exactly the type it was written for. |
| TsRoundTrip.ReadsBackIff | packages/api-client/scripts/generate-dto.ts:45-80 | A type of the right shape is read back from its text exactly if every word, literal, property name and comment in it is legal. |
| TsRoundTrip.PrintInjective | packages/api-client/scripts/generate-dto.ts:48-58 | Two types have one text only if they are equal, so dropping repeated texts drops repeated types. |
| Splitter.SplitTopLevelUnion | packages/api-client/scripts/generate-dto.ts:100-120 | The one-pass scanner returns the pieces that the recursive splitter defines. |
| Splitter.TrimIs | packages/api-client/scripts/generate-dto.ts:113-119 | Trimming a piece takes off white space only, and leaves none at either end. |
| Splitter.SplitJoin | packages/api-client/scripts/generate-dto.ts:57-120 | Splitting pieces joined by a bar gives back exactly those pieces when each is balanced, trimmed and without a bar at its top level. |
| Splitter.ScanPrint | packages/api-client/scripts/generate-dto.ts:105-116 | The scanner passes uncut over a printed type and ends where it began, inside any bracket, and at the top if the type shows no bar there. |
| Splitter.PrintStays | packages/api-client/scripts/generate-dto.ts:105-116 | Wherever a printed type stands, the scanner returns to its depth, and all its bars stand inside its own brackets unless it is a union or a map to one. |
| Splitter.StaysIff | packages/api-client/scripts/generate-dto.ts:105-116 | The condition on comments and literals is exact: it holds if and only if the scanner passes over the text uncut at every depth it can stand at. |
| Splitter.SplitPrint | packages/api-client/scripts/generate-dto.ts:61-64 | On types whose comments and literals leave the scanner alone, the splitter returns the pieces computed from the tree, and more than one exactly if a bar shows. |
| Splitter.PiecesSound | packages/api-client/scripts/generate-dto.ts:100-120 | The pieces of a type are parts that the splitter leaves whole. |
| Splitter.JoinPieces | packages/api-client/scripts/generate-dto.ts:48-58 | The pieces of any type joined are its text; there is one exactly if no bar shows. |
| Splitter.BarFreeCutsRight | packages/api-client/scripts/generate-dto.ts:100-120 | Any type whose text has no bar is read right by the splitter, unbalanced comments or not. |
| DtoBalance.CompiledTextIsBalanced | packages/api-client/scripts/generate-dto.ts:61-97 | For schemas whose literals and descriptions each pair up, the text ends at depth zero with its quotes closed; its depth is never negative if and only if no comment or literal closes more brackets than are open around it. |
| DtoCompiler.UnionTsType | packages/api-client/scripts/generate-dto.ts:48-58 | The union loop joins the members that the recursive definition collects, or fails with its error. |
| DtoCompiler.RefNameIs | packages/api-client/scripts/generate-dto.ts:21-27 | A reference compiles to the name behind the prefix, and fails with its target exactly if the prefix is missing. |
| DtoText.DedupKeepsAll | packages/api-client/scripts/generate-dto.ts:53-55 | The collected members are distinct and are exactly those seen. |
| DtoText.DedupKeepsOrder | packages/api-client/scripts/generate-dto.ts:53-55 | They stand in the order of their first occurrence. |
| DtoText.UnionLoop | packages/api-client/scripts/generate-dto.ts:48-58 | The loop collects the pieces of all alternatives, nested unions flattened to their members. |
| DtoText.MergeText | packages/api-client/scripts/generate-dto.ts:48-58 | If no piece belongs to two members, splitting, deduplicating and joining writes the flattened union. |
| DtoText.MergePrints | packages/api-client/scripts/generate-dto.ts:48-58 | And only then: the text is right if and only if no two members share a piece. |
| DtoText.FlatIsSeparable | packages/api-client/scripts/generate-dto.ts:48-58 | Members without a bar the scanner sees never share a piece. |
| DtoText.ListPrintsIff | packages/api-client/scripts/generate-dto.ts:61-64 | An array schema is written right if and only if the splitter counts the parts of its item type right. |
| DtoText.HarmlessIsRenderable | packages/api-client/scripts/generate-dto.ts:83-120 | If a schema has legal names, literals and descriptions, distinct pieces in its unions, and paired quotes and brackets or no bars where the splitter reads, then the splitter is right wherever the compiler consults it. |
| DtoText.FieldsPrint | packages/api-client/scripts/generate-dto.ts:67-76 | Object fields are written in property order, with doc line and optional mark, whatever their names and descriptions. |
| DtoMeaning.CompiledTextParses | packages/api-client/scripts/generate-dto.ts:83-97 | The text compiled from such a schema is that of the type it stands for, and parses as it. |
| DtoMeaning.CompiledTypeLosesNoValue | packages/api-client/scripts/generate-dto.ts:83-97 | Every value such a schema admits inhabits the type its text parses to, unless an alternative is the schema `true`. |
| DtoMeaning.CompiledTypeIsExact | packages/api-client/scripts/generate-dto.ts:83-97 | If a type can express the schema, the text denotes exactly the admitted values. |
| DtoMeaning.FieldsAddNothing | packages/api-client/scripts/generate-dto.ts:67-76 | An object type has no value that misses a required property or has a property of a wrong type. |
| DtoLimits.MapLosesMember | packages/api-client/scripts/generate-dto.ts:100-120 | For all member types a, m, b, the union of m with a map to a, m, b is compiled to one whose map has lost m. |
| DtoLimits.NullableMapLosesNull | packages/api-client/scripts/generate-dto.ts:100-120 | A concrete such schema and a value it admits that its compiled type does not have. |
| DtoLimits.NullableListIff | packages/api-client/scripts/generate-dto.ts:61-64 | A list of something or null has the lists of that something if and only if its text, bar-free, leaves the scanner at the top; otherwise the brackets go to null alone. |
| DtoLimits.LiteralListIff | packages/api-client/scripts/generate-dto.ts:34-64 | The same for every bar-free literal: right if and only if the quoted literal leaves the scanner at the top; without brackets, if and only if its double quotes are even in number. |
| DtoLimits.DescriptionListIff | packages/api-client/scripts/generate-dto.ts:61-125 | The same for an object with a described property: right if and only if the bar-free description leaves the scanner where it was; without brackets, if and only if its quotes and apostrophes are even in number. |
| DtoLimits.UnionParsesIff | packages/api-client/scripts/generate-dto.ts:48-58 | The text of a union of alternatives read right is a type if and only if one of them is a schema. |
| DtoLimits.EnumParsesIff | packages/api-client/scripts/generate-dto.ts:87-89 | The text of an enumeration is a type if and only if it has a value. |
| DtoLimits.ObjectReadsBackIff | packages/api-client/scripts/generate-dto.ts:67-76 | The text of an inline object reads back as its type if and only if all property names are legal unquoted and no description ends its comment; for names of ASCII, accented Latin and common Chinese characters, numbers of at most 15 digits. |
| DtoLimits.ReferenceIff | packages/api-client/scripts/generate-dto.ts:21-27 | A reference means what the component admits if and only if the name is an identifier that is neither reserved nor predefined, for all names of word characters. |
| DtoLimits.InheritedTypeIff | packages/api-client/scripts/generate-dto.ts:39-96 | A schema of a type name alone fails for want of text if and only if every object inherits a member of that name. |
| DtoLimits.InexactSchemas | packages/api-client/scripts/generate-dto.ts:39-97 | Integer and the bare object admit less than their text says: values that show it. |
| DtoLimits.TrueMemberIsSkipped | packages/api-client/scripts/generate-dto.ts:50-51 | An alternative `true` admits every value and leaves no trace in the text. |
| DtoInterface.ReadEscape | packages/api-client/scripts/generate-dto.ts:182-185 | The quoted form of any property name reads back as the name. |
| DtoInterface.BodyReadsBack | packages/api-client/scripts/generate-dto.ts:168-180 | Every interface body reads back as its properties, whatever their names and whatever follows. |
| DtoInterface.DeclarationReadsBackIff | packages/api-client/scripts/generate-dto.ts:159-180 | A declaration, with its comment, name and body, reads back if and only if its name is a legal type name and no description ends the comment it stands in. |
| DtoFile.RenderAdminApiDto | packages/api-client/scripts/generate-dto.ts:142-165 | The loop over the components, with its current domain, writes the file: header, a heading where the domain is another than the last one named, each declaration, blank lines between; or fails with the first component that has no properties or cannot be written. |
| DtoFile.FileReadsBackIff | packages/api-client/scripts/generate-dto.ts:142-180 | The whole file reads back as one declaration for each component, in order, with a heading comment before exactly those whose domain is another than the last one named, if and only if all component names are legal and no description ends its comment. |
| DtoFile.ComponentIsExact | packages/api-client/scripts/generate-dto.ts:168-180 | For object components that a type can express, the declared interface has exactly the values the schema admits. |
| DtoFile.FileIsExact | packages/api-client/scripts/generate-dto.ts:142-165 | References resolved: an interpretation of the component names fits all interfaces read back from the file if and only if it fits all schemas. |
| SessionLock.StepKeepsInv | packages/db/src/advisory-try-lock.ts:24-57 | If throwing try-locks acquire nothing, every step of every caller, the pool and the server keeps: held locks belong to calls in progress or lost connections, and each key to one session. |
| SessionLock.RunKeepsInv | packages/db/src/advisory-try-lock.ts:24-57 | The same over every interleaving. |
| SessionLock.StepKeepsSafe | packages/db/src/advisory-try-lock.ts:24-57 | Without that hypothesis every step keeps: each call has its own connection, each key is held by one session, and a running call holds its key unless its session was dropped. |
| SessionLock.MutualExclusion | packages/db/src/advisory-try-lock.ts:33-39 | In every interleaving, whatever fails: two calls are inside the callback with one key only if the server dropped the session of one of them. |
| SessionLock.IdleHoldsNothing | packages/db/src/advisory-try-lock.ts:49-55 | No idle pooled connection holds any lock, in any interleaving in which a throwing try-lock acquired nothing. |
| SessionLock.RefusalHasReason | packages/db/src/advisory-try-lock.ts:33-37 | A try-lock is refused only on account of a call in progress with that key or of a connection whose close or release failed. |
| SessionLock.DefectiveStaysOut | packages/db/src/advisory-try-lock.ts:44-52 | A connection whose unlock failed is never idle or reserved again, in whatever interleaving follows. |
| SessionLock.CallCanReturn | packages/db/src/advisory-try-lock.ts:33-55 | From every honestly reached state, a call about to try its lock on a living session, with no other session holding the key, can get through to its end and leaves no trace but an idle connection. |
| SessionLock.LostKeepsLocks | packages/db/src/advisory-try-lock.ts:49-53 | A connection whose close fails without effect keeps its locks until the pool reaps it, and has none then. |
| SessionLock.ReserveIff | packages/db/src/advisory-try-lock.ts:30-30 | In every reachable state exactly the new and the idle connections can be reserved. |
| SessionLock.CallAdvances | packages/db/src/advisory-try-lock.ts:30-56 | No call is ever stuck, its own steps bring it closer to its end, and nobody else's step touches it. |
| SessionLock.DropBreaksExclusion | packages/db/src/advisory-try-lock.ts:39-39 | A session lost while its callback runs lets a second caller in: a run that shows it. |
| SessionLock.DroppedAdmitsSecond | packages/db/src/advisory-try-lock.ts:33-39 | From every reachable state with a call inside the callback on a dropped session, a second one gets in by its first two steps, unless another session has the key. |
| SessionLock.DishonestTryLeavesKeyStuck | packages/db/src/advisory-try-lock.ts:33-36 | A try-lock that acquires and then throws leaves the key held by an idle connection: a run that shows it. |
| TryLockCall.WithSessionTryLock | packages/db/src/advisory-try-lock.ts:24-57 | On every path the connection is released or closed exactly once, never both; after a release or a successful close its session holds nothing. The answer is that nothing ran if and only if the lock was refused and the release did not fail; with the lock granted and neither release nor hook failing, it is the callback's value or its exception, whether or not the unlock failed. |
| TryLockCall.TryLocked | packages/db/src/advisory-try-lock.ts:32-48 | The outer try block, in terms of what lock, callback, unlock and hook do: result, flag, the locks left, and that the callback runs and an unlock is tried if and only if the lock was granted. |
| TryLockCall.UnlockFinally | packages/db/src/advisory-try-lock.ts:40-47 | The inner finally block: the flag is set exactly by a throwing unlock, and a throwing hook's error escapes. |
| TryLockCall.EndsOnce | packages/db/src/advisory-try-lock.ts:48-56 | Every trail of the protocol ends its connection once, as its last step, by closing exactly if an unlock failed. |
| TryLockCall.MachineFollowsProtocol | packages/db/src/advisory-try-lock.ts:24-57 | The interleaved machine moves a call exactly as the statements do. |
| Ledger.CoherentMeans | packages/billing/__test__/real-pg.ts:118-148 | All four queries are empty if and only if transactions balance, each account's legs connect, and balances and in-flight sums agree. |
| Ledger.FindingIsFirst | packages/billing/__test__/real-pg.ts:118-148 | The finding is the first of the four queries that has rows, and the number of its rows. |
| Ledger.QueryRows | packages/billing/__test__/real-pg.ts:118-148 | The rows: transactions with legs that do not cancel, pairs of adjacent legs that do not connect, accounts whose balance or in-flight amount is off. |
| Ledger.ActiveSumIs | packages/billing/__test__/real-pg.ts:142-147 | The in-flight sum adds up the amounts of exactly the active authorizations of the account, part by part. |
| Ledger.OfTxnIs | packages/billing/__test__/real-pg.ts:119-124 | Grouping by transaction keeps each of its legs as often as it is there, in order, and no other. |
| Ledger.ChainQueryIsConnected | packages/billing/__test__/real-pg.ts:126-133 | The query with "no leg in between" finds nothing if and only if the legs of every account connect in id order. |
| Ledger.AdjacentAreNeighbours | packages/billing/__test__/real-pg.ts:127-132 | Two legs of one account without a leg between them are consecutive in id order. |
| Ledger.NeighboursAreAdjacent | packages/billing/__test__/real-pg.ts:127-132 | And consecutive ones have none between them. |
| Ledger.SumByAccountIsSum | packages/billing/__test__/real-pg.ts:135-139 | A sum over legs account by account is the sum over all legs. |
| Ledger.BalancedTransactionsCancel | packages/billing/__test__/real-pg.ts:119-124 | If every transaction sums to zero, so do all legs. |
| Ledger.AccountIdentity | packages/billing/__test__/real-pg.ts:126-140 | On a coherent book each balance is opening plus amounts plus whatever single legs are off by. |
| Ledger.TotalBalance | packages/billing/__test__/real-pg.ts:118-148 | All balances together are the openings plus what single legs are off by; they are zero exactly if those cancel. |
| Ledger.Conservation | packages/billing/__test__/real-pg.ts:118-148 | If legs add up and accounts open at zero, each balance is the sum of its amounts and all balances sum to zero. |
| Ledger.TotalInFlight | packages/billing/__test__/real-pg.ts:142-147 | In-flight amounts of all accounts together are the active authorizations. |
| Ledger.SlipPassesUnseen | packages/billing/__test__/real-pg.ts:118-148 | A coherent book with money from nowhere: no query compares a leg's own before, amount and after. |
| ProviderTable.ApplyKeepsKeys | packages/control-plane/__test__/memory.ts:106-153 | Every operation keeps ids distinct and below the counter, which moves only on an insert that succeeds. |
| ProviderTable.RestoreUndoesDelete | packages/control-plane/__test__/memory.ts:134-153 | Deleting a row and restoring it leaves what retiring it leaves. |
| ProviderTable.OneRowChanges | packages/control-plane/__test__/memory.ts:106-153 | A write changes at most the row it names; an insert that succeeds adds one row, which its name then finds. |
| ProviderTable.InsertedFields | packages/control-plane/__test__/memory.ts:106-116 | A new row has the next id, the given fields, the time as its creation and no mark of deletion; the insert is refused if and only if a row in service has the name. |
| ProviderTable.PatchedFields | packages/control-plane/__test__/memory.ts:124-133 | A patch that is accepted gives each of the five fields its value where it has one and leaves it where it has none; id, creation and deletion mark stay, and the row answered is the one stored in its place. It is refused if and only if the first row in service with the patch's name is another one, and finds nothing if and only if the row is deleted. |
| ProviderTable.FlaggedFields | packages/control-plane/__test__/memory.ts:134-153 | Retire and soft delete answer true exactly for a row in service, restore exactly for a deleted one; then the status is 1, the deletion mark is the time after a soft delete and none otherwise, and nothing else changes. |
| ProviderTable.UnknownId | packages/control-plane/__test__/memory.ts:124-153 | A write to an id that no row has changes nothing and says so. |
| ProviderTable.ApplyKeepsNamesUnique | packages/control-plane/__test__/memory.ts:106-153 | Names in service stay unique if and only if the operation is no restore of a name in service. |
| ProviderTable.InitialIsWellKeyed | packages/control-plane/__test__/memory.ts:101-102 | A store seeded with any rows, repeated ids included, starts with distinct ids below its counter. |
| ProviderTable.InitialTable | packages/control-plane/__test__/memory.ts:101-102 | It starts with exactly the last seed row of each id, in the order of the first ones; the first free id is one more than the greatest seed id, or one. |
| ProviderTable.RunInTurn | packages/control-plane/__test__/memory.ts:69-79 | A body makes its writes one after the other on what the ones before leave, up to the first refusal it does not catch. |
| ProviderTable.IdsAreNeverReused | packages/control-plane/__test__/memory.ts:69-112 | Over any run of transactions, rolled back or not, with refused writes caught or not, new ids count up without a gap or a repeat. |
| ProviderTable.BodyRestoresIff | packages/control-plane/__test__/memory.ts:147-153 | A body makes such a restore if and only if it reaches a restore of a deleted row whose name a row in service has. |
| ProviderTable.NamesStayUnique | packages/control-plane/__test__/memory.ts:106-153 | Over any run of transactions without such a restore in a committed body, names in service stay unique. |
| ProviderStore.Store.constructor | packages/control-plane/__test__/memory.ts:100-102 | The seeded map, a repeated id overwriting its row, and the first free id. |
| ProviderStore.Store.Write | packages/control-plane/__test__/memory.ts:106-153 | Each operation on the heap does to the contents what the table's operation says, replies included. |
| ProviderStore.Store.Insert | packages/control-plane/__test__/memory.ts:106-116 | Insert appends a row under the next id or throws on a name in service. |
| ProviderStore.Store.Update | packages/control-plane/__test__/memory.ts:124-133 | Update writes the patch into the row object in place, or throws on a clash, or finds nothing; which fields it writes is `ProviderTable.PatchedFields`. |
| ProviderStore.Store.SetFlags | packages/control-plane/__test__/memory.ts:134-153 | Retire, soft delete and restore in place. |
| ProviderStore.Store.Snapshot | packages/control-plane/__test__/memory.ts:84-85 | The snapshot is made of new objects with the same field values. |
| ProviderStore.Store.Transaction | packages/control-plane/__test__/memory.ts:69-92 | A body that throws leaves exactly the rows and field values from before, in new objects, and the counter where it had come; one that returns leaves what its writes leave. |
| MappingBindings.Store.constructor | packages/control-plane/__test__/memory.ts:522-522 | The seeded rows have distinct ids and arrays of their own, each that of the last seed row of its id. |
| MappingBindings.Store.Perform | packages/control-plane/__test__/memory.ts:606-663 | Replacing assigns a new array; ensuring adds one binding at the end of the array in place unless the channel is bound; no other row changes. |
| MappingBindings.Store.Transaction | packages/control-plane/__test__/memory.ts:69-92 | After a rollback each row refers to its old array, with every push it got before the row had a new one. |
| MappingBindings.AfterInTurn | packages/control-plane/__test__/memory.ts:606-663 | The operations of a body act in turn, each on what the ones before leave; ensuring adds a binding at the end unless the channel is bound, replacing takes the new bindings. |
| MappingBindings.LeakedIs | packages/control-plane/__test__/memory.ts:84-92 | What a rolled-back body leaves in a row is what the row had before its first replacement, or at the end if it had none. |
| MappingBindings.RollbackRestoresIff | packages/control-plane/__test__/memory.ts:84-92 | Rollback restores a row's bindings if and only if no channel that the row did not have was ensured before its first replacement. |
| PgError.PgSqlState | packages/db/src/pg-error.ts:24-50 | The walk along the causes finds the state of the first layer that has one, over a chain of any length. |
| PgError.StateWord | packages/db/src/pg-error.ts:16-22 | A state is five ASCII capitals or digits with a digit among them. |
| PgError.StateOfLayer | packages/db/src/pg-error.ts:33-42 | A layer's state is the text of `code` if that is a state, and otherwise that of `errno` if that is one. |
| PgError.FirstState | packages/db/src/pg-error.ts:44-50 | It is none exactly if no layer has a state, and otherwise the state of some layer, with a digit in it. |
| PgError.FirstStateIff | packages/db/src/pg-error.ts:44-50 | A chain has a state if and only if some layer carries it and none above has one. |
| PgError.SearchEndsIff | packages/db/src/pg-error.ts:24-67 | Over any heap of errors, cycles included, the search for a state ends if and only if the chain ends or a layer has a state; the search for a constraint, if and only if the chain ends or a layer has the state 23505. |
| PgError.SearchesPart | packages/db/src/pg-error.ts:24-67 | On an error with another state that is its own cause, the first search ends at once and the second never. |
| PgError.SearchIsFirstVerdict | packages/db/src/pg-error.ts:24-67 | Where a search ends, its answer is that on the chain as a finite value. |
| PgError.FirstVerdictIs | packages/db/src/pg-error.ts:44-67 | Those answers are the first state, and the constraint of the first unique violation. |
| PgError.IsUniqueViolation | packages/db/src/pg-error.ts:53-55 | Exactly the first state being 23505. |
| PgError.UniqueViolationConstraint | packages/db/src/pg-error.ts:60-67 | The constraint of the first unique violation layer, if it is text. |
| PgError.ConstraintMatchesState | packages/db/src/pg-error.ts:60-67 | The constraint's layer decides the classification if and only if no state lies above it. |
| PgError.ConstraintWithoutViolation | packages/db/src/pg-error.ts:57-67 | An error with a constraint name that is no unique violation exists. |
| PgError.TransientTxFailureCode | packages/db/src/pg-error.ts:70-73 | It answers 40P01 or 40001 exactly if a layer carries that code and no layer above it has any state. |
| PgError.WrappingIsInvisible | packages/db/src/pg-error.ts:24-73 | Any number of layers without a state changes neither state, nor transient code, nor the layer the constraint comes from. |
| PgError.PgErrorCode | e2e/gateway/kit.ts:104-114 | The depth-bounded loop finds the word of the first of the first five layers that has a five-wide word in `code` or else in `errno`, and none exactly if none has. |
| PgError.AgreementOnHit | e2e/gateway/kit.ts:104-114 | Where the kit finds a word, it agrees with the classifier if and only if the word has a digit and no callable lies on or above its layer. |
| PgError.AgreementWithoutHit | e2e/gateway/kit.ts:104-114 | Where it finds none, they agree if and only if no object from the sixth layer on has a state. |
| PgError.ShortChainsAgree | e2e/gateway/kit.ts:104-114 | They agree on at most five object layers whose five-wide words have digits. |
| PgError.FiveWrapsHideFromTheKit | e2e/gateway/kit.ts:107-112 | Five layers without a code hide any error from the kit. |
| PgError.ChainMessages | e2e/gateway/kit.ts:130-139 | The messages of the first five layers, in order. |
| PgError.ReplayTolerates | e2e/gateway/kit.ts:142-146 | Tolerated exactly for a listed file, code 42P01, and a message among the first five that names a missing relation. |
| PgError.MissingRelationIs | e2e/gateway/kit.ts:145-145 | A message counts if and only if it is some text, `relation "`, a name of at least one character without a quote, `" does not exist`, and any text. |
| TxRetry.Database.Transaction | packages/db/src/transaction.ts:51-53 | If the body returns and the commit is not refused, the body's value, its state and one commit; otherwise the error and the old state. |
| TxRetry.Database.RunTx | packages/db/src/transaction.ts:45-70 | The final state is what the last attempt makes of a state no failed attempt touched, or that untouched state with the last error; one wait of the stated length for each retry; hook calls numbered from one and with the code. |
| TxRetry.LastIsUnique | packages/db/src/transaction.ts:51-56 | Which attempt is the last does not depend on hook or random source, and there are at most max(1, maxAttempts). |
| TxRetry.LastMeans | packages/db/src/transaction.ts:51-56 | Every attempt before the last failed with a first state 40P01 or 40001 and was not one too many; the last was, or did not fail so. |
| TxRetry.DelayIs | packages/db/src/transaction.ts:62-68 | A wait is the base delay times two to the attempt, and the whole part of the drawn share of the jitter. |
| TxRetry.BackoffBounds | packages/db/src/transaction.ts:62-68 | After k retries the waits sum to between base times (2^k - 1) and that plus k times (maxJitter - 1). |
| ErrorRecord.RecordIsTruncation | packages/errors/src/error-record.ts:85-140 | For every heap, cyclic or not, the record has the first eleven layers of the unfolded cause chain or all of fewer, each decided by its own value. |
| ErrorRecord.RecordsAgree | packages/errors/src/error-record.ts:94-140 | Two values have equal records if and only if their first eleven layers agree. |
| ErrorRecord.EndlessChainIsCut | packages/errors/src/error-record.ts:32-32 | A chain without end gives eleven layers. |
| ErrorRecord.SelfCauseIsEndless | packages/errors/src/error-record.ts:137-140 | An error that is its own cause has such a chain. |
| ErrorRecord.FlattenIsInjective | packages/errors/src/error-record.ts:34-60 | A record is determined by its layers. |
| ErrorRecord.LastWriterWins | packages/errors/src/error-record.ts:115-119 | A merged context has the keys of all its parts, each with the value of the last part that has it. |
| ErrorRecord.ContextOfRecord | packages/errors/src/error-record.ts:115-119 | The record of a contract error has a context exactly if the error has one or an annotation, and exactly their keys. |
| ErrorRecord.ValueInRecord | packages/errors/src/error-record.ts:115-119 | A key's value in it is that of the last annotation that has the key, and otherwise that of the error's own context. |
| ErrorRecord.FactsOfRecord | packages/errors/src/error-record.ts:95-134 | A contract error keeps its nature, code, message and delay; any other error is a defect `errors.unhandled` with its name as context and its message, or its name, or a fixed text; any other value is `errors.non_error` with its text. |
| ErrorRecord.ContractError.Annotate | packages/errors/src/nature.ts:126-134 | The same error with one more annotation at the end and nothing else changed. |
| ErrorRecord.AnnotationAddsContext | packages/errors/src/nature.ts:120-134 | In every record that reaches the error, an annotation changes that layer's context alone: new keys win, old ones stay. |
| Catalog.DefineErrorCatalog | packages/errors/src/definition.ts:103-133 | Accepts exactly well-formed namespaces, keys and definitions, keeps category, message and translation of each under its key, and otherwise names the first fault. |
| Catalog.FaultNames | packages/errors/src/definition.ts:107-117 | The fault named is the first that the entry has, in the order key, definition, category, message, translation, with the full code as its value. |
| Catalog.IdentifierIs | packages/errors/src/definition.ts:61-62 | An identifier is a lower-case ASCII letter followed by such letters, digits and underscores. |
| Catalog.GetOfCode | packages/errors/src/definition.ts:119-129 | The code of a key answers with the key's definition, and the key's entry carries that code. |
| Catalog.HasExactly | packages/errors/src/definition.ts:123-126 | A catalogue answers exactly its own codes, and those of inherited names it does not define. |
| Catalog.EntryExactly | packages/errors/src/definition.ts:82-97 | An entry is issued exactly for its own keys and for `constructor`; a key that is no identifier is refused as malformed, with its code, any other as missing. |
| Catalog.CodesDecode | packages/errors/src/definition.ts:61-71 | A code has one namespace and one key. |
| Catalog.ComposeErrorCatalogs | packages/errors/src/definition.ts:139-167 | Refuses exactly a repeated namespace and names the first repetition; otherwise lists the codes in order. |
| Catalog.CodesInOrder | packages/errors/src/definition.ts:120-163 | The codes are the namespace, a dot and the key, in the order of the keys, and of the catalogues. |
| Catalog.Lookup | packages/errors/src/definition.ts:155-161 | The first catalogue that answers. |
| Catalog.AtMostOneAnswers | packages/errors/src/definition.ts:155-161 | No code is answered by two catalogues of different namespaces. |
| Catalog.OrderIsIrrelevant | packages/errors/src/definition.ts:155-161 | The answer does not depend on the order of the catalogues. |
| Catalog.ComposedHasExactly | packages/errors/src/definition.ts:155-166 | The composition answers exactly the listed codes and the inherited names, each code with its key's definition. |
| Catalog.CodesDistinct | packages/errors/src/definition.ts:162-163 | The listed codes have no repetition. |
| SseStream.Handle.Feed | e2e/live-fire/lib/h.ts:152-171 | One piece is appended and all whole frames are taken off, with the text accumulated. |
| SseStream.Handle.TakeFrame | e2e/live-fire/lib/h.ts:160-169 | One frame's data lines become chunks in order; the end mark and other lines do not. |
| SseStream.Handle.Read | e2e/live-fire/lib/h.ts:148-173 | Whatever the pieces, text, chunks and leftover are those of taking the whole text at once. |
| SseStream.TakeTwice | e2e/live-fire/lib/h.ts:155-171 | Taking two texts one after the other is taking them together. |
| SseStream.FedIsOneShot | e2e/live-fire/lib/h.ts:148-171 | Any number of pieces is taken as their concatenation. |
| SseStream.CuttingIsInvisible | e2e/live-fire/lib/h.ts:148-171 | Two cuttings of one text give the same chunks and leftover, which has no frame end in it. |
| SseStream.CutStreamReadsBack | e2e/live-fire/lib/h.ts:148-171 | A stream of valid events, cut in any way, is read back as exactly its payloads, each parsed if it is JSON and as text if not, with nothing left over. |
| SseStream.PayloadsInOrder | e2e/live-fire/lib/h.ts:160-164 | The payloads of an event are those of its data lines in order, the end mark left out. |
| MapLimit.EveryRun | e2e/live-fire/load.ts:37-54 | Every interleaving keeps: indices are claimed once and in order, a slot holds the answer of its own index or nothing, and the rejection is one of a failed call; the steps taken and those left are bounded. |
| MapLimit.AtMostLimitInFlight | e2e/live-fire/load.ts:44-51 | In every reachable state at most `limit` calls are in flight, none if it is below one, and at most as many as there are items; no index is handed out twice. |
| MapLimit.LimitIsReached | e2e/live-fire/load.ts:44-51 | For every limit of at least zero some schedule has exactly the smaller of limit and number of items in flight. |
| MapLimit.NoIdleWorker | e2e/live-fire/load.ts:45-50 | While no call failed, all workers are in a call or nothing is left to claim. |
| MapLimit.RefinesMap | e2e/live-fire/load.ts:37-54 | At the end the array is the plain map if and only if no call fails and the limit is at least one or there are no items. |
| MapLimit.FirstFailureStands | e2e/live-fire/load.ts:44-52 | The failure that comes first in the schedule is the one the caller sees, whatever fails later. |
| MapLimit.Run | e2e/live-fire/load.ts:37-54 | The workers over a shared counter and array, under any scheduling, keep the limit at every moment and end with the answer of `fn` for every item when no call fails, and with the error of some call otherwise. |
| Scheduler.EveryRun | apps/worker/src/scheduler.ts:40-107 | Over every run of register, start, fire, settle, stop and resolve, timers, ticks and stops are what the run itself says. |
| Scheduler.OneTimerPerJob | apps/worker/src/scheduler.ts:78-97 | Running, each job of the last start has one live timer and there are no others; stopped, none lives. |
| Scheduler.NoTickWhileStopped | apps/worker/src/scheduler.ts:84-87 | A tick begins only while running, for a job of the last start. |
| Scheduler.InFlightExactly | apps/worker/src/scheduler.ts:46-51 | The ticks in flight are those begun and not settled, and each settles at most once. |
| Scheduler.StopWaits | apps/worker/src/scheduler.ts:91-100 | A stop resolves once, and before its grace period is over only when every tick begun before it has settled. |
| Scheduler.ResolvesIff | apps/worker/src/scheduler.ts:91-100 | A stop that waits can resolve if and only if those ticks have settled, or the time is past both the stop and the end of the grace period. |
| Scheduler.StartIsIdempotent | apps/worker/src/scheduler.ts:78-80 | A second start changes nothing. |
| Scheduler.SnapshotsStick | apps/worker/src/scheduler.ts:53-73 | A snapshot shows the latest result and the latest error, each until the next of its kind. |
| Scheduler.SnapshotTimes | apps/worker/src/scheduler.ts:53-73 | A snapshot shows when the latest tick of the name began and when the latest settled. |
| Scheduler.SnapshotExists | apps/worker/src/scheduler.ts:53-61 | A name has a snapshot if and only if a tick of it has begun. |
| Scheduler.StaleResultIsShown | apps/worker/src/scheduler.ts:62-73 | A run that ends with a failing tick and shows the result of the tick before. |
| Scheduler.LoopScheduler.StartAll | apps/worker/src/scheduler.ts:78-90 | The loop arms one new timer for each registered job, unless running. |
| Scheduler.LoopScheduler.OnTimer | apps/worker/src/scheduler.ts:84-87 | A firing timer registers a tick and stamps the job's snapshot. |
| Scheduler.LoopScheduler.OnSettled | apps/worker/src/scheduler.ts:62-73 | A settled tick leaves the set and writes result or error, and the time. |
| Scheduler.LoopScheduler.StopAll | apps/worker/src/scheduler.ts:91-100 | Stop clears every timer ever made and waits for the ticks of that moment. |
| Scheduler.LoopScheduler.Snapshots | apps/worker/src/scheduler.ts:104-106 | The report has exactly the registered names, with none for a job that never ticked. |
| ComponentRule.EnclosingFunctionName | oxlint-plugins/multi-component/rules/no-multi-component.ts:43-60 | The walk along the parents ends at the enclosing function and gives its display name, none exactly at module level. |
| ComponentRule.EnclosingIsNearest | oxlint-plugins/multi-component/rules/no-multi-component.ts:44-48 | That function is the nearest of all functions above. |
| ComponentRule.DisplayNameIs | oxlint-plugins/multi-component/rules/no-multi-component.ts:50-59 | Its name is its own unless it is an arrow or has none, then that of the variable or property it stands in, then `(anonymous)`. |
| ComponentRule.ComponentNameIs | oxlint-plugins/multi-component/rules/no-multi-component.ts:11-31 | A component or hook name starts with an ASCII capital, or with `use` and one. |
| ComponentRule.DefinitionIff | oxlint-plugins/multi-component/rules/no-multi-component.ts:93-107 | A function is a definition if and only if a visited node names it with such a name: itself, or the variable it initialises. |
| ComponentRule.Rule.Collect | oxlint-plugins/multi-component/rules/no-multi-component.ts:68-91 | A function is counted once; a nested one is reported and advances the counter; a further one is reported when it is one too many. |
| ComponentRule.Rule.Visit | oxlint-plugins/multi-component/rules/no-multi-component.ts:93-107 | After each visit there is no report if and only if the definitions seen so far are few enough and not nested. |
| ComponentRule.Check | oxlint-plugins/multi-component/rules/no-multi-component.ts:62-108 | In any order of visits, however often a function is reached: a file has no report if and only if it is no `.tsx` file, or has at most the allowed number of definitions and none nested; and it has one report for each nested definition. |

## Left out

- The settlement machine, funding waterfall, rating, routing, adapters and stream relay: their bodies are not part of this model.
- Assembly, configuration, HTTP, Redis, queues, mail and all end-to-end journeys: wiring and I/O.
- DtoFile.RenderAdminApiDto: what the header comment says is a parameter; component and property names are distinct, as keys of an object are.
- DtoInterface.DeclarationReadsBackIff: names are sequences of Unicode scalars, so the escape of a lone surrogate is not modelled; of letters beyond ASCII only accented Latin and common Chinese ones are settled.
- DtoFile.FileIsExact: an interface named `Record` would hide the map type, so such a component is covered only in files that use no map.
- DtoFile.FileReadsBackIff: a domain is taken to fit on one line, since a line break in it would end the heading.
- DtoMeaning.CompiledTypeIsExact: the condition on schemas is sufficient, not necessary; an alternative can make another's inexactness harmless, such as integer beside number.
- DtoMeaning.CompiledTypeLosesNoValue: text that the splitter misreads can still come out right by chance; such schemas are not covered.
- DtoLimits.InheritedTypeIff: for a type name that the table answers with an inherited member the model fails; the code returns that member, which a template then writes out and the splitter cannot iterate over.
- DtoLimits.LiteralListIff: literals with a bar in them are covered by `Splitter.StaysIff` only; so are descriptions.
- DtoBalance.CompiledTextIsBalanced: for trees in which every comment and literal returns the scanner; two that are off can make up for each other.
- Constants and enumeration values other than strings, numbers, booleans and null; numbers are their canonical text; `properties` and `required` have distinct names.
- Types are read as what they say of JSON values by their form: that a string or a list also has members, such as `length`, which an object type of one property could ask for, is left aside.
- TsRoundTrip.ParsePrint: the parser reads the layout the generator writes (its spaces and separators), not all of TypeScript's grammar.
- SessionLock.MutualExclusion: a session the server has dropped is excepted, because the server frees its locks while the callback still runs.
- Key hashing: two keys with one hash are one key.
- Ledger: amounts are integers, not decimals; legs are listed in id order with distinct ids, and every leg has an account.
- ProviderStore: dates and prices are integers; the listing operations are left out, and the write operations of channels and mappings are like those of providers, apart from the bindings, which `MappingBindings` models.
- ProviderTable.NamesStayUnique: one direction over runs, because a repeated name can disappear again; for one operation the condition is exact.
- PgError.PgSqlState: the method runs on chains that end; `PgError.SearchEndsIff` says when a chain on a heap does. Getters on thrown objects are fields here.
- PgError.UniqueViolationConstraint: the same.
- TxRetry: a commit is applied exactly if it is not refused; an answer lost after the commit is not modelled. Policy numbers are integers.
- ErrorRecord: JSON values are their text, and records carry no frozen flag.
- Catalog: definitions have no fields beyond category, message and zh; the object that inherited lookups return is not described further.
- SseStream: decoding of bytes and the abort and error endings; after any number of pieces the state is that of `SseStream.Handle.Feed`.
- Scheduler: an `onError` that throws, and timers' real times; a stop's deadline is compared with the clock given at its resolution.
- ComponentRule: a function is identified with the place where it starts, which no two functions share; report positions are left out.
