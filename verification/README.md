# Badis in Dafny

Badis is a Redis-like server. A replicated state machine executes about 25 write commands over strings, hashes,
lists and sets. Everything it keeps lies in one ordered byte-keyed store, together with the Raft log, the Raft stable
store and the Lua scripts. This project models that state machine, the glob matcher behind KEYS, the Raft log over the
shared keyspace, the Lua bridge, the request parsing that feeds them and the CRC-16 key slots, and proves what each of
them is meant to guarantee. Nothing here executes the original program.

## How it is laid out

- `Octets`, `Decimal`, `Store`, `Collections`, `Commands`: bytes and their order, decimal conversion, rows and the
  clock, and the values, commands and replies.
- `Fsm`: the state machine on rows as functions. A Redis key is a value row `'K' + key` and a type row `'T' + key`,
  each with its own deadline in whole seconds; 0 means none.
- `Database`, `Loops`, `Machine`, `Queries`, `ScriptMachine`: the same code as the source writes it, rows updated in
  place and loops over arguments, each method proved against the functions.
- `Typed`: the reference, a map from key to a typed value and one deadline. `Refinement` and `Readers` prove that the
  rows implement it; `TypeRows` proves what runs keep between the two rows of a key.
- `Lifetimes`, `Deadlines`: what deadlines take away and what rounding does to them. `Replicas`, `Locks`, `Counters`,
  `ListLaws`, `Ledgers`, `ReadBack`: theorems about whole runs, most of them proved on the typed map and carried over to
  the rows. `Limits` shows by small runs that their hypotheses are needed.
- `CommandLaws`: command by command, the answer and what is left, in plain terms of positions, members and integers,
  on the typed map and so on the rows.
- `Handlers`, `SetOptions`: requests to commands, and the two parsers of the SET options. `Expiry` follows a deadline
  from the request to the TTL that is read back, `Bridge` sets scripts beside the handlers, `Spelling` spells out the
  words that appear as bytes.
- `DataRows`, `Scripts`: the rows of Redis data, the Lua bridge and script atomicity. `RaftLog`, `Isolation`: the Raft
  log, the stable store and the four name spaces of the one keyspace. `Histories`: mixed runs of commands, scripts and
  Raft operations as plain runs. `ScriptReplicas`: replica agreement with scripts in the log.
- `Glob`, `Crc`: the pattern matcher and the key slots.
- `Witnesses`: a lawful codec, a lawful log codec and an orderly environment exist, so the hypotheses can be met.

## What became a parameter

- The clock: a nanosecond count, one reading per transaction, never going back within a run (`Clocked`). Replicas have
  clocks of their own.
- MessagePack: any codec whose decoding undoes its encoding (`Lawful`, `LawfulLog`).
- The iteration order of a Go map: any enumeration of its keys, chosen anew for every transaction (`Orderly`).
- SHA-1 and the Lua interpreter (`Host`). A script is a strategy: from the results of its calls so far it picks the next
  call, an end or an error. A number of calls bounds each level of nesting and every theorem holds for every bound.
- A Go run-time panic inside a command is the fault `Panic`. It ends a script even under `redis.pcall`, though not under
  Lua's own `pcall`.

`docs/architecture.md` gives the state machine data the prefix `D` or none. The code uses `K` and `T`, and so does the
model.

## Model

| member | source | states |
|---|---|---|
| `Refinement.RunRefines` | store/fsm.go:389-956 | Refinement over whole runs: from states in step, every clocked run of the rows gives exactly the replies and errors of the typed map and ends in step with it at every key, unless an EXPIRE pushes a collection past its type row |
| `Refinement.ApplyKeepsStep` | store/fsm.go:389-956 | one command keeps any key in step with the typed map, whatever it does to other keys |
| `Refinement.ApplyAnswers` | store/fsm.go:389-956 | every reply and every error is the typed one |
| `Refinement.RunRefinesAt` | store/fsm.go:389-956 | refinement is local: a key stays in step in every run that respects its own type row, even if other keys have lost theirs |
| `Refinement.KeyRunRefines` | store/fsm.go:389-956 | a run of commands on one key needs only that key to be in step to give the typed replies, unless an EXPIRE pushes it past its type row |
| `Refinement.InStepLater` | store/fsm.go:60-83 | time alone never breaks the refinement: both sides lose an entry in the same second |
| `Refinement.ExpireRefinesExactly` | store/fsm.go:552-568 | after an EXPIRE the rows show the typed entry at every later moment if and only if the new deadline is within the type row's |
| `Refinement.FreshStoreSimulates` | store/fsm.go:198-206 | the empty store is in step with the empty map at any time |
| `Refinement.PerformKeepsStep` | store/fsm.go:34-46 | writing, dropping or retiming the rows of a key is the matching change of its typed entry |
| `Refinement.PerformFrame` | store/fsm.go:20-46 | a write on one key leaves both rows of every other key alone |
| `Refinement.DelAllEffect` | store/fsm.go:472-488 | after DEL no named key is visible and the rows of every other key are as before |
| `Refinement.FlushHidesKey` | store/fsm.go:500-512 | after FLUSHDB no key is visible |
| `Limits.LongerExpireLosesTheType` | store/fsm.go:552-568 | one run of handler-built commands from the empty store outside the hypothesis: HSET, EXPIRE 10, HSET and EXPIRE 100 in second 1 and HSET in second 50; the rows refuse the last with WRONGTYPE, the typed map accepts it, and the first four replies agree |
| `Readers.KeyReadsAgree` | store/fsm.go:209-338 | GET, EXISTS, TYPE, TTL, PTTL, and MGET of a string, answer from the typed entry, including WRONGTYPE and the -2 and -1 answers |
| `Readers.HashReadsAgree` | store/fsm.go:983-1063 | the hash readers see exactly the typed hash, or WRONGTYPE |
| `Readers.ListReadsAgree` | store/fsm.go:1089-1133 | LRANGE with any bounds is the typed slice of the typed list, or WRONGTYPE |
| `Readers.SetReadsAgree` | store/fsm.go:1135-1212 | SMEMBERS lists every member of the typed set once and nothing else, so SCARD is its size |
| `Readers.CountsEachKey` | store/fsm.go:250-265 | EXISTS of one key is 1 or 0 and of a list the sum over its parts |
| `Readers.UntypedReadsAsString` | store/fsm.go:60-68 | a value row without a visible type row reads as a string |
| `Readers.MGetIgnoresTypes` | store/fsm.go:228-248 | MGET answers for every key that is there, with the packed bytes of a collection |
| `Queries.Exists` | store/fsm.go:250-265 | EXISTS counts a visible key as often as it is named |
| `Queries.GetStrings` | store/fsm.go:228-248 | MGET answers each position with the raw value row of its key, untyped |
| `Queries.HMGet` | store/fsm.go:1051-1063 | each position holds the field of the hash or nil; a wrong type and an undecodable payload are the errors |
| `Queries.Keys` | store/fsm.go:340-359 | KEYS lists exactly the visible keys the pattern matches, each once, in byte order; it fails if and only if the pattern stumbles on some visible key |
| `Loops.HasMember` | store/fsm.go:1185-1212 | SISMEMBER is 1 exactly for members |
| `Fsm.FailureWritesNothing` | store/fsm.go:389-956 | a command that returns an error has written no row, even inside a transaction that goes on |
| `Fsm.ApplyOnKey` | store/fsm.go:369-387 | a command on one key, committed or rolled back, is one decision on what it sees and one effect on the key's two rows |
| `Machine.ApplyString` | store/fsm.go:394-460 | SET, GETSET and APPEND in place: NX/XX, the old value, the carried TTL and WRONGTYPE as decided on the two rows |
| `Machine.ApplyMSet` | store/fsm.go:461-471 | MSET in place writes all pairs left to right, whatever the keys held before, or none |
| `Machine.ApplyDel` | store/fsm.go:472-499 | DEL in place removes both rows of every visible key and answers with the number of different ones; the form without arguments removes only the value row |
| `Machine.FlushPrefix` | store/fsm.go:500-512 | the delete-while-iterating loop removes exactly the visible rows under a prefix |
| `Machine.ApplyFlushDb` | store/fsm.go:500-512 | FLUSHDB in place removes every visible value row and type row and nothing else |
| `Machine.ApplyCounter` | store/fsm.go:513-551 | the counter commands in place, with 64-bit wrap-around, unparsable values and the carried TTL |
| `Machine.ApplyExpire` | store/fsm.go:552-568 | EXPIRE in place rewrites the value row's deadline and leaves the type row's |
| `Machine.ApplyPersist` | store/fsm.go:569-592 | PERSIST in place rewrites both rows without a deadline, under the type the key reads as |
| `Machine.ApplyHSet` | store/fsm.go:593-631 | HSET and HSETNX in place answer with the number of new fields and keep the TTL |
| `Machine.ApplyHDel` | store/fsm.go:632-665 | HDEL in place answers with the number of removed fields and drops an empty hash |
| `Machine.ApplyPush` | store/fsm.go:666-699 | the four pushes in place; LPUSHX and RPUSHX do nothing on a missing key |
| `Machine.ApplyPop` | store/fsm.go:700-758 | LPOP and RPOP in place, with or without a count, drop an emptied list |
| `Machine.ApplyTrim` | store/fsm.go:759-788 | LTRIM in place keeps the slice and drops an emptied list |
| `Machine.ApplyRem` | store/fsm.go:789-837 | LREM in place, both directions, answers with the number of removed copies |
| `Machine.ApplySAdd` | store/fsm.go:838-877 | SADD in place stores the union in some order and answers with the number of new members |
| `Machine.ApplySRem` | store/fsm.go:878-950 | SREM in place stores the difference or drops an emptied set |
| `Machine.ApplySPop` | store/fsm.go:878-950 | SPOP in place hands out a beginning of the iteration order and stores the rest |
| `Machine.ApplyCmdInTxn` | store/fsm.go:389-956 | the dispatch on the command name leaves the rows and the result of the row-level function |
| `Machine.ApplyLog` | store/fsm.go:369-387 | Apply commits on success and restores every row on an error |
| `Loops.PutFields` | store/fsm.go:614-625 | the HSET loop applies the pairs left to right and counts the growth of the hash |
| `Loops.DropFields` | store/fsm.go:650-657 | the HDEL loop removes the named fields and counts what was there |
| `Loops.PushEach` | store/fsm.go:687-693 | pushing one by one at the front reverses the arguments |
| `Loops.PopEach` | store/fsm.go:734-743 | popping from either end takes that end, in pop order, and leaves the rest |
| `Loops.SliceList` | store/fsm.go:163-183 | the clamped bounds give the inclusive slice, empty when they cross |
| `Loops.RemoveForwards` | store/fsm.go:808-817 | the forward LREM loop drops the first copies up to the limit |
| `Loops.RemoveBackwards` | store/fsm.go:818-827 | the backward LREM loop drops the last copies up to the negated limit, which wraps |
| `Loops.AddMembers` | store/fsm.go:860-867 | the SADD loop is set union and counts its growth |
| `Loops.RemoveMembers` | store/fsm.go:906-915 | the SREM loop is set difference and counts its loss |
| `Loops.TakeMembers` | store/fsm.go:916-928 | the SPOP loop takes the first members of the iteration order and leaves the others |
| `TypeRows.RunKeepsOutlived` | store/fsm.go:34-46 | in every clocked run, and at every later moment, a live value row has a type row that lasts at least as long, unless an EXPIRE outlasts the type row |
| `TypeRows.ApplyKeepsOutlived` | store/fsm.go:389-956 | every command keeps that at every key |
| `TypeRows.ExpireOutlivedExactly` | store/fsm.go:552-568 | an EXPIRE keeps it if and only if its deadline is within the type row's |
| `TypeRows.RunKeepsPaired` | store/fsm.go:389-956 | in every run of handler-built commands without EXPIRE the two rows of a key are there together with one deadline, the payload decodes as the type says, and no stored hash, list or set is empty or, for sets, has duplicates |
| `TypeRows.HandlersBuildWholeCommands` | server/server.go:365-1153 | no command a handler builds fails for its arity, its name or an index out of range |
| `CommandLaws.FailuresExactly` | store/fsm.go:389-956 | a handler-built command fails exactly for a value of another type or a number it cannot read, with that error, and then changes nothing |
| `CommandLaws.StringAnswers` | store/fsm.go:394-460 | SET answers OK or nil, with GET and for GETSET the old value; NX and XX hold a write back; APPEND answers with the length of what is then stored |
| `CommandLaws.CounterAnswers` | store/fsm.go:513-551 | INCR, DECR, INCRBY and DECRBY answer with, and store, the 64-bit sum or difference of the two numerals |
| `CommandLaws.DeadlineAnswers` | store/fsm.go:552-592 | EXPIRE and PERSIST answer 1 exactly when they change a deadline, and keep the value |
| `CommandLaws.HSetAnswers` | store/fsm.go:593-631 | HSET and HSETNX answer with the number of named fields that were not there |
| `CommandLaws.HDelAnswers` | store/fsm.go:632-665 | HDEL leaves exactly the other fields with their values, answers with the number taken, and drops an emptied hash |
| `CommandLaws.PushAnswers` | store/fsm.go:666-699 | the four pushes position by position; the X forms do nothing without a list |
| `CommandLaws.PopAnswers` | store/fsm.go:700-758 | the pops position by position: as many as the count says, one without a count, at most all, and an emptied list is dropped |
| `CommandLaws.TrimAnswers` | store/fsm.go:759-788 | LTRIM leaves exactly the positions within its bounds, from either end |
| `CommandLaws.RemAnswers` | store/fsm.go:789-837 | LREM answers with the number of copies taken: all for 0, otherwise up to the limit |
| `CommandLaws.SAddAnswers` | store/fsm.go:838-877 | SADD leaves the union and answers with the number of members that were not there |
| `CommandLaws.SRemAnswers` | store/fsm.go:878-950 | SREM leaves the difference, answers with the number taken, and drops an emptied set |
| `CommandLaws.DelAnswers` | store/fsm.go:472-488 | DEL answers with the number of different keys that were there and leaves the others |
| `CommandLaws.FlushAnswers` | store/fsm.go:500-512 | FLUSHDB answers OK and leaves no key |
| `CommandLaws.MSetAnswers` | store/fsm.go:461-471 | MSET refuses an odd number of words and leaves the keys it does not name |
| `Handlers.HandleSet` | server/server.go:219-302 | SET is turned away for its length or its options, or becomes the command the options describe |
| `Handlers.HandleFlushDb` | server/server.go:696-706 | FLUSHDB takes nothing, SYNC or ASYNC in any case |
| `Handlers.LongSync` | server/server.go:701-704 | "sync" written with a long s (U+017F) counts as SYNC |
| `Handlers.HandleExpire` | server/server.go:741-752 | EXPIRE takes an integer and sends it as milliseconds, wrapping |
| `Handlers.HandleWords` | server/server.go:602-1153 | the other write handlers reject by length or by a bad integer, and otherwise build a whole command with the request's key and arguments |
| `Handlers.CollectArgs` | server/server.go:370-373 | the append loop copies the words in order |
| `Handlers.EveryWholeCommandHasARequest` | server/server.go:365-1153 | every handler-built command is built from some request, so the hypothesis of the run theorems is no stronger than the handlers |
| `Handlers.ArityIsShape` | server/server.go:365-1153 | how many words each request may have: the fewest, and none, one, any number or any even number more |
| `Handlers.NumbersAreChecked` | server/server.go:741-1153 | where a handler insists on a number it takes exactly the 64-bit numerals, for the count of SPOP those that are not negative |
| `Handlers.NothingElseIsTaken` | server/server.go:741-1153 | ... and nothing that is no numeral |
| `Replicas.ReplicasAgree` | store/fsm.go:369-387 | two replicas that apply one log from empty, each with its own clock and its own map orders, return the same replies and end in step with one typed map, for logs without TTLs and SPOP |
| `Replicas.TimelessStep` | store/fsm.go:389-956 | without TTLs, EXPIRE and SPOP a typed step does not depend on the clock or on an iteration order |
| `Limits.SPopDiverges` | store/fsm.go:878-950 | with SPOP two replicas that meet a set in different orders answer differently |
| `Limits.TtlDiverges` | store/fsm.go:34-46 | with a TTL two replicas that apply one log at different times answer differently |
| `Locks.LockExcludes` | store/fsm.go:394-460 | between two OK replies to SET NX without GET there is a DEL naming the key, a FLUSHDB, or a deadline of the key that passed |
| `Locks.StringStays` | store/fsm.go:389-956 | no other command of any type removes the rows of a live string or gives its key another type, and only EXPIRE, or SET, GETSET or APPEND with a TTL, on the key itself can put a deadline on one that has none |
| `Locks.ReleasesExactly` | store/fsm.go:472-512 | the commands counted as releases are exactly those that take a live string away |
| `Locks.ScriptFreesByItsCalls` | store/lua.go:155-245 | a script frees a lock only by a DEL or FLUSHDB among its own calls, or by a deadline that passes |
| `Deadlines.CarryRun` | store/fsm.go:48-58 | n writes that carry the TTL over (counters, APPEND, and every hash, list and set command, the removing ones included) on a live key with any 64-bit deadline e move it into [e - n, e] if the key is still there, or no further than n seconds below the reach of a 64-bit duration when e is more than 9223372037.854 s away, and n seconds before the start when e is too great for a Go time; never to "no deadline" after second 0, and not at all when every clock reading is a whole millisecond and e is at most 9223372036.854 s away |
| `Deadlines.CarriedDeadline` | store/fsm.go:48-58 | one such write loses at most one second if and only if the deadline is at most 9223372037.854 s away, and nothing at a whole millisecond if and only if it is at most 9223372036.854 s away |
| `Deadlines.SurvivalIsExact` | store/fsm.go:48-58 | for every 64-bit deadline, exactly when a carried write leaves the key visible in the same moment: no deadline, more than one second left, whole milliseconds left, or less than one; a deadline too great for a Go time counts as one millisecond, and in second 0 every write does |
| `Deadlines.WriteCanLapse` | store/fsm.go:48-58 | an input where it does not: deadline 2 at 1.9985 s is carried to 1 |
| `Deadlines.TtlIsOnTime` | store/fsm.go:37-41 | a 64-bit TTL of t ms set at s is over from s + t on and not before s + t - 1000 ms, if and only if it fits a 64-bit nanosecond count and does not end in second 0 |
| `Deadlines.TtlReads` | store/fsm.go:267-313 | TTL and PTTL of a live key: -1 exactly without a deadline, -2 exactly for a deadline too great for a Go time, otherwise the whole seconds or milliseconds left, up to the greatest 64-bit duration |
| `Deadlines.FreshTtl` | store/fsm.go:267-289 | a deadline n seconds from now reads as a TTL of n at a whole second and n - 1 otherwise |
| `Expiry.SetExThenTtl` | server/server.go:242-253 | SET key value EX n, parsed for a client or a script and applied, leaves the value and a TTL of n at a whole second, n - 1 otherwise |
| `Expiry.SetThenNoTtl` | store/fsm.go:34-46 | a SET without a positive TTL leaves a key without a deadline |
| `Expiry.SetPxatThenDeadline` | server/server.go:282-297 | SET key value PXAT n for a moment to come ends in the second of n |
| `Expiry.ExpireThenTtl` | server/server.go:741-752 | EXPIRE n from the request to the TTL: n or n - 1 on a live key, gone at once if n is not positive, 0 without a key |
| `Expiry.PersistThenTtl` | store/fsm.go:569-592 | PERSIST answers 1 exactly on a live key with a deadline, and TTL is then -1 |
| `Lifetimes.LostNothing` | store/fsm.go:48-58 | what a key loses to deadlines over a run is nothing if and only if every command, and the final read, finds all that it held |
| `Lifetimes.NoDeadlineNoLapse` | store/fsm.go:34-46 | a key without a deadline, under commands that give it none, never lapses |
| `Counters.CounterRun` | store/fsm.go:513-551 | a run of counter commands, on a key with any deadline, leaves a decimal string that parses to the exact sum since the counter last lapsed, reduced to 64 bits; that is the start plus all signed deltas when it never lapsed, and exact if and only if in range |
| `Counters.CounterRunsCommute` | store/fsm.go:513-551 | runs with the same deltas in any order, none of which lets the counter lapse, leave the same number |
| `Counters.TypedCounterRun` | store/fsm.go:541-545 | wrapping after every addition is wrapping the exact sum once, through every lapse |
| `Decimal.ParseFormat` | store/fsm.go:524-547 | the decimal text a counter stores parses back to its value |
| `Decimal.ParseIsNumeral` | store/fsm.go:524-547 | a text parses exactly if it is digits with at most one sign and its value fits 64 bits, and to that value |
| `Decimal.AtoiClamps` | store/fsm.go:776-777 | where errors are ignored a numeral beyond 64 bits counts as the nearest integer |
| `Decimal.AtoiOfJunk` | store/fsm.go:776-777 | ... and a short text that is no numeral as 0 |
| `Decimal.FormatIsCanonical` | store/fsm.go:545-547 | a counter is stored as the one numeral without plus sign or leading zero |
| `ListLaws.QueueLaw` | store/fsm.go:666-758 | for any interleaving of pushes at one end and pops at the other, with or without counts, across deletion and re-creation, and for any deadline: popped then remaining equals initial then pushed if and only if nothing lapsed, and what lapsed is exactly what is missing |
| `ListLaws.StackLaw` | store/fsm.go:666-758 | pushing values and popping as many at the same end at any two moments returns them reversed and leaves the list with its deadline carried twice, the same store row for row without a deadline; when the list lapsed in between the pop finds nothing |
| `ListLaws.PopCountOf` | store/fsm.go:723-730 | a count written in decimal is the count the pop reads |
| `ListLaws.RemFromFront` | store/fsm.go:806-836 | LREM with a positive limit drops the first min(limit, occurrences) copies and nothing else |
| `ListLaws.RemFromBack` | store/fsm.go:806-836 | with a negative limit above the least integer, the last min(-limit, occurrences) copies |
| `ListLaws.RemAll` | store/fsm.go:806-836 | with limit 0, every copy; kept length plus answer is the old length |
| `ListLaws.RemMirrors` | store/fsm.go:806-836 | LREM -n is LREM n on the reversed list, reversed |
| `ListLaws.RemAtLeastInteger` | store/fsm.go:818-827 | at the least 64-bit integer the negated limit wraps and LREM removes nothing, whatever the list |
| `ListLaws.IndexIsRange` | store/fsm.go:1121-1133 | LINDEX i is the one element of LRANGE i i, or nil when that is empty |
| `ListLaws.SliceExactly` | store/fsm.go:163-183 | a range is exactly the positions within its bounds, each bound counted from the end its sign names |
| `ListLaws.SliceFromEnd` | store/fsm.go:163-183 | -k -1 is the last k elements, -k -j those without the last j - 1 |
| `ListLaws.SliceBeyond` | store/fsm.go:163-183 | bounds outside the list: a start before it is its start, a stop before it leaves nothing, a stop after it is its end |
| `ListLaws.RangesRead` | store/fsm.go:1089-1133 | LRANGE and LINDEX on the stored list; LINDEX -k is the k-th from the end |
| `ListLaws.TrimThenRead` | store/fsm.go:759-788 | after LTRIM a b, LRANGE 0 -1 is the earlier LRANGE a b until the carried deadline and empty from then on, for all integer bounds and every deadline; what LRANGE refuses LTRIM refuses |
| `ListLaws.TwoTrimsAreOne` | store/fsm.go:759-788 | trimming to a..b and, at any moment, to p..q is trimming to a + p .. min(b, a + q), until the deadline carried twice |
| `ListLaws.SliceOfSlice` | store/fsm.go:163-183 | slices compose |
| `Ledgers.HashLedger` | store/fsm.go:593-665 | over any run of HSET, HSETNX and HDEL and for any deadline, HLEN is its start plus the write replies minus the delete replies minus what lapsed, so it follows from the replies if and only if nothing lapsed |
| `Ledgers.SetLedger` | store/fsm.go:838-950 | over any run of SADD, SREM and SPOP and for any deadline, SCARD follows from the replies and what lapsed, from the replies alone if and only if nothing lapsed, and the stored members have no duplicates |
| `Ledgers.SPopPartitions` | store/fsm.go:878-950 | what SPOP hands out and what it leaves partition the old set |
| `Ledgers.SPopTakes` | store/fsm.go:916-928 | SPOP takes as many members as its argument says, one without, none for 0 and less, at most all, and the first ones the iteration meets |
| `ReadBack.StringReadBack` | store/fsm.go:394-460 | after SET, GETSET or APPEND, GET finds the new value until the deadline and nothing from then on, APPEND has put its argument after what GET found before, and one that fails or that NX or XX holds back has changed nothing |
| `ReadBack.MSetReadBack` | store/fsm.go:461-471 | after MSET every named key reads as the last value given for it, whatever it held before |
| `ReadBack.HashReadBack` | store/fsm.go:593-631 | after HSET or HSETNX, HGETALL finds the pairs put into what it found before until the carried deadline, and nothing from then on |
| `ReadBack.HashReadsBackExactly` | store/fsm.go:593-631 | in the moment of the write HGETALL finds what was written if and only if that is nothing or the key survives the carried deadline |
| `ReadBack.TrimReadsBackExactly` | store/fsm.go:759-788 | in the moment of an LTRIM a b, LRANGE 0 -1 is the LRANGE a b before it if and only if that was empty or the key survives the carried deadline |
| `ReadBack.LastPairWins` | store/fsm.go:614-625 | with HSET a repeated field ends with its last value |
| `ReadBack.FirstPairWins` | store/fsm.go:614-625 | with HSETNX a repeated new field keeps its first value |
| `ReadBack.PutAllOther` | store/fsm.go:614-625 | fields that are not named, and for HSETNX those already there, keep their values |
| `SetOptions.ParseResp` | server/server.go:231-302 | the option loop with its index steps is the recursive reading of the options |
| `SetOptions.ParseLua` | store/lua.go:247-284 | so is the Lua loop, which counts from 1 and passes over what it does not know |
| `SetOptions.ParsersAgree` | store/lua.go:250-284 | on NX, XX, GET, EX n and PX n in any order, case and repetition the two parsers reject for the same reason or build the same command |
| `SetOptions.AgreementIsExact` | store/lua.go:250-284 | for every list of words the parsers agree, on the command or on rejecting it, if and only if some EX or PX lacks its integer, or every option is one the request parser knows and the last TTL option each of them counts gives the same TTL |
| `SetOptions.AcceptedLists` | server/server.go:231-302 | for every list of words, exactly which each parser accepts: Lua those with an integer after every EX and PX, the request parser those of known options with their integers |
| `SetOptions.SameButTtl` | store/lua.go:250-284 | on every list the request parser accepts the two commands are the same up to the TTL |
| `SetOptions.ForeignOptionSplits` | server/server.go:298-300 | KEEPTTL, an unknown option, is a syntax error to one parser and nothing to the other |
| `SetOptions.AbsoluteDeadlineSplits` | server/server.go:282-297 | PXAT sets a TTL for a client and none for a script |
| `SetOptions.RenderParse` | server/server.go:231-302 | writing out the options of a SET command and parsing them gives the command back, in both parsers |
| `SetOptions.SecondsAreMillis` | server/server.go:242-297 | EX n reads as PX 1000n wherever it stands, in both parsers, and EXAT n as PXAT 1000n |
| `SetOptions.MillisCount` | server/server.go:254-297 | PX n sets n milliseconds; PXAT n the distance to that moment, or 1 ms when it has passed |
| `SetOptions.FlagsCount` | server/server.go:236-241 | NX, XX and GET set what they say |
| `SetOptions.AnyCase` | server/server.go:234 | option names are read in any mixture of cases |
| `Glob.GlobMatch` | store/fsm.go:85-161 | the matcher ends; it answers true exactly when the pattern is readable and the text splits into one piece a token; it fails exactly when the tokens before the unreadable one match a beginning of the text |
| `Glob.MatchFrom` | store/fsm.go:87-159 | the recursive closure decides the rest of the pattern against the rest of the text |
| `Glob.MatchStar` | store/fsm.go:90-103 | the star block tries every suffix |
| `Glob.SkipStars` | store/fsm.go:91-93 | the run of stars counts as one |
| `Glob.MatchClass` | store/fsm.go:110-143 | the class block finds the closing bracket and decides membership, negated or not |
| `Glob.MatchOne` | store/fsm.go:104-156 | one step of the loop outside stars reads one token, says whether it takes the byte, and fails exactly on an unreadable one |
| `Glob.ClassHas` | store/fsm.go:126-138 | the index loop over a class body is membership in its ranges |
| `Glob.MatchIsSplit` | store/fsm.go:85-161 | matching by recursion is splitting the text |
| `Glob.RunsOfStarsCollapse` | store/fsm.go:90-93 | after a readable beginning of a pattern a run of stars is one star |
| `Glob.EscapeMatchesOnly` | store/fsm.go:144-155 | the fully escaped form of a text matches that text only |
| `Glob.QuestionMarks` | store/fsm.go:104-109 | n question marks match exactly the texts of n bytes |
| `Glob.StarBetween` | store/fsm.go:90-103 | p*q matches exactly the texts that begin with p and go on to end with q |
| `Glob.PlainByte` | store/fsm.go:150-156 | any other byte matches itself |
| `Glob.RangeClass` | store/fsm.go:126-138 | [x-y...] takes the bytes from x to y and what the rest takes |
| `Glob.ByteClass` | store/fsm.go:126-138 | [x...] takes x and what the rest takes |
| `Glob.NegatedClass` | store/fsm.go:118-143 | [^...] takes exactly the bytes that [...] does not |
| `Glob.EmptyClass` | store/fsm.go:110-143 | the empty class takes nothing |
| `Crc.ComputeCrc16` | router/router.go:20-33 | the nested loop over bytes and bits computes the register function |
| `Crc.CrcIsRemainder` | router/router.go:20-33 | that register is the remainder of message times x^16 modulo x^16 + x^12 + x^5 + 1 over GF(2), as the Redis Cluster Specification asks ("Key distribution model") |
| `Crc.CrcDetermined` | router/router.go:20-33 | no other 16-bit register is that remainder |
| `Crc.RemainderUnique` | router/router.go:20-33 | a polynomial has one remainder of degree under 16 |
| `Crc.CrcIsLinear` | router/router.go:20-33 | the CRC is XOR-linear on strings of one length |
| `Crc.AppendedCrc` | router/router.go:20-33 | a string followed by two bytes has CRC 0 if and only if they are its CRC, high byte first |
| `Crc.BurstChangesCrc` | router/router.go:20-33 | keys that differ only within two neighbouring bytes have different CRCs |
| `Crc.SlotIsLinear` | router/router.go:49-52 | slots are below 16384 and XOR-linear on keys of one length |
| `Crc.SlotIsLowRemainder` | router/router.go:49-52 | the slot is the part below degree 14 of the remainder of message times x^16, and nothing else is |
| `Crc.CheckValue` | router/router.go:20-33 | "123456789" has CRC 0x31C3, the check value of the Redis Cluster Specification, Appendix A, and slot 12739 |
| `Scripts.ScriptIsAtomic` | store/lua.go:92-153 | an EVAL that ends either fails and leaves the store as it was, or commits exactly the in-order fold of its calls that returned no error, those of scripts it called included, even when one of those failed |
| `Scripts.AfterACall` | store/lua.go:123-143 | an error ends the script under redis.call; under redis.pcall, unless it is a panic, and under a pcall of Lua it goes into the history and the script goes on, as every success does |
| `Scripts.StrictStops` | store/lua.go:123-143 | in a script that guards none of its calls only the last call can have failed, and then the script failed |
| `Scripts.StrictEval` | store/lua.go:92-153 | an EVAL of such a script commits only if every call it made succeeded, and otherwise leaves the store as it was |
| `Scripts.ExecIsCommit` | store/lua.go:155-245 | at any point of a script, nested ones included, replaying only those calls leaves the rows reached and returns their results again |
| `Scripts.FailedCallWritesNothing` | store/lua.go:155-245 | a redis.call or redis.pcall of anything but a script that fails has written nothing |
| `Scripts.ReachIsCommit` | store/lua.go:155-245 | a call of a script, failing or not, leaves exactly the fold of the error-free calls it made |
| `Scripts.FailedScriptWrites` | store/lua.go:123-143 | an input: a script SETs and fails under the redis.pcall of another, and the EVAL of the other commits the SET |
| `Scripts.ExecSettled` | store/lua.go:92-153 | a script that ends within a bound on its calls ends the same way, after the same calls, within every greater bound |
| `Scripts.OneOutcome` | store/lua.go:65-87 | an EVAL has at most one outcome, whatever the bounds |
| `Scripts.CommitIsRun` | store/lua.go:155-245 | what a script does to Redis data, and what its commands return to it, is the run of those commands, from any store with the same data, so every run theorem covers scripts |
| `Scripts.ScriptRefines` | store/lua.go:92-153 | every command of a script returns to it the typed reply or error, and the script leaves the rows in step with the typed run of its commands |
| `Scripts.BridgeReadsAgree` | store/lua.go:165-211 | inside a script EXISTS is the typed one, GET is exactly when the key holds no collection, and TYPE is exactly when the two rows of the key are seen together |
| `Scripts.DelLeavesTheType` | store/lua.go:196-211 | after a script's own DEL of one key TYPE still names the old type |
| `Scripts.EvalSplits` | store/lua.go:92-105 | EVAL script n k1..kn a1..am runs the script on those keys and those arguments |
| `Scripts.EvalTurnedAway` | store/lua.go:82-102 | an EVAL is refused exactly for fewer than two words or for a number of keys that is no natural or too great |
| `Bridge.BridgeIsHandler` | store/lua.go:217-300 | a command with a key that a script sends is the command the handler builds from the same words |
| `Bridge.DelSparesTheFirst` | store/lua.go:286-298 | a DEL of several keys in a script spares the first of them |
| `Bridge.MSetIsTurnedAway` | store/lua.go:286-298 | an MSET of pairs in a script is always refused |
| `Bridge.ExpireEndsTheKey` | store/lua.go:286-298 | an EXPIRE in a script loses its seconds and ends the key at once |
| `Bridge.BadSetInScript` | store/lua.go:247-284 | a SET in a script is refused exactly for too few words or an EX or PX without its number, with the matching error, and then writes nothing |
| `Bridge.ExistsTellsEvalSha` | store/lua.go:37-87 | SCRIPT EXISTS flags a digest exactly if EVALSHA finds its script |
| `Bridge.LoadedIsThere` | store/lua.go:22-35 | SCRIPT LOAD answers with the digest, and the script is there from then on |
| `Bridge.FlushForgetsScripts` | store/lua.go:51-63 | SCRIPT FLUSH leaves no script and does not touch data |
| `Bridge.NestedEvalDropsAWord` | store/lua.go:213-245 | an EVAL inside a script has its first word dropped, as a key |
| `Bridge.EventIsOperation` | store/lua.go:65-87 | the events of mixed runs are the operations: a script event is its EVAL, a stable event leaves its value |
| `ScriptMachine.LuaRedisCall` | store/lua.go:155-245 | one bridge call in place, of anything but a script: the reads it answers itself, script storage, and commands of the state machine |
| `ScriptMachine.ReachCall` | store/lua.go:155-245 | one call in place, another script on the same transaction included |
| `ScriptMachine.DoCommand` | store/lua.go:217-300 | a command a script asks for is parsed as the bridge does and applied to the same transaction |
| `ScriptMachine.RunLua` | store/lua.go:92-153 | the script loop in place ends as the strategy prescribes |
| `ScriptMachine.ApplyScript` | store/lua.go:65-87 | EVAL and EVALSHA commit when the script finishes and restore every row when it fails |
| `ScriptMachine.FlagScripts` | store/lua.go:37-49 | SCRIPT EXISTS flags each digest by its row |
| `RaftLog.LogKeyOrder` | store/raft_store.go:17-22 | byte order of log keys is numeric order of indices, and a key gives its index back |
| `Octets.LessExactly` | store/raft_store.go:17-22 | byte order is the order of dictionaries: a proper prefix comes first, otherwise the first difference decides |
| `RaftLog.StoreLogs` | store/raft_store.go:110-132 | StoreLogs in place writes every entry under its index |
| `RaftLog.StoreAllHolds` | store/raft_store.go:110-132 | storing contiguous entries inside or just after the log leaves one interval with the new entries in place |
| `RaftLog.DeleteRange` | store/raft_store.go:135-146 | DeleteRange in place removes exactly the indices of the range |
| `RaftLog.DeleteRangeEnds` | store/raft_store.go:135-146 | its uint64 loop ends if and only if the upper bound is below 2^64 - 1 |
| `RaftLog.DeleteAllHolds` | store/raft_store.go:135-146 | deleting a beginning or an end leaves an interval |
| `RaftLog.GetLog` | store/raft_store.go:89-102 | whatever log the store holds, GetLog succeeds exactly on its interval and returns the entry stored there |
| `RaftLog.LogIsReadable` | store/raft_store.go:89-102 | GetLog succeeds exactly on the interval and returns what was stored |
| `RaftLog.FirstIndex` | store/raft_store.go:47-63 | a forward byte-order seek in the shared keyspace finds the numeric start of the log, 0 when empty |
| `RaftLog.LastIndex` | store/raft_store.go:66-86 | a reverse seek from the end of the prefix finds the numeric end, 0 when empty |
| `RaftLog.SetStable` | store/raft_store.go:149-153 | afterwards the key holds the value, every other stable key holds what it held, and every other row is as it was |
| `RaftLog.GetStable` | store/raft_store.go:156-170 | reads what Set left, at any time, and the empty value for a key that was never set |
| `RaftLog.SetUint64` | store/raft_store.go:173-177 | afterwards the key holds the number and nothing else has changed |
| `RaftLog.GetUint64` | store/raft_store.go:180-189 | reads the number SetUint64 left, at any time, 0 for a key never set or empty, breaks on one to seven bytes, and reads the first eight of a longer value |
| `RaftLog.OneNumber` | store/raft_store.go:173-189 | a stable key holds at most one number |
| `Isolation.LogStaysAnInterval` | store/raft_store.go:47-146 | over every mixed run of legal Raft operations, Redis commands, scripts and stable writes the log rows are one interval with the stored entries, and every row stays in its name space |
| `Isolation.FreshStoreHoldsNoLog` | store/raft_store.go:47-86 | an empty store is an empty log |
| `Isolation.RedisLeavesRaftAlone` | store/fsm.go:500-512 | no run of Redis commands, scripts and script storage changes a row outside Redis data and scripts |
| `Isolation.RaftRowsAreOutside` | store/lua.go:14-18 | those rows are every log row and exactly the stable rows whose key does not begin with "CRIPT:" |
| `Isolation.RaftEventLeaves` | store/raft_store.go:110-153 | a Raft operation changes no row outside the log but the one stable row it writes |
| `Isolation.StableAndScripts` | store/raft_store.go:149-153 | a stable key that begins with "CRIPT:" becomes a script, any other leaves every script alone |
| `Isolation.EvalShaIsEval` | store/lua.go:20-87 | after SCRIPT LOAD and any mixed run without a script flush, another text loaded under the digest or a stable write to that row, EVALSHA with the digest asks for exactly what EVAL with the text asks for |
| `Isolation.StableSurvives` | store/raft_store.go:149-189 | a stable value, such as a vote, survives every mixed run that does not write its key again, unless the key begins with "CRIPT:" |
| `Isolation.RaftIsInvisible` | store/fsm.go:20-32 | non-interference: replies and Redis data of a mixed run of commands, scripts, script storage and Raft operations are those of the run without the Raft operations, and so are the stored scripts, if no stable key begins with "CRIPT:"; if one does, as long as nothing asks which scripts are stored |
| `DataRows.ApplyRespects` | store/fsm.go:389-956 | a command sees Redis data only: from stores with the same data it gives the same reply and leaves the same data |
| `DataRows.CommandTouchesData` | store/fsm.go:389-956 | a command changes no row outside Redis data |
| `Histories.HistoryIsRun` | store/fsm.go:369-387 | what a mixed run of commands, scripts, script storage and Raft operations does to Redis data, and what its commands return, is the plain run of the commands it commits, those inside scripts included |
| `Histories.HistoryRefines` | store/fsm.go:369-387 | refinement over mixed runs: every committed command, in a script or not, returns the typed reply, and the run ends in step with the typed map |
| `Histories.HistoryExcludes` | store/fsm.go:394-460 | lock exclusion over mixed runs: between two OK replies to SET NX without GET some committed command, in a script or not, is a DEL naming the key or a FLUSHDB, or a deadline of the key passed |
| `ScriptReplicas.ScriptReplicasAgree` | store/lua.go:92-153 | two replicas that apply one log of commands, scripts and script storage from empty, each with its own clock and its own map orders, give the same replies and show one typed map, if the commands have no TTL, EXPIRE or SPOP and no script GETs a hash or a set |
| `ScriptReplicas.HistoriesAlike` | store/lua.go:20-245 | all along, their rows differ at most in the order a hash or a set is written in |
| `ScriptReplicas.CommandAlike` | store/fsm.go:389-956 | on rows that differ only in that way a timeless command answers the same and leaves such rows |
| `ScriptReplicas.RawReadDiverges` | store/lua.go:165-180 | an input where a script does: after SADD of two members a GET of the set inside a script returns different bytes to two replicas |
| `Database.Database.constructor` | store/fsm.go:198-206 | a new store has no rows |
| `Database.Database.Seek` | store/fsm.go:500-512 | a forward iterator stands on the least visible key at or beyond its start |
| `Database.Database.SeekReverse` | store/raft_store.go:66-86 | a reverse iterator stands on the greatest visible key up to its start |
| `Spelling.TypesAreSpelled` | store/fsm.go:60-83 | the words of the type rows |
| `Spelling.OptionsAreSpelled` | server/server.go:236-297 | the words of the SET and FLUSHDB options |
| `Spelling.PrefixesAreSpelled` | store/raft_store.go:13-15 | the prefixes of the name spaces |
| `Spelling.PatternBytesAreSpelled` | store/fsm.go:90-156 | the special bytes of patterns |

## Left out

- CounterRunsCommute: runs in which the counter lapses are outside, because what they leave depends on when it lapsed;
  CounterRun says what that is.
- ScriptReplicasAgree: scripts that GET a hash or a set are outside, because they see the order it was written in
  (RawReadDiverges).
- RaftIsInvisible: calls that ask for stored scripts are outside when a stable key begins with "CRIPT:", because it is
  then a script (StableAndScripts).
- DeleteRange: an upper bound of 2^64 - 1 is outside, because the loop then never ends (DeleteRangeEnds).
- CarriedDeadline: clock readings of 2^62 seconds and more are outside, because there a deadline in sight is too great
  for a Go time; the same for CarryRun, SurvivalIsExact and TtlIsOnTime.
- Two readings of the clock within one transaction: the library reads it per row, the model once.
- The difference between a nil and an empty byte slice, on which an empty string value reads back as nil or not.
- Float rounding in TTL, which the model computes in integers.
- Decoding the log entry into a command, and what MessagePack and SHA-1 bytes look like.
- Errors and limits of the embedded store, such as I/O errors and transactions that grow too big.
- SETEX, STRLEN, HKEYS, HVALS, SRANDMEMBER and SMISMEMBER: thin forms of modelled commands.
- Conversion between Lua values and replies.
- Snapshot, Restore and Persist, which hand the whole store to the library.
- Connections, reply writing, proxying, CLIENT, the join endpoint, gossip, the slot map and LocateKey.
