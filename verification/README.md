# Verification of the admin message codec and the edge runtime

This Dafny project models three parts of the system and proves what they promise.

**The message codec** (`server-build/admin.pb.cc`). Three message shapes: `User` (singular `int32`,
`string` and `bool` fields), `Role` (adds a repeated string) and `GetUsersResponse` (adds repeated
nested messages, length prefixes taken from cached sizes, and an `int64`). The wire format is that of
the Protocol Buffers Encoding specification (sections "Base 128 Varints", "Message Structure",
"Length-Delimited Records", and the last-one-wins rule); string checks follow section 4 of RFC 3629.
The protobuf runtime that the generated code calls is not part of the repository; its readers and
writers are written out here from that specification.

**The edge scheduler** (`edge_runtime/edge_scheduler.cpp`): priorities, a concurrency cap, cancellation
that only marks running tasks, and a tick that dispatches before it reaps.

**The edge cache** (`edge_runtime/edge_cache.cpp`): a byte budget, eviction before insertion, and a
counter that wraps around like a `size_t`.

## How it is organised

Each part comes as values and as objects. The values say what a message, a scheduler state or a cache
state becomes, and carry the laws. The objects are classes whose methods work as the C++ methods do,
in place and with the same loops, and are proved to do to their contents what the values say.

| files | contents |
|---|---|
| `Wire`, `Utf8`, `Fields` | varints, fixed-width numbers, UTF-8; one wire record (groups included) and runs of records |
| `Dispatch`, `Printing` | what all messages share: folding records, projections of records, writing and sizing fields |
| `Reading` | which raw bytes are a record, which stop the loop and which are refused; that padding never matters |
| `UserCodec`, `RoleCodec`, `UsersCodec` | the three messages as values, and their laws |
| `WireForms` | the three messages byte by byte: what each field on the wire does, and what is printed |
| `AdminUser`, `AdminRole`, `AdminUsersResponse` | the three messages as objects |
| `Growth`, `Witnesses` | how much longer a printed message can be than its input; inputs showing that the conditions in those laws are needed |
| `CacheModel`, `CacheRuns`, `EdgeCache` | the cache: operations, whole runs, the object |
| `SchedulerModel`, `SchedulerCalls`, `SchedulerRuns`, `SchedulerIds`, `EdgeScheduler` | the scheduler: operations, what each call does to the lists, whole runs, task ids, the object |

A message parser is understood in two steps that do not mention each other: `Fields.ScanFields` cuts
bytes into records without knowing any message, and `Overlay` in each codec says, without any loop,
what message a sequence of records denotes. The `FoldIsOverlay` lemmas prove that the parser's
record-by-record action is that reading.

## Properties that hold only under a condition

Several properties one would expect are false of the code in some cases. Each is stated with the
exact condition, and with an input that breaks it:

- a printed message is read back if and only if its strings are valid UTF-8 (printing does not stop on
  bad strings, parsing does), no length exceeds what a prefix may announce, and its unknown fields do not name known ones;
- parsing `s` and then `t` merges the two messages if and only if `t` does not write a default value
  over a field that `s` had set;
- printing what was parsed and parsing it again gives the same `GetUsersResponse` if and only if no
  nested user has outgrown the largest length: a negative `int32` may arrive in five bytes but is
  printed in ten. Inputs of at most `MAX_LENGTH - 4` bytes are too short for that to happen, and one
  of `MAX_LENGTH - 3` bytes shows it. `MAX_LENGTH` is what a length prefix may announce: 2^31 - 1 less
  the few bytes the runtime keeps in reserve, whose number the repository does not say; all results
  hold for any reserve of up to 1024 bytes;
- the cache counter is, modulo 2^64, the number of bytes stored if and only if nothing was stored
  (modulo 2^64) when `initialize` last zeroed it; otherwise it can wrap around to 2^64 - 1;
- it is exactly that number in every state of a run if and only if the run is *disciplined*:
  `initialize` is only called while no bytes are stored, and what a put leaves stored fits a `size_t`.
  In these runs, under any limit up to 2^64 - 1, the budget holds and eviction keeps the longest
  suffix of keys that fits. In all other runs eviction goes by the total less the *debt*, the bytes
  stored at the last `initialize`, modulo 2^64, and may leave the total over the limit;
- no subtraction from the counter underflows in a run if and only if every call leaves at least as
  many bytes stored as the debt (as long as what puts leave stored fits a `size_t`);
- one scheduler tick reaches a fixed point if and only if all pending tasks fit beside the running
  ones, no task is cancelled, or the live ones fill the cap by themselves; two ticks always do;
- task ids stay distinct up to some state of a run if and only if no earlier call scheduled a task
  while the id it was about to get, the number of tasks in the lists plus one, was in use. Until the
  first task has left the lists that cannot happen; afterwards it can.

## Model

| member | source | states |
|---|---|---|
| Wire.ReadBase128Varint | server-build/admin.pb.cc:893 | a printed varint is read back whole, whatever follows it |
| Wire.ReadBase128Iff | server-build/admin.pb.cc:898 | a varint is accepted, padded or not, exactly when it ends within the allowed bytes, and its value is the sum of its groups |
| Wire.ReadVarint64Iff | server-build/admin.pb.cc:953-954 | a 64-bit varint is accepted, padded or not, exactly when it ends within ten bytes, and is the sum of its groups modulo 2^64 |
| Wire.ReadVarint32Iff | server-build/admin.pb.cc:897-899 | an `int32` takes the same bytes, and is the number in range that is the same modulo 2^32 |
| Wire.ReadTagIff | server-build/admin.pb.cc:893 | a tag is accepted, padded or not, exactly when it ends within five bytes, and keeps 32 bits |
| Wire.ReadSizeIff | server-build/admin.pb.cc:905-907 | a length is accepted, padded or not, exactly when it ends within five bytes and may be announced |
| Wire.ReadDelimitedIff | server-build/admin.pb.cc:905-907 | a length-delimited payload is read exactly when its length is accepted and as many bytes follow before the limit |
| Wire.ReadDelimitedDelimited | server-build/admin.pb.cc:907 | a length-delimited field whose length a prefix may announce is read back whole |
| Wire.SignExtendUndone | server-build/admin.pb.cc:1009-1012 | truncating a sign-extended `int32` or `int64` gives it back, negative values included |
| Wire.NegativeIsTenBytes | server-build/admin.pb.cc:1145-1147 | every negative integer takes ten varint bytes |
| Wire.VarintSizeExact | server-build/admin.pb.cc:1145-1152 | the threshold size function is the length of the varint |
| Utf8.ValidUtf8Iff | server-build/admin.pb.cc:909 | the string check accepts exactly the UTF-8 encodings of sequences of scalar values |
| Fields.FieldsRoundTrip | server-build/admin.pb.cc:982-992 | printed records are read back exactly when they are well formed, nested groups included |
| Fields.ScanIsWellFormed | server-build/admin.pb.cc:988-992 | whatever is read is well formed, so unknown fields can be printed and read again |
| Fields.FieldLocal | server-build/admin.pb.cc:891-893 | a record that was read depends only on the bytes it took |
| Fields.ScanAppend | server-build/admin.pb.cc:891-993 | the records of a concatenation are the records of its parts |
| Fields.PrefixScan | server-build/admin.pb.cc:891-993 | a proper prefix of printed records that ends between records holds fewer of them |
| Dispatch.ParseStep | server-build/admin.pb.cc:891-993 | one turn of the tag loop: a bad record fails the parse, a stop tag ends it, any other is applied |
| Dispatch.StopTagRefused | server-build/admin.pb.cc:982-987 | tag 0 or an end-group tag ends the loop with what was read so far, and a whole message is refused |
| Dispatch.ParseAppend | server-build/admin.pb.cc:889-1000 | parsing a concatenation is parsing the second half into the result of the first |
| Reading.PaddedTag | server-build/admin.pb.cc:1414-1428 | it does not matter to the result how a tag was padded |
| Reading.PaddedValue | server-build/admin.pb.cc:893-993 | it does not matter to the result how the varint of a field was padded |
| Reading.PaddedLength | server-build/admin.pb.cc:893-993 | it does not matter to the result how a length prefix was padded |
| Reading.TagMeans | server-build/admin.pb.cc:982-992 | tag 0 and end-group tags stop the loop with the bytes behind them left; any other tag is followed by its payload |
| Reading.RefusedMeans | server-build/admin.pb.cc:988-992 | field number 0 and the wire types 6 and 7 are refused |
| Reading.VarintMeans | server-build/admin.pb.cc:988-992 | a record of wire type 0 is exactly a varint of at most ten bytes |
| Reading.DelimitedMeans | server-build/admin.pb.cc:988-992 | a record of wire type 2 is exactly an acceptable length and as many bytes |
| Reading.FixedMeans | server-build/admin.pb.cc:988-992 | records of wire types 1 and 5 are exactly eight and four bytes, kept as they are |
| Reading.GroupMeans | server-build/admin.pb.cc:988-992 | a record of wire type 3 is exactly the records up to the end-group tag of its number |
| Dispatch.ParsePair | server-build/admin.pb.cc:891-993 | the effect of two neighbouring records in the middle of an input |
| Printing.FieldsSizeExact | server-build/admin.pb.cc:1159 | the size computed for unknown fields is the number of bytes they print |
| UserCodec.FoldIsOverlay | server-build/admin.pb.cc:889-993 | the parser accepts exactly when every string record is valid; then the last record of each field wins and unmatched records are kept in order |
| UserCodec.ParsedIsReadable | server-build/admin.pb.cc:889-1000 | every parsed user can be read back: its strings passed the check and its unknown fields are unknown |
| UserCodec.OverlayRecords | server-build/admin.pb.cc:1002-1092 | the printed records of a user denote it, on top of any other user, as a merge does |
| UserCodec.ParsePrintIsMerge | server-build/admin.pb.cc:1169-1205 | parsing what `b` prints into `a` gives the merge of `b` into `a` |
| UserCodec.RoundTrip | server-build/admin.pb.cc:889-1092 | a printed user is read back if and only if it is readable |
| UserCodec.Canonical | server-build/admin.pb.cc:889-1092 | every accepted input prints to a form that parses to the same user |
| UserCodec.ConcatenationIsMerge | server-build/admin.pb.cc:889-1205 | behind an accepted input any input is accepted as it is alone, and the two in a row are the merge if and only if the second resets no field |
| UserCodec.PrintedConcatenation | server-build/admin.pb.cc:889-1205 | the printed bytes of two readable messages in a row always parse to their merge |
| UserCodec.SwapRecords | server-build/admin.pb.cc:889-993 | swapping neighbouring records of different fields changes no known field and not acceptance |
| UserCodec.MergeAssociative | server-build/admin.pb.cc:1169-1205 | merging is associative |
| UserCodec.MergeUnit | server-build/admin.pb.cc:1207-1212 | merging with a cleared message, on either side, changes nothing |
| UserCodec.PrefixIsNotEnough | server-build/admin.pb.cc:1002-1092 | no proper prefix of a printed user parses to that user |
| UserCodec.PrintedLength | server-build/admin.pb.cc:1094-1160 | the sum of field sizes is the number of bytes printed |
| RoleCodec.FoldIsOverlay | server-build/admin.pb.cc:1380-1461 | as for users, and permissions are kept in input order |
| RoleCodec.ParsePrintIsMerge | server-build/admin.pb.cc:1593-1618 | parsing what `b` prints into `a` gives the merge, permissions appended |
| RoleCodec.RoundTrip | server-build/admin.pb.cc:1380-1534 | a printed role is read back if and only if it is readable, empty permissions included |
| RoleCodec.Canonical | server-build/admin.pb.cc:1380-1534 | every accepted input prints to a form that parses to the same role |
| RoleCodec.ConcatenationIsMerge | server-build/admin.pb.cc:1380-1618 | behind an accepted input any input is accepted as it is alone, and the two in a row are the merge if and only if the second resets no singular field |
| RoleCodec.PrintedConcatenation | server-build/admin.pb.cc:1380-1618 | the printed bytes of two readable messages in a row always parse to their merge |
| RoleCodec.SwapRecords | server-build/admin.pb.cc:1380-1461 | swapping neighbouring records of different fields changes no known field, the order of permissions included |
| RoleCodec.MergeAssociative | server-build/admin.pb.cc:1593-1618 | merging is associative |
| RoleCodec.PrintedLength | server-build/admin.pb.cc:1536-1584 | the sum of sizes, with its loop over permissions, is the number of bytes printed |
| UsersCodec.FoldIsOverlay | server-build/admin.pb.cc:2681-2729 | the parser accepts exactly when every nested user parses; users keep input order and the last total wins |
| UsersCodec.ParsePrintIsMerge | server-build/admin.pb.cc:2789-2802 | parsing what `b` prints into `a` gives the merge, users appended |
| UsersCodec.RoundTrip | server-build/admin.pb.cc:2681-2780 | a printed response is read back if and only if its users are readable and none prints longer than a prefix can announce |
| UsersCodec.OversizedHead | server-build/admin.pb.cc:2741-2742 | a user printed behind a prefix that cannot hold its length is never read back as that user |
| UsersCodec.Canonical | server-build/admin.pb.cc:2681-2757 | what was parsed survives printing and parsing if and only if no nested user has outgrown the largest length |
| UsersCodec.ConcatenationIsMerge | server-build/admin.pb.cc:2681-2802 | behind an accepted input any input is accepted as it is alone, and the two in a row are the merge if and only if the second does not reset the total |
| UsersCodec.PrintedConcatenation | server-build/admin.pb.cc:2681-2802 | the printed bytes of two readable messages in a row always parse to their merge |
| UsersCodec.SwapRecords | server-build/admin.pb.cc:2681-2722 | swapping neighbouring records of different fields changes neither users, their order, nor the total |
| UsersCodec.PrintWithExact | server-build/admin.pb.cc:2738-2743 | the output is the printed message if and only if every cached size is right |
| UsersCodec.PrintedLength | server-build/admin.pb.cc:2759-2780 | the sum of sizes, with the nested message sizes, is the number of bytes printed |
| WireForms.UserNumber | server-build/admin.pb.cc:895-902 | the bytes of each number of a user, padded or not, set that field, truncated to 32 bits or compared with 0 |
| WireForms.UserString | server-build/admin.pb.cc:903-912 | the bytes of each string of a user set that field, or fail the parse if they are not valid UTF-8 |
| WireForms.UserOther | server-build/admin.pb.cc:982-992 | every other record, a known number under another wire type included, joins the unknown fields |
| WireForms.UserPrints | server-build/admin.pb.cc:1002-1092 | the printed bytes of a user: tag and value of each field away from its default, in number order, then the unknown fields |
| WireForms.RoleNumber | server-build/admin.pb.cc:1386-1437 | the bytes of each number of a role set that field |
| WireForms.RoleString | server-build/admin.pb.cc:1394-1447 | the bytes of each string of a role set that field or, for permissions, are appended |
| WireForms.RoleOther | server-build/admin.pb.cc:1448-1461 | every other record joins the unknown fields |
| WireForms.RolePrints | server-build/admin.pb.cc:1470-1534 | the printed bytes of a role, every permission included |
| WireForms.ResponseField | server-build/admin.pb.cc:2687-2708 | the bytes of a user are parsed into an empty user that is appended; the total keeps 64 bits |
| WireForms.ResponseOther | server-build/admin.pb.cc:2709-2722 | every other record joins the unknown fields |
| WireForms.ResponsePrints | server-build/admin.pb.cc:2731-2757 | the printed bytes of a response: every user behind the length of its printed form, the total, the unknown fields |
| WireForms.MergedPrints | server-build/admin.pb.cc:2789-2802 | the merge of any two responses, unreadable ones included, prints the users of both in order, the later non-zero total and all unknown fields |
| AdminUser.User.InternalParse | server-build/admin.pb.cc:889-1000 | the tag loop over an index, filling the object, has the outcome of folding the records before the limit and ends at the limit or behind the stop tag |
| AdminUser.User.ParsePayload | server-build/admin.pb.cc:894-992 | one payload lands in its field, or among the unknown fields |
| AdminUser.User.ParseFromBytes | server-build/admin.pb.cc:889-1000 | a whole message is accepted exactly when the loop ends at the limit |
| AdminUser.User.InternalSerialize | server-build/admin.pb.cc:1002-1092 | appends the printed message to the target |
| AdminUser.User.ByteSizeLong | server-build/admin.pb.cc:1094-1160 | returns the number of bytes printed and caches it as a 32-bit integer |
| AdminUser.User.MergeFrom | server-build/admin.pb.cc:1169-1205 | the object becomes the merge |
| AdminUser.User.CopyFrom | server-build/admin.pb.cc:1207-1212 | the object equals the other one, also when copying from itself |
| AdminUser.User.Clear | server-build/admin.pb.cc:871-887 | the object becomes the empty message |
| AdminRole.Role.ParsePermissions | server-build/admin.pb.cc:1414-1428 | a batch of permissions has the outcome of one record per tag, wherever it breaks off |
| AdminRole.Role.InternalParse | server-build/admin.pb.cc:1380-1468 | the tag loop with batches has the outcome of folding the records before the limit |
| AdminRole.Role.InternalSerialize | server-build/admin.pb.cc:1470-1534 | appends the printed message to the target |
| AdminRole.Role.ByteSizeLong | server-build/admin.pb.cc:1536-1584 | returns and caches the number of bytes printed |
| AdminRole.Role.MergeFrom | server-build/admin.pb.cc:1593-1618 | the object becomes the merge |
| AdminRole.Role.CopyFrom | server-build/admin.pb.cc:1620-1625 | the object equals the other one |
| AdminUsersResponse.GetUsersResponse.ParseNewUser | server-build/admin.pb.cc:2693-2694 | the length prefix becomes the limit of a nested parse that must stop exactly there |
| AdminUsersResponse.GetUsersResponse.ParseUsers | server-build/admin.pb.cc:2687-2699 | a batch of users has the outcome of one record per tag, wherever it breaks off; only new objects are filled |
| AdminUsersResponse.GetUsersResponse.InternalParse | server-build/admin.pb.cc:2681-2729 | the tag loop with batches has the outcome of folding the records before the limit |
| AdminUsersResponse.GetUsersResponse.ByteSizeLong | server-build/admin.pb.cc:2759-2780 | returns the number of bytes printed and leaves every nested cached size exact |
| AdminUsersResponse.GetUsersResponse.InternalSerialize | server-build/admin.pb.cc:2731-2757 | prints behind the sizes the users have cached, which is the printed message if and only if those are exact |
| AdminUsersResponse.GetUsersResponse.MergeFrom | server-build/admin.pb.cc:2789-2802 | the object becomes the merge, with fresh copies of the other's users |
| AdminUsersResponse.GetUsersResponse.CopyFrom | server-build/admin.pb.cc:2804-2809 | the object equals the other one |
| AdminUsersResponse.Transmit | server-build/admin.pb.cc:2681-2780 | sizing, printing and parsing into another object makes the two equal if and only if the message is readable and fits |
| Growth.ScanShortest | server-build/admin.pb.cc:891-993 | no records on the wire are shorter than their printed form |
| Growth.UserGrowth | server-build/admin.pb.cc:889-1092 | a parsed user prints to at most ten bytes more than it was parsed from |
| Growth.SmallIsCanonical | server-build/admin.pb.cc:2681-2757 | every accepted response of at most `MAX_LENGTH - 4` bytes survives printing and parsing |
| Witnesses.BadTextIsNotReadBack | server-build/admin.pb.cc:1015-1022 | a user with a bad string prints but is not read back |
| Witnesses.ConcatenationCanReset | server-build/admin.pb.cc:896-902 | an explicit default on the wire resets a field, which merging never does |
| Witnesses.CanonicalCanFail | server-build/admin.pb.cc:1009-1012 | an accepted response of `MAX_LENGTH - 3` bytes whose printed form is no longer read back |
| Witnesses.CanonicalThreshold | server-build/admin.pb.cc:2681-2757 | all accepted responses of at most `n` bytes survive if and only if `n` is at most `MAX_LENGTH - 4` |
| CacheModel.TotalRemove | edge_runtime/edge_cache.cpp:55-56 | removing any entry lowers the stored total by the size of its data |
| CacheModel.EvictKeepsLongestSuffix | edge_runtime/edge_cache.cpp:82-96 | with an exact counter eviction drops exactly the least keys it must, in ascending order |
| CacheModel.EvictByCounter | edge_runtime/edge_cache.cpp:82-96 | whatever the counter has lost sight of, eviction drops the least number of least keys that brings the counter below the limit, or all |
| CacheModel.RunWellKept | edge_runtime/edge_cache.cpp:27-33 | in every run all timestamps are 0, hence below `UINT64_MAX` |
| CacheModel.DropExact | edge_runtime/edge_cache.cpp:55-56 | with an exact counter a removal does not underflow and leaves the counter exact |
| CacheRuns.RunAccounted | edge_runtime/edge_cache.cpp:10-63 | in every run the counter is the stored total less what `initialize` lost sight of, modulo 2^64 |
| CacheRuns.CounterIsTotal | edge_runtime/edge_cache.cpp:10-13 | the counter is right if and only if nothing was lost sight of |
| CacheRuns.InitializeLosesCount | edge_runtime/edge_cache.cpp:10-13 | a run that leaves the cache empty and the counter at 2^64 - 1 |
| CacheRuns.StepExactIff | edge_runtime/edge_cache.cpp:10-63 | a call keeps an exact counter exact if and only if it does not initialize over stored bytes or store more than a `size_t` counts |
| CacheRuns.ExactIff | edge_runtime/edge_cache.cpp:10-63 | the counter is exact in every state of a run if and only if all its calls are of that kind |
| CacheRuns.DropSafeIff | edge_runtime/edge_cache.cpp:55-56 | taking an entry out underflows if and only if what remains does not cover the debt |
| CacheRuns.StepSafeIff | edge_runtime/edge_cache.cpp:23-96 | some subtraction of a call, at any turn of its eviction loop included, underflows if and only if what the call leaves stored does not cover the debt |
| CacheRuns.SafeIff | edge_runtime/edge_cache.cpp:10-96 | in every run whose data fits a `size_t`, no subtraction underflows if and only if every call leaves enough stored to cover the debt |
| CacheRuns.ExactIsSafe | edge_runtime/edge_cache.cpp:23-56 | the case without debt: with an exact counter nothing underflows |
| CacheRuns.BudgetKept | edge_runtime/edge_cache.cpp:19-35 | in disciplined runs the counter is exact, no subtraction of any call underflows, and the limit that was last set is exceeded by at most the last put |
| CacheRuns.LimitIsLastSet | edge_runtime/edge_cache.cpp:10-80 | in every run the limit in force is the argument of the last `initialize` or `setMaxSize`, and 100 MiB before any |
| CacheRuns.UnlimitedIsDisciplined | edge_runtime/edge_cache.cpp:77-80 | a limit of 2^64 - 1 does not make a run undisciplined |
| CacheRuns.EvictionInAnyRun | edge_runtime/edge_cache.cpp:19-96 | after every run, a put or a new limit first drops the least number of least keys that brings the stored total less the debt, modulo 2^64, below the limit then set, or all, and nothing else |
| CacheRuns.DebtDefeatsEviction | edge_runtime/edge_cache.cpp:10-13 | a run that leaves two bytes stored under a limit of 1, with nothing to evict |
| CacheRuns.EvictionInRuns | edge_runtime/edge_cache.cpp:19-96 | after disciplined runs, a put or a new limit leaves exactly the longest suffix of keys whose total is below the limit then set |
| CacheRuns.NeverStale | edge_runtime/edge_cache.cpp:37-47 | after any run a get hits exactly for keys of a plain map not evicted since their last put, with the latest data |
| CacheRuns.GetAfterPut | edge_runtime/edge_cache.cpp:19-35 | a get right after its put hits |
| CacheRuns.AccessesCounted | edge_runtime/edge_cache.cpp:37-47 | in every run a stored entry has been counted once, modulo 2^64, for every get since its put |
| CacheRuns.ReadsDoNotAffectEviction | edge_runtime/edge_cache.cpp:37-47 | deleting all gets from a run changes no key, data, counter or eviction |
| EdgeCacheObject.EdgeCache.EvictIfNeeded | edge_runtime/edge_cache.cpp:82-96 | the loop over scans ends and evicts least keys while the budget is used up |
| EdgeCacheObject.EdgeCache.FindOldest | edge_runtime/edge_cache.cpp:84-92 | the scan for the smallest timestamp finds the least key |
| EdgeCacheObject.EdgeCache.Put | edge_runtime/edge_cache.cpp:19-35 | evicts first, then stores |
| EdgeCacheObject.EdgeCache.Get | edge_runtime/edge_cache.cpp:37-47 | hands out the stored data and counts the access, or leaves the argument alone |
| EdgeCacheObject.EdgeCache.Remove | edge_runtime/edge_cache.cpp:49-58 | takes the entry out if there is one |
| EdgeCacheObject.EdgeCache.SetMaxSize | edge_runtime/edge_cache.cpp:77-80 | sets the limit, then evicts |
| EdgeCacheObject.EdgeCache.Initialize | edge_runtime/edge_cache.cpp:10-13 | zeroes the counter and keeps the entries |
| SchedulerCalls.ScheduleAdds | edge_runtime/edge_scheduler.cpp:34-54 | scheduling adds one task, not running, of the type, priority and deadline passed and the number of tasks plus one as its id, in order, and changes nothing else |
| SchedulerCalls.TickStarts | edge_runtime/edge_scheduler.cpp:20-32 | a tick starts the first pending tasks, as many as there are or the cap leaves room for beside all running ones, cancelled ones included, and then drops the cancelled ones |
| SchedulerCalls.TickMovesOnce | edge_runtime/edge_scheduler.cpp:20-32 | that description leaves one next state |
| SchedulerCalls.CancelMeans | edge_runtime/edge_scheduler.cpp:56-72 | cancelling takes out the first pending task with the id, else marks the first running one, else does nothing |
| SchedulerCalls.IsRunningMeans | edge_runtime/edge_scheduler.cpp:74-81 | the query is the flag of the first running task with the id |
| SchedulerRuns.PendingFromCalls | edge_runtime/edge_scheduler.cpp:34-43 | in every run each pending task was scheduled by an earlier call and is what its arguments say |
| SchedulerRuns.NoPriorityInversion | edge_runtime/edge_scheduler.cpp:20-51 | in every run a tick starts no task before one pending at that moment which, by the arguments of the calls that scheduled the two, should have come first |
| SchedulerRuns.TwoTicksStabilise | edge_runtime/edge_scheduler.cpp:20-32 | two ticks reach a fixed point where all running tasks are live and the queue is empty or the cap filled |
| SchedulerRuns.OneTickStabilisesIff | edge_runtime/edge_scheduler.cpp:20-32 | one tick is enough exactly when all pending tasks fit beside the running ones, none is cancelled, or the live ones fill the cap |
| SchedulerRuns.OneTickCanStall | edge_runtime/edge_scheduler.cpp:20-32 | a cancelled task in the only slot delays the waiting one by a tick |
| SchedulerRuns.CapIsLastSet | edge_runtime/edge_scheduler.cpp:87-89 | in every run the cap in force is the argument of the last call that set it, or the first one |
| SchedulerRuns.CapKept | edge_runtime/edge_scheduler.cpp:20-23 | in every run the running list never exceeds the first cap or the largest argument that ever set it |
| SchedulerRuns.RunBalanced | edge_runtime/edge_scheduler.cpp:20-72 | in every run each scheduled task is pending, live or cancelled, once, and each cancelled one occupies a slot or has left, once |
| SchedulerRuns.Conservation | edge_runtime/edge_scheduler.cpp:20-72 | scheduled tasks are those pending, running and gone, and only cancelled tasks go |
| SchedulerIds.IdsAreNumbers | edge_runtime/edge_scheduler.cpp:36 | until a task has left, the ids are exactly 1 to the number of tasks, each once |
| SchedulerIds.StepDistinct | edge_runtime/edge_scheduler.cpp:34-72 | a call keeps distinct ids distinct if and only if it does not schedule while the next id is in use |
| SchedulerIds.DistinctIff | edge_runtime/edge_scheduler.cpp:34-72 | in every run the ids are distinct up to a state if and only if no earlier call scheduled while the next id was in use |
| SchedulerIds.CancelHitsItsTask | edge_runtime/edge_scheduler.cpp:56-72 | with distinct ids a cancellation affects exactly the task with that id |
| SchedulerIds.IsRunningByTask | edge_runtime/edge_scheduler.cpp:74-81 | with distinct ids the query returns the flag of the task with that id |
| SchedulerIds.IdReused | edge_runtime/edge_scheduler.cpp:34-54 | calls that can be made, and that, whatever the sort does, end with two pending tasks of id 2, the last of them scheduled while its id was in use |
| SchedulerIds.RunExists | edge_runtime/edge_scheduler.cpp:45-51 | from an empty scheduler with any cap, any calls can be made in a row: sorting always has a result |
| EdgeSchedulerObject.EdgeScheduler.Tick | edge_runtime/edge_scheduler.cpp:20-32 | the two loops equal the closed form: exactly the first free-slot many tasks start, then cancelled ones are erased |
| EdgeSchedulerObject.EdgeScheduler.Reap | edge_runtime/edge_scheduler.cpp:25-31 | erasing in place leaves the live tasks in order |
| EdgeSchedulerObject.EdgeScheduler.ExecuteNextTask | edge_runtime/edge_scheduler.cpp:91-102 | the first pending task moves to the end of the running ones |
| EdgeSchedulerObject.EdgeScheduler.ScheduleTask | edge_runtime/edge_scheduler.cpp:34-54 | the queue becomes some sorted permutation with the new task, whose id is returned |
| EdgeSchedulerObject.EdgeScheduler.CancelTask | edge_runtime/edge_scheduler.cpp:56-72 | a pending task goes, a running one is marked; the answer says whether the id was found |
| EdgeSchedulerObject.EdgeScheduler.IsTaskRunning | edge_runtime/edge_scheduler.cpp:74-81 | the flag of the first running task with the id |
| EdgeSchedulerObject.StdSort | edge_runtime/edge_scheduler.cpp:45-51 | some sorted permutation, nothing about equivalent tasks |

## Left out

- AdminUser.User.InternalParse: says nothing about the object after a failed parse, because what is left in it depends on how far the runtime's string reader got; the same goes for the two other messages.
- AdminUsersResponse.GetUsersResponse.ByteSizeLong: does not model exhaustion of the 64-bit `total_size`; the cached 32-bit size does wrap around.
- EdgeSchedulerObject.EdgeScheduler.ScheduleTask: task ids, priorities, deadlines and list sizes are unbounded naturals; no arithmetic in the source comes near the end of 64 bits.
- The protobuf runtime's limit on nesting depth, the number of bytes it keeps in reserve below the largest length (left open here), and its check that a whole message stays below 2 GiB: the runtime is not part of this model.
- Chunked streams: input is one byte sequence; where chunks end shows only in the arbitrary answer of `DataAvailable`.
- The other messages of `server-build/admin.pb.cc`, which repeat the three shapes; accessors, arenas, reflection, descriptors and swapping.
- The gRPC stubs and default handlers in `server-build/admin.grpc.pb.cc` and its siblings.
- `edge_runtime/edge_sync_engine.cpp` and `edge_runtime/offline_replay_queue.cpp`, plain lists whose properties follow from single bodies.
- Singletons, logging, and the client and server programs.
- The scheduler's `std::sort` is any method with the contract of `StdSort`; its running time and its choice among equivalent tasks are not modelled.
