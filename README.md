# debug-httpd: the access-log buffer, the environment listing and the port choice

A Dafny model of the core of `debug-httpd`, a small diagnostic HTTP server
written in Go (`main.go`). Three parts of that file are modelled:

- **The access-log buffer** (`AccessLogging`, `access_log.dfy`). Every request
  the server handles becomes an `AccessLog` record that is added to one
  `AccessLogger`; the `/logs` endpoint returns a copy of it. The logger is a
  class with the retained records in a `seq` field `logs` (oldest first) and
  its capacity `size`. `Add` appends and then trims the front to the last
  `size` records; `GetLogs` allocates a new array and copies the records into
  it. `Add` is proved against the function `Appended`, and the retention policy
  (bound, FIFO eviction, order, last entry, many adds in a row via `Replay`)
  is proved about that function.
- **The environment listing** of the debug endpoint (`Environment`,
  `environment.dfy`). Each `KEY=VALUE` entry is split at its first `=`,
  entries with no `=` are skipped, and later keys overwrite earlier ones. The
  handler's index loop with `break` is the method `CollectEnvironment`, proved
  equal to the recursive definition `EnvMap` built from `SplitEntry`.
- **The port choice at start-up** (`PortSelection`, `port.dfy`): the `-port`
  flag if non-zero, else a non-empty `PORT` variable, else the first
  positional argument, else 9876. Any failed parse also gives 9876. The
  integer parser is a parameter `atoi: string -> Option<int>`.

`wrappers.dfy` holds the `Option` datatype.

Two facts about the code shape the model:

- `NewAccessLogger` (main.go:39-44) does not check its capacity. Capacity 0
  gives a logger that never keeps anything (main.go:52-53), as
  `AppendedZeroCapacity` states. A negative capacity panics in `make`
  (main.go:41), so the model takes a `nat`.
- The buffer is a slice that `Add` appends to and then reslices
  (main.go:51-54); the model keeps it as a `seq`.

## Model

| member | source | states |
|---|---|---|
| `AccessLogging.AccessLogger.constructor` | main.go:39-44 | a new logger is empty, satisfies the capacity invariant and remembers its capacity |
| `AccessLogging.NewDefaultLogger` | main.go:67 | the process-wide logger is new and empty, with capacity 100 |
| `AccessLogging.AccessLogger.Add` | main.go:47-55 | keeps the invariant that the log holds at most `size` records; the new contents are `Appended(old contents, entry, size)`; the capacity is unchanged |
| `AccessLogging.AccessLogger.GetLogs` | main.go:58-65 | returns a newly allocated array equal to the current contents, oldest first, and changes nothing |
| `AccessLogging.AppendedBounded` | main.go:51-54 | after an add the log holds at most `size` records: one more than before when it was below capacity, exactly `size` otherwise |
| `AccessLogging.AppendedBelowCapacity` | main.go:51-52 | below capacity nothing is dropped: the new contents are the old ones followed by the new record |
| `AccessLogging.AppendedAtCapacity` | main.go:51-53 | at or over capacity the oldest records go: the newest `size - 1` old records stay in order, then the new one |
| `AccessLogging.AppendedEndsWithEntry` | main.go:51 | with a positive capacity the record just added is the last one kept |
| `AccessLogging.AppendedZeroCapacity` | main.go:52-53 | a capacity-0 logger keeps nothing |
| `AccessLogging.ReplayKeepsLast` | main.go:51-54 | adding records one by one to a logger within capacity leaves exactly the last `size` of all records it has held, in insertion order |
| `AccessLogging.FiveIntoThree` | main_test.go:148-164 | five adds to a capacity-3 logger leave the last three records, in order |
| `AccessLogging.TwoIntoDefault` | main_test.go:41-63 | two adds to a default logger give back both records in insertion order |
| `AccessLogging.SnapshotSurvivesAdd` | main.go:62-64 | an add after a snapshot leaves the snapshot as the old contents |
| `Environment.SplitEntry` | main.go:134-137 | an entry has no split exactly when it holds no `=`; otherwise the key has no `=` and key, `=`, value rebuild the entry |
| `Environment.SplitAtFirstEquals` | main.go:134-137 | the split is at the first `=`: key is the text before it and value the text after it |
| `Environment.CollectEnvironment` | main.go:132-140 | the scanning loop builds exactly the map `EnvMap` of the entries |
| `Environment.EnvKeysHaveNoEquals` | main.go:135-136 | no key of the environment map contains `=` |
| `Environment.EnvKeysFromEntries` | main.go:133-139 | a key is in the map if and only if some entry splits to that key |
| `Environment.EnvLastEntryWins` | main.go:133-139 | a key maps to the value of the last entry with that key; later duplicates overwrite |
| `Environment.EntryWithoutEqualsSkipped` | main.go:134-139 | an entry without `=` leaves the map unchanged |
| `PortSelection.SelectPort` | main.go:182-201 | a non-zero flag is used unchanged; else a set `PORT` decides, giving 9876 when it does not parse; else a parsable first argument; else 9876 |
| `PortSelection.PortProvenance` | main.go:182-201 | the port is the flag value, a parse of `PORT`, a parse of the first argument, or 9876 |
| `PortSelection.FlagOverridesEverything` | main.go:182 | with a non-zero flag the environment and arguments make no difference |
| `PortSelection.EnvOverridesArguments` | main.go:183-188 | with `PORT` set the positional arguments make no difference, even when `PORT` does not parse |
| `PortSelection.OnlyFirstArgumentCounts` | main.go:191-193 | arguments after the first make no difference |

## Left out

- The reader/writer mutex (main.go:33, 48-49, 59-60). Its job is concurrency. `Add` and `GetLogs` are modelled as atomic sequential methods, so linearizability and the absence of torn reads are not modelled.
- `logAccess` (main.go:70-89). It builds a record from the clock, the remote address, the integer parser and HTTP headers, then prints it. That is foreign calls and I/O; `AccessLog` is an opaque record here.
- The HTTP handlers other than the environment loop, JSON encoding, `getIPAddresses`, the SIGHUP goroutine and `ListenAndServe` (main.go:92-173, 203-226). These are network, OS and library I/O.
- `strconv.Atoi` and `os.Environ`. Their results are parameters. Parse failure is `None`.
- Bad `-port` values. `flag.Parse` exits the process on those; the model takes the flag's parsed integer as an input.
- Go strings are byte strings. The model splits `seq<char>` at `'='`, which gives the same split because `=` is a single ASCII byte.
- `server.py`. It is a Python variant whose buffer is a library `deque(maxlen=100)` under a lock, the same policy as the Go logger.
- `main_test.go` and `integration_test.go`. They are HTTP and Docker test drivers. Two of their scenarios are the methods `FiveIntoThree` and `TwoIntoDefault`.
