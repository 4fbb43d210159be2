# CRIC identity index of the auth proxy server

This project models the identity-index logic of `cric.go` in the auth proxy
server, and proves properties of the model. That logic keeps two package
variables. `CricRecords` is the snapshot of CMS CRIC registry records, keyed
by their primary key. `cmsRecords` is the lookup map the proxy authorizes
against. Two parts are modelled:

- **The DN indexer, `updateCMSRecords`.** Every distinguished name (DN) of
  every record is split on `"/CN="`, as Go's `strings.Split` does. A piece
  that starts with `/` is dropped. So is a piece that matches `^\d+$`, which
  is a certificate serial number. Every other piece maps to its record. The
  map is rebuilt from empty on each call.
- **The refresher goroutine, `UpdateCricRecords`.** It does one initial load
  from the file, then loops forever. Each iteration fetches from the URL if
  one is configured, otherwise re-reads the file. On success it installs the
  parsed map as `CricRecords`. It installs either the same map (in `"id"` key
  mode) or the map's DN index as `cmsRecords`. Then it sleeps for the
  configured interval, which defaults to 3600 seconds.

Files:

- `gostrings.dfy` (module `GoStrings`) models `strings.Index`,
  `strings.Split` and `strings.HasPrefix`. It also defines `strings.Join` and
  proves both round trips between `Split` and `Join`.
- `dnindex.dfy` (module `DNIndex`) holds `CricEntry` and `CricRecords`, the
  `intPattern` filter, and the indexer. The indexer appears twice: as the
  source's three nested loops (`UpdateCMSRecords`, `IndexEntry`,
  `IndexPieces`), and as folds that replay those loops. It also holds an
  order-independent specification of the result, `IsDNIndexOf`.
- `refresher.dfy` (module `Refresher`) models source selection, the initial
  load, one loop iteration as a pure transition (`Cycle`), the default
  interval, and the `int64` sleep duration.
- `wrappers.dfy` (module `Wrappers`) holds `Option`, used for Go's `error`.

Inputs the model takes as parameters:

- **The parser reply.** `cmsauth.ParseCric`, `ParseCricByKey`,
  `GetCricData` and `GetCricDataByKey` do file and network I/O. Their reply is
  Go's `(records, err)` pair (`Reply`), given to the transition as an input.
- **The enumeration order.** Go's `range` over a map has no fixed order. The
  order it picks is an input `order`, and `IsEnumeration` requires it to
  list every key exactly once.
- **Time.** `time.Sleep` is not modelled. The transition returns the
  interval, and `SleepDuration` gives the nanosecond `time.Duration` the
  source computes from it.

Behaviour of the code worth noting, which the model keeps:

- **Neither URL nor file configured.** No statement in the loop then assigns
  `err` or `cricRecords` (cric.go:70-86), so `err` is still nil and
  `cricRecords` is still the empty map made before the loop (cric.go:35-36).
  The check at cric.go:87-98 therefore installs an empty `CricRecords` and an
  empty `cmsRecords` on every such iteration (`NoSourceInstallsEmpty`).
- **Locking in `"id"` key mode.** Only `updateCMSRecords` takes the exclusive
  lock (cric.go:117-118). In `"id"` key mode the code assigns `cmsRecords`
  directly, without the lock (cric.go:57, 94), and no write to `CricRecords`
  is locked. The model treats every install as one atomic replacement (see
  "Left out").
- **The empty piece.** The pattern `^\d+$` (cric.go:124) needs at least one
  digit, so an empty piece survives both filters and `""` becomes a key. This
  happens for an empty DN, a DN that ends in `/CN=`, or `/CN=/CN=`
  (`EmptyPieceIsKey`).

## Model

| member | source | states |
|---|---|---|
| GoStrings.Index | cric.go:122 | `strings.Index`, used by `strings.Split`, returns the first occurrence of the separator, and -1 exactly when there is none |
| GoStrings.Split | cric.go:122 | `strings.Split` with `"/CN="` always yields at least one piece, and no piece contains the separator |
| GoStrings.JoinSplit | cric.go:122 | joining the pieces of a DN with the separator gives the DN back, so splitting loses no character |
| GoStrings.SplitJoin | cric.go:122 | if the separator cannot overlap itself and no piece contains it, splitting the joined pieces returns exactly those pieces |
| GoStrings.TrailingSeparatorGivesEmptyPiece | cric.go:122 | a DN ending in the separator splits into pieces whose last one is empty, as Go's `Split` gives |
| DNIndex.CNSeparatorBorderless | cric.go:122 | `"/CN="` cannot overlap itself, so its occurrences in a DN never overlap |
| DNIndex.AddPieces | cric.go:122-127 | after one DN's pieces, a key is present iff it was already present or is a piece passing both filters, and such a piece maps to the current record |
| DNIndex.AddDNs | cric.go:121-128 | after one record's DNs, a key is present iff it was already present or some DN of the record yields it, and such a key maps to that record |
| DNIndex.AddEntries | cric.go:120-130 | after the records in enumeration order, a key is present iff some record yields it, and it maps to the last such record |
| DNIndex.LastYielder | cric.go:120-125 | picks the last enumerated record that yields a key, and no later record yields it |
| DNIndex.BuildIndexLastWins | cric.go:119-130 | built from an empty map, the index has key k iff some enumerated record yields k, and k maps to the last record in the enumeration that yields it |
| DNIndex.IndexPieces | cric.go:122-127 | the innermost loop maps each piece that has no leading `/` and does not match `^\d+$` to the record, in order |
| DNIndex.IndexEntry | cric.go:121-128 | the loop over one record's DNs applies the piece loop to each `strings.Split(dn, "/CN=")` in order |
| DNIndex.UpdateCMSRecords | cric.go:116-131 | the nested loops, started from an empty map, build a DN index of the records: sound, complete, and each key maps to a record with a DN yielding it |
| DNIndex.IndexOfEnumeration | cric.go:120-127 | for every enumeration order, the keys are exactly the surviving pieces of the records' DNs, and each maps to a record of the snapshot with a DN producing it |
| DNIndex.IndexDeterminedUpToCollisions | cric.go:120-125 | any two valid results have the same keys and agree on every key without a collision; the order decides only between colliding records |
| DNIndex.SerialNeverKey | cric.go:124 | a non-empty string of ASCII digits 0-9 (a serial number) is never an index key |
| DNIndex.SlashPieceNeverKey | cric.go:123 | a piece starting with `/`, such as a leading `/DC=...` segment, is never an index key |
| DNIndex.EmptyPieceIsKey | cric.go:122-125 | in any DN index of any snapshot, a record with an empty DN or a DN ending in `/CN=` makes `""` a key, because the digit pattern needs one digit; without a collision on `""` the key maps to that record |
| DNIndex.UnsplitDNIndexedWhole | cric.go:122-125 | in any DN index of any snapshot, a DN without `/CN=`, without a leading `/` and not a serial, like `CN=foo`, is a key as a whole; without a collision on it, it maps to its record |
| DNIndex.NoSeparatorWithoutSlashC | cric.go:122 | a string in which no `/` is followed by `C` has no `"/CN="` to split at |
| DNIndex.CommonNameAfterSerial | cric.go:122-125 | a DN made of a `/`-path, a serial and a common name splits into those three pieces, and only the common name is a key |
| DNIndex.WorkedExample | cric.go:116-131 | a record whose DN is `/DC=ch/DC=cern/OU=Organic Units/CN=12345/CN=John Smith` is indexed as exactly `{"John Smith": record}` |
| Refresher.FileCall | cric.go:78-82 | the file is read with `ParseCricByKey(file, "id")` in `"id"` key mode and with `ParseCric(file)` otherwise |
| Refresher.URLCall | cric.go:71-75 | the URL is fetched with `GetCricDataByKey(url, "id")` in `"id"` key mode and with `GetCricData(url)` otherwise |
| Refresher.LoopCall | cric.go:70-86 | an iteration calls nothing iff neither URL nor file is set; a set URL is always the one used; the file is read when no URL but a file is set, and only then |
| Refresher.InitialCall | cric.go:43-48 | the initial load reads the file, keyed by mode, and only when a file is set, whatever the URL |
| Refresher.Install | cric.go:90-97 | installing a parsed map makes it `CricRecords`; `cmsRecords` becomes the same map in `"id"` mode and a DN index of it otherwise |
| Refresher.Settle | cric.go:87-98 | with a non-nil error both stores are kept, and with a nil error the local records are installed; the locals are unchanged |
| Refresher.Fetched | cric.go:70-86 | a parser call leaves the shared stores untouched and sets the locals `cricRecords` and `err` to its reply; with no call the whole state is unchanged |
| Refresher.InitialLoad | cric.go:43-63 | no file means nothing happens; a failed parse leaves the stores empty; a successful one installs the map as `Install` does |
| Refresher.IntervalSeconds | cric.go:65-68 | the sleep interval is 3600 s when the configured interval is 0, and the configured value otherwise, never 0 |
| Refresher.WrapInt64 | cric.go:110 | int64 arithmetic agrees with the exact value modulo 2^64 and equals it when it fits |
| Refresher.SleepDurationExact | cric.go:110 | an interval up to MaxInt64/10^9 seconds becomes exactly that many nanoseconds, which is positive when the interval is |
| Refresher.SleepDurationWraps | cric.go:110 | an interval of 9223372037 s overflows `time.Duration` to a negative value, so that iteration does not sleep |
| Refresher.Cycle | cric.go:64-112 | an iteration sleeps for the interval; if the parse or fetch fails, both stores are left exactly as they were; on success `CricRecords` is the parsed map and `cmsRecords` is the map itself (`"id"`) or its DN index |
| Refresher.SuccessForgetsPreviousStores | cric.go:90-97 | after a successful iteration, the new state depends only on the reply and enumeration order; nothing of the previous stores survives |
| Refresher.URLShadowsFile | cric.go:70-83 | with a URL set, the configured file has no effect on an iteration |
| Refresher.InitialLoadIdle | cric.go:35-63 | with no source configured, the initial load leaves `cricRecords` empty and `err` nil |
| Refresher.NoSourceInstallsEmpty | cric.go:84-98 | with neither URL nor file, an iteration installs empty `CricRecords` and `cmsRecords` and leaves the locals as they were |

## Left out

- Concurrency is not modelled: the goroutine, `time.Sleep`, and the `sync.RWMutex` around `cmsRecords` (cric.go:111, 117-118). Each install is one atomic replacement of the stores. The source does not lock the `"id"`-mode assignment to `cmsRecords`, nor any write to `CricRecords` (cric.go:53, 57, 90, 94). Readers racing with those writes are not modelled.
- Logging, the verbose record dumps and the reflection-based key count (cric.go:34, 49, 51, 54-55, 61, 76, 83, 85, 88, 91-92, 98-108) have no functional effect and are left out. So is the `cricVerbose` argument.
- The `cmsauth` parsers and fetchers (`ParseCric`, `ParseCricByKey`, `GetCricData`, `GetCricDataByKey`) are foreign code with file and network I/O. Only which call is made is modelled. Its reply is an input.
- Go's map iteration order is an input. The model proves last-wins only for a given enumeration. Which of several colliding records a key holds is not determined (`IndexDeterminedUpToCollisions`).
- `CricEntry` fields other than `DNs` are abstracted as `attributes`. The indexer only copies them.
- Go strings are byte sequences, while the model splits sequences of characters. The separator `"/CN="` and the prefix `/` are ASCII, so both cut a DN at the same places.
- The endless loop is modelled as one iteration (`Cycle`) that can be applied repeatedly. A sequence of iterations is not defined as a function, because each needs its own reply and enumeration order.
- grpc/server.go is not part of this model. It covers JSON configuration loading, `os.Stat` certificate checks, HTTP(S) server start-up with fatal exits, and the `grpcServer` stub.
- grpc/backend/client/main.go is not part of this model. It covers the gRPC dial (insecure or TLS), the 10-second call timeout and a command-line `main`. These are network and timeout behaviour over a library that is not shown.
- The gateway's request handling (`RequestHandler`, `GrpcService`) is not part of this model. Its source is not among the files modelled.
