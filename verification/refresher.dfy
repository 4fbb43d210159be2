/**
 One refresh cycle of `UpdateCricRecords` in cric.go, and the initial file
 load that precedes the loop, as pure state transitions.

 The shared state is the pair of package variables `CricRecords` (the
 snapshot) and `cmsRecords` (the lookup map). The goroutine also carries two
 locals from one iteration to the next, `cricRecords` and `err`, and they
 matter: an iteration that fetches nothing still looks at them. The parser
 and fetcher calls are foreign code with file and network I/O; their reply is
 an input of the transition, and so is the order in which Go's `range`
 enumerates the reply's map.
 */
module Refresher {
  import opened Wrappers
  import opened DNIndex

  const MinInt64: int := -0x8000_0000_0000_0000
  const MaxInt64: int := 0x7fff_ffff_ffff_ffff

  /** Go's `int64`. */
  type Int64 = x: int | MinInt64 <= x <= MaxInt64

  /** The interval used when none is configured. */
  const DefaultInterval: Int64 := 3600

  /** Nanoseconds in a second: Go's `time.Second`. */
  const Second: int := 1_000_000_000

  /**
   The arguments of `UpdateCricRecords` that have a functional effect
   (`cricVerbose` only selects log output).
   */
  datatype Config = Config(key: string, cricFile: string, cricURL: string, cricUpdateInterval: Int64)

  /** The `cmsauth` call a cycle issues. */
  datatype ParserCall =
    | ParseCricByKey(file: string)
    | ParseCric(file: string)
    | GetCricDataByKey(url: string)
    | GetCricData(url: string)
  {
    /** The call reads the configured file rather than the URL. */
    predicate ReadsFile()
    {
      ParseCricByKey? || ParseCric?
    }

    /** The call keys the records by their `id`. */
    predicate KeyedById()
    {
      ParseCricByKey? || GetCricDataByKey?
    }

    function Location(): string
    {
      if ReadsFile() then file else url
    }
  }

  /** What the parser returns: Go's `(records, err)` pair, with `None` for a nil error. */
  datatype Reply = Reply(records: CricRecords, err: Option<string>)

  /** The package variables `CricRecords` and `cmsRecords`. */
  datatype Stores = Stores(cric: CricRecords, cms: CricRecords)

  /**
   The refresher goroutine: the shared stores and the locals `cricRecords`
   and `err` that survive from one iteration to the next.
   */
  datatype Goroutine = Goroutine(stores: Stores, cricRecords: CricRecords, err: Option<string>)

  /** Package variables start as nil maps (empty), `cricRecords` as an empty map, `err` as nil. */
  const Start: Goroutine := Goroutine(Stores(map[], map[]), map[], None)

  /** The parser call on the configured file, chosen by key mode. */
  function FileCall(cfg: Config): (c: ParserCall)
    ensures c.ReadsFile() && c.Location() == cfg.cricFile
    ensures c.KeyedById() <==> cfg.key == "id"
  {
    if cfg.key == "id" then ParseCricByKey(cfg.cricFile) else ParseCric(cfg.cricFile)
  }

  /** The fetch call on the configured URL, chosen by key mode. */
  function URLCall(cfg: Config): (c: ParserCall)
    ensures !c.ReadsFile() && c.Location() == cfg.cricURL
    ensures c.KeyedById() <==> cfg.key == "id"
  {
    if cfg.key == "id" then GetCricDataByKey(cfg.cricURL) else GetCricData(cfg.cricURL)
  }

  /**
   The call one loop iteration makes: the URL when one is configured, else
   the file when one is configured, else none.
   */
  function LoopCall(cfg: Config): (c: Option<ParserCall>)
    ensures c.None? <==> cfg.cricURL == "" && cfg.cricFile == ""
    ensures cfg.cricURL != "" ==> c.Some? && !c.value.ReadsFile() && c.value.Location() == cfg.cricURL
    ensures c.Some? && c.value.ReadsFile() ==> cfg.cricURL == "" && c.value.Location() == cfg.cricFile
    ensures cfg.cricURL == "" && cfg.cricFile != "" ==> c.Some? && c.value.ReadsFile()
    ensures c.Some? ==> (c.value.KeyedById() <==> cfg.key == "id")
  {
    if cfg.cricURL != "" then Some(URLCall(cfg))
    else if cfg.cricFile != "" then Some(FileCall(cfg))
    else None
  }

  /** The call of the initial load: the file only, and only when one is configured. */
  function InitialCall(cfg: Config): (c: Option<ParserCall>)
    ensures c.None? <==> cfg.cricFile == ""
    ensures c.Some? ==> c.value.ReadsFile() && c.value.Location() == cfg.cricFile
    ensures c.Some? ==> (c.value.KeyedById() <==> cfg.key == "id")
  {
    if cfg.cricFile != "" then Some(FileCall(cfg)) else None
  }

  /**
   Install a freshly parsed map: it becomes `CricRecords`, and `cmsRecords`
   becomes the same map in `"id"` key mode, or its DN index otherwise.
   `order` is the order in which `range` enumerates the map.
   */
  function Install(key: string, records: CricRecords, order: seq<string>): (s: Stores)
    requires IsEnumeration(order, records)
    ensures s.cric == records
    ensures key == "id" ==> s.cms == records
    ensures key != "id" ==> IsDNIndexOf(s.cms, records)
  {
    if key == "id" then Stores(records, records)
    else
      IndexOfEnumeration(records, order);
      Stores(records, BuildIndex(Entries(records, order)))
  }

  /**
   The check that follows a parse: with a non-nil `err` nothing is
   installed, otherwise the local `cricRecords` is installed.
   */
  function Settle(g: Goroutine, key: string, order: seq<string>): (g': Goroutine)
    requires IsEnumeration(order, g.cricRecords)
    ensures g'.cricRecords == g.cricRecords && g'.err == g.err
    ensures g.err.Some? ==> g'.stores == g.stores
    ensures g.err.None? ==> g'.stores == Install(key, g.cricRecords, order)
  {
    if g.err.Some? then g else g.(stores := Install(key, g.cricRecords, order))
  }

  /** The locals after a parser call: its reply, or the previous values when no call was made. */
  function Fetched(g: Goroutine, call: Option<ParserCall>, reply: Reply): (g': Goroutine)
    ensures g'.stores == g.stores
    ensures call.Some? ==> g'.cricRecords == reply.records && g'.err == reply.err
    ensures call.None? ==> g' == g
  {
    if call.Some? then g.(cricRecords := reply.records, err := reply.err) else g
  }

  /**
   The initial load before the loop: when a file is configured it is
   parsed and, on success, installed; otherwise nothing happens at all.
   */
  function InitialLoad(cfg: Config, reply: Reply, order: seq<string>): (g: Goroutine)
    requires IsEnumeration(order, Fetched(Start, InitialCall(cfg), reply).cricRecords)
    ensures cfg.cricFile == "" ==> g == Start
    ensures cfg.cricFile != "" && reply.err.Some? ==> g.stores == Start.stores
    ensures cfg.cricFile != "" && reply.err.None? ==>
      g.stores.cric == reply.records
      && (cfg.key == "id" ==> g.stores.cms == reply.records)
      && (cfg.key != "id" ==> IsDNIndexOf(g.stores.cms, reply.records))
  {
    if cfg.cricFile == "" then Start
    else Settle(Fetched(Start, InitialCall(cfg), reply), cfg.key, order)
  }

  /** The interval, in seconds, one iteration sleeps: 3600 when none (0) is configured. */
  function IntervalSeconds(cfg: Config): (s: Int64)
    ensures cfg.cricUpdateInterval == 0 ==> s == DefaultInterval
    ensures cfg.cricUpdateInterval != 0 ==> s == cfg.cricUpdateInterval
    ensures s != 0
  {
    if cfg.cricUpdateInterval == 0 then DefaultInterval else cfg.cricUpdateInterval
  }

  /** Two's-complement wrap-around of an integer into `int64`. */
  function WrapInt64(x: int): (r: Int64)
    ensures (r - x) % 0x1_0000_0000_0000_0000 == 0
    ensures MinInt64 <= x <= MaxInt64 ==> r == x
  {
    (x - MinInt64) % 0x1_0000_0000_0000_0000 + MinInt64
  }

  /** `time.Duration(interval) * time.Second`: an `int64` product that wraps on overflow. */
  function SleepDuration(seconds: Int64): Int64
  {
    WrapInt64(seconds * Second)
  }

  /** Any interval up to about 292 years is slept exactly, in nanoseconds. */
  lemma SleepDurationExact(seconds: Int64)
    requires 0 <= seconds <= MaxInt64 / Second
    ensures SleepDuration(seconds) == seconds * Second
    ensures seconds > 0 ==> SleepDuration(seconds) > 0
  {
  }

  /** A larger interval wraps around to a negative duration, so the loop does not sleep at all. */
  lemma SleepDurationWraps()
    ensures SleepDuration(9_223_372_037) < 0
  {
  }

  /** The result of one loop iteration: the next goroutine state and how long it then sleeps. */
  datatype Iteration = Iteration(next: Goroutine, sleepSeconds: Int64)

  /**
   One iteration of the refresh loop. `order` is the order `range` uses on
   the map that is installed when the iteration succeeds.
   */
  function Cycle(cfg: Config, g: Goroutine, reply: Reply, order: seq<string>): (it: Iteration)
    requires IsEnumeration(order, Fetched(g, LoopCall(cfg), reply).cricRecords)
    ensures it.sleepSeconds == IntervalSeconds(cfg)
    ensures LoopCall(cfg).Some? && reply.err.Some? ==> it.next.stores == g.stores
    ensures LoopCall(cfg).Some? && reply.err.None? ==>
      it.next.stores.cric == reply.records
      && (cfg.key == "id" ==> it.next.stores.cms == reply.records)
      && (cfg.key != "id" ==> IsDNIndexOf(it.next.stores.cms, reply.records))
  {
    var fetched := Fetched(g, LoopCall(cfg), reply);
    Iteration(Settle(fetched, cfg.key, order), IntervalSeconds(cfg))
  }

  /**
   The new lookup map of a successful cycle depends only on the reply and
   the enumeration order: nothing of the previous `CricRecords` or
   `cmsRecords` survives.
   */
  lemma SuccessForgetsPreviousStores(cfg: Config, g1: Goroutine, g2: Goroutine, reply: Reply, order: seq<string>)
    requires LoopCall(cfg).Some? && reply.err.None?
    requires IsEnumeration(order, reply.records)
    ensures Cycle(cfg, g1, reply, order).next == Cycle(cfg, g2, reply, order).next
  {
  }

  /** When a URL is configured, the configured file plays no part in the loop. */
  lemma URLShadowsFile(cfg: Config, file: string, g: Goroutine, reply: Reply, order: seq<string>)
    requires cfg.cricURL != ""
    requires IsEnumeration(order, reply.records)
    ensures Cycle(cfg, g, reply, order) == Cycle(cfg.(cricFile := file), g, reply, order)
  {
  }

  /**
   What the goroutine's locals hold when no source is configured: the empty
   map that `cricRecords` starts as, and a nil `err`, because no statement
   ever assigns them.
   */
  predicate IdleLocals(cfg: Config, g: Goroutine)
  {
    LoopCall(cfg).None? ==> g.cricRecords == map[] && g.err == None
  }

  /** The initial load leaves the locals idle when no source is configured. */
  lemma InitialLoadIdle(cfg: Config, reply: Reply, order: seq<string>)
    requires IsEnumeration(order, Fetched(Start, InitialCall(cfg), reply).cricRecords)
    ensures IdleLocals(cfg, InitialLoad(cfg, reply, order))
  {
  }

  /**
   With neither a URL nor a file, an iteration still reaches the install
   step: it finds `err` nil and installs the empty `cricRecords`, so both
   stores become empty, and the locals stay idle for the next iteration.
   */
  lemma NoSourceInstallsEmpty(cfg: Config, g: Goroutine, reply: Reply)
    requires cfg.cricURL == "" && cfg.cricFile == ""
    requires IdleLocals(cfg, g)
    ensures IsEnumeration([], Fetched(g, LoopCall(cfg), reply).cricRecords)
    ensures Cycle(cfg, g, reply, []).next.stores == Stores(map[], map[])
    ensures IdleLocals(cfg, Cycle(cfg, g, reply, []).next)
  {
  }
}
