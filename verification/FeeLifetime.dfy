/** How long a fee reading lives for a coin, resolved from the node's configuration. */
module FeeLifetime {
  import opened Base

  const DEFAULT_SECS: nat := 15
  const MAX_NODE_SECS: nat := 30
  const MAX_COIN_SECS: nat := 600
  const LEAST_BLOCKTIME: real := 2.0
  const GREATEST_BLOCKTIME: real := 600.0

  /** A configured value: an unsigned integer, another number, or no number at all. */
  datatype Json = Unsigned(n: nat) | Number(r: real) | NotANumber

  /** The keys of a coin's configuration entry that matter here. */
  datatype Entry = Entry(cacheSecs: Option<Json>, avgBlocktime: Option<Json>)

  datatype CoinConf = CoinConf(coin: string, platform: Option<string>, entry: Entry)

  datatype NodeConf = NodeConf(cacheSecs: Option<Json>, coins: seq<CoinConf>)

  datatype Result<+T> = Ok(value: T) | Invalid

  /** A fixed number of seconds, where 0 means no use of the cache, or the lifetime the cache entry has grown to. */
  datatype Lifetime = Fixed(secs: nat) | Adaptive

  function AsReal(j: Json): Option<real> {
    match j
    case Unsigned(n) => Some(n as real)
    case Number(r) => Some(r)
    case NotANumber => None
  }

  function Within(j: Option<Json>, max: nat): Result<Option<nat>> {
    if j.None? then Ok(None)
    else if j.value.Unsigned? && j.value.n <= max then Ok(Some(j.value.n))
    else Invalid
  }

  /** The value of the first entry that has the key at all. */
  function FirstCacheSecs(entries: seq<Entry>): Option<Json> {
    if entries == [] then None
    else if entries[0].cacheSecs.Some? then entries[0].cacheSecs
    else FirstCacheSecs(entries[1..])
  }

  function PositiveBlocktime(e: Entry): Option<real> {
    if e.avgBlocktime.None? then None
    else
      var r := AsReal(e.avgBlocktime.value);
      if r.Some? && r.value > 0.0 then r else None
  }

  /** The blocktime of the first entry that has a usable one. */
  function FirstBlocktime(entries: seq<Entry>): Option<real> {
    if entries == [] then None
    else if PositiveBlocktime(entries[0]).Some? then PositiveBlocktime(entries[0])
    else FirstBlocktime(entries[1..])
  }

  function Clamp(r: real, lo: real, hi: real): real {
    if r < lo then lo else if r > hi then hi else r
  }

  function StartSecs(entries: seq<Entry>): (secs: nat)
    ensures 2 <= secs <= 600
  {
    var b := FirstBlocktime(entries);
    if b.None? then DEFAULT_SECS else Clamp(b.value.Floor as real, LEAST_BLOCKTIME, GREATEST_BLOCKTIME).Floor
  }

  function LifetimeFrom(node: NodeConf, entries: seq<Entry>): Result<Lifetime> {
    match Within(FirstCacheSecs(entries), MAX_COIN_SECS)
    case Invalid => Invalid
    case Ok(Some(secs)) => Ok(Fixed(secs))
    case Ok(None) =>
      match Within(node.cacheSecs, MAX_NODE_SECS)
      case Invalid => Invalid
      case Ok(Some(secs)) => Ok(Fixed(secs))
      case Ok(None) => Ok(Adaptive)
  }

  function Find(coins: seq<CoinConf>, ticker: string): Option<CoinConf> {
    if coins == [] then None else if coins[0].coin == ticker then Some(coins[0]) else Find(coins[1..], ticker)
  }

  const NO_ENTRY := Entry(None, None)

  function EntryOf(node: NodeConf, ticker: string): Entry {
    var c := Find(node.coins, ticker);
    if c.Some? then c.value.entry else NO_ENTRY
  }

  /** The coin's own entry, then that of its platform coin. */
  function EntriesOf(node: NodeConf, ticker: string): seq<Entry> {
    var c := Find(node.coins, ticker);
    [EntryOf(node, ticker),
     if c.Some? && c.value.platform.Some? then EntryOf(node, c.value.platform.value) else NO_ENTRY]
  }

  /** The lifetime of a coin of a running node; a node with an invalid value does not use the cache for the coin. */
  function NodeLifetime(node: NodeConf, ticker: string): Lifetime {
    match LifetimeFrom(node, EntriesOf(node, ticker))
    case Ok(l) => l
    case Invalid => Fixed(0)
  }

  function NodeStartSecs(node: NodeConf, ticker: string): nat {
    StartSecs(EntriesOf(node, ticker))
  }

  /** The first entry with a positive blocktime decides the start: whole seconds, at least 2 and at most 600. */
  lemma {:induction false} StartFollowsBlocktime(entries: seq<Entry>, i: nat, b: real)
    requires i < |entries| && PositiveBlocktime(entries[i]) == Some(b)
    requires forall k :: 0 <= k < i ==> PositiveBlocktime(entries[k]).None?
    ensures var secs := StartSecs(entries) as real;
            && (b < 2.0 ==> secs == 2.0)
            && (2.0 <= b < 600.0 ==> secs <= b < secs + 1.0)
            && (b >= 600.0 ==> secs == 600.0)
  {
    if i > 0 {
      assert forall k :: 0 <= k < i - 1 ==> entries[1..][k] == entries[k + 1];
      StartFollowsBlocktime(entries[1..], i - 1, b);
    }
  }

  lemma {:induction false} StartDefaults(entries: seq<Entry>)
    requires forall k :: 0 <= k < |entries| ==> PositiveBlocktime(entries[k]).None?
    ensures StartSecs(entries) == 15
  {
    if entries != [] {
      StartDefaults(entries[1..]);
    }
  }

  /** Entry `i` is the first to say something about the cache, and says `j`. */
  ghost predicate SaysFirst(entries: seq<Entry>, i: nat, j: Json) {
    i < |entries| && entries[i].cacheSecs == Some(j) && forall k :: 0 <= k < i ==> entries[k].cacheSecs.None?
  }

  /** What the entries say about the cache, the coin's own first: the number, or something invalid. */
  ghost predicate EntriesSay(entries: seq<Entry>, j: Json) {
    exists i: nat :: SaysFirst(entries, i, j)
  }

  ghost predicate Silent(entries: seq<Entry>) {
    forall i :: 0 <= i < |entries| ==> entries[i].cacheSecs.None?
  }

  lemma {:induction false} FirstCacheSecsIs(entries: seq<Entry>)
    ensures FirstCacheSecs(entries).Some? ==> EntriesSay(entries, FirstCacheSecs(entries).value)
    ensures FirstCacheSecs(entries).None? <==> Silent(entries)
  {
    if entries != [] {
      FirstCacheSecsIs(entries[1..]);
      if entries[0].cacheSecs.Some? {
        assert SaysFirst(entries, 0, entries[0].cacheSecs.value);
      } else if FirstCacheSecs(entries).Some? {
        var j := FirstCacheSecs(entries).value;
        var i: nat :| SaysFirst(entries[1..], i, j);
        assert forall k :: 0 < k <= i + 1 ==> entries[k] == entries[1..][k - 1];
        assert SaysFirst(entries, i + 1, j);
      } else {
        assert forall k :: 0 < k < |entries| ==> entries[k] == entries[1..][k - 1];
      }
    }
  }

  /**
   Precedence: a coin that says something about the cache decides alone, its platform after it, and only then
   the node; whatever is decided, a fixed lifetime never exceeds 600 seconds.
   */
  lemma LifetimePrecedence(node: NodeConf, ticker: string)
    ensures var entries := EntriesOf(node, ticker);
            var l := NodeLifetime(node, ticker);
            && (l.Fixed? ==> l.secs <= 600)
            && (l == Adaptive <==> node.cacheSecs.None? && Silent(entries))
            && (forall j :: EntriesSay(entries, j) ==>
                  l == Fixed(if j.Unsigned? && j.n <= 600 then j.n else 0))
            && (Silent(entries) && node.cacheSecs.Some? ==>
                  var j := node.cacheSecs.value;
                  l == Fixed(if j.Unsigned? && j.n <= 30 then j.n else 0))
  {
    var entries := EntriesOf(node, ticker);
    FirstCacheSecsIs(entries);
    forall j | EntriesSay(entries, j) ensures FirstCacheSecs(entries) == Some(j) {
      var i: nat :| SaysFirst(entries, i, j);
      var f := FirstCacheSecs(entries).value;
      var m: nat :| SaysFirst(entries, m, f);
      assert i == m;
    }
  }

  // ---------------------------------------------------------------------------------------------
  // By the coins of the configuration
  // ---------------------------------------------------------------------------------------------

  /** `c` is the first coin of the configuration with that ticker. */
  ghost predicate IsCoin(node: NodeConf, ticker: string, c: CoinConf) {
    exists i :: 0 <= i < |node.coins| && node.coins[i] == c && c.coin == ticker && NotBefore(node.coins, i, ticker)
  }

  ghost predicate NotBefore(coins: seq<CoinConf>, i: nat, ticker: string)
    requires i <= |coins|
  {
    forall j :: 0 <= j < i ==> coins[j].coin != ticker
  }

  lemma {:induction false} FoundIsFirst(coins: seq<CoinConf>, ticker: string, i: nat)
    requires i < |coins| && coins[i].coin == ticker && NotBefore(coins, i, ticker)
    ensures Find(coins, ticker) == Some(coins[i])
  {
    if i > 0 {
      assert coins[0].coin != ticker;
      assert forall j :: 0 <= j < i - 1 ==> coins[1..][j] == coins[j + 1];
      FoundIsFirst(coins[1..], ticker, i - 1);
    }
  }

  lemma CoinIsFound(node: NodeConf, ticker: string, c: CoinConf)
    requires IsCoin(node, ticker, c)
    ensures Find(node.coins, ticker) == Some(c) && EntryOf(node, ticker) == c.entry
  {
    var i :| 0 <= i < |node.coins| && node.coins[i] == c && c.coin == ticker && NotBefore(node.coins, i, ticker);
    FoundIsFirst(node.coins, ticker, i);
  }

  /** A coin's number decides if it is an integer from 0 to 600; anything else turns the cache off. */
  function SecsOf(j: Json): Lifetime {
    Fixed(if j.Unsigned? && j.n <= 600 then j.n else 0)
  }

  /** A coin that says something about the cache decides, whatever its platform and the node say. */
  lemma CoinDecides(node: NodeConf, ticker: string, c: CoinConf, j: Json)
    requires IsCoin(node, ticker, c) && c.entry.cacheSecs == Some(j)
    ensures NodeLifetime(node, ticker) == SecsOf(j)
  {
    CoinIsFound(node, ticker, c);
    assert SaysFirst(EntriesOf(node, ticker), 0, j);
    LifetimePrecedence(node, ticker);
  }

  /** A coin that says nothing leaves it to its platform coin. */
  lemma PlatformDecides(node: NodeConf, ticker: string, c: CoinConf, p: CoinConf, j: Json)
    requires IsCoin(node, ticker, c) && c.entry.cacheSecs == None && c.platform == Some(p.coin)
    requires IsCoin(node, p.coin, p) && p.entry.cacheSecs == Some(j)
    ensures NodeLifetime(node, ticker) == SecsOf(j)
  {
    CoinIsFound(node, ticker, c);
    CoinIsFound(node, p.coin, p);
    assert SaysFirst(EntriesOf(node, ticker), 1, j);
    LifetimePrecedence(node, ticker);
  }

  /** Nothing in the configuration says anything about the coin's cache. */
  ghost predicate Unsaid(node: NodeConf, ticker: string) {
    forall c :: c in node.coins && c.coin == ticker ==> c.entry.cacheSecs == None
  }

  lemma {:induction false} UnsaidEntry(coins: seq<CoinConf>, ticker: string)
    requires forall c :: c in coins && c.coin == ticker ==> c.entry.cacheSecs == None
    ensures Find(coins, ticker).Some? ==> Find(coins, ticker).value in coins
    ensures Find(coins, ticker).Some? ==> Find(coins, ticker).value.coin == ticker
    ensures Find(coins, ticker).Some? ==> Find(coins, ticker).value.entry.cacheSecs == None
  {
    if coins != [] && coins[0].coin != ticker {
      UnsaidEntry(coins[1..], ticker);
    }
  }

  /** Where neither the coin nor its platform says anything the node decides, with at most 30, or nobody does. */
  lemma NodeDecides(node: NodeConf, ticker: string)
    requires Unsaid(node, ticker)
    requires forall c :: c in node.coins && c.coin == ticker && c.platform.Some? ==> Unsaid(node, c.platform.value)
    ensures NodeLifetime(node, ticker) ==
            if node.cacheSecs.None? then Adaptive
            else if node.cacheSecs.value.Unsigned? && node.cacheSecs.value.n <= 30 then Fixed(node.cacheSecs.value.n)
            else Fixed(0)
  {
    UnsaidEntry(node.coins, ticker);
    var c := Find(node.coins, ticker);
    if c.Some? && c.value.platform.Some? {
      UnsaidEntry(node.coins, c.value.platform.value);
    }
    assert Silent(EntriesOf(node, ticker));
    LifetimePrecedence(node, ticker);
  }

  /** The blocktime of the coin, if it has a positive one, else that of its platform coin gives the start. */
  lemma BlocktimeDecides(node: NodeConf, ticker: string, c: CoinConf, b: real)
    requires IsCoin(node, ticker, c) && b > 0.0
    requires PositiveBlocktime(c.entry) == Some(b) ||
             (PositiveBlocktime(c.entry) == None && c.platform.Some? &&
              exists p :: IsCoin(node, c.platform.value, p) && PositiveBlocktime(p.entry) == Some(b))
    ensures var secs := NodeStartSecs(node, ticker) as real;
            && (b < 2.0 ==> secs == 2.0)
            && (2.0 <= b < 600.0 ==> secs <= b < secs + 1.0)
            && (b >= 600.0 ==> secs == 600.0)
  {
    CoinIsFound(node, ticker, c);
    if PositiveBlocktime(c.entry) == Some(b) {
      StartFollowsBlocktime(EntriesOf(node, ticker), 0, b);
    } else {
      var p :| IsCoin(node, c.platform.value, p) && PositiveBlocktime(p.entry) == Some(b);
      CoinIsFound(node, c.platform.value, p);
      StartFollowsBlocktime(EntriesOf(node, ticker), 1, b);
    }
  }

  /** A blocktime is a positive number, integral or not. */
  lemma PositiveBlocktimes(e: Entry, b: real)
    ensures PositiveBlocktime(e) == Some(b) <==>
            && b > 0.0
            && (e.avgBlocktime == Some(Number(b)) ||
                exists n: nat :: e.avgBlocktime == Some(Unsigned(n)) && n as real == b)
  {
  }
}
