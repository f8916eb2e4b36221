/** A model of compositeSource in composite_source.go: a list of
    configuration sources consulted in order, with a memo of the keys some
    source has explicitly set.

    A source is what its Load left behind: for each key the config its Get
    returns (none for Go's nil), and the set of keys its Has reports. A
    config is reduced to its IsSet flag and an opaque text. */
module CompositeSource {
  import opened Wrappers

  type ConfigKey = string

  datatype Config = Config(isSet: bool, text: string)

  /** One source: its configs, the keys it reports as explicitly set, and
      the error its Load returns, if any. */
  datatype Source = Source(configs: map<ConfigKey, Config>, explicit: set<ConfigKey>, loadError: Option<string>)

  /** The composite: its sources in precedence order and the memo cache. */
  datatype Composite = Composite(sources: seq<Source>, cache: map<ConfigKey, Config>)

  /** What Get returns, with the composite as the call leaves it. */
  datatype Answer = Answer(config: Config, after: Composite)

  /** A source's Get yields a non-nil config that is set. */
  predicate Usable(s: Source, k: ConfigKey)
  {
    k in s.configs && s.configs[k].isSet
  }

  /** A usable config from a source whose Has also holds. */
  predicate Explicit(s: Source, k: ConfigKey)
  {
    Usable(s, k) && k in s.explicit
  }

  /** Source `j` is the first one at or after `i` that explicitly sets `k`. */
  ghost predicate FirstExplicitFrom(ss: seq<Source>, k: ConfigKey, i: nat, j: int)
  {
    i <= j < |ss| && Explicit(ss[j], k) && forall l :: i <= l < j ==> !Explicit(ss[l], k)
  }

  /** Source `j` is the last one at or after `i` with a usable config for `k`. */
  ghost predicate LastUsableFrom(ss: seq<Source>, k: ConfigKey, i: nat, j: int)
  {
    i <= j < |ss| && Usable(ss[j], k) && forall l :: j < l < |ss| ==> !Usable(ss[l], k)
  }

  /** NewCompositeSource: the given sources and an empty cache. */
  function NewComposite(ss: seq<Source>): (c: Composite)
    ensures c.sources == ss && c.cache == map[]
    ensures CacheSound(c)
  {
    Composite(ss, map[])
  }

  /** Load calls each source's Load in order and stops at the first error,
      which it returns; `calls` is the number of sources whose Load ran. */
  method Load(c: Composite) returns (err: Option<string>, calls: nat)
    ensures calls <= |c.sources|
    ensures forall i :: 0 <= i < calls - 1 ==> c.sources[i].loadError.None?
    ensures err.None? ==> calls == |c.sources| && forall i :: 0 <= i < |c.sources| ==> c.sources[i].loadError.None?
    ensures err.Some? ==> 0 < calls && err == c.sources[calls - 1].loadError
  {
    calls := 0;
    while calls < |c.sources|
      invariant calls <= |c.sources|
      invariant forall i :: 0 <= i < calls ==> c.sources[i].loadError.None?
    {
      var e := c.sources[calls].loadError;
      calls := calls + 1;
      if e.Some? {
        return e, calls;
      }
    }
    return None, calls;
  }

  /** The outcome of the loop over the sources in Get. */
  datatype Scanned = Explicitly(config: Config) | Fallback(last: Option<Config>)

  /** The loop of Get from source `i` on; `last` is the last usable config
      seen before `i`. The loop returns the first explicit config, and
      otherwise remembers the last usable one. */
  function Scan(ss: seq<Source>, k: ConfigKey, i: nat, last: Option<Config>): (r: Scanned)
    requires i <= |ss|
    ensures forall j :: FirstExplicitFrom(ss, k, i, j) ==> r == Explicitly(ss[j].configs[k])
    ensures (forall j :: i <= j < |ss| ==> !Explicit(ss[j], k)) ==>
      && r.Fallback?
      && (forall j :: LastUsableFrom(ss, k, i, j) ==> r.last == Some(ss[j].configs[k]))
      && ((forall j :: i <= j < |ss| ==> !Usable(ss[j], k)) ==> r.last == last)
    decreases |ss| - i
  {
    if i == |ss| then
      Fallback(last)
    else if Usable(ss[i], k) then
      if k in ss[i].explicit then Explicitly(ss[i].configs[k])
      else Scan(ss, k, i + 1, Some(ss[i].configs[k]))
    else
      Scan(ss, k, i + 1, last)
  }

  /** Get: a cached config is returned as it is; otherwise the first source
      that explicitly sets the key wins and is cached, then the last usable
      config (not cached), then `empty`, which stands for EmptyConfig(). */
  function Get(c: Composite, k: ConfigKey, empty: Config): (r: Answer)
    ensures k in c.cache ==> r == Answer(c.cache[k], c)
    ensures k !in c.cache ==>
      forall j :: FirstExplicitFrom(c.sources, k, 0, j) ==>
        r == Answer(c.sources[j].configs[k], c.(cache := c.cache[k := c.sources[j].configs[k]]))
    ensures k !in c.cache && (forall j :: 0 <= j < |c.sources| ==> !Explicit(c.sources[j], k)) ==>
      && r.after == c
      && (forall j :: LastUsableFrom(c.sources, k, 0, j) ==> r.config == c.sources[j].configs[k])
      && ((forall j :: 0 <= j < |c.sources| ==> !Usable(c.sources[j], k)) ==> r.config == empty)
  {
    if k in c.cache then
      Answer(c.cache[k], c)
    else
      match Scan(c.sources, k, 0, None)
      case Explicitly(cfg) => Answer(cfg, c.(cache := c.cache[k := cfg]))
      case Fallback(Some(cfg)) => Answer(cfg, c)
      case Fallback(None) => Answer(empty, c)
  }

  /** Has: Get yields a set config; Get may fill the cache on the way.
      With a sound cache, Has holds exactly when some source has a usable
      config for the key, or none has and `empty` counts as set. */
  function Has(c: Composite, k: ConfigKey, empty: Config): (r: (bool, Composite))
    ensures CacheSound(c) ==>
      (r.0 <==> if exists j :: 0 <= j < |c.sources| && Usable(c.sources[j], k) then true else empty.isSet)
    ensures CacheSound(c) ==> CacheSound(r.1) && r.1.sources == c.sources
  {
    HasAnswer(c, k, empty);
    var a := Get(c, k, empty);
    (a.config.isSet, a.after)
  }

  /** Every cached config is the one the sources would give for its key
      without the cache: the first explicit one. */
  ghost predicate CacheSound(c: Composite)
  {
    forall k :: k in c.cache ==> Scan(c.sources, k, 0, None) == Explicitly(c.cache[k])
  }

  /** The converse of Scan's contract: an explicit result comes from the
      first explicit source, and a fallback from the last usable source or,
      with none, from `last`. */
  lemma {:induction false} ScanCases(ss: seq<Source>, k: ConfigKey, i: nat, last: Option<Config>)
    requires i <= |ss|
    ensures Scan(ss, k, i, last).Explicitly? ==>
      exists j :: FirstExplicitFrom(ss, k, i, j) && Scan(ss, k, i, last).config == ss[j].configs[k]
    ensures Scan(ss, k, i, last).Fallback? ==>
      && (forall j :: i <= j < |ss| ==> !Explicit(ss[j], k))
      && (|| ((forall j :: i <= j < |ss| ==> !Usable(ss[j], k)) && Scan(ss, k, i, last).last == last)
          || exists j :: LastUsableFrom(ss, k, i, j) && Scan(ss, k, i, last).last == Some(ss[j].configs[k]))
    decreases |ss| - i
  {
    if i < |ss| {
      if Usable(ss[i], k) && k in ss[i].explicit {
        assert FirstExplicitFrom(ss, k, i, i);
      } else {
        var next := if Usable(ss[i], k) then Some(ss[i].configs[k]) else last;
        ScanCases(ss, k, i + 1, next);
        var r := Scan(ss, k, i + 1, next);
        if r.Explicitly? {
          var j :| FirstExplicitFrom(ss, k, i + 1, j) && r.config == ss[j].configs[k];
          assert FirstExplicitFrom(ss, k, i, j);
        } else if forall j :: i + 1 <= j < |ss| ==> !Usable(ss[j], k) {
          if Usable(ss[i], k) {
            assert LastUsableFrom(ss, k, i, i);
          }
        } else {
          var j :| LastUsableFrom(ss, k, i + 1, j) && r.last == Some(ss[j].configs[k]);
          assert LastUsableFrom(ss, k, i, j);
        }
      }
    }
  }

  /** Get leaves the sources alone and only ever caches what a cache-free
      Get would return, so a sound cache stays sound. */
  lemma GetKeepsCacheSound(c: Composite, k: ConfigKey, empty: Config)
    ensures CacheSound(c) ==> Get(c, k, empty).after.sources == c.sources
    ensures CacheSound(c) ==> CacheSound(Get(c, k, empty).after)
  {
  }

  /** The config Get answers is set whenever some source has a usable one;
      otherwise it is `empty`. */
  lemma HasAnswer(c: Composite, k: ConfigKey, empty: Config)
    ensures CacheSound(c) && (exists j :: 0 <= j < |c.sources| && Usable(c.sources[j], k)) ==>
      Get(c, k, empty).config.isSet
    ensures CacheSound(c) && (forall j :: 0 <= j < |c.sources| ==> !Usable(c.sources[j], k)) ==>
      Get(c, k, empty).config == empty
    ensures CacheSound(c) ==> Get(c, k, empty).after.sources == c.sources && CacheSound(Get(c, k, empty).after)
  {
    GetKeepsCacheSound(c, k, empty);
    var ss := c.sources;
    ScanCases(ss, k, 0, None);
    if j :| 0 <= j < |ss| && Usable(ss[j], k) {
      LastUsableExists(ss, k, j);
    }
  }

  /** A usable config at `j` means there is a last usable one. */
  lemma {:induction false} LastUsableExists(ss: seq<Source>, k: ConfigKey, j: nat)
    requires j < |ss| && Usable(ss[j], k)
    ensures exists l :: LastUsableFrom(ss, k, 0, l)
    decreases |ss| - j
  {
    if forall l :: j < l < |ss| ==> !Usable(ss[l], k) {
      assert LastUsableFrom(ss, k, 0, j);
    } else {
      var l :| j < l < |ss| && Usable(ss[l], k);
      LastUsableExists(ss, k, l);
    }
  }

  /** The cache is transparent: with a sound cache Get answers what it
      would answer with no cache at all. */
  lemma GetIgnoresCache(c: Composite, k: ConfigKey, empty: Config)
    requires CacheSound(c)
    ensures Get(c, k, empty).config == Get(NewComposite(c.sources), k, empty).config
  {
  }

  /** Asking twice gives the same config, and the second call changes
      nothing. */
  lemma GetIdempotent(c: Composite, k: ConfigKey, empty: Config)
    ensures var a := Get(c, k, empty); Get(a.after, k, empty) == Answer(a.config, a.after)
  {
  }

  /** Once a key is cached, Get answers from the cache whatever the sources
      now hold. */
  lemma CachedIgnoresSources(c: Composite, ss: seq<Source>, k: ConfigKey, empty: Config)
    requires k in c.cache
    ensures Get(c.(sources := ss), k, empty).config == c.cache[k]
  {
  }
}
