/**
 * Configuration loading (`set_defaults` and `load_configuration`): options
 * are read from the environment into a configuration dictionary, defaults
 * are applied, and the options that are still absent are reported.
 *
 * The dictionary is passed by reference and updated in place, so it is a
 * `Config` object whose `entries` map the methods reassign. The functions
 * `ReadOptions`, `WithDefaults`, `MissingNames` and `Load` give the meaning
 * of those updates; the lemmas state what the source promises about them.
 */
module Configuration {
  import opened Wrappers
  import opened Values
  import opened Text

  /** Default maximum age, in minutes, of a tweet the bot replies to. */
  const DEFAULT_MAXAGE: int := 6 * 60

  /** One row of the option table: configuration key, environment variable, integer conversion. */
  datatype OptionSpec = OptionSpec(key: string, environ: string, isInt: bool)

  /** The option table, in the order options are read and reported. */
  const OPTIONS: seq<OptionSpec> := [
    OptionSpec("app_key", "BOT_APP_KEY", false),
    OptionSpec("app_secret", "BOT_APP_SECRET", false),
    OptionSpec("access_token", "BOT_ACCESS_TOKEN", false),
    OptionSpec("token_secret", "BOT_TOKEN_SECRET", false),
    OptionSpec("target", "BOT_TARGET", false),
    OptionSpec("source", "BOT_SOURCE", false),
    OptionSpec("maxage", "BOT_MAXAGE", true)
  ]

  ghost predicate DistinctKeys(opts: seq<OptionSpec>)
  {
    forall i, j :: 0 <= i < j < |opts| ==> opts[i].key != opts[j].key
  }

  lemma OptionKeysDistinct()
    ensures DistinctKeys(OPTIONS)
  {
  }

  // ---------------------------------------------------------------------
  // set_defaults

  /** `set_defaults`: `maxage` gets the default when it is absent or falsy. */
  function WithDefaults(c: map<string, Value>): (r: map<string, Value>)
    ensures "maxage" in r && Truthy(r["maxage"])
    ensures r.Keys == c.Keys + {"maxage"}
    ensures forall k :: k in c && k != "maxage" ==> r[k] == c[k]
    ensures r["maxage"] == Int(DEFAULT_MAXAGE) <==> "maxage" !in c || !Truthy(c["maxage"]) || c["maxage"] == Int(DEFAULT_MAXAGE)
    ensures "maxage" in c && Truthy(c["maxage"]) ==> r == c
  {
    if "maxage" !in c || !Truthy(c["maxage"]) then c["maxage" := Int(DEFAULT_MAXAGE)] else c
  }

  /** Applying the defaults twice is the same as applying them once. */
  lemma WithDefaultsIdempotent(c: map<string, Value>)
    ensures WithDefaults(WithDefaults(c)) == WithDefaults(c)
  {
  }

  // ---------------------------------------------------------------------
  // Reading the environment

  /** The value an environment string gives an option, or `None` when `int()` rejects it. */
  function EnvValue(o: OptionSpec, raw: string): Option<Value>
  {
    if !o.isInt then Some(Str(raw))
    else match ParseInt(raw)
      case None => None
      case Some(n) => Some(Int(n))
  }

  /** The dictionary after (part of) the reading loop, and the exception that stopped it, if any. */
  datatype ReadOutcome = ReadOutcome(entries: map<string, Value>, error: Option<Error>)

  /** One iteration of the reading loop. */
  function ReadOption(c: map<string, Value>, environ: map<string, string>, o: OptionSpec): ReadOutcome
  {
    if o.environ !in environ then ReadOutcome(c, None)
    else match EnvValue(o, environ[o.environ])
      case None => ReadOutcome(c, Some(InvalidInteger(environ[o.environ])))
      case Some(v) => ReadOutcome(c[o.key := v], None)
  }

  /** The reading loop over the options `opts`, in order, stopping at the first exception. */
  function ReadOptions(c: map<string, Value>, environ: map<string, string>, opts: seq<OptionSpec>): ReadOutcome
    decreases |opts|
  {
    if opts == [] then ReadOutcome(c, None)
    else
      var prior := ReadOptions(c, environ, opts[..|opts| - 1]);
      if prior.error.Some? then prior else ReadOption(prior.entries, environ, opts[|opts| - 1])
  }

  /** Key `k` is the key of some option in `opts` whose environment variable is set. */
  ghost predicate SetFromEnv(opts: seq<OptionSpec>, environ: map<string, string>, k: string)
  {
    exists j :: 0 <= j < |opts| && opts[j].key == k && opts[j].environ in environ
  }

  /**
   * When reading succeeds, every option present in the environment overwrites
   * its entry (converted as `EnvValue` says), and every other key keeps its
   * presence and value.
   */
  lemma {:induction false} ReadOptionsEffect(c: map<string, Value>, environ: map<string, string>, opts: seq<OptionSpec>)
    requires DistinctKeys(opts)
    requires ReadOptions(c, environ, opts).error.None?
    ensures var r := ReadOptions(c, environ, opts).entries;
      forall j :: 0 <= j < |opts| && opts[j].environ in environ ==>
        opts[j].key in r && Some(r[opts[j].key]) == EnvValue(opts[j], environ[opts[j].environ])
    ensures var r := ReadOptions(c, environ, opts).entries;
      forall k :: !SetFromEnv(opts, environ, k) ==> (k in r <==> k in c) && (k in c ==> r[k] == c[k])
    decreases |opts|
  {
    if opts != [] {
      var p := opts[..|opts| - 1];
      var last := opts[|opts| - 1];
      var prior := ReadOptions(c, environ, p);
      assert prior.error.None?;
      ReadOptionsEffect(c, environ, p);
      var r := ReadOptions(c, environ, opts).entries;
      forall j | 0 <= j < |opts| && opts[j].environ in environ
        ensures opts[j].key in r && Some(r[opts[j].key]) == EnvValue(opts[j], environ[opts[j].environ])
      {
        if j < |opts| - 1 {
          assert p[j] == opts[j];
        }
      }
      forall k | !SetFromEnv(opts, environ, k)
        ensures (k in r <==> k in c) && (k in c ==> r[k] == c[k])
      {
        forall j | 0 <= j < |p| ensures !(p[j].key == k && p[j].environ in environ) {
          assert p[j] == opts[j];
        }
        if last.environ in environ {
          assert k != last.key;
        }
      }
    }
  }

  /** Reading raises exactly when some integer option holds a string `int()` rejects. */
  lemma {:induction false} ReadOptionsFailure(c: map<string, Value>, environ: map<string, string>, opts: seq<OptionSpec>)
    ensures ReadOptions(c, environ, opts).error.Some? <==>
      exists j :: 0 <= j < |opts| && opts[j].environ in environ && EnvValue(opts[j], environ[opts[j].environ]).None?
    ensures ReadOptions(c, environ, opts).error.Some? ==> ReadOptions(c, environ, opts).error.value.InvalidInteger?
    decreases |opts|
  {
    if opts != [] {
      var p := opts[..|opts| - 1];
      ReadOptionsFailure(c, environ, p);
      if exists j :: 0 <= j < |p| && p[j].environ in environ && EnvValue(p[j], environ[p[j].environ]).None? {
        var j :| 0 <= j < |p| && p[j].environ in environ && EnvValue(p[j], environ[p[j].environ]).None?;
        assert opts[j] == p[j];
      }
      if exists j :: 0 <= j < |opts| && opts[j].environ in environ && EnvValue(opts[j], environ[opts[j].environ]).None? {
        var j :| 0 <= j < |opts| && opts[j].environ in environ && EnvValue(opts[j], environ[opts[j].environ]).None?;
        if j < |p| {
          assert opts[j] == p[j];
        }
      }
    }
  }

  // ---------------------------------------------------------------------
  // The missing-option check

  /** The positions in `opts` of the options whose key is absent from `c`, ascending. */
  function MissingIndices(c: map<string, Value>, opts: seq<OptionSpec>): (idx: seq<nat>)
    ensures forall k :: 0 <= k < |idx| ==> idx[k] < |opts|
    decreases |opts|
  {
    if opts == [] then []
    else MissingIndices(c, opts[..|opts| - 1]) + (if opts[|opts| - 1].key !in c then [|opts| - 1] else [])
  }

  /** The environment-variable names the check appends to `missing`, in table order. */
  function MissingNames(c: map<string, Value>, opts: seq<OptionSpec>): seq<string>
    decreases |opts|
  {
    if opts == [] then []
    else MissingNames(c, opts[..|opts| - 1]) + (if opts[|opts| - 1].key !in c then [opts[|opts| - 1].environ] else [])
  }

  /** The missing positions ascend strictly and are exactly the options whose key is absent. */
  lemma {:induction false} MissingIndicesExact(c: map<string, Value>, opts: seq<OptionSpec>)
    ensures forall a, b :: 0 <= a < b < |MissingIndices(c, opts)| ==> MissingIndices(c, opts)[a] < MissingIndices(c, opts)[b]
    ensures forall j :: 0 <= j < |opts| ==> (j in MissingIndices(c, opts) <==> opts[j].key !in c)
    decreases |opts|
  {
    if opts != [] {
      var p := opts[..|opts| - 1];
      MissingIndicesExact(c, p);
      forall j | 0 <= j < |p| ensures opts[j] == p[j] { }
      var prior := MissingIndices(c, p);
      var idx := MissingIndices(c, opts);
      assert idx[..|prior|] == prior;
      assert forall a, b :: 0 <= a < b < |prior| ==> prior[a] < prior[b];
      forall a, b | 0 <= a < b < |idx| ensures idx[a] < idx[b] {
        if b >= |prior| {
          assert idx[b] == |opts| - 1;
          assert idx[a] == prior[a] < |p|;
        } else {
          assert idx[a] == prior[a] && idx[b] == prior[b];
        }
      }
    }
  }

  /** The reported names are the environment variables of the missing positions, one for one. */
  lemma {:induction false} MissingNamesFollowIndices(c: map<string, Value>, opts: seq<OptionSpec>)
    ensures |MissingNames(c, opts)| == |MissingIndices(c, opts)|
    ensures forall k :: 0 <= k < |MissingNames(c, opts)| ==>
      MissingNames(c, opts)[k] == opts[MissingIndices(c, opts)[k]].environ
    decreases |opts|
  {
    if opts != [] {
      var p := opts[..|opts| - 1];
      MissingNamesFollowIndices(c, p);
      var idx := MissingIndices(c, p);
      forall k | 0 <= k < |idx| ensures opts[idx[k]] == p[idx[k]] { }
    }
  }

  /** Nothing is reported exactly when every option key is present. */
  lemma MissingNamesEmpty(c: map<string, Value>, opts: seq<OptionSpec>)
    ensures MissingNames(c, opts) == [] <==> forall j :: 0 <= j < |opts| ==> opts[j].key in c
  {
    MissingIndicesExact(c, opts);
    MissingNamesFollowIndices(c, opts);
    if MissingNames(c, opts) != [] {
      var idx := MissingIndices(c, opts);
      assert idx[0] in idx;
    }
  }

  // ---------------------------------------------------------------------
  // load_configuration

  /**
   * `load_configuration(c, environ)`: the dictionary it leaves behind and the
   * exception it raises, if any.
   */
  function Load(c: map<string, Value>, environ: map<string, string>): (r: (map<string, Value>, Option<Error>))
    ensures r.1.Some? ==> r.1.value.ConfigurationError? || r.1.value.InvalidInteger?
    ensures r.1.Some? && r.1.value.ConfigurationError? ==> r.1.value.missing != [] && "BOT_MAXAGE" !in r.1.value.missing
    ensures r.1.None? ==> forall j :: 0 <= j < |OPTIONS| ==> OPTIONS[j].key in r.0
    ensures r.1.None? ==> "maxage" in r.0 && Truthy(r.0["maxage"])
  {
    var read := ReadOptions(c, environ, OPTIONS);
    ReadOptionsFailure(c, environ, OPTIONS);
    if read.error.Some? then (read.entries, read.error)
    else
      var d := WithDefaults(read.entries);
      var missing := MissingNames(d, OPTIONS);
      MissingNamesEmpty(d, OPTIONS);
      MaxageNeverMissing(read.entries);
      (d, if missing == [] then None else Some(ConfigurationError(missing)))
  }

  /**
   * After loading, an option key is absent exactly when it was absent from the
   * initial dictionary, its environment variable is unset, and it is not
   * `maxage` (which always receives a default).
   */
  lemma AbsentAfterLoad(c: map<string, Value>, environ: map<string, string>, j: nat)
    requires j < |OPTIONS|
    requires ReadOptions(c, environ, OPTIONS).error.None?
    ensures OPTIONS[j].key !in Load(c, environ).0 <==>
      OPTIONS[j].key !in c && OPTIONS[j].environ !in environ && OPTIONS[j].key != "maxage"
  {
    OptionKeysDistinct();
    ReadOptionsEffect(c, environ, OPTIONS);
    var k := OPTIONS[j].key;
    if OPTIONS[j].environ !in environ {
      forall i | 0 <= i < |OPTIONS| && OPTIONS[i].key == k ensures OPTIONS[i].environ !in environ {
        assert i == j;
      }
    }
  }

  /**
   * Loading raises `ConfigurationException` exactly when some option key is
   * absent after reading and defaulting, and then the message lists the
   * missing environment variables in table order.
   */
  lemma LoadRaisesConfigurationError(c: map<string, Value>, environ: map<string, string>)
    requires ReadOptions(c, environ, OPTIONS).error.None?
    ensures var (d, e) := Load(c, environ);
      (e.Some? <==> exists j :: 0 <= j < |OPTIONS| && OPTIONS[j].key !in d)
      && (e.Some? ==> e.value == ConfigurationError(MissingNames(d, OPTIONS)))
  {
    MissingNamesEmpty(Load(c, environ).0, OPTIONS);
  }

  /** `BOT_MAXAGE` is never reported missing, since `maxage` always gets a default. */
  lemma MaxageNeverMissing(c: map<string, Value>)
    ensures "BOT_MAXAGE" !in MissingNames(WithDefaults(c), OPTIONS)
  {
    var d := WithDefaults(c);
    MissingIndicesExact(d, OPTIONS);
    MissingNamesFollowIndices(d, OPTIONS);
    var names := MissingNames(d, OPTIONS);
    var idx := MissingIndices(d, OPTIONS);
    forall k | 0 <= k < |names| ensures names[k] != "BOT_MAXAGE" {
      assert idx[k] in idx;
    }
  }

  /** Loading raises `ValueError` exactly when `BOT_MAXAGE` is set to a string `int()` rejects. */
  lemma LoadRaisesInvalidInteger(c: map<string, Value>, environ: map<string, string>)
    ensures Load(c, environ).1.Some? && Load(c, environ).1.value.InvalidInteger? <==>
      "BOT_MAXAGE" in environ && ParseInt(environ["BOT_MAXAGE"]).None?
  {
    ReadOptionsFailure(c, environ, OPTIONS);
    if "BOT_MAXAGE" in environ && ParseInt(environ["BOT_MAXAGE"]).None? {
      assert OPTIONS[6].environ in environ && EnvValue(OPTIONS[6], environ[OPTIONS[6].environ]).None?;
    }
  }

  // ---------------------------------------------------------------------
  // What the handler uses

  /** The options the polling logic reads from a loaded configuration. */
  datatype Settings = Settings(target: string, source: string, maxage: int)

  function SettingsOf(c: map<string, Value>): Option<Settings>
  {
    if "target" in c && c["target"].Str? && "source" in c && c["source"].Str? && "maxage" in c && c["maxage"].Int?
    then Some(Settings(c["target"].s, c["source"].s, c["maxage"].i))
    else None
  }

  /** The maximum age a successful load from an empty dictionary ends up with. */
  function LoadedMaxage(environ: map<string, string>): int
  {
    if "BOT_MAXAGE" in environ && ParseInt(environ["BOT_MAXAGE"]).Some? && ParseInt(environ["BOT_MAXAGE"]).value != 0
    then ParseInt(environ["BOT_MAXAGE"]).value
    else DEFAULT_MAXAGE
  }

  /**
   * Loading into an empty dictionary, as the handler does, either raises or
   * yields the target and source from the environment and an integer maximum
   * age that is the environment's when it is a non-zero integer and 360 otherwise.
   */
  lemma LoadedSettings(environ: map<string, string>)
    ensures var (d, e) := Load(map[], environ);
      e.None? ==>
        && "BOT_TARGET" in environ && "BOT_SOURCE" in environ
        && SettingsOf(d) == Some(Settings(environ["BOT_TARGET"], environ["BOT_SOURCE"], LoadedMaxage(environ)))
        && LoadedMaxage(environ) != 0
  {
    var c: map<string, Value> := map[];
    var (d, e) := Load(c, environ);
    if e.None? {
      ReadOptionsFailure(c, environ, OPTIONS);
      OptionKeysDistinct();
      ReadOptionsEffect(c, environ, OPTIONS);
      LoadRaisesConfigurationError(c, environ);
      AbsentAfterLoad(c, environ, 4);
      AbsentAfterLoad(c, environ, 5);
      assert OPTIONS[4].environ in environ;
      assert OPTIONS[5].environ in environ;
      if "BOT_MAXAGE" in environ {
        assert OPTIONS[6].environ in environ;
        assert !EnvValue(OPTIONS[6], environ[OPTIONS[6].environ]).None?;
      } else {
        forall i | 0 <= i < |OPTIONS| && OPTIONS[i].key == "maxage" ensures OPTIONS[i].environ !in environ {
          assert i == 6;
        }
      }
    }
  }

  // ---------------------------------------------------------------------
  // The dictionary object and the imperative code

  /** A Python configuration dictionary, shared by reference with the caller. */
  class Config {
    var entries: map<string, Value>

    constructor (initial: map<string, Value>)
      ensures entries == initial
    {
      entries := initial;
    }
  }

  /** `set_defaults(config)`. */
  method SetDefaults(config: Config)
    modifies config
    ensures config.entries == WithDefaults(old(config.entries))
  {
    if "maxage" !in config.entries || !Truthy(config.entries["maxage"]) {
      config.entries := config.entries["maxage" := Int(DEFAULT_MAXAGE)];
    }
  }

  /**
   * `load_configuration(config, environ)`: updates `config` in place and
   * returns the exception it raises, if any.
   */
  method LoadConfiguration(config: Config, environ: map<string, string>) returns (error: Option<Error>)
    modifies config
    ensures (config.entries, error) == Load(old(config.entries), environ)
  {
    ghost var initial := config.entries;
    for i := 0 to |OPTIONS|
      invariant ReadOptions(initial, environ, OPTIONS[..i]) == ReadOutcome(config.entries, None)
    {
      assert OPTIONS[..i + 1][..i] == OPTIONS[..i];
      var option := OPTIONS[i];
      if option.environ in environ {
        var value := environ[option.environ];
        if option.isInt {
          var n := ParseInt(value);
          if n.None? {
            ReadAfterFailure(initial, environ, i + 1);
            return Some(InvalidInteger(value));
          }
          config.entries := config.entries[option.key := Int(n.value)];
        } else {
          config.entries := config.entries[option.key := Str(value)];
        }
      }
    }
    assert OPTIONS[..|OPTIONS|] == OPTIONS;

    SetDefaults(config);

    var missing: seq<string> := [];
    for i := 0 to |OPTIONS|
      invariant missing == MissingNames(config.entries, OPTIONS[..i])
    {
      assert OPTIONS[..i + 1][..i] == OPTIONS[..i];
      if OPTIONS[i].key !in config.entries {
        missing := missing + [OPTIONS[i].environ];
      }
    }
    assert OPTIONS[..|OPTIONS|] == OPTIONS;

    if missing != [] {
      return Some(ConfigurationError(missing));
    }
    return None;
  }

  /** Once the reading loop has raised, reading more options changes nothing. */
  lemma {:induction false} ReadAfterFailure(c: map<string, Value>, environ: map<string, string>, n: nat)
    requires n <= |OPTIONS|
    requires ReadOptions(c, environ, OPTIONS[..n]).error.Some?
    ensures ReadOptions(c, environ, OPTIONS) == ReadOptions(c, environ, OPTIONS[..n])
    decreases |OPTIONS| - n
  {
    if n < |OPTIONS| {
      assert OPTIONS[..n + 1][..n] == OPTIONS[..n];
      ReadAfterFailure(c, environ, n + 1);
    } else {
      assert OPTIONS[..n] == OPTIONS;
    }
  }
}
