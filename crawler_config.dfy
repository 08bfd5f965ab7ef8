/**
 * The configuration step of src/crawlers/CrawlerCreator.py: the check that
 * the parsed configuration names the required keys, and the table that
 * turns its `settings` object into Scrapy settings: which duplicate filter
 * runs, breadth-first or depth-first crawling, and a default for every
 * setting left out.
 */
module CrawlerConfig {
  import PyStr

  /** A parsed JSON value, as `json.load` returns it. */
  datatype Json =
    | JNull
    | JBool(b: bool)
    | JInt(i: int)
    | JFloat(r: real)
    | JString(s: string)
    | JArray(items: seq<Json>)
    | JObject(fields: map<string, Json>)

  /** Python truthiness of the value `json.load` builds. */
  predicate Truthy(v: Json) {
    match v
    case JNull => false
    case JBool(b) => b
    case JInt(i) => i != 0
    case JFloat(r) => r != 0.0
    case JString(s) => s != ""
    case JArray(items) => items != []
    case JObject(fields) => fields != map[]
  }

  /** The exceptions the step can raise. */
  datatype Failure =
    | KeyError(missing: seq<string>)
    | TypeError
    | AttributeError

  datatype Result<T> = Ok(value: T) | Err(failure: Failure)

  const RequiredKeys: seq<string> := ["base_url", "settings"]

  /** `key in config` on each kind of value: a key of an object, an element
      of a list, a substring of a string; any other value cannot be searched
      and raises `TypeError`. */
  function Holds(config: Json, key: string): Result<bool> {
    match config
    case JObject(fields) => Ok(key in fields)
    case JArray(items) => Ok(JString(key) in items)
    case JString(s) => Ok(PyStr.Contains(s, key))
    case _ => Err(TypeError)
  }

  /** `[key for key in keys if key not in config]` */
  function MissingKeys(config: Json, keys: seq<string>): Result<seq<string>> {
    if keys == [] then Ok([])
    else
      match Holds(config, keys[0])
      case Err(f) => Err(f)
      case Ok(present) =>
        match MissingKeys(config, keys[1..])
        case Err(f) => Err(f)
        case Ok(rest) => Ok(if present then rest else [keys[0]] + rest)
  }

  /** The key check of `_load_config`, on the parsed file. */
  function LoadConfig(config: Json): Result<Json> {
    match MissingKeys(config, RequiredKeys)
    case Err(f) => Err(f)
    case Ok(missing) => if missing == [] then Ok(config) else Err(KeyError(missing))
  }

  /** For an object, a list or a string, the check raises `KeyError`
      exactly when `key in config` fails for a required key, naming those
      keys in the order `base_url`, `settings`. */
  lemma LoadConfigSearchable(config: Json)
    requires config.JObject? || config.JArray? || config.JString?
    ensures var missing := (if Holds(config, "base_url").value then [] else ["base_url"]) +
                           (if Holds(config, "settings").value then [] else ["settings"]);
            LoadConfig(config) == if missing == [] then Ok(config) else Err(KeyError(missing))
  {
    var last: seq<string> := ["settings"];
    assert last[0] == "settings" && last[1..] == [];
    assert MissingKeys(config, last[1..]) == Ok([]);
    assert [last[0]] + [] == last;
    var rest: seq<string> := if Holds(config, "settings").value then [] else ["settings"];
    assert MissingKeys(config, last) == Ok(rest);
    assert RequiredKeys[0] == "base_url" && RequiredKeys[1..] == last;
    assert MissingKeys(config, RequiredKeys) ==
             Ok(if Holds(config, "base_url").value then rest else ["base_url"] + rest);
    assert [] + rest == rest;
  }

  /** For an object, the check raises `KeyError` exactly when a required key
      is absent, naming the absent ones in the order `base_url`, `settings`. */
  lemma LoadConfigObject(fields: map<string, Json>)
    ensures var missing := (if "base_url" in fields then [] else ["base_url"]) +
                           (if "settings" in fields then [] else ["settings"]);
            LoadConfig(JObject(fields)) ==
              if missing == [] then Ok(JObject(fields)) else Err(KeyError(missing))
  {
    LoadConfigSearchable(JObject(fields));
  }

  /** A value that is neither an object, a list nor a string is refused
      with `TypeError`. */
  lemma LoadConfigScalar(config: Json)
    requires !config.JObject? && !config.JArray? && !config.JString?
    ensures LoadConfig(config) == Err(TypeError)
  {
  }

  /** A list is searched for the key names as string elements: the check
      raises `KeyError` exactly when one of them is not an element. */
  lemma LoadConfigList(items: seq<Json>)
    ensures var missing := (if JString("base_url") in items then [] else ["base_url"]) +
                           (if JString("settings") in items then [] else ["settings"]);
            LoadConfig(JArray(items)) ==
              if missing == [] then Ok(JArray(items)) else Err(KeyError(missing))
  {
    LoadConfigSearchable(JArray(items));
  }

  const RedisFilter := "src.filters.dupefilter.RedisBasedDupeFilter"
  const SqliteFilter := "src.filters.dupefilter.SQLiteBasedDupeFilter"
  const FileFilter := "src.filters.dupefilter.FileBasedDupeFilter"

  /** `dupefilter_mapping.get(name, dupefilter_mapping['redis'])`: a list or
      an object cannot be looked up in a dict and raises `TypeError`. */
  function DupefilterClass(name: Json): Result<string> {
    match name
    case JArray(_) => Err(TypeError)
    case JObject(_) => Err(TypeError)
    case JString(s) =>
      Ok(if s == "redis" then RedisFilter
         else if s == "sqlite" then SqliteFilter
         else if s == "file" then FileFilter
         else RedisFilter)
    case _ => Ok(RedisFilter)
  }

  /** `settings.get(key, default)` */
  function Get(settings: map<string, Json>, key: string, default: Json): Json {
    if key in settings then settings[key] else default
  }

  /** The settings copied from the configuration, each with its default. */
  const DefaultSettings: map<string, Json> := map[
    "USER_AGENT" := JString("Mozilla/5.0 (compatible; CustomCrawler/1.0)"),
    "ROBOTSTXT_OBEY" := JBool(true),
    "DOWNLOAD_DELAY" := JInt(1),
    "CONCURRENT_REQUESTS" := JInt(16),
    "CONCURRENT_REQUESTS_PER_DOMAIN" := JInt(8),
    "DEPTH_LIMIT" := JInt(0),
    "CLOSESPIDER_PAGECOUNT" := JInt(0),
    "HTTPCACHE_ENABLED" := JBool(true),
    "HTTPCACHE_EXPIRATION_SECS" := JInt(86400),
    "HTTPCACHE_DIR" := JString("httpcache"),
    "DUPEFILTER_REDIS_URL" := JString("redis://localhost:6379/0"),
    "DUPEFILTER_DB_PATH" := JString("shared_urls.db"),
    "DUPEFILTER_FILE_PATH" := JString("seen_urls.txt"),
    "DUPEFILTER_KEY_PREFIX" := JString("scrapy:dupefilter")
  ]

  /** The item pipelines with their priorities, in the order they run. */
  const ItemPipelines: seq<(string, int)> := [
    ("src.pipeline.DataCleaningPipeline", 100),
    ("src.pipeline.EmbeddingPipeline", 200),
    ("src.pipeline.VectorDatabasePipeline", 300)
  ]

  /** The `FEEDS` export: pages written as JSON lines. */
  const Feeds: Json := JObject(map[
    "output/crawled_pages.jsonl" := JObject(map[
      "format" := JString("jsonlines"),
      "encoding" := JString("utf8"),
      "overwrite" := JBool(true)
    ])
  ])

  /** What `_build_scrapy_settings` hands to `settings.setdict`: the copied
      settings by name, and the computed ones. */
  datatype ScrapySettings = ScrapySettings(
    copied: map<string, Json>,
    baseUrl: Json,
    depthPriority: int,
    schedulerDiskQueue: string,
    schedulerMemoryQueue: string,
    dupefilterClass: string,
    itemPipelines: seq<(string, int)>,
    feeds: Json)

  /** Every copied setting, with its configured value or its default. */
  function Copied(settings: map<string, Json>): map<string, Json> {
    map key | key in DefaultSettings :: Get(settings, key, DefaultSettings[key])
  }

  /** `_build_scrapy_settings` */
  function BuildSettings(config: Json): Result<ScrapySettings> {
    if !config.JObject? then Err(AttributeError)
    else
      var configSettings := Get(config.fields, "settings", JObject(map[]));
      if !configSettings.JObject? then Err(AttributeError)
      else if "base_url" !in config.fields then Err(KeyError(["base_url"]))
      else
        var cs := configSettings.fields;
        var useBfs := Truthy(Get(cs, "USE_BFS", JBool(false)));
        match DupefilterClass(Get(cs, "DUPEFILTER_CLASS", JString("redis")))
        case Err(f) => Err(f)
        case Ok(filterClass) =>
          Ok(ScrapySettings(
               Copied(cs),
               config.fields["base_url"],
               if useBfs then 1 else 0,
               if useBfs then "scrapy.squeues.PickleFifoDiskQueue" else "scrapy.squeues.PickleLifoDiskQueue",
               if useBfs then "scrapy.squeues.FifoMemoryQueue" else "scrapy.squeues.LifoMemoryQueue",
               filterClass,
               ItemPipelines,
               Feeds))
  }

  /** The `settings` object of a configuration object, `{}` when absent. */
  function SettingsObject(config: Json): map<string, Json>
    requires config.JObject?
  {
    var v := Get(config.fields, "settings", JObject(map[]));
    if v.JObject? then v.fields else map[]
  }

  /** The constructor: the key check, then the settings. */
  function CreateCrawler(config: Json): Result<(Json, ScrapySettings)> {
    match LoadConfig(config)
    case Err(f) => Err(f)
    case Ok(c) =>
      match BuildSettings(c)
      case Err(f) => Err(f)
      case Ok(settings) => Ok((c, settings))
  }

  /** Building the settings fails exactly when the configuration is not an
      object, its `settings` is not an object, `base_url` is absent, or the
      filter name is a list or an object. */
  lemma BuildSettingsSucceeds(config: Json)
    ensures BuildSettings(config).Ok? <==>
              && config.JObject?
              && Get(config.fields, "settings", JObject(map[])).JObject?
              && "base_url" in config.fields
              && var name := Get(SettingsObject(config), "DUPEFILTER_CLASS", JString("redis"));
                 !name.JArray? && !name.JObject?
  {
  }

  /** A configuration object yields a crawler exactly when it names both
      required keys, its `settings` is an object, and the filter name is not
      a list or an object. */
  lemma CreateCrawlerObject(fields: map<string, Json>)
    ensures CreateCrawler(JObject(fields)).Ok? <==>
              && "base_url" in fields && "settings" in fields
              && fields["settings"].JObject?
              && var name := Get(fields["settings"].fields, "DUPEFILTER_CLASS", JString("redis"));
                 !name.JArray? && !name.JObject?
  {
    LoadConfigObject(fields);
  }

  /** `DUPEFILTER_CLASS` selects the SQLite filter for "sqlite", the file
      filter for "file", and the Redis filter for "redis", for any other
      value and when it is absent. */
  lemma DupefilterSelection(config: Json)
    requires BuildSettings(config).Ok?
    ensures var cs := SettingsObject(config);
            BuildSettings(config).value.dupefilterClass ==
              if "DUPEFILTER_CLASS" in cs && cs["DUPEFILTER_CLASS"] == JString("sqlite") then SqliteFilter
              else if "DUPEFILTER_CLASS" in cs && cs["DUPEFILTER_CLASS"] == JString("file") then FileFilter
              else RedisFilter
  {
  }

  /** A filter name that is a list or an object cannot be looked up. */
  lemma UnhashableFilterName(config: Json)
    requires config.JObject? && "base_url" in config.fields
    requires Get(config.fields, "settings", JObject(map[])).JObject?
    requires var cs := SettingsObject(config);
             "DUPEFILTER_CLASS" in cs && (cs["DUPEFILTER_CLASS"].JArray? || cs["DUPEFILTER_CLASS"].JObject?)
    ensures BuildSettings(config) == Err(TypeError)
  {
  }

  /** A truthy `USE_BFS` gives breadth-first crawling: priority 1 and FIFO
      queues; a false or absent one gives depth-first crawling: priority 0
      and LIFO queues. */
  lemma CrawlOrderSelection(config: Json)
    requires BuildSettings(config).Ok?
    ensures var cs := SettingsObject(config);
            var r := BuildSettings(config).value;
            var bfs := "USE_BFS" in cs && Truthy(cs["USE_BFS"]);
            && r.depthPriority == (if bfs then 1 else 0)
            && (r.schedulerDiskQueue == "scrapy.squeues.PickleFifoDiskQueue" <==> bfs)
            && (r.schedulerDiskQueue == "scrapy.squeues.PickleLifoDiskQueue" <==> !bfs)
            && (r.schedulerMemoryQueue == "scrapy.squeues.FifoMemoryQueue" <==> bfs)
            && (r.schedulerMemoryQueue == "scrapy.squeues.LifoMemoryQueue" <==> !bfs)
  {
  }

  /** Truthiness is Python's: the string "false" is not empty, so it turns
      breadth-first crawling on. */
  lemma StringFalseMeansBfs(baseUrl: Json)
    ensures var config := JObject(map["base_url" := baseUrl,
                                      "settings" := JObject(map["USE_BFS" := JString("false")])]);
            BuildSettings(config).Ok? && BuildSettings(config).value.depthPriority == 1
  {
  }

  /** Each copied setting takes the configured value when there is one and
      its default otherwise, and nothing else is copied. */
  lemma SettingDefaults(config: Json)
    requires BuildSettings(config).Ok?
    ensures var cs := SettingsObject(config);
            var copied := BuildSettings(config).value.copied;
            && copied.Keys == DefaultSettings.Keys
            && (forall key :: key in copied && key in cs ==> copied[key] == cs[key])
            && (forall key :: key in copied && key !in cs ==> copied[key] == DefaultSettings[key])
  {
  }

  /** Left out of the configuration, the download delay is 1 second, 16
      requests run at once and the depth is not limited. */
  lemma SomeDefaults(config: Json)
    requires BuildSettings(config).Ok?
    requires var cs := SettingsObject(config);
             "DOWNLOAD_DELAY" !in cs && "CONCURRENT_REQUESTS" !in cs && "DEPTH_LIMIT" !in cs
    ensures var copied := BuildSettings(config).value.copied;
            && "DOWNLOAD_DELAY" in copied && copied["DOWNLOAD_DELAY"] == JInt(1)
            && "CONCURRENT_REQUESTS" in copied && copied["CONCURRENT_REQUESTS"] == JInt(16)
            && "DEPTH_LIMIT" in copied && copied["DEPTH_LIMIT"] == JInt(0)
  {
    var cs := SettingsObject(config);
    DefaultsOfSomeKeys();
    CopiedDefault(cs, "DOWNLOAD_DELAY");
    CopiedDefault(cs, "CONCURRENT_REQUESTS");
    CopiedDefault(cs, "DEPTH_LIMIT");
  }

  lemma DefaultsOfSomeKeys()
    ensures "DOWNLOAD_DELAY" in DefaultSettings && DefaultSettings["DOWNLOAD_DELAY"] == JInt(1)
    ensures "CONCURRENT_REQUESTS" in DefaultSettings && DefaultSettings["CONCURRENT_REQUESTS"] == JInt(16)
    ensures "DEPTH_LIMIT" in DefaultSettings && DefaultSettings["DEPTH_LIMIT"] == JInt(0)
  {
  }

  /** A setting left out of the configuration takes its default. */
  lemma CopiedDefault(settings: map<string, Json>, key: string)
    requires key in DefaultSettings && key !in settings
    ensures key in Copied(settings) && Copied(settings)[key] == DefaultSettings[key]
  {
  }

  /** `BASE_URL` is the configured base URL, and the item pipelines run
      cleaning, then embedding, then storage. */
  lemma FixedSettings(config: Json)
    requires BuildSettings(config).Ok?
    ensures var r := BuildSettings(config).value;
            && r.baseUrl == config.fields["base_url"]
            && |r.itemPipelines| == 3
            && r.itemPipelines[0].0 == "src.pipeline.DataCleaningPipeline"
            && r.itemPipelines[1].0 == "src.pipeline.EmbeddingPipeline"
            && r.itemPipelines[2].0 == "src.pipeline.VectorDatabasePipeline"
            && r.itemPipelines[0].1 < r.itemPipelines[1].1 < r.itemPipelines[2].1
  {
  }
}
