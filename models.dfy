/** The records exchanged between the parsers, the update check and the
    store (`Site`, `Mod`, `ModUpdate`). Timestamps (`DateTime<Utc>`) are
    integers: only their order matters to the modelled code. */
module Models {
  import opened Wrappers

  datatype Mod = Mod(
    id: int,
    siteId: int,
    title: string,
    url: string,
    version: Option<string>,
    author: Option<string>,
    description: Option<string>,
    imageUrl: Option<string>,
    changes: Option<string>,
    createdAt: int,
    updatedAt: int)

  datatype ModUpdate = ModUpdate(
    modId: int,
    siteId: int,
    oldVersion: Option<string>,
    newVersion: Option<string>,
    changes: Option<string>)

  /** A `serde_json::Value` as far as the parser reads it: `as_str` succeeds
      only on a JSON string. */
  datatype Json = JString(str: string) | JOther

  /** A parser configuration object; `config.get(key)` is a map lookup (a
      configuration that is not a JSON object has no keys). */
  type Config = map<string, Json>

  datatype Site = Site(
    id: int,
    name: string,
    url: string,
    parserConfig: Config,
    createdAt: int,
    updatedAt: int)

  /** `config.get(key).and_then(|v| v.as_str())`. */
  function ConfigStr(config: Config, key: string): (r: Option<string>)
    ensures r.Some? <==> key in config && config[key].JString?
    ensures r.Some? ==> config[key] == JString(r.value)
  {
    if key in config && config[key].JString? then Some(config[key].str) else None
  }
}
