/** The two configuration values the persistence layer reads (carto/api/config.py). */
module Settings {

  /** `db_fetch_limit`: the largest page size `fetch` asks for on its first request. */
  const DbFetchLimit: nat := 25

  /** The default `limit` argument of `fetch`. */
  const DefaultFetchLimit: nat := 50
}
