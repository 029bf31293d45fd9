/** Optional values, for fields the scraper or pandas may leave missing. */
module Options {

  datatype Option<+T> = None | Some(value: T)
}
