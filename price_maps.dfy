/**
 * Prices and price maps, shared by the service and the cache repository.
 * A price is only ever copied, never computed on, so it is an opaque `real`.
 */
module PriceMaps {

  type Price = real

  /** The entries of `source` for the requested codes: what a batch read of a keyed source returns. */
  function Lookup(source: map<string, Price>, codes: seq<string>): map<string, Price>
  {
    map c | c in codes && c in source :: source[c]
  }
}
