/** The values the upstream product and availability service hands back, once
    the HTTP transport and JSON decoding are abstracted away. */
module Upstream {

  datatype Option<+T> = None | Some(value: T)

  /** One product of a category listing: its identifier and its manufacturer.
      The display attributes are passed through untouched and are not modelled. */
  datatype Item = Item(id: string, manufacturer: string)

  /** One record of a manufacturer's availability feed: the item identifier and
      the raw DATAPAYLOAD string that embeds the stock status. */
  datatype Record = Record(id: string, payload: string)

  /** What one fetch of `/availability/{manufacturer}` yields: `Some(response)`
      when the body could be fetched, parsed and its `response` field read, and
      `None` when any of those steps threw. */
  type Reply = Option<seq<Record>>

  /** What one fetch of `/products/{category}` yields; `None` when the fetch or
      the JSON parse threw. */
  type Listing = Option<seq<Item>>
}
