/** The persisted catalog entity of the later service variant (Catalog.Api). */
module Entities {
  import opened Wrappers

  /** A 128-bit globally unique identifier; only equality matters to the service. */
  newtype Guid = x: int | 0 <= x < 0x1_0000_0000_0000_0000_0000_0000_0000_0000

  /** A point in time, as the tick count of a UTC DateTimeOffset. */
  type Timestamp = int

  /** The value of a DateTimeOffset field that was never assigned (its default, tick 0). */
  const DefaultTimestamp: Timestamp := 0

  /** One catalog item. The description is a nullable string; the price is an
      exact decimal, modelled as a real. */
  datatype Item = Item(
    id: Guid,
    name: string,
    description: Option<string>,
    price: real,
    createdDate: Timestamp,
    updatedDate: Timestamp
  )
}
