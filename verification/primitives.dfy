/** The primitive value types shared by every layer. */
module Primitives {

  /** The canonical (lower-case, hyphenated) text of a UUID. */
  type Id = string

  /** A point in time, in milliseconds since the epoch. */
  type Instant = int
}
