/** The identifiers that several modules speak of. */
module Identifiers {
  /** The id of a row of `entity_instances`. */
  type EntityId = nat

  /** The id of a row of `projects`. */
  type ProjectId = nat
}
