/** Entity identifiers (include/entity_component_system/entity.hpp). */
module Entities {

  /** entity_id is a 32-bit unsigned int; its largest value is the reserved invalid_entity_id. */
  const INVALID_ENTITY_ID: nat := 0xFFFF_FFFF

  /** The values of entity_id. */
  type EntityId = x: int | 0 <= x <= INVALID_ENTITY_ID
}
