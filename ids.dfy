/** The database identifiers the model shares between modules. */
module Ids {

  /** `products.id` */
  type ProductId = nat

  /** `store_locations.id` */
  type StoreLocationId = nat
}
