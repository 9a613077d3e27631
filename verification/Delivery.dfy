/** The exact identity of one delivered representation. */
module Delivery {
  datatype DeliveryIdentity = DeliveryIdentity(corpusId: string, contentId: string, resolution: string)
}
