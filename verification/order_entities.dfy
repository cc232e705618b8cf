/**
 * The order-side entities the checkout controller reads and builds: a cart
 * line, an order line and the order that collects order lines.
 */
module OrderEntities {

  /** A catalogue product. The controller only passes the reference along, so it has no fields here. */
  class Media {
  }

  /** A line of the shopping cart: a product, how many, and its unit price. */
  datatype CartMedia = CartMedia(media: Media, quantity: int, price: int)

  /** A line of an order, copied from a cart line when the order is created. */
  datatype OrderMedia = OrderMedia(media: Media, quantity: int, price: int)

  /** An order under construction; its list of lines grows in place. */
  class Order {
    var lstOrderMedia: seq<OrderMedia>

    /** `new Order()`: an order with no lines yet. */
    constructor ()
      ensures lstOrderMedia == []
    {
      lstOrderMedia := [];
    }

    /** `getlstOrderMedia().add(item)`: appends one line at the end. */
    method AddOrderMedia(item: OrderMedia)
      modifies this
      ensures lstOrderMedia == old(lstOrderMedia) + [item]
    {
      lstOrderMedia := lstOrderMedia + [item];
    }
  }
}
