/**
 * The post-save hook of authentication/signals.py that stamps a shipping
 * price on a mailbox item once, when the item is first created and has no
 * price yet. The price calculator it calls is not part of this model: what
 * it did (returned a value, possibly None, or raised) is an input.
 */
module PriceHook {
  import opened Common
  import opened Records

  /** What the shipping-price calculator did for the item. */
  datatype CalcOutcome = Returned(price: Option<real>) | Raised

  /** Python truthiness of an optional price: neither None nor zero. */
  predicate PriceTruthy(p: Option<real>) {
    p.Some? && p.value != 0.0
  }

  /** `shipping_price or Decimal("0.00")`: a falsy price is stored as zero. */
  function OrZero(p: Option<real>): (r: real)
    ensures PriceTruthy(p) ==> p == Some(r)
    ensures !PriceTruthy(p) ==> r == 0.0
  {
    if p.Some? && p.value != 0.0 then p.value else 0.0
  }

  /**
   * The shipping price an item has after the hook, given whether the save
   * created it, the price it had, and what the calculator did.
   */
  function StampedPrice(created: bool, current: Option<real>, outcome: CalcOutcome): (r: Option<real>)
    ensures !created || current.Some? ==> r == current
    ensures outcome.Raised? ==> r == current
    ensures created && current.None? && outcome.Returned? ==>
              r.Some? && (r == outcome.price || (r.value == 0.0 && !PriceTruthy(outcome.price)))
  {
    if created && current.None? then
      match outcome
      case Raised => current
      case Returned(p) => Some(OrZero(p))
    else current
  }

  /** Once an item has a price, the hook never changes it again. */
  lemma StampIsFinal(created: bool, current: Option<real>, outcome: CalcOutcome,
                     created2: bool, outcome2: CalcOutcome)
    requires StampedPrice(created, current, outcome).Some?
    ensures StampedPrice(created2, StampedPrice(created, current, outcome), outcome2)
            == StampedPrice(created, current, outcome)
  {
  }

  /**
   * `auto_calculate_shipping_price`, run after item `id` was saved. When it
   * stamps a price it saves the item again, updating only `shipping_price`;
   * that save sends the signal once more with `created` false, which the
   * recursive call models. A raising calculator is logged and nothing is
   * written.
   */
  method AutoCalculateShippingPrice(db: Db, id: ItemId, created: bool, outcome: CalcOutcome)
    returns (saved: bool)
    requires db.Valid() && id in db.mailboxes
    modifies db
    decreases if created then 1 else 0
    ensures db.Valid()
    ensures db.users == old(db.users) && db.nextUserId == old(db.nextUserId)
    ensures saved <==> created && old(db.mailboxes[id].shippingPrice).None? && outcome.Returned?
    ensures db.mailboxes ==
              old(db.mailboxes)[id := old(db.mailboxes[id]).(shippingPrice :=
                StampedPrice(created, old(db.mailboxes[id].shippingPrice), outcome))]
  {
    var item := db.mailboxes[id];
    saved := false;
    if created && item.shippingPrice.None? {
      match outcome {
        case Raised =>
          // the failure is printed and the item keeps no price
        case Returned(p) =>
          db.mailboxes := db.mailboxes[id := item.(shippingPrice := Some(OrZero(p)))];
          var nested := AutoCalculateShippingPrice(db, id, false, outcome);
          assert !nested;
          saved := true;
      }
    }
  }
}
