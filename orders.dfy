/**
 * The storage-market records the simulation reads from a node's order book.
 * Prices (`AttoFIL`), sizes (`BytesAmount`) and IDs (`uint64`) are only ever
 * compared, so they are natural numbers here; addresses are their string form.
 */
module Orders {

  /** A miner's offer to store up to `size` at `price`. */
  datatype Ask = Ask(id: nat, price: nat, size: nat, owner: string)

  /** A client's request to store `size` at up to `price`; `used` once a deal consumed it. */
  datatype Bid = Bid(id: nat, price: nat, size: nat, owner: string, used: bool)

  /** A deal proposal pairing an ask and a bid with the content they refer to. */
  datatype Deal = Deal(ask: nat, bid: nat, dataRef: string)

  /** The bid fits within the ask's capacity and offers at least the asking price. */
  predicate Fits(b: Bid, a: Ask)
  {
    b.size <= a.size && b.price >= a.price
  }

  /** Sort keys: bids are ordered by ID (first in, first out), asks by price. */
  function BidId(b: Bid): nat { b.id }

  function AskPrice(a: Ask): nat { a.price }

  /** A bid that no deal has consumed yet. */
  predicate IsUnused(b: Bid) { !b.used }
}
