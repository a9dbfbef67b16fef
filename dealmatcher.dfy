/**
 * `getBestDealPair`: sort the bids by ID and the asks by price, keep the bids
 * of one wallet, and return the first (bid, ask) pair, bids outermost, in
 * which the bid fits the ask.
 */
module DealMatcher {
  import opened Wrappers
  import opened Seqs
  import opened Orders

  /** The outcome of matching: a compatible pair, or the "no matching ask / bid" error. */
  datatype Match = Found(ask: Ask, bid: Bid) | NoMatch

  /** Some ask in `asks` can take bid `b`. */
  ghost predicate HasFit(asks: seq<Ask>, b: Bid)
  {
    exists a :: a in asks && Fits(b, a)
  }

  /** The bids of `bids` whose owner address is `wallet`, in the order of `bids`. */
  function WalletBids(bids: seq<Bid>, wallet: string): seq<Bid>
  {
    Filter(bids, (b: Bid) => b.owner == wallet)
  }

  /** Membership in the wallet's bids is exactly ownership. */
  lemma WalletBidsMembership(bids: seq<Bid>, wallet: string, b: Bid)
    ensures b in WalletBids(bids, wallet) <==> b in bids && b.owner == wallet
  {
    FilterMembership(bids, (b: Bid) => b.owner == wallet, b);
  }

  /** The inner scan: the first ask, in the given order, that bid `b` fits. */
  function FirstFitAsk(asks: seq<Ask>, b: Bid): (r: Option<Ask>)
    ensures r.Some? ==> r.value in asks && Fits(b, r.value)
    ensures r.None? <==> !HasFit(asks, b)
    decreases |asks|
  {
    if asks == [] then None
    else if Fits(b, asks[0]) then Some(asks[0])
    else
      assert forall a :: a in asks ==> a == asks[0] || a in asks[1..];
      FirstFitAsk(asks[1..], b)
  }

  /** The returned ask is the first one in `asks` that the bid fits: every earlier ask fails it. */
  lemma {:induction false} FirstFitAskEarliest(asks: seq<Ask>, b: Bid)
    requires FirstFitAsk(asks, b).Some?
    ensures exists k ::
      && 0 <= k < |asks| && asks[k] == FirstFitAsk(asks, b).value
      && forall j :: 0 <= j < k ==> !Fits(b, asks[j])
    decreases |asks|
  {
    if !Fits(b, asks[0]) {
      FirstFitAskEarliest(asks[1..], b);
      var k :| && 0 <= k < |asks[1..]| && asks[1..][k] == FirstFitAsk(asks[1..], b).value
               && forall j :: 0 <= j < k ==> !Fits(b, asks[1..][j]);
      assert asks[k + 1] == asks[1..][k];
      forall j | 0 <= j < k + 1
        ensures !Fits(b, asks[j])
      {
        if j > 0 {
          assert asks[j] == asks[1..][j - 1];
        }
      }
    } else {
      assert asks[0] == FirstFitAsk(asks, b).value;
    }
  }

  /** Both scans: the first bid, in the given order, with a fitting ask, and that ask. */
  function FirstFit(asks: seq<Ask>, bids: seq<Bid>): (m: Match)
    ensures m.Found? ==> m.bid in bids && m.ask in asks && Fits(m.bid, m.ask)
    ensures m.NoMatch? <==> forall b :: b in bids ==> !HasFit(asks, b)
    decreases |bids|
  {
    if bids == [] then NoMatch
    else match FirstFitAsk(asks, bids[0])
      case Some(a) => Found(a, bids[0])
      case None =>
        assert forall b :: b in bids ==> b == bids[0] || b in bids[1..];
        FirstFit(asks, bids[1..])
  }

  /** Over price-sorted asks, the first fitting ask is a cheapest fitting ask. */
  lemma {:induction false} FirstFitAskCheapest(asks: seq<Ask>, b: Bid)
    requires SortedBy(asks, AskPrice)
    requires FirstFitAsk(asks, b).Some?
    ensures forall a :: a in asks && Fits(b, a) ==> FirstFitAsk(asks, b).value.price <= a.price
    decreases |asks|
  {
    if !Fits(b, asks[0]) {
      assert SortedBy(asks[1..], AskPrice) by {
        forall i, j | 0 <= i < j < |asks[1..]|
          ensures AskPrice(asks[1..][i]) <= AskPrice(asks[1..][j])
        {
          assert asks[1..][i] == asks[i + 1] && asks[1..][j] == asks[j + 1];
        }
      }
      FirstFitAskCheapest(asks[1..], b);
      forall a | a in asks && Fits(b, a)
        ensures FirstFitAsk(asks, b).value.price <= a.price
      {
        assert a == asks[0] || a in asks[1..];
      }
    } else {
      forall a | a in asks
        ensures asks[0].price <= a.price
      {
        var k :| 0 <= k < |asks| && asks[k] == a;
        if k > 0 {
          assert AskPrice(asks[0]) <= AskPrice(asks[k]);
        }
      }
    }
  }

  /** The chosen bid is preceded only by bids that no ask can take. */
  lemma {:induction false} FirstFitEarliest(asks: seq<Ask>, bids: seq<Bid>)
    requires FirstFit(asks, bids).Found?
    ensures exists k ::
      && 0 <= k < |bids| && bids[k] == FirstFit(asks, bids).bid
      && FirstFitAsk(asks, bids[k]) == Some(FirstFit(asks, bids).ask)
      && forall j :: 0 <= j < k ==> !HasFit(asks, bids[j])
    decreases |bids|
  {
    if FirstFitAsk(asks, bids[0]).None? {
      FirstFitEarliest(asks, bids[1..]);
      var k :| && 0 <= k < |bids[1..]| && bids[1..][k] == FirstFit(asks, bids[1..]).bid
               && FirstFitAsk(asks, bids[1..][k]) == Some(FirstFit(asks, bids[1..]).ask)
               && forall j :: 0 <= j < k ==> !HasFit(asks, bids[1..][j]);
      assert forall j :: 0 <= j < k + 1 ==> !HasFit(asks, bids[j]) by {
        forall j | 0 <= j < k + 1
          ensures !HasFit(asks, bids[j])
        {
          if j > 0 {
            assert bids[j] == bids[1..][j - 1];
          }
        }
      }
      assert bids[k + 1] == bids[1..][k];
    } else {
      assert bids[0] == FirstFit(asks, bids).bid;
    }
  }

  /** Over ID-sorted bids, the chosen bid has the lowest ID among the bids that some ask can take. */
  lemma FirstFitLowestId(asks: seq<Ask>, bids: seq<Bid>)
    requires SortedBy(bids, BidId)
    requires FirstFit(asks, bids).Found?
    ensures forall b :: b in bids && HasFit(asks, b) ==> FirstFit(asks, bids).bid.id <= b.id
  {
    FirstFitEarliest(asks, bids);
    var m := FirstFit(asks, bids);
    var k :| && 0 <= k < |bids| && bids[k] == m.bid
             && FirstFitAsk(asks, bids[k]) == Some(m.ask)
             && forall j :: 0 <= j < k ==> !HasFit(asks, bids[j]);
    forall b | b in bids && HasFit(asks, b)
      ensures m.bid.id <= b.id
    {
      var j :| 0 <= j < |bids| && bids[j] == b;
      if j > k {
        assert BidId(bids[k]) <= BidId(bids[j]);
      }
    }
  }

  /**
   * What `getBestDealPair` returns once its inputs are sorted: the pair belongs
   * to the wallet and fits, the bid is the lowest-ID wallet bid that any ask
   * can take, the ask is a cheapest one that takes it; and there is no pair
   * exactly when no wallet bid fits any ask.
   */
  lemma MatchSpec(asks: seq<Ask>, bids: seq<Bid>, wallet: string)
    requires SortedBy(asks, AskPrice) && SortedBy(bids, BidId)
    ensures var m := FirstFit(asks, WalletBids(bids, wallet));
      && (m.Found? ==> m.bid in bids && m.bid.owner == wallet && m.ask in asks && Fits(m.bid, m.ask))
      && (m.Found? ==> forall b :: b in bids && b.owner == wallet && HasFit(asks, b) ==> m.bid.id <= b.id)
      && (m.Found? ==> forall a :: a in asks && Fits(m.bid, a) ==> m.ask.price <= a.price)
      && (m.NoMatch? <==> forall b :: b in bids && b.owner == wallet ==> !HasFit(asks, b))
  {
    var wb := WalletBids(bids, wallet);
    var m := FirstFit(asks, wb);
    forall b ensures b in wb <==> b in bids && b.owner == wallet {
      WalletBidsMembership(bids, wallet, b);
    }
    if m.Found? {
      FilterSorted(bids, (b: Bid) => b.owner == wallet, BidId);
      FirstFitLowestId(asks, wb);
      FirstFitEarliest(asks, wb);
      FirstFitAskCheapest(asks, m.bid);
    }
  }

  /**
   * The unstable sorts do not change the answer that matters: for any two
   * sorted arrangements of the same asks and bids (bid IDs unique), the same
   * bid is chosen, or none, and the chosen asks have the same price.
   */
  lemma MatchUpToArrangement(asks1: seq<Ask>, asks2: seq<Ask>, bids1: seq<Bid>, bids2: seq<Bid>, wallet: string)
    requires multiset(asks1) == multiset(asks2) && multiset(bids1) == multiset(bids2)
    requires SortedBy(asks1, AskPrice) && SortedBy(asks2, AskPrice)
    requires SortedBy(bids1, BidId) && SortedBy(bids2, BidId)
    requires forall b1, b2 :: b1 in bids1 && b2 in bids1 && b1.id == b2.id ==> b1 == b2
    ensures var m1, m2 := FirstFit(asks1, WalletBids(bids1, wallet)), FirstFit(asks2, WalletBids(bids2, wallet));
      && m1.Found? == m2.Found?
      && (m1.Found? ==> m1.bid == m2.bid && m1.ask.price == m2.ask.price)
  {
    var m1, m2 := FirstFit(asks1, WalletBids(bids1, wallet)), FirstFit(asks2, WalletBids(bids2, wallet));
    SameElements(asks1, asks2);
    SameElements(bids1, bids2);
    MatchSpec(asks1, bids1, wallet);
    MatchSpec(asks2, bids2, wallet);
    if m1.Found? {
      assert HasFit(asks2, m1.bid) by { assert m1.ask in asks2; }
      assert m2.Found?;
      assert HasFit(asks1, m2.bid) by { assert m2.ask in asks1; }
      assert m1.bid.id == m2.bid.id;
      assert m1.bid == m2.bid;
      assert m1.ask in asks2 && m2.ask in asks1;
    }
  }

  /** The wallet-bid collection loop of `getBestDealPair`. */
  method CollectWalletBids(bids: seq<Bid>, wallet: string) returns (walletBids: seq<Bid>)
    ensures walletBids == WalletBids(bids, wallet)
  {
    walletBids := [];
    var i := 0;
    while i < |bids|
      invariant 0 <= i <= |bids|
      invariant walletBids == WalletBids(bids[..i], wallet)
    {
      var b := bids[i];
      FilterSnoc(bids[..i], b, (b: Bid) => b.owner == wallet);
      assert bids[..i + 1] == bids[..i] + [b];
      if b.owner == wallet {
        walletBids := walletBids + [b];
      }
      i := i + 1;
    }
    assert bids[..i] == bids;
  }

  /** The nested first-fit loops of `getBestDealPair`, with their early return. */
  method ScanPairs(asks: seq<Ask>, walletBids: seq<Bid>) returns (m: Match)
    ensures m == FirstFit(asks, walletBids)
  {
    var i := 0;
    while i < |walletBids|
      invariant 0 <= i <= |walletBids|
      invariant FirstFit(asks, walletBids) == FirstFit(asks, walletBids[i..])
    {
      var b := walletBids[i];
      var j := 0;
      while j < |asks|
        invariant 0 <= j <= |asks|
        invariant FirstFitAsk(asks, b) == FirstFitAsk(asks[j..], b)
      {
        var a := asks[j];
        if b.size <= a.size && b.price >= a.price {
          return Found(a, b);
        }
        assert asks[j..][1..] == asks[j + 1..];
        j := j + 1;
      }
      assert walletBids[i..][1..] == walletBids[i + 1..];
      i := i + 1;
    }
    return NoMatch;
  }

  /**
   * `getBestDealPair(asks, bids, wallet)`: sorts both slices in place, then
   * returns the first fitting pair among the wallet's bids, or `NoMatch`.
   */
  method GetBestDealPair(asks: array<Ask>, bids: array<Bid>, wallet: string) returns (m: Match)
    modifies asks, bids
    ensures SortedBy(bids[..], BidId) && multiset(bids[..]) == multiset(old(bids[..]))
    ensures SortedBy(asks[..], AskPrice) && multiset(asks[..]) == multiset(old(asks[..]))
    ensures m == FirstFit(asks[..], WalletBids(bids[..], wallet))
    ensures m.Found? ==> m.bid in old(bids[..]) && m.bid.owner == wallet && m.ask in old(asks[..]) && Fits(m.bid, m.ask)
    ensures m.Found? ==> forall b :: b in old(bids[..]) && b.owner == wallet && HasFit(old(asks[..]), b) ==> m.bid.id <= b.id
    ensures m.Found? ==> forall a :: a in old(asks[..]) && Fits(m.bid, a) ==> m.ask.price <= a.price
    ensures m.NoMatch? <==> forall b :: b in old(bids[..]) && b.owner == wallet ==> !HasFit(old(asks[..]), b)
  {
    SortBy(bids, BidId);
    SortBy(asks, AskPrice);
    var walletBids := CollectWalletBids(bids[..], wallet);
    m := ScanPairs(asks[..], walletBids);
    SameElements(asks[..], old(asks[..]));
    SameElements(bids[..], old(bids[..]));
    MatchSpec(asks[..], bids[..], wallet);
  }
}
