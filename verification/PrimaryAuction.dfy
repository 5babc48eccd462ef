/** The primary auction: what the page offers, what the contract accepts, and what runs of both keep. */
module PrimaryAuction {
  import opened Texts
  import opened Money

  /** One dollar in 18-decimal USD. */
  const MIN_BID_INCREMENT_USD: nat := 1_000_000_000_000_000_000

  /** An account's address; the empty text is no address. */
  type Address = t: Text | t != [] witness ['0' as int]

  datatype Auction = Auction(
    floorUsd: nat,
    highestBidder: Option<Address>,
    highestBidUsd: Option<nat>,
    startTime: int,
    endTime: int,
    settled: bool
  )

  /** What the page knows of the contract; `paused` is nothing when it was not read. */
  datatype BindingRule = BindingRule(binding: bool, settlementGraceSeconds: nat, paused: Option<bool>)

  /** `minimumBidUsd`. A leading bid of zero reads as no bid. */
  function MinimumBidUsd(a: Auction): nat {
    if a.highestBidder.None? || a.highestBidUsd.None? || a.highestBidUsd == Some(0) then a.floorUsd
    else
      var next := a.highestBidUsd.value + MIN_BID_INCREMENT_USD;
      if next > a.floorUsd then next else a.floorUsd
  }

  /** `primaryBidWithdrawable`. */
  predicate PrimaryBidWithdrawable(a: Auction, viewer: Option<Address>, rule: Option<BindingRule>, now: int) {
    && viewer.Some? && a.highestBidder.Some? && !a.settled && rule.Some?
    && Lower(a.highestBidder.value) == Lower(viewer.value)
    && if !rule.value.binding then now < a.endTime
       else rule.value.paused == Some(true) || now >= a.endTime + rule.value.settlementGraceSeconds
  }

  datatype PageMode = PrimaryUpcoming | PrimaryBid | PrimarySettle | PrimaryUnsold | PrimaryUnavailable(loading: bool)

  /** The branch of `gemPageMode` for a stone that is not a token yet. */
  function PrimaryMode(auction: Option<Auction>, auctionsLoading: bool, now: int): PageMode {
    if auction.None? || auction.value.settled then PrimaryUnavailable(auctionsLoading && auction.None?)
    else if now < auction.value.startTime then PrimaryUpcoming
    else if now < auction.value.endTime then PrimaryBid
    else if auction.value.highestBidder.Some? then PrimarySettle
    else PrimaryUnsold
  }

  function Phase(a: Auction, now: int): PageMode {
    PrimaryMode(Some(a), false, now)
  }

  /** The next bid must reach the floor and top a positive lead by a dollar; nothing more is asked. */
  lemma MinimumIsLeast(a: Auction, amount: nat)
    ensures amount >= MinimumBidUsd(a) <==>
      && amount >= a.floorUsd
      && (a.highestBidder.Some? && a.highestBidUsd.Some? && a.highestBidUsd.value > 0 ==>
            amount >= a.highestBidUsd.value + 1_000_000_000_000_000_000)
  {}

  /** Which page an auction has at which time. */
  lemma PhaseIff(a: Auction, now: int)
    ensures Phase(a, now) == PrimaryUnavailable(false) <==> a.settled
    ensures Phase(a, now) == PrimaryUpcoming <==> !a.settled && now < a.startTime
    ensures Phase(a, now) == PrimaryBid <==> !a.settled && a.startTime <= now < a.endTime
    ensures Phase(a, now) == PrimarySettle <==>
      !a.settled && now >= a.startTime && now >= a.endTime && a.highestBidder.Some?
    ensures Phase(a, now) == PrimaryUnsold <==>
      !a.settled && now >= a.startTime && now >= a.endTime && a.highestBidder.None?
  {}

  /** Without an auction the page is unavailable, and says so only once it knows. */
  lemma NoAuctionYet(loading: bool, now: int)
    ensures PrimaryMode(None, loading, now) == PrimaryUnavailable(loading)
  {}

  // ----- The bid form -----

  /** The form's button is enabled: the text is an amount, not zero, and not below a known minimum. */
  predicate Submittable(auction: Option<Auction>, typed: Text) {
    var amount := ParseUsdInput(typed);
    amount.Some? && amount.value != 0 && (auction.Some? ==> amount.value >= MinimumBidUsd(auction.value))
  }

  /** The text the form starts with. */
  function SuggestedText(a: Auction): Text {
    UsdInputString(SuggestedBidUsd(MinimumBidUsd(a)))
  }

  /** The form submits exactly the amounts above zero, from the minimum of a known auction up. */
  lemma SubmittedIsPositive(auction: Option<Auction>, typed: Text)
    ensures Submittable(auction, typed) <==>
      && ParseUsdInput(typed).Some? && ParseUsdInput(typed).value > 0
      && (auction.Some? && auction.value.highestBidder.Some? && auction.value.highestBidUsd.Some? &&
          auction.value.highestBidUsd.value > 0 ==>
            ParseUsdInput(typed).value >= auction.value.highestBidUsd.value + 1_000_000_000_000_000_000)
      && (auction.Some? ==> ParseUsdInput(typed).value >= auction.value.floorUsd)
  {
    hide ParseUsdInput;
    ParsedIsNotNegative(typed);
  }

  /** Left as suggested, the form can be submitted exactly if some bid is asked for at all. */
  lemma SuggestionSubmittableIff(a: Auction)
    ensures Submittable(Some(a), SuggestedText(a)) <==> MinimumBidUsd(a) > 0
  {
    var minimum := MinimumBidUsd(a);
    SuggestionSurvivesField(minimum);
    SuggestionIsSafe(minimum);
  }

  // ----- Consecutive bids -----

  datatype Bid = Bid(bidder: Address, amount: nat)

  function Lead(a: Auction, bid: Bid): Auction {
    a.(highestBidder := Some(bid.bidder), highestBidUsd := Some(bid.amount))
  }

  /** Bids placed one after another by anyone, each at least the minimum of its moment. */
  predicate EachMeetsMinimum(a: Auction, bids: seq<Bid>)
    decreases |bids|
  {
    bids == [] || (bids[0].amount >= MinimumBidUsd(a) && EachMeetsMinimum(Lead(a, bids[0]), bids[1..]))
  }

  /** The lead at `a` grows by a dollar with each further bid. */
  lemma {:induction false} EachBidAddsADollar(a: Auction, bids: seq<Bid>)
    requires a.highestBidder.Some? && a.highestBidUsd.Some? && a.highestBidUsd.value > 0
    requires EachMeetsMinimum(a, bids) && bids != []
    ensures bids[|bids| - 1].amount >= a.highestBidUsd.value + |bids| * MIN_BID_INCREMENT_USD
    decreases |bids|
  {
    if |bids| > 1 {
      EachBidAddsADollar(Lead(a, bids[0]), bids[1..]);
    }
  }

  /** The bids of bidders who each offer exactly the minimum. */
  function MinimumBids(a: Auction, bidders: seq<Address>): (bids: seq<Bid>)
    ensures |bids| == |bidders|
    decreases |bidders|
  {
    if bidders == [] then []
    else
      var bid := Bid(bidders[0], MinimumBidUsd(a));
      [bid] + MinimumBids(Lead(a, bid), bidders[1..])
  }

  /** The pace is exact: minimum bids are accepted, and each raises the lead by one dollar and no more. */
  lemma {:induction false} MinimumBidsAreExact(a: Auction, bidders: seq<Address>)
    requires a.highestBidder.Some? && a.highestBidUsd.Some?
    requires a.highestBidUsd.value > 0 && a.highestBidUsd.value >= a.floorUsd
    ensures EachMeetsMinimum(a, MinimumBids(a, bidders))
    ensures forall i | 0 <= i < |bidders| ::
      MinimumBids(a, bidders)[i] == Bid(bidders[i], a.highestBidUsd.value + (i + 1) * MIN_BID_INCREMENT_USD)
    decreases |bidders|
  {
    if bidders != [] {
      var first := Bid(bidders[0], MinimumBidUsd(a));
      var rest := MinimumBids(Lead(a, first), bidders[1..]);
      MinimumBidsAreExact(Lead(a, first), bidders[1..]);
      Head(first, rest);
      assert forall i | 1 <= i < |bidders| ::
        MinimumBids(a, bidders)[i] == rest[i - 1] && bidders[i] == bidders[1..][i - 1];
    }
  }

  // ----- Reading the contract -----

  /** The contract: its settlement grace, which contracts without binding bids lack, and its pause. */
  datatype Contract = Contract(grace: Option<nat>, paused: bool)

  /** Which of the two calls of a read the node answered. */
  datatype Answered = Answered(grace: bool, paused: bool)

  /** `bindingRule`: no rule when the grace could not be read, and no pause where it was not. */
  function ReadRule(c: Contract, answered: Answered): Option<BindingRule> {
    if !answered.grace then None
    else
      match c.grace
      case None => Some(BindingRule(false, 0, None))
      case Some(grace) => Some(BindingRule(true, grace, if answered.paused then Some(c.paused) else None))
  }

  // ----- Whole runs -----

  datatype Action =
    | PlaceBid(bid: Bid)
    | Withdraw(viewer: Address)
    | Settle
    | SetPaused(paused: bool)
    | ReadPolicy(answered: Answered)

  datatype Timed = Timed(at: int, action: Action)

  /** The auction and its contract, and the rule the page last read, if any. */
  datatype State = State(auction: Auction, contract: Contract, known: Option<BindingRule>)

  /** The contract releases its leader: a binding one while paused or after the grace, others before the close. */
  predicate Releases(a: Auction, c: Contract, viewer: Address, now: int) {
    && a.highestBidder.Some? && !a.settled && Lower(a.highestBidder.value) == Lower(viewer)
    && match c.grace
       case None => now < a.endTime
       case Some(grace) => c.paused || now >= a.endTime + grace
  }

  /**
   * The page's rule against the contract's: with both calls answered they agree on every withdrawal at
   * every time, and with the pause unread nothing is offered that the contract refuses.
   */
  lemma WithdrawalMatchesContract(a: Auction, c: Contract, viewer: Address, now: int)
    ensures PrimaryBidWithdrawable(a, Some(viewer), ReadRule(c, Answered(true, true)), now) <==>
      Releases(a, c, viewer, now)
    ensures PrimaryBidWithdrawable(a, Some(viewer), ReadRule(c, Answered(true, false)), now) ==>
      Releases(a, c, viewer, now)
    ensures !PrimaryBidWithdrawable(a, Some(viewer), ReadRule(c, Answered(false, true)), now)
    ensures !PrimaryBidWithdrawable(a, None, ReadRule(c, Answered(true, true)), now)
    ensures c.grace.None? ==> ReadRule(c, Answered(true, true)) == Some(BindingRule(false, 0, None))
  {}

  /** Bidding and settling need an unpaused contract. */
  predicate Accepts(s: State, t: Timed) {
    match t.action
    case PlaceBid(bid) =>
      Phase(s.auction, t.at) == PrimaryBid && !s.contract.paused && bid.amount >= MinimumBidUsd(s.auction)
    case Withdraw(viewer) => Releases(s.auction, s.contract, viewer, t.at)
    case Settle => Phase(s.auction, t.at) == PrimarySettle && !s.contract.paused
    case SetPaused(_) => true
    case ReadPolicy(_) => true
  }

  function Apply(s: State, t: Timed): State {
    if !Accepts(s, t) then s
    else
      match t.action
      case PlaceBid(bid) => s.(auction := Lead(s.auction, bid))
      case Withdraw(_) => s.(auction := s.auction.(highestBidder := None, highestBidUsd := None))
      case Settle => s.(auction := s.auction.(settled := true))
      case SetPaused(paused) => s.(contract := s.contract.(paused := paused))
      case ReadPolicy(answered) =>
        // A read that fails leaves the page what it knew.
        var rule := ReadRule(s.contract, answered);
        if rule.Some? then s.(known := rule) else s
  }

  function Run(s: State, actions: seq<Timed>): State
    decreases |actions|
  {
    if actions == [] then s else Run(Apply(s, actions[0]), actions[1..])
  }

  predicate InTimeOrder(actions: seq<Timed>) {
    forall i, j | 0 <= i < j < |actions| :: actions[i].at <= actions[j].at
  }

  function Rank(mode: PageMode): nat {
    match mode
    case PrimaryUpcoming => 0
    case PrimaryBid => 1
    case PrimarySettle => 2
    case PrimaryUnsold => 3
    case PrimaryUnavailable(_) => 4
  }

  /** An auction is announced, then takes bids, then waits to be settled or is unsold, then is gone. */
  lemma RankOrders()
    ensures Rank(PrimaryUpcoming) < Rank(PrimaryBid) < Rank(PrimarySettle) < Rank(PrimaryUnsold)
    ensures forall loading :: Rank(PrimaryUnsold) < Rank(PrimaryUnavailable(loading))
  {}

  lemma TimeMovesForward(a: Auction, now: int, later: int)
    requires now <= later
    ensures Rank(Phase(a, now)) <= Rank(Phase(a, later))
  {}

  lemma ActionMovesForward(s: State, t: Timed)
    ensures Rank(Phase(s.auction, t.at)) <= Rank(Phase(Apply(s, t).auction, t.at))
  {}

  /** Whatever is bid, withdrawn, settled or paused, the phase never goes back. */
  lemma {:induction false} PhaseMovesForward(s: State, actions: seq<Timed>, now: int, later: int)
    requires InTimeOrder(actions) && now <= later
    requires actions != [] ==> now <= actions[0].at && actions[|actions| - 1].at <= later
    ensures Rank(Phase(s.auction, now)) <= Rank(Phase(Run(s, actions).auction, later))
    decreases |actions|
  {
    if actions == [] {
      TimeMovesForward(s.auction, now, later);
    } else {
      var t := actions[0];
      TimeMovesForward(s.auction, now, t.at);
      ActionMovesForward(s, t);
      PhaseMovesForward(Apply(s, t), actions[1..], t.at, later);
    }
  }

  /** Settling is final: whatever follows, the auction stays settled and keeps its leader. */
  lemma {:induction false} SettledIsFinal(s: State, t: Timed, actions: seq<Timed>)
    requires t.action == Settle && Accepts(s, t)
    ensures var r := Run(Apply(s, t), actions).auction;
      && r.settled && r.highestBidder == s.auction.highestBidder && r.highestBidUsd == s.auction.highestBidUsd
  {
    SettledStays(Apply(s, t), actions);
  }

  lemma {:induction false} SettledStays(s: State, actions: seq<Timed>)
    requires s.auction.settled
    ensures Run(s, actions).auction == s.auction
    decreases |actions|
  {
    if actions != [] {
      SettledStays(Apply(s, actions[0]), actions[1..]);
    }
  }

  /** An accepted bid leads, an accepted withdrawal leaves nobody leading, and a refused action changes nothing. */
  lemma ActionsAct(s: State, t: Timed)
    ensures !Accepts(s, t) ==> Apply(s, t) == s
    ensures Accepts(s, t) && t.action.PlaceBid? ==>
      Apply(s, t).auction.highestBidder == Some(t.action.bid.bidder) &&
      Apply(s, t).auction.highestBidUsd == Some(t.action.bid.amount)
    ensures Accepts(s, t) && t.action.Withdraw? ==>
      Apply(s, t).auction.highestBidder == None && Apply(s, t).auction.highestBidUsd == None
    ensures t.action.SetPaused? ==> Apply(s, t).contract == s.contract.(paused := t.action.paused)
    ensures !t.action.SetPaused? ==> Apply(s, t).contract == s.contract
    ensures !t.action.ReadPolicy? ==> Apply(s, t).known == s.known
    ensures t.action.ReadPolicy? ==>
      var rule := ReadRule(s.contract, t.action.answered);
      Apply(s, t).known == if rule.Some? then rule else s.known
  {}

  /** The standing bids: those accepted since the last accepted withdrawal. */
  function Streak(s: State, t: Timed, standing: nat): nat {
    if !Accepts(s, t) then standing
    else if t.action.PlaceBid? then standing + 1
    else if t.action.Withdraw? then 0
    else standing
  }

  function Standing(s: State, actions: seq<Timed>, before: nat): nat
    decreases |actions|
  {
    if actions == [] then before else Standing(Apply(s, actions[0]), actions[1..], Streak(s, actions[0], before))
  }

  /** With `standing` bids since nobody led, the lead has left the floor a dollar behind per bid after the first. */
  predicate Paced(a: Auction, standing: nat) {
    && a.highestBidder.Some? == a.highestBidUsd.Some? == (standing > 0)
    && (standing > 0 ==> a.highestBidUsd.value >= a.floorUsd + (standing - 1) * MIN_BID_INCREMENT_USD)
  }

  /** No bid of zero, as the form ensures. */
  predicate NoZeroBid(actions: seq<Timed>) {
    forall i | 0 <= i < |actions| :: actions[i].action.PlaceBid? ==> actions[i].action.bid.amount > 0
  }

  predicate PositiveLead(a: Auction) {
    a.highestBidUsd.Some? ==> a.highestBidUsd.value > 0
  }

  lemma ApplyKeepsPace(s: State, t: Timed, standing: nat)
    requires Paced(s.auction, standing) && PositiveLead(s.auction)
    requires s.auction.floorUsd > 0 || (t.action.PlaceBid? ==> t.action.bid.amount > 0)
    ensures Paced(Apply(s, t).auction, Streak(s, t, standing)) && PositiveLead(Apply(s, t).auction)
    ensures Apply(s, t).auction.floorUsd == s.auction.floorUsd
  {}

  /**
   * Over every run of bids by anyone, withdrawals, settlement, pauses and reads, and for every floor,
   * the lead keeps the pace if no bid is zero; a positive floor sees to that by itself.
   */
  lemma {:induction false} RunKeepsPace(s: State, actions: seq<Timed>, standing: nat)
    requires Paced(s.auction, standing) && PositiveLead(s.auction)
    requires NoZeroBid(actions) || s.auction.floorUsd > 0
    ensures Paced(Run(s, actions).auction, Standing(s, actions, standing))
    ensures PositiveLead(Run(s, actions).auction)
    decreases |actions|
  {
    if actions != [] {
      ApplyKeepsPace(s, actions[0], standing);
      RunKeepsPace(Apply(s, actions[0]), actions[1..], Streak(s, actions[0], standing));
    }
  }

  /**
   * The lead keeps the pace over every run of every auction with this floor that starts without a
   * leader, bids of zero from elsewhere than the form let through or not.
   */
  ghost predicate LeadKeepsPace(floorUsd: nat, zeroBids: bool) {
    forall s: State, actions: seq<Timed> |
      s.auction.floorUsd == floorUsd && Paced(s.auction, 0) && (zeroBids || NoZeroBid(actions)) ::
      Paced(Run(s, actions).auction, Standing(s, actions, 0))
  }

  /** Over a zero floor a bid of zero can be followed by another. */
  lemma ZeroLeadIsNoLead()
    ensures !LeadKeepsPace(0, true)
  {
    var s := State(Auction(0, None, None, 0, 1, false), Contract(Some(0), false), None);
    var first := Timed(0, PlaceBid(Bid(Ascii("0xa1"), 0)));
    var second := Timed(0, PlaceBid(Bid(Ascii("0xb2"), 0)));
    var actions := [first, second];
    var led := Apply(s, first);
    assert actions[1..] == [second] && [second][1..] == [];
    assert Run(s, actions) == Run(led, [second]) == Apply(led, second);
    assert Standing(s, actions, 0) == Standing(led, [second], 1) == 2;
    assert !Paced(Run(s, actions).auction, Standing(s, actions, 0));
  }

  /** The pace is sure exactly if the floor is positive or no bid of zero gets through. */
  lemma LeadKeepsPaceIff(floorUsd: nat, zeroBids: bool)
    ensures LeadKeepsPace(floorUsd, zeroBids) <==> floorUsd > 0 || !zeroBids
  {
    if floorUsd > 0 || !zeroBids {
      forall s: State, actions: seq<Timed> |
        s.auction.floorUsd == floorUsd && Paced(s.auction, 0) && (zeroBids || NoZeroBid(actions))
        ensures Paced(Run(s, actions).auction, Standing(s, actions, 0))
      {
        RunKeepsPace(s, actions, 0);
      }
    } else {
      ZeroLeadIsNoLead();
    }
  }

  /** A leading bid at or above the floor, and not zero, or no leader at all. */
  predicate SoundLead(a: Auction) {
    && a.highestBidder.Some? == a.highestBidUsd.Some? && PositiveLead(a)
    && (a.highestBidUsd.Some? ==> a.highestBidUsd.value >= a.floorUsd)
  }

  /** So it never falls below the floor again. */
  lemma RunKeepsLead(s: State, actions: seq<Timed>)
    requires SoundLead(s.auction) && (NoZeroBid(actions) || s.auction.floorUsd > 0)
    ensures SoundLead(Run(s, actions).auction)
  {
    RunKeepsPace(s, actions, if s.auction.highestBidder.Some? then 1 else 0);
  }

  // ----- The leader's exit -----

  /** The page takes the contract to be paused. */
  predicate SeesPause(rule: Option<BindingRule>) {
    rule.Some? && rule.value.paused == Some(true)
  }

  /** The row of an ended auction offers Settle unless the contract is known to be paused. */
  predicate SettleOffered(a: Auction, rule: Option<BindingRule>, now: int) {
    Phase(a, now) == PrimarySettle && !SeesPause(rule)
  }

  predicate ExitOffered(s: State, leader: Address, now: int) {
    SettleOffered(s.auction, s.known, now) || PrimaryBidWithdrawable(s.auction, Some(leader), s.known, now)
  }

  /** The page offers an exit that the contract accepts. */
  predicate ExitWorks(s: State, leader: Address, now: int) {
    || (SettleOffered(s.auction, s.known, now) && Accepts(s, Timed(now, Settle)))
    || (&& PrimaryBidWithdrawable(s.auction, Some(leader), s.known, now)
        && Accepts(s, Timed(now, Withdraw(leader))))
  }

  /** The page knows nothing, or what a read of this contract gave when it was paused or was not. */
  ghost predicate Informed(s: State) {
    s.known.Some? ==> exists paused, answered :: ReadRule(Contract(s.contract.grace, paused), answered) == s.known
  }

  lemma {:induction false} RunKeepsInformed(s: State, actions: seq<Timed>)
    requires Informed(s)
    ensures Informed(Run(s, actions))
    ensures var r := Run(s, actions);
      && r.contract.grace == s.contract.grace
      && r.auction.startTime == s.auction.startTime && r.auction.endTime == s.auction.endTime
    decreases |actions|
  {
    if actions != [] {
      ApplyKeepsInformed(s, actions[0]);
      RunKeepsInformed(Apply(s, actions[0]), actions[1..]);
    }
  }

  lemma ApplyKeepsInformed(s: State, t: Timed)
    requires Informed(s)
    ensures Informed(Apply(s, t)) && Apply(s, t).contract.grace == s.contract.grace
  {
    var r := Apply(s, t);
    if r.known.Some? {
      if r.known != s.known {
        assert ReadRule(Contract(r.contract.grace, s.contract.paused), t.action.answered) == r.known;
      } else {
        var paused, answered :| ReadRule(Contract(s.contract.grace, paused), answered) == s.known;
        assert ReadRule(Contract(r.contract.grace, paused), answered) == r.known;
      }
    }
  }

  /** After the close the leader of an unsettled auction. */
  predicate Ended(s: State, leader: Address, now: int) {
    Phase(s.auction, now) == PrimarySettle && s.auction.highestBidder == Some(leader)
  }

  /**
   * After every run the page offers the leader of an ended, unsettled auction an exit, whichever
   * contract it reads and whether or not the reads are answered.
   */
  lemma ExitIsAlwaysOffered(s: State, actions: seq<Timed>, leader: Address, now: int)
    requires Informed(s) && Ended(Run(s, actions), leader, now)
    ensures ExitOffered(Run(s, actions), leader, now)
  {
    RunKeepsInformed(s, actions);
  }

  /** The page knows the contract's bids bind, and their grace has passed. */
  predicate GracePassed(s: State, now: int) {
    s.known.Some? && s.known.value.binding && now >= s.auction.endTime + s.known.value.settlementGraceSeconds
  }

  /**
   * But what it offers may be refused. An exit works exactly if the page is right about the pause, or
   * knows that the grace of binding bids has passed.
   */
  lemma ExitWorksIff(s: State, actions: seq<Timed>, leader: Address, now: int)
    requires Informed(s) && Ended(Run(s, actions), leader, now)
    ensures var r := Run(s, actions);
      ExitWorks(r, leader, now) <==> SeesPause(r.known) == r.contract.paused || GracePassed(r, now)
  {
    hide Run;
    RunKeepsInformed(s, actions);
  }

  /** A contract paused after the page read it: Settle is offered and refused, and no withdrawal is offered. */
  lemma UnseenPauseRefusesSettle(leader: Address)
    ensures var a := Auction(1, Some(leader), Some(1), 0, 10, false);
      var s := State(a, Contract(Some(100), false), None);
      var r := Run(s, [Timed(5, ReadPolicy(Answered(true, true))), Timed(6, SetPaused(true))]);
      && Informed(s) && Ended(r, leader, 20) && ExitOffered(r, leader, 20) && !ExitWorks(r, leader, 20)
  {
    var a := Auction(1, Some(leader), Some(1), 0, 10, false);
    var s := State(a, Contract(Some(100), false), None);
    var first, second := Timed(5, ReadPolicy(Answered(true, true))), Timed(6, SetPaused(true));
    assert [first, second][1..] == [second] && [second][1..] == [];
    assert Run(s, [first, second]) == Run(Apply(s, first), [second]) == Apply(Apply(s, first), second);
  }

  /** The pause of a contract without binding bids is never seen, so while it lasts no read helps. */
  lemma OlderPauseIsNeverSeen(s: State, actions: seq<Timed>, leader: Address, now: int)
    requires Informed(s) && s.contract.grace == None && Ended(Run(s, actions), leader, now)
    ensures ExitWorks(Run(s, actions), leader, now) <==> !Run(s, actions).contract.paused
  {
    hide Run;
    RunKeepsInformed(s, actions);
    ExitWorksIff(s, actions, leader, now);
  }

  /**
   * Under binding bids nobody is stranded: a read that is answered gives the leader an exit that
   * works, and once the grace has passed every rule ever read offers a withdrawal that works.
   */
  lemma LeaderNeverStranded(s: State, actions: seq<Timed>, leader: Address, now: int)
    requires Informed(s) && s.contract.grace.Some? && Ended(Run(s, actions), leader, now)
    ensures var r := Run(s, actions);
      && ExitWorks(Apply(r, Timed(now, ReadPolicy(Answered(true, true)))), leader, now)
      && (r.known.Some? && now >= s.auction.endTime + s.contract.grace.value ==>
            && PrimaryBidWithdrawable(r.auction, Some(leader), r.known, now)
            && Releases(r.auction, r.contract, leader, now))
  {
    hide Run;
    RunKeepsInformed(s, actions);
  }
}
