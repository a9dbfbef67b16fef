/**
 * The simulation's configuration and its action set: `NewRandomizer` turns
 * the enabled flags into the list of actions the action scheduler picks from.
 */
module Actions {
  import opened Wrappers

  /** The kinds of random action; `SendFile` is declared but never enabled or executed. */
  datatype Action = Payment | Ask | Bid | Deal | SendFile

  /** Which actions are switched on; `mine` gates the mining scheduler, not an action. */
  datatype ActionArgs = ActionArgs(ask: bool, bid: bool, deal: bool, payment: bool, mine: bool)

  /** The run parameters; durations are in nanoseconds, as Go's `time.Duration`. */
  datatype Args = Args(
    startNodes: int,
    maxNodes: int,
    forkBranching: int,
    forkProbability: real,
    joinTime: int,
    blockTime: int,
    actionTime: int,
    testfilesDir: string,
    actions: ActionArgs)

  /** The flag that enables `act`; nothing enables `SendFile`. */
  predicate Enabled(flags: ActionArgs, act: Action)
  {
    match act
    case Payment => flags.payment
    case Ask => flags.ask
    case Bid => flags.bid
    case Deal => flags.deal
    case SendFile => false
  }

  /** The position of each action in the order `NewRandomizer` adds them. */
  function Rank(act: Action): nat
  {
    match act
    case Ask => 0
    case Bid => 1
    case Deal => 2
    case Payment => 3
    case SendFile => 4
  }

  /**
   * The action set for `flags`: exactly the enabled actions, each once, in the
   * order Ask, Bid, Deal, Payment.
   */
  function EnabledActions(flags: ActionArgs): (r: seq<Action>)
    ensures forall act :: act in r <==> Enabled(flags, act)
    ensures forall i, j :: 0 <= i < j < |r| ==> Rank(r[i]) < Rank(r[j])
  {
    (if flags.ask then [Ask] else []) +
    (if flags.bid then [Bid] else []) +
    (if flags.deal then [Deal] else []) +
    (if flags.payment then [Payment] else [])
  }

  /** The `mine` flag never changes the action set, and `SendFile` is never in it. */
  lemma EnabledActionsIgnoreMine(flags: ActionArgs)
    ensures EnabledActions(flags) == EnabledActions(flags.(mine := !flags.mine))
    ensures SendFile !in EnabledActions(flags)
  {
  }

  /** The simulation driver: its parameters and the actions it chooses from. */
  class Randomizer {
    const args: Args
    var actions: seq<Action>

    /** `NewRandomizer`: starts from no actions and adds each enabled one in turn. */
    constructor (a: Args)
      ensures args == a
      ensures actions == EnabledActions(a.actions)
    {
      args := a;
      actions := [];
      new;
      AddIf(a.actions.ask, Ask);
      AddIf(a.actions.bid, Bid);
      AddIf(a.actions.deal, Deal);
      AddIf(a.actions.payment, Payment);
    }

    /** The `addif` closure: appends `act` to the action set when `t` holds. */
    method AddIf(t: bool, act: Action)
      modifies this
      ensures actions == old(actions) + (if t then [act] else [])
    {
      if t {
        actions := actions + [act];
      }
    }
  }

  /**
   * One tick of the action scheduler: nothing when the action set is empty,
   * otherwise the action at the drawn index (`roll` stands for `rand.Intn(len(actions))`).
   */
  function ActionTick(actions: seq<Action>, roll: nat): (r: Option<Action>)
    requires actions != [] ==> roll < |actions|
    ensures r.None? <==> actions == []
    ensures r.Some? ==> r.value in actions
  {
    if |actions| < 1 then None else Some(actions[roll])
  }

  /** No action occurs twice in `actions`. */
  ghost predicate Distinct(actions: seq<Action>)
  {
    forall i, j :: 0 <= i < j < |actions| ==> actions[i] != actions[j]
  }

  /**
   * Each action of a duplicate-free set is drawn by exactly one roll, so a
   * uniform `rand.Intn` gives a uniform pick over the set.
   */
  lemma ActionTickOneRollEach(actions: seq<Action>, act: Action)
    requires Distinct(actions)
    requires act in actions
    ensures exists roll: nat :: roll < |actions| && ActionTick(actions, roll) == Some(act)
    ensures forall r1: nat, r2: nat ::
      r1 < |actions| && r2 < |actions| && ActionTick(actions, r1) == Some(act) && ActionTick(actions, r2) == Some(act)
      ==> r1 == r2
  {
    var k :| 0 <= k < |actions| && actions[k] == act;
    assert ActionTick(actions, k) == Some(act);
    forall r1: nat, r2: nat |
      r1 < |actions| && r2 < |actions| && ActionTick(actions, r1) == Some(act) && ActionTick(actions, r2) == Some(act)
      ensures r1 == r2
    {
      assert actions[r1] == act == actions[r2];
    }
  }

  /** A driver's action set has no duplicates, so each enabled action is drawn by exactly one roll. */
  lemma EnabledActionsDistinct(flags: ActionArgs)
    ensures Distinct(EnabledActions(flags))
  {
    var r := EnabledActions(flags);
    forall i, j | 0 <= i < j < |r|
      ensures r[i] != r[j]
    {
      assert Rank(r[i]) < Rank(r[j]);
    }
  }

  /** Whatever is drawn from a driver's action set is enabled, and so never `SendFile`. */
  lemma TickPicksEnabled(flags: ActionArgs, roll: nat)
    requires EnabledActions(flags) != [] ==> roll < |EnabledActions(flags)|
    ensures var r := ActionTick(EnabledActions(flags), roll);
      r.Some? ==> Enabled(flags, r.value) && r.value != SendFile
  {
  }
}
