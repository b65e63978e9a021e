/** The collaborators whose code is not part of this model: the quest tracker
    (`GameProgression`), the Inform 7 grammar (`Inform7Game`) and the game
    description (`Game`). Each is reduced to the values the turn snapshot
    reads from it, given as functions of the actions applied so far. */
module GameLogic {
  import opened Wrappers

  /** An action of the game's grammar, identified by its name. */
  datatype Action = Action(name: string)

  /** What the tracker knows: whether it follows quests, and the actions
      applied to it so far, in order. */
  datatype Tracked = Tracked(trackQuests: bool, applied: seq<Action>)

  /** The game as seen from the turn snapshot. */
  datatype Logic = Logic(
    /** `GameProgression.valid_actions`. */
    validActions: Tracked -> seq<Action>,
    /** `GameProgression.score`. */
    score: Tracked -> int,
    /** `GameProgression.completed`. */
    completed: Tracked -> bool,
    /** `GameProgression.failed`. */
    failed: Tracked -> bool,
    /** `GameProgression.winning_policy`, `None` once no policy is left. */
    winningPolicy: Tracked -> Option<seq<Action>>,
    /** `GameProgression.state`: the facts that hold in the world. */
    facts: Tracked -> set<string>,
    /** `Inform7Game.detect_action(event, valid_actions)`. */
    detectAction: (string, seq<Action>) -> Option<Action>,
    /** `Inform7Game.gen_commands_from_actions(actions)`. */
    commandsFor: seq<Action> -> seq<string>,
    /** `GameProgression.max_score`. */
    maxScore: int,
    /** `len(game.quests)`. */
    questCount: nat,
    /** `game.objective`. */
    objective: string)

  /** `detect_action` only ever answers with one of the actions it was offered. */
  ghost predicate DetectsValid(logic: Logic) {
    forall event, valid :: logic.detectAction(event, valid).Some? ==> logic.detectAction(event, valid).value in valid
  }

  /** The quest tracker, shared by every snapshot of one session: feeding it
      an action through one snapshot changes what every other snapshot that
      has not yet cached a derived value will read. */
  class Progression {
    const logic: Logic
    const trackQuests: bool
    var applied: seq<Action>

    /** `GameProgression(game, track_quests=...)`. */
    constructor(logic: Logic, trackQuests: bool)
      ensures this.logic == logic && this.trackQuests == trackQuests && applied == []
    {
      this.logic := logic;
      this.trackQuests := trackQuests;
      applied := [];
    }

    function Now(): Tracked
      reads this`applied
    {
      Tracked(trackQuests, applied)
    }

    function ValidActions(): seq<Action>
      reads this`applied
    {
      logic.validActions(Now())
    }

    /** `GameProgression.update(action)`. */
    method Update(a: Action)
      modifies this
      ensures applied == old(applied) + [a]
    {
      applied := applied + [a];
    }

    /** The feeding loop of `update`: each event is resolved against the
        actions valid at that moment, and a resolved action is applied at
        once; the answer is the last resolution made. */
    method FeedEvents(events: seq<string>) returns (action: Option<Action>)
      modifies this
      ensures Fed(applied, action) == Feed(logic, trackQuests, old(applied), events)
    {
      action := None;
      var i := 0;
      while i < |events|
        invariant 0 <= i <= |events|
        invariant Feed(logic, trackQuests, old(applied), events[..i]) == Fed(applied, action)
      {
        assert events[..i + 1][..i] == events[..i];
        action := logic.detectAction(events[i], ValidActions());
        if action.Some? {
          Update(action.value);
        }
        i := i + 1;
      }
      assert events[..i] == events;
    }
  }

  /** The actions applied while feeding a list of events, and the last
      detection made (`None` when there were no events). */
  datatype Fed = Fed(applied: seq<Action>, action: Option<Action>)

  /** The feeding loop of `update`: every event is resolved against the
      actions valid at that moment, and a resolved action is applied before
      the next event is looked at. */
  function Feed(logic: Logic, trackQuests: bool, applied: seq<Action>, events: seq<string>): (r: Fed)
    decreases |events|
    ensures |applied| <= |r.applied| <= |applied| + |events|
    ensures r.applied[..|applied|] == applied
    ensures |events| == 0 ==> r == Fed(applied, None)
  {
    if |events| == 0 then Fed(applied, None)
    else
      var prev := Feed(logic, trackQuests, applied, events[..|events| - 1]);
      var act := logic.detectAction(events[|events| - 1], logic.validActions(Tracked(trackQuests, prev.applied)));
      assert (prev.applied + [act.GetOr(Action(""))])[..|applied|] == prev.applied[..|applied|];
      Fed(if act.Some? then prev.applied + [act.value] else prev.applied, act)
  }

  /** Every action of `after` past the prefix of length `from` was one of the
      tracker's valid actions at the moment it was applied. */
  predicate AppliedWhileValid(logic: Logic, trackQuests: bool, from: nat, after: seq<Action>) {
    forall k :: from <= k < |after| ==> after[k] in logic.validActions(Tracked(trackQuests, after[..k]))
  }

  /** When `detect_action` answers only with offered actions, every action the
      loop applies was valid for the tracker at the moment it was applied. */
  lemma {:induction false} FeedAppliesValidActions(logic: Logic, trackQuests: bool, applied: seq<Action>, events: seq<string>)
    requires DetectsValid(logic)
    ensures AppliedWhileValid(logic, trackQuests, |applied|, Feed(logic, trackQuests, applied, events).applied)
    decreases |events|
  {
    if |events| > 0 {
      var init := events[..|events| - 1];
      FeedAppliesValidActions(logic, trackQuests, applied, init);
      var prev := Feed(logic, trackQuests, applied, init);
      var r := Feed(logic, trackQuests, applied, events);
      forall k | |applied| <= k < |r.applied|
        ensures r.applied[k] in logic.validActions(Tracked(trackQuests, r.applied[..k]))
      {
        if k < |prev.applied| {
          assert r.applied[..k] == prev.applied[..k];
          assert r.applied[k] == prev.applied[k];
        } else {
          var valid := logic.validActions(Tracked(trackQuests, prev.applied));
          var act := logic.detectAction(events[|events| - 1], valid);
          assert r.applied == prev.applied + [act.value];
          assert r.applied[..k] == prev.applied;
        }
      }
    }
  }

  /** Feeding two lists of events one after the other is feeding their
      concatenation: the second list starts from the actions the first
      applied, and the answer is the second's last detection unless that
      list is empty. */
  lemma {:induction false} FeedInBatches(logic: Logic, trackQuests: bool, applied: seq<Action>, e1: seq<string>, e2: seq<string>)
    ensures var first := Feed(logic, trackQuests, applied, e1);
      var second := Feed(logic, trackQuests, first.applied, e2);
      Feed(logic, trackQuests, applied, e1 + e2)
        == Fed(second.applied, if |e2| > 0 then second.action else first.action)
    decreases |e2|
  {
    if |e2| == 0 {
      assert e1 + e2 == e1;
    } else {
      var init := e2[..|e2| - 1];
      FeedInBatches(logic, trackQuests, applied, e1, init);
      assert (e1 + e2)[..|e1 + e2| - 1] == e1 + init;
      assert (e1 + e2)[|e1 + e2| - 1] == e2[|e2| - 1];
    }
  }
}
