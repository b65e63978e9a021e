/** The turn snapshot `GlulxGameState`: what one turn of the game looks like
    to an agent. Plain fields are fixed when the snapshot is built; derived
    fields are computed on first access and cached (the `hasattr` pattern),
    each in a `Lazy` cell of the class. */
module GameState {
  import opened Wrappers
  import opened Text
  import opened Ordering
  import opened Numbers
  import opened GlulxErrors
  import opened EventTags
  import opened OutputNormalizer
  import opened GameLogic

  /** A derived field that has or has not been computed yet. */
  datatype Lazy<T> = Unresolved | Resolved(value: T)

  const EndBanner: string := "*** The End ***"
  const LostBanner: string := "*** You lost! ***"

  // ---------------------------------------------------------------------------
  // The rules behind the derived fields, on values.

  /** `score`: the tracker's score under state tracking; otherwise the
      integer in the "score" fact, which must have been received. */
  function ScoreOf(stateTracking: bool, trackerScore: int, infos: map<string, string>): (r: Result<int, Error>)
    ensures stateTracking ==> r == Ok(trackerScore)
    ensures !stateTracking && "score" !in infos ==> r == Err(ExtraInfoMissing("score"))
    ensures !stateTracking && "score" in infos ==>
      && (r.Ok? <==> ParseInt(infos["score"]).Some?)
      && (r.Ok? ==> r.value == ParseInt(infos["score"]).value)
      && (r.Err? ==> r.error == NotAnInteger(infos["score"]))
  {
    if stateTracking then Ok(trackerScore)
    else if "score" !in infos then Err(ExtraInfoMissing("score"))
    else match ParseInt(infos["score"])
      case None => Err(NotAnInteger(infos["score"]))
      case Some(n) => Ok(n)
  }

  /** A score the game printed as its fact, newline included, is read back. */
  lemma PrintedScoreIsRead(n: int, infos: map<string, string>, trackerScore: int)
    requires "score" in infos && infos["score"] == IntToString(n) + "\n"
    ensures ScoreOf(false, trackerScore, infos) == Ok(n)
  {
    ParseIntNewline(n);
  }

  /** `has_won` / `has_lost`: the tracker's verdict when the reward is
      computed, otherwise whether the banner appears in the feedback. */
  function BannerOrTracker(computeReward: bool, trackerSays: bool, feedback: string, banner: string): (r: bool)
    requires |banner| > 0
    ensures computeReward ==> r == trackerSays
    ensures !computeReward ==> (r <==> exists i: nat :: OccursAt(feedback, banner, i))
  {
    if computeReward then trackerSays
    else
      IndexOfSpec(feedback, banner, 0);
      Contains(feedback, banner)
  }

  /** `policy_commands`: only available when the reward is computed; the
      commands of the winning policy, or none once no policy is left. */
  function PolicyOf(computeReward: bool, logic: Logic, now: Tracked): (r: Result<seq<string>, Error>)
    ensures !computeReward ==> r == Err(OraclePolicyRequired("policy_commands"))
    ensures computeReward ==> r.Ok?
    ensures computeReward && logic.winningPolicy(now).None? ==> r.value == []
    ensures computeReward && logic.winningPolicy(now).Some? ==> r.value == logic.commandsFor(logic.winningPolicy(now).value)
  {
    if !computeReward then Err(OraclePolicyRequired("policy_commands"))
    else match logic.winningPolicy(now)
      case None => Ok([])
      case Some(policy) => Ok(logic.commandsFor(policy))
  }

  /** `admissible_commands`: only available under state tracking; the
      commands of every valid action, without duplicates, in string order. */
  function AdmissibleOf(stateTracking: bool, logic: Logic, now: Tracked): (r: Result<seq<string>, Error>)
    ensures !stateTracking ==> r == Err(StateTrackingRequired("admissible_commands"))
    ensures stateTracking ==> r.Ok? && StrictlySorted(r.value)
    ensures stateTracking ==> forall c :: c in r.value <==> c in logic.commandsFor(logic.validActions(now))
  {
    if !stateTracking then Err(StateTrackingRequired("admissible_commands"))
    else Ok(SortedSet(logic.commandsFor(logic.validActions(now))))
  }

  /** Two trackers offering the same commands, in whatever order and with
      whatever repetition, give the same admissible list. */
  lemma AdmissibleDependsOnlyOnCommandSet(logic: Logic, a: Tracked, b: Tracked)
    requires forall c :: c in logic.commandsFor(logic.validActions(a)) <==> c in logic.commandsFor(logic.validActions(b))
    ensures AdmissibleOf(true, logic, a) == AdmissibleOf(true, logic, b)
  {
    SortedSetDeterministic(logic.commandsFor(logic.validActions(a)), logic.commandsFor(logic.validActions(b)));
  }

  /** `intermediate_reward` once the reward is known to be computed: 1 on a
      win, -1 on a loss, 0 without a previous snapshot, else the sign of how
      much the remaining winning policy shrank. `lengths` holds the previous
      and the current policy lengths when there is a previous snapshot. */
  function RewardOf(won: bool, lost: bool, lengths: Option<(nat, nat)>): (r: int)
    ensures -1 <= r <= 1
    ensures won ==> r == 1
    ensures !won && lost ==> r == -1
    ensures !won && !lost && lengths.None? ==> r == 0
    ensures !won && !lost && lengths.Some? ==>
      && (r == 1 <==> lengths.value.1 < lengths.value.0)
      && (r == -1 <==> lengths.value.1 > lengths.value.0)
  {
    if won then 1
    else if lost then -1
    else match lengths
      case None => 0
      case Some((before, after)) => Sign(before - after)
  }

  /** `{**previous, **current}`: this turn's facts win, the others carry over. */
  function MergeInfos(previous: map<string, string>, current: map<string, string>): (r: map<string, string>)
    ensures r.Keys == previous.Keys + current.Keys
    ensures forall k :: k in current ==> r[k] == current[k]
    ensures forall k :: k in previous && k !in current ==> r[k] == previous[k]
  {
    previous + current
  }

  /** `command_feedback` once `description` and `inventory` are known: the
      feedback (empty on the first move) with the room description, the
      inventory and the objective cut out together with the white space
      around them, then stripped. */
  function CommandFeedbackOf(nbMoves: nat, feedback: string, description: string, inventory: string, objective: string): (r: string) {
    var start := if nbMoves == 0 then "" else feedback;
    Strip(CutOut(CutOut(CutOut(start, description), inventory), objective))
  }

  /** The command feedback is empty on the first move; otherwise it is drawn
      from the feedback in order, and it never begins or ends with white space. */
  lemma CommandFeedbackShape(nbMoves: nat, feedback: string, description: string, inventory: string, objective: string)
    ensures var r := CommandFeedbackOf(nbMoves, feedback, description, inventory, objective);
      && (nbMoves == 0 ==> r == "")
      && IsSubseq(r, feedback)
      && Trimmed(r)
  {
    var start := if nbMoves == 0 then "" else feedback;
    var a := CutOut(start, description);
    var b := CutOut(a, inventory);
    var c := CutOut(b, objective);
    StripOfCutsIsSubseq(start, a, b, c);
    if nbMoves == 0 {
      assert Strip(c) == "";
    } else {
      SubseqRefl(feedback);
    }
  }

  lemma StripOfCutsIsSubseq(start: string, a: string, b: string, c: string)
    requires IsSubseq(a, start) && IsSubseq(b, a) && IsSubseq(c, b)
    ensures IsSubseq(Strip(c), start)
  {
    SubseqTrans(b, a, start);
    SubseqTrans(c, b, start);
    StripIsSubseq(c);
    SubseqTrans(Strip(c), c, start);
  }

  /** One removal step of `command_feedback`: nothing happens when the text
      to cut out is blank. */
  function CutOut(s: string, part: string): (r: string)
    ensures IsSubseq(r, s)
    ensures |Strip(part)| == 0 ==> r == s
  {
    var x := Strip(part);
    if |x| > 0 then
      RemoveSurroundedSubseq(s, x);
      RemoveSurrounded(s, x)
    else
      SubseqRefl(s);
      s
  }

  /** Cutting out a part removes its stripped text together with the white
      space on both sides, where it occurs once. */
  lemma CutOutRemoves(a: string, w1: string, part: string, w2: string, b: string)
    requires |Strip(part)| > 0 && AllSpace(w1) && AllSpace(w2)
    requires |a| > 0 ==> !IsSpace(a[|a| - 1])
    requires |b| > 0 ==> !IsSpace(b[0])
    requires forall j: nat :: j < |a| + |w1| ==> !OccursAt(a + w1 + Strip(part) + w2 + b, Strip(part), j)
    requires !Contains(b, Strip(part))
    ensures CutOut(a + w1 + Strip(part) + w2 + b, part) == a + b
  {
    var x := Strip(part);
    RemoveSurroundedSplit(a, w1, x, w2, b);
    RemoveSurroundedAbsent(b, x);
  }

  /** On a later move, a room description that occurs once in the feedback
      is removed with the white space around it, and the rest is stripped. */
  lemma CommandFeedbackDropsDescription(nbMoves: nat, a: string, w1: string, description: string, w2: string,
                                        b: string, inventory: string, objective: string)
    requires nbMoves > 0 && |Strip(description)| > 0 && AllSpace(w1) && AllSpace(w2)
    requires |a| > 0 ==> !IsSpace(a[|a| - 1])
    requires |b| > 0 ==> !IsSpace(b[0])
    requires forall j: nat :: j < |a| + |w1| ==> !OccursAt(a + w1 + Strip(description) + w2 + b, Strip(description), j)
    requires !Contains(b, Strip(description))
    requires |Strip(inventory)| == 0 && |Strip(objective)| == 0
    ensures CommandFeedbackOf(nbMoves, a + w1 + Strip(description) + w2 + b, description, inventory, objective)
      == Strip(a + b)
  {
    CutOutRemoves(a, w1, description, w2, b);
  }

  lemma StripIsSubseq(s: string)
    ensures IsSubseq(Strip(s), s)
  {
    StripSpec(s);
    var i := SkipSpaces(s, 0);
    var r := Strip(s);
    SubseqCut(s[i..], |r|, |s| - i);
    assert s[i..][..|r|] + s[i..][|s| - i..] == r;
    SubseqSuffix(s, i);
    SubseqTrans(r, s[i..], s);
  }

  /** With nothing to cut out, the command feedback of a later move is the
      stripped feedback. */
  lemma CommandFeedbackPlain(nbMoves: nat, feedback: string, description: string, inventory: string, objective: string)
    requires nbMoves > 0
    requires |Strip(description)| == 0 && |Strip(inventory)| == 0 && |Strip(objective)| == 0
    ensures CommandFeedbackOf(nbMoves, feedback, description, inventory, objective) == Strip(feedback)
  {
  }

  // ---------------------------------------------------------------------------
  // The frozen copy `view` makes.

  /** A snapshot whose derived fields have been computed: what `view`
      returns and `update` keeps as the previous state. */
  datatype View = View(
    previous: Option<View>,
    facts: set<string>,
    stateTracking: bool,
    computeReward: bool,
    command: Option<string>,
    feedback: string,
    action: Option<Action>,
    description: string,
    inventory: string,
    objective: string,
    score: int,
    maxScore: int,
    nbMoves: nat,
    hasWon: bool,
    hasLost: bool,
    hasTimeout: bool,
    admissible: Option<seq<string>>,
    policy: Option<seq<string>>)

  /** A cached text field as `view` copies it: "" when never computed. */
  function CachedOrEmpty(cell: Lazy<string>): (r: string) {
    if cell.Resolved? then cell.value else ""
  }

  // ---------------------------------------------------------------------------
  // The snapshot.

  class GlulxGameState {
    /** The tracker, shared with the snapshots before and after this one. */
    const progression: Progression
    const stateTracking: bool
    const computeReward: bool
    const objective: string
    const maxScore: int
    /** `None` for the snapshot of the opening text. */
    const command: Option<string>
    const feedback: string
    const nbMoves: nat
    const extraInfos: map<string, string>
    const previous: Option<View>
    const action: Option<Action>
    var hasTimeout: bool
    var score: Lazy<int>
    var won: Lazy<bool>
    var lost: Lazy<bool>
    var facts: Lazy<set<string>>
    var policy: Lazy<seq<string>>
    var admissible: Lazy<seq<string>>
    var description: Lazy<string>
    var inventory: Lazy<string>
    var commandFeedback: Lazy<string>

    /** The tracker follows quests exactly under state tracking, and the
        previous snapshot was taken in the same configuration, so it carries
        the policy when the reward is computed. */
    predicate Valid() {
      && progression.trackQuests == stateTracking
      && (computeReward && previous.Some? ==> previous.value.policy.Some?)
    }

    /** No derived field has been read yet, and the game has not timed out. */
    predicate NothingRead()
      reads this
    {
      && !hasTimeout && won.Unresolved? && lost.Unresolved? && facts.Unresolved?
      && policy.Unresolved? && admissible.Unresolved? && description.Unresolved?
      && inventory.Unresolved? && commandFeedback.Unresolved?
    }

    /** The cells `view` reads hold what the frozen copy `v` shows. */
    predicate CachedAs(v: View)
      reads this
    {
      && facts == Resolved(v.facts) && score == Resolved(v.score)
      && won == Resolved(v.hasWon) && lost == Resolved(v.hasLost)
      && (v.admissible.Some? ==> admissible == Resolved(v.admissible.value))
      && (v.policy.Some? ==> policy == Resolved(v.policy.value))
    }

    constructor(progression: Progression, stateTracking: bool, computeReward: bool, objective: string,
                maxScore: int, command: Option<string>, feedback: string, nbMoves: nat,
                extraInfos: map<string, string>, previous: Option<View>, action: Option<Action>, score: Lazy<int>)
      ensures this.progression == progression && this.stateTracking == stateTracking
      ensures this.computeReward == computeReward && this.objective == objective
      ensures this.maxScore == maxScore && this.command == command && this.feedback == feedback
      ensures this.nbMoves == nbMoves && this.extraInfos == extraInfos && this.previous == previous
      ensures this.action == action && this.score == score && NothingRead()
    {
      this.progression := progression;
      this.stateTracking := stateTracking;
      this.computeReward := computeReward;
      this.objective := objective;
      this.maxScore := maxScore;
      this.command := command;
      this.feedback := feedback;
      this.nbMoves := nbMoves;
      this.extraInfos := extraInfos;
      this.previous := previous;
      this.action := action;
      this.score := score;
      hasTimeout := false;
      won, lost, facts, policy := Unresolved, Unresolved, Unresolved, Unresolved;
      admissible, description, inventory, commandFeedback := Unresolved, Unresolved, Unresolved, Unresolved;
    }

    // What each property returns (or raises) when read now.

    /** What `score` computes when it is not cached yet. */
    function ComputedScore(): Result<int, Error>
      reads progression`applied
    {
      ScoreOf(stateTracking, progression.logic.score(progression.Now()), extraInfos)
    }

    /** What `has_won` computes when it is not cached yet. */
    function ComputedWon(): bool
      reads progression`applied
    {
      BannerOrTracker(computeReward, progression.logic.completed(progression.Now()), feedback, EndBanner)
    }

    /** What `has_lost` computes when it is not cached yet. */
    function ComputedLost(): bool
      reads progression`applied
    {
      BannerOrTracker(computeReward, progression.logic.failed(progression.Now()), feedback, LostBanner)
    }

    function ScoreValue(): Result<int, Error>
      reads this`score, progression`applied
    {
      if score.Resolved? then Ok(score.value) else ComputedScore()
    }

    function WonValue(): bool
      reads this`won, progression`applied
    {
      if won.Resolved? then won.value else ComputedWon()
    }

    function LostValue(): bool
      reads this`lost, progression`applied
    {
      if lost.Resolved? then lost.value else ComputedLost()
    }

    function FactsValue(): set<string>
      reads this`facts, progression`applied
    {
      if facts.Resolved? then facts.value else progression.logic.facts(progression.Now())
    }

    function PolicyValue(): Result<seq<string>, Error>
      reads this`policy, progression`applied
    {
      if policy.Resolved? then Ok(policy.value) else PolicyOf(computeReward, progression.logic, progression.Now())
    }

    function AdmissibleValue(): Result<seq<string>, Error>
      reads this`admissible, progression`applied
    {
      if admissible.Resolved? then Ok(admissible.value)
      else AdmissibleOf(stateTracking, progression.logic, progression.Now())
    }

    function DescriptionValue(): Result<string, Error>
      reads this`description
    {
      if description.Resolved? then Ok(description.value)
      else if "description" in extraInfos then Ok(extraInfos["description"])
      else Err(ExtraInfoMissing("description"))
    }

    function InventoryValue(): Result<string, Error>
      reads this`inventory
    {
      if inventory.Resolved? then Ok(inventory.value)
      else if "inventory" in extraInfos then Ok(extraInfos["inventory"])
      else Err(ExtraInfoMissing("inventory"))
    }

    function CommandFeedbackValue(): Result<string, Error>
      reads this`commandFeedback, this`description, this`inventory
    {
      if commandFeedback.Resolved? then Ok(commandFeedback.value)
      else match DescriptionValue()
        case Err(e) => Err(e)
        case Ok(d) =>
          match InventoryValue()
          case Err(e) => Err(e)
          case Ok(inv) => Ok(CommandFeedbackOf(nbMoves, feedback, d, inv, objective))
    }

    function RewardValue(): Result<int, Error>
      requires Valid()
      reads this`won, this`lost, this`policy, progression`applied
    {
      if !computeReward then Err(OraclePolicyRequired("intermediate_reward"))
      else
        var lengths := if previous.Some? then Some((|previous.value.policy.value|, |PolicyValue().value|)) else None;
        Ok(RewardOf(WonValue(), LostValue(), lengths))
    }

    function ViewValue(): Result<View, Error>
      reads this`facts, this`score, this`won, this`lost, this`admissible, this`policy,
               this`description, this`inventory, this`hasTimeout, progression`applied
    {
      match ScoreValue()
      case Err(e) => Err(e)
      case Ok(s) =>
        Ok(View(previous, FactsValue(), stateTracking, computeReward, command, feedback, action,
                CachedOrEmpty(description), CachedOrEmpty(inventory), objective, s, maxScore, nbMoves,
                WonValue(), LostValue(), hasTimeout,
                if stateTracking then Some(AdmissibleValue().value) else None,
                if computeReward then Some(PolicyValue().value) else None))
    }

    // The properties.

    /** `score`. */
    method Score() returns (r: Result<int, Error>)
      modifies this`score
      ensures r == old(ScoreValue())
      ensures score == if r.Ok? then Resolved(r.value) else old(score)
    {
      if score.Unresolved? {
        if stateTracking {
          score := Resolved(progression.logic.score(progression.Now()));
        } else {
          if "score" !in extraInfos {
            return Err(ExtraInfoMissing("score"));
          }
          var n := ParseInt(extraInfos["score"]);
          if n.None? {
            return Err(NotAnInteger(extraInfos["score"]));
          }
          score := Resolved(n.value);
        }
      }
      return Ok(score.value);
    }

    /** `has_won`. */
    method HasWon() returns (r: bool)
      modifies this`won
      ensures r == old(WonValue()) && won == Resolved(r)
    {
      if won.Unresolved? {
        if computeReward {
          won := Resolved(progression.logic.completed(progression.Now()));
        } else {
          won := Resolved(Contains(feedback, EndBanner));
        }
      }
      return won.value;
    }

    /** `has_lost`. */
    method HasLost() returns (r: bool)
      modifies this`lost
      ensures r == old(LostValue()) && lost == Resolved(r)
    {
      if lost.Unresolved? {
        if computeReward {
          lost := Resolved(progression.logic.failed(progression.Now()));
        } else {
          lost := Resolved(Contains(feedback, LostBanner));
        }
      }
      return lost.value;
    }

    /** `game_ended`: both flags are read (and cached), then or-ed with the
        timeout flag. */
    method GameEnded() returns (r: bool)
      modifies this`won, this`lost
      ensures r == (old(WonValue()) || old(LostValue()) || hasTimeout)
      ensures won == Resolved(old(WonValue())) && lost == Resolved(old(LostValue()))
    {
      var w := HasWon();
      var l := HasLost();
      return w || l || hasTimeout;
    }

    /** `state`: a copy of the tracker's facts, frozen at first read. */
    method State() returns (r: set<string>)
      modifies this`facts
      ensures r == old(FactsValue()) && facts == Resolved(r)
    {
      if facts.Unresolved? {
        facts := Resolved(progression.logic.facts(progression.Now()));
      }
      return facts.value;
    }

    /** `policy_commands`. */
    method PolicyCommands() returns (r: Result<seq<string>, Error>)
      modifies this`policy
      ensures r == old(PolicyValue())
      ensures policy == if r.Ok? then Resolved(r.value) else old(policy)
    {
      if policy.Unresolved? {
        if !computeReward {
          return Err(OraclePolicyRequired("policy_commands"));
        }
        policy := Resolved([]);
        var winning := progression.logic.winningPolicy(progression.Now());
        if winning.Some? {
          policy := Resolved(progression.logic.commandsFor(winning.value));
        }
      }
      return Ok(policy.value);
    }

    /** `admissible_commands`. */
    method AdmissibleCommands() returns (r: Result<seq<string>, Error>)
      modifies this`admissible
      ensures r == old(AdmissibleValue())
      ensures admissible == if r.Ok? then Resolved(r.value) else old(admissible)
    {
      if admissible.Unresolved? {
        if !stateTracking {
          return Err(StateTrackingRequired("admissible_commands"));
        }
        var all := progression.logic.commandsFor(progression.ValidActions());
        admissible := Resolved(SortedSet(all));
      }
      return Ok(admissible.value);
    }

    /** `description`. */
    method Description() returns (r: Result<string, Error>)
      modifies this`description
      ensures r == old(DescriptionValue())
      ensures description == if r.Ok? then Resolved(r.value) else old(description)
    {
      if description.Unresolved? {
        if "description" !in extraInfos {
          return Err(ExtraInfoMissing("description"));
        }
        description := Resolved(extraInfos["description"]);
      }
      return Ok(description.value);
    }

    /** `inventory`. */
    method Inventory() returns (r: Result<string, Error>)
      modifies this`inventory
      ensures r == old(InventoryValue())
      ensures inventory == if r.Ok? then Resolved(r.value) else old(inventory)
    {
      if inventory.Unresolved? {
        if "inventory" !in extraInfos {
          return Err(ExtraInfoMissing("inventory"));
        }
        inventory := Resolved(extraInfos["inventory"]);
      }
      return Ok(inventory.value);
    }

    /** `command_feedback`: reads `description` and then `inventory`, caching
        each, and fails on the first one missing. */
    method CommandFeedback() returns (r: Result<string, Error>)
      modifies this`description, this`inventory, this`commandFeedback
      ensures r == old(CommandFeedbackValue())
      ensures commandFeedback == if r.Ok? then Resolved(r.value) else old(commandFeedback)
      ensures description ==
        if old(commandFeedback).Unresolved? && old(DescriptionValue()).Ok?
        then Resolved(old(DescriptionValue()).value) else old(description)
      ensures inventory ==
        if old(commandFeedback).Unresolved? && old(DescriptionValue()).Ok? && old(InventoryValue()).Ok?
        then Resolved(old(InventoryValue()).value) else old(inventory)
    {
      if commandFeedback.Unresolved? {
        var d := Description();
        if d.Err? {
          return Err(d.error);
        }
        var inv := Inventory();
        if inv.Err? {
          return Err(inv.error);
        }
        commandFeedback := Resolved(CommandFeedbackOf(nbMoves, feedback, d.value, inv.value, objective));
      }
      return Ok(commandFeedback.value);
    }

    /** `intermediate_reward`. */
    method IntermediateReward() returns (r: Result<int, Error>)
      requires Valid()
      modifies this`won, this`lost, this`policy
      ensures r == old(RewardValue())
      ensures won == if computeReward then Resolved(old(WonValue())) else old(won)
      ensures lost == if computeReward && !old(WonValue()) then Resolved(old(LostValue())) else old(lost)
      ensures policy ==
        if computeReward && !old(WonValue()) && !old(LostValue()) && previous.Some?
        then Resolved(old(PolicyValue()).value) else old(policy)
    {
      if !computeReward {
        return Err(OraclePolicyRequired("intermediate_reward"));
      }
      var w := HasWon();
      if w {
        return Ok(1);
      }
      var l := HasLost();
      if l {
        return Ok(-1);
      }
      if previous.None? {
        return Ok(0);
      }
      var current := PolicyCommands();
      return Ok(Sign(|previous.value.policy.value| - |current.value|));
    }

    /** `view`: reads `state`, `score`, `has_won`, `has_lost` and, as the
        configuration asks, `admissible_commands` and `policy_commands`,
        caching each; a missing score fails it after `state` was cached. */
    method TakeView() returns (r: Result<View, Error>)
      modifies this`facts, this`score, this`won, this`lost, this`admissible, this`policy
      ensures r == old(ViewValue())
      ensures r.Ok? ==> (r.value.policy.Some? <==> computeReward)
      ensures facts == Resolved(old(FactsValue()))
      ensures r.Ok? ==> CachedAs(r.value)
      ensures r.Ok? && !stateTracking ==> admissible == old(admissible)
      ensures r.Ok? && !computeReward ==> policy == old(policy)
      ensures r.Err? ==> unchanged(this`score, this`won, this`lost, this`admissible, this`policy)
    {
      var st := State();
      var s := Score();
      if s.Err? {
        return Err(s.error);
      }
      var v := Freeze(st, s.value);
      return Ok(v);
    }

    /** The rest of `view` once the facts and the score are known: the
        flags and, as the configuration asks, the command lists. */
    method Freeze(facts: set<string>, score: int) returns (r: View)
      modifies this`won, this`lost, this`admissible, this`policy
      ensures r == View(previous, facts, stateTracking, computeReward, command, feedback, action,
                        CachedOrEmpty(description), CachedOrEmpty(inventory), objective, score, maxScore, nbMoves,
                        old(WonValue()), old(LostValue()), hasTimeout,
                        if stateTracking then Some(old(AdmissibleValue()).value) else None,
                        if computeReward then Some(old(PolicyValue()).value) else None)
      ensures won == Resolved(r.hasWon) && lost == Resolved(r.hasLost)
      ensures admissible == if stateTracking then Resolved(old(AdmissibleValue()).value) else old(admissible)
      ensures policy == if computeReward then Resolved(old(PolicyValue()).value) else old(policy)
    {
      var w := HasWon();
      var l := HasLost();
      var adm: Option<seq<string>> := None;
      if stateTracking {
        var a := AdmissibleCommands();
        adm := Some(a.value);
      }
      var pol: Option<seq<string>> := None;
      if computeReward {
        var p := PolicyCommands();
        pol := Some(p.value);
      }
      return View(previous, facts, stateTracking, computeReward, command, feedback, action,
                  CachedOrEmpty(description), CachedOrEmpty(inventory), objective, score, maxScore, nbMoves,
                  w, l, hasTimeout, adm, pol);
    }

    /** `init`: the opening text, with the prompt and the event tags
        removed and the facts cut out, becomes the feedback of move 0; the
        tracker starts from the beginning, and the score is 0 until the
        first command. The intermediate reward is only computed for a game
        with quests. */
    static method Init(output: string, logic: Logic, stateTracking: bool, computeReward: bool)
      returns (r: Result<GlulxGameState, Error>)
      ensures var d := DetectEventsSpec(StripPrompt(output));
        && (d.Err? ==> r == Err(d.error))
        && (d.Ok? && ExtraInfosSpec(d.value.text).Err? ==> r == Err(ExtraInfosSpec(d.value.text).error))
        && (r.Ok? <==> d.Ok? && ExtraInfosSpec(d.value.text).Ok?)
      ensures r.Ok? ==>
        var s, ex := r.value, ExtraInfosSpec(DetectEventsSpec(StripPrompt(output)).value.text).value;
        && fresh(s) && fresh(s.progression) && s.Valid()
        && s.progression.logic == logic && s.progression.applied == []
        && s.stateTracking == stateTracking && s.computeReward == (computeReward && logic.questCount > 0)
        && s.feedback == ex.text && s.extraInfos == ex.infos
        && s.command.None? && s.nbMoves == 0 && s.previous.None? && s.action.None?
        && s.score == Resolved(0) && s.NothingRead() && s.maxScore == logic.maxScore && s.objective == logic.objective
    {
      var text := StripPrompt(output);
      var d := DetectEvents(text);
      if d.Err? {
        return Err(d.error);
      }
      var ex := DetectExtraInfos(d.value.text);
      if ex.Err? {
        return Err(ex.error);
      }
      var progression := new Progression(logic, stateTracking);
      var s := new GlulxGameState(progression, stateTracking, computeReward && logic.questCount > 0,
                                  logic.objective, logic.maxScore, None, ex.value.text, 0,
                                  ex.value.infos, None, None, Resolved(0));
      return Ok(s);
    }

    /** `update`: the answer to `command` becomes the next snapshot. The
        prompt is removed and this turn's facts cut out; this snapshot is
        frozen as the previous one; the facts received so far carry over;
        the event tags are removed from the feedback and, under state
        tracking, every event is resolved to an action that the shared
        tracker then applies. */
    method Update(command: string, output: string) returns (r: Result<GlulxGameState, Error>)
      requires Valid()
      modifies this`facts, this`score, this`won, this`lost, this`admissible, this`policy, progression
      ensures var ex := ExtraInfosSpec(StripPrompt(output));
        ex.Err? ==>
          && r == Err(ex.error) && progression.applied == old(progression.applied)
          && unchanged(this`facts, this`score, this`won, this`lost, this`admissible, this`policy)
      ensures var ex := ExtraInfosSpec(StripPrompt(output));
        ex.Ok? ==> Settled(command, ex.value, r)
    {
      var text := StripPrompt(output);
      var ex := DetectExtraInfos(text);
      if ex.Err? {
        return Err(ex.error);
      }
      r := Settle(command, ex.value);
    }

    /** `update` once this turn's facts `ex` are cut out: this snapshot is
        frozen, then the next one is built. */
    method Settle(command: string, ex: Extracted) returns (r: Result<GlulxGameState, Error>)
      requires Valid()
      modifies this`facts, this`score, this`won, this`lost, this`admissible, this`policy, progression
      ensures Settled(command, ex, r)
    {
      var view := TakeView();
      if view.Err? {
        return Err(view.error);
      }
      r := Advance(command, ex, view.value);
    }

    /** What `update` does once this turn's facts `ex` are cut out: it fails
        when `view` fails or the event tags are unbalanced, leaving the
        tracker as it was; otherwise it returns a new snapshot that is this
        one's `Successor`. Either way this snapshot's cells are left as
        reading `view` leaves them. */
    twostate predicate Settled(command: string, ex: Extracted, new r: Result<GlulxGameState, Error>)
      reads this, progression, if r.Ok? then {r.value} else {}
    {
      && (old(ViewValue()).Err? ==> r == Err(old(ViewValue()).error))
      && (old(ViewValue()).Ok? && DetectEventsSpec(ex.text).Err? ==> r == Err(DetectEventsSpec(ex.text).error))
      && (r.Ok? <==> old(ViewValue()).Ok? && DetectEventsSpec(ex.text).Ok?)
      && (r.Err? ==> progression.applied == old(progression.applied))
      && Frozen(old(ViewValue()))
      && (r.Ok? ==> fresh(r.value) && Successor(r.value, command, ex, old(ViewValue()).value, old(progression.applied)))
    }

    /** What a successful `update` builds from this snapshot, given the facts
        `ex` cut out of the output, the frozen `view` of this snapshot, and
        what the tracker had applied before (`applied0`): the next snapshot
        shares the tracker, which has applied the actions detected in this
        turn's events when states are tracked; it holds the command, one more
        move, `view` as its previous state, the merged facts and the feedback
        cleaned of event tags; its score is read afresh. */
    ghost predicate Successor(s: GlulxGameState, command: string, ex: Extracted, view: View, applied0: seq<Action>)
      reads s, progression
    {
      Follows(s, command, ex, view, applied0) && s.score.Unresolved? && s.NothingRead()
    }

    /** `s` is built from this snapshot as `Successor` says, whatever has been
        read from it since. */
    ghost predicate Follows(s: GlulxGameState, command: string, ex: Extracted, view: View, applied0: seq<Action>)
      reads progression
    {
      && DetectEventsSpec(ex.text).Ok?
      && var d := DetectEventsSpec(ex.text).value;
      var fed := if stateTracking then Feed(progression.logic, stateTracking, applied0, d.events)
                 else Fed(applied0, None);
      && s.Valid()
      && s.progression == progression && progression.applied == fed.applied && s.action == fed.action
      && s.stateTracking == stateTracking && s.computeReward == computeReward
      && s.objective == objective && s.maxScore == maxScore
      && s.command == Some(command) && s.nbMoves == nbMoves + 1
      && s.previous == Some(view)
      && s.extraInfos == MergeInfos(extraInfos, ex.infos) && s.feedback == d.text
    }

    /** What reading `view` leaves in this snapshot's cells: on success they
        hold the frozen copy, and the command lists the configuration does
        not ask for are untouched; on failure only the facts were cached. */
    twostate predicate Frozen(v: Result<View, Error>)
      reads this
    {
      && (v.Ok? ==> CachedAs(v.value))
      && (v.Ok? && !stateTracking ==> admissible == old(admissible))
      && (v.Ok? && !computeReward ==> policy == old(policy))
      && (v.Err? ==> facts == Resolved(old(FactsValue())))
      && (v.Err? ==> score == old(score) && won == old(won) && lost == old(lost))
      && (v.Err? ==> admissible == old(admissible) && policy == old(policy))
    }

    /** The second half of `update`, once this turn's facts are cut out and
        this snapshot is frozen as `view`. */
    method Advance(command: string, ex: Extracted, view: View) returns (r: Result<GlulxGameState, Error>)
      requires Valid() && (computeReward ==> view.policy.Some?)
      modifies progression
      ensures var d := DetectEventsSpec(ex.text);
        && (r.Ok? <==> d.Ok?)
        && (r.Err? ==> r == Err(d.error) && progression.applied == old(progression.applied))
      ensures r.Ok? ==> fresh(r.value) && Successor(r.value, command, ex, view, old(progression.applied))
    {
      var infos := MergeInfos(extraInfos, ex.infos);
      var d := DetectEvents(ex.text);
      if d.Err? {
        return Err(d.error);
      }
      var action: Option<Action> := None;
      if stateTracking {
        action := progression.FeedEvents(d.value.events);
      }
      var s := new GlulxGameState(progression, stateTracking, computeReward, objective, maxScore,
                                  Some(command), d.value.text, nbMoves + 1, infos, Some(view),
                                  action, Unresolved);
      return Ok(s);
    }
  }
}
