/** The environment `GitGlulxML` around the interpreter: sending a command
    (`_send`), playing one turn (`step`), and the `rreplace` helper of its
    renderer. The message queue to the interpreter process is a parameter:
    `communicate` answers a sent command with the raw reply, or `None` when
    the interpreter gave no answer. */
module Driver {
  import opened Wrappers
  import opened Text
  import opened GlulxErrors
  import opened GameLogic
  import opened GameState
  import opened EventTags
  import opened OutputNormalizer

  /** The escape sequence as the interpreter transmits it, backslash spelled
      out, and as it is restored. */
  const EscapedCsi: string := "\\033["
  const Csi: string := "\U{1b}["

  /** What `_send` hands to the interpreter: an empty command becomes a
      single space, anything else is sent as it is. */
  function SentCommand(command: string): (r: string)
    ensures |r| > 0
    ensures |command| > 0 ==> r == command
    ensures |command| == 0 ==> r == " "
  {
    if |command| == 0 then " " else command
  }

  /** `step` strips the command before sending it, so what the interpreter
      receives strips back to the command the agent meant. */
  lemma SentCommandStripsBack(command: string)
    ensures Strip(SentCommand(Strip(command))) == Strip(command)
  {
    if |Strip(command)| == 0 {
      assert IsSpace(" "[0]);
      StripSpec(" ");
    } else {
      StripIdempotent(command);
    }
  }

  /** `result.replace("\\033[", "\033[")`: restores the escape sequences of
      the reply. */
  function Unescape(reply: string): (r: string)
  {
    ReplaceAll(reply, EscapedCsi, Csi)
  }

  /** A reply without a backslash comes through untouched. */
  lemma UnescapePlain(reply: string)
    requires '\\' !in reply
    ensures Unescape(reply) == reply
  {
    forall i: nat
      ensures !OccursAt(reply, EscapedCsi, i)
    {
      if i < |reply| {
        MismatchAt(reply, EscapedCsi, i, 0);
      }
    }
    ReplaceAllAbsent(reply, EscapedCsi, Csi);
  }

  /** The first spelled-out escape sequence becomes the escape character
      followed by `[`; what precedes it is kept and the rest of the reply is
      restored in the same way. */
  lemma UnescapeSplit(a: string, b: string)
    requires '\\' !in a
    ensures Unescape(a + EscapedCsi + b) == a + Csi + Unescape(b)
  {
    var s := a + EscapedCsi + b;
    forall j: nat | j < |a|
      ensures !OccursAt(s, EscapedCsi, j)
    {
      assert s[j] == a[j];
      MismatchAt(s, EscapedCsi, j, 0);
    }
    ReplaceAllSplit(a, EscapedCsi, Csi, b);
  }

  // ---------------------------------------------------------------------------
  // `rreplace`.

  /** `s.rsplit(sep, maxsplit)`: splits at the last occurrence of `sep`, then
      at the last one before it, and so on; at most `maxsplit` times, or
      without limit when `maxsplit` is negative. */
  function RSplit(s: string, sep: string, maxsplit: int): (r: seq<string>)
    requires |sep| > 0
    decreases |s|
    ensures |r| >= 1
    ensures maxsplit >= 0 ==> |r| <= maxsplit + 1
  {
    if maxsplit == 0 then [s]
    else match LastIndexOf(s, sep, 0)
      case None => [s]
      case Some(i) => RSplit(s[..i], sep, if maxsplit < 0 then maxsplit else maxsplit - 1) + [s[i + |sep|..]]
  }

  /** `sep.join(parts)`. */
  function Join(sep: string, parts: seq<string>): (r: string)
    decreases |parts|
  {
    if |parts| == 0 then ""
    else if |parts| == 1 then parts[0]
    else Join(sep, parts[..|parts| - 1]) + sep + parts[|parts| - 1]
  }

  /** `rreplace(s, old, new, occurrence)`: `new.join(s.rsplit(old, occurrence))`,
      which fails for an empty `old` as `rsplit` does. */
  function RReplace(s: string, pat: string, repl: string, occurrence: int): (r: Result<string, Error>)
    ensures |pat| == 0 <==> r == Err(EmptySeparator)
    ensures |pat| > 0 && occurrence == 0 ==> r == Ok(s)
  {
    if |pat| == 0 then Err(EmptySeparator) else Ok(Join(repl, RSplit(s, pat, occurrence)))
  }

  /** Joining the pieces back with the separator gives the original text. */
  lemma {:induction false} JoinRSplit(s: string, sep: string, maxsplit: int)
    requires |sep| > 0
    ensures Join(sep, RSplit(s, sep, maxsplit)) == s
    decreases |s|
  {
    if maxsplit != 0 {
      match LastIndexOf(s, sep, 0)
      case None =>
      case Some(i) =>
        var n := if maxsplit < 0 then maxsplit else maxsplit - 1;
        var front := RSplit(s[..i], sep, n);
        var parts := front + [s[i + |sep|..]];
        assert RSplit(s, sep, maxsplit) == parts;
        JoinRSplit(s[..i], sep, n);
        assert parts[..|parts| - 1] == front;
        assert Join(sep, parts) == s[..i] + sep + s[i + |sep|..];
        assert s[..i] + sep + s[i + |sep|..] == s by {
          assert s[i..i + |sep|] == sep;
          assert s == s[..i] + s[i..i + |sep|] + s[i + |sep|..];
        }
    }
  }

  /** No piece but the first holds an occurrence of `sep`. */
  ghost predicate CleanAfterFirst(parts: seq<string>, sep: string) {
    forall k, j: nat :: 0 < k < |parts| ==> !OccursAt(parts[k], sep, j)
  }

  /** Every piece but the first was cut after a last occurrence, so it holds
      no occurrence of the separator. */
  lemma {:induction false} RSplitPiecesClean(s: string, sep: string, maxsplit: int)
    requires |sep| > 0
    ensures CleanAfterFirst(RSplit(s, sep, maxsplit), sep)
    decreases |s|
  {
    if maxsplit != 0 {
      match LastIndexOf(s, sep, 0)
      case None =>
      case Some(i) =>
        var n := if maxsplit < 0 then maxsplit else maxsplit - 1;
        var front := RSplit(s[..i], sep, n);
        var tail := s[i + |sep|..];
        RSplitPiecesClean(s[..i], sep, n);
        LastIndexOfSpec(s, sep, 0);
        var parts := front + [tail];
        forall k, j: nat | 0 < k < |front| ensures !OccursAt(parts[k], sep, j) {
          assert parts[k] == front[k];
        }
        forall j: nat ensures !OccursAt(tail, sep, j) {
          if OccursAt(tail, sep, j) {
            OccursInSuffix(s, sep, i + |sep|, j);
          }
        }
    }
  }

  /** `rsplit` stops only when it has made `maxsplit` cuts or when the first
      piece holds no occurrence of the separator left to cut at. */
  lemma {:induction false} RSplitCutsAll(s: string, sep: string, maxsplit: int)
    requires |sep| > 0
    ensures var r := RSplit(s, sep, maxsplit);
      (maxsplit >= 0 && |r| == maxsplit + 1) || !Contains(r[0], sep)
    decreases |s|
  {
    if maxsplit != 0 {
      match LastIndexOf(s, sep, 0)
      case None =>
        LastIndexOfSpec(s, sep, 0);
      case Some(i) =>
        var n := if maxsplit < 0 then maxsplit else maxsplit - 1;
        var front := RSplit(s[..i], sep, n);
        RSplitCutsAll(s[..i], sep, n);
        assert RSplit(s, sep, maxsplit) == front + [s[i + |sep|..]];
    }
  }

  /** With the last occurrence of `pat` at `i`, `rreplace` with a non-zero
      count replaces that occurrence by `repl` and goes on with one
      occurrence fewer (or still without limit) in the text before it. */
  lemma RReplaceLast(s: string, pat: string, repl: string, occurrence: int, i: nat)
    requires |pat| > 0 && occurrence != 0
    requires OccursAt(s, pat, i) && forall j: nat :: i < j ==> !OccursAt(s, pat, j)
    ensures var n := if occurrence < 0 then occurrence else occurrence - 1;
      RReplace(s, pat, repl, occurrence)
      == Ok(RReplace(s[..i], pat, repl, n).value + repl + s[i + |pat|..])
  {
    LastIndexOfSpec(s, pat, 0);
    assert LastIndexOf(s, pat, 0) == Some(i);
    var n := if occurrence < 0 then occurrence else occurrence - 1;
    var front := RSplit(s[..i], pat, n);
    var parts := front + [s[i + |pat|..]];
    assert RSplit(s, pat, occurrence) == parts;
    assert parts[..|parts| - 1] == front;
  }

  /** Without an occurrence of `pat`, `rreplace` changes nothing. */
  lemma RReplaceAbsent(s: string, pat: string, repl: string, occurrence: int)
    requires |pat| > 0 && forall j: nat :: !OccursAt(s, pat, j)
    ensures RReplace(s, pat, repl, occurrence) == Ok(s)
  {
    LastIndexOfSpec(s, pat, 0);
  }

  /** Replacing a pattern by itself leaves the text as it was. */
  lemma RReplaceSelf(s: string, pat: string, occurrence: int)
    requires |pat| > 0
    ensures RReplace(s, pat, pat, occurrence) == Ok(s)
  {
    JoinRSplit(s, pat, occurrence);
  }

  // ---------------------------------------------------------------------------
  // The environment.

  class GitGlulxML {
    /** `game_running`: the interpreter process is alive. */
    var running: bool
    /** The snapshot of the last turn; `None` before the first `reset`. */
    var gameState: GlulxGameState?

    /** Every turn played so far went through `reset` first. */
    predicate Ready()
      reads this, gameState
    {
      running ==> gameState != null && gameState.Valid()
    }

    /** `_send`: nothing is sent to a stopped interpreter; an unanswered
        command closes the environment. */
    method Send(command: string, communicate: string -> Option<string>) returns (r: Option<string>)
      modifies this`running
      ensures !old(running) ==> r.None? && !running
      ensures old(running) && communicate(SentCommand(command)).None? ==> r.None? && !running
      ensures old(running) && communicate(SentCommand(command)).Some? ==>
        r == Some(Unescape(communicate(SentCommand(command)).value)) && running
    {
      if !running {
        return None;
      }
      var reply := communicate(SentCommand(command));
      if reply.None? {
        running := false;
        return None;
      }
      return Some(Unescape(reply.value));
    }

    /** `step`: the stripped command is sent, the answer becomes the next
        snapshot, and the turn reports that snapshot, its score and whether
        the game ended. `stillRunning` is whether the interpreter process is
        alive after answering. */
    method Step(command: string, communicate: string -> Option<string>, stillRunning: bool)
      returns (r: Result<(GlulxGameState, int, bool), Error>)
      requires Ready()
      modifies this, gameState, if gameState != null then {gameState.progression} else {}
      ensures Ready()
      ensures !old(running) ==> r == Err(GameNotRunning) && gameState == old(gameState) && !running
      ensures old(running) && communicate(SentCommand(Strip(command))).None? ==>
        r == Err(GameNotRunning) && !running && gameState == old(gameState)
      ensures old(running) && communicate(SentCommand(Strip(command))).Some? ==>
        Played(old(gameState), Strip(command), Unescape(communicate(SentCommand(Strip(command))).value),
               stillRunning, old(gameState.ViewValue()), old(gameState.progression.applied), r)
    {
      if !running {
        return Err(GameNotRunning);
      }
      var sent := Strip(command);
      var output := Send(sent, communicate);
      if output.None? {
        return Err(GameNotRunning);
      }
      assert unchanged(gameState, gameState.progression) && gameState == old(gameState);
      r := Play(sent, output.value, stillRunning);
    }

    /** The outcome of a turn in which `previous` (frozen as `view`, with the
        tracker having applied `applied0`) received `output` for `sent`: when
        `update` fails, the snapshot stays, the tracker is not fed and the
        error of the first failing stage is reported; otherwise the next
        snapshot follows from `previous` and is reported with the score and
        the end flags read from it for the first time. Once the facts are cut
        out, `previous` keeps what reading `view` cached in it. */
    twostate predicate Played(previous: GlulxGameState, sent: string, output: string, stillRunning: bool,
                              view: Result<View, Error>, applied0: seq<Action>,
                              new r: Result<(GlulxGameState, int, bool), Error>)
      reads this, previous, previous.progression, gameState
    {
      var ex := ExtraInfosSpec(StripPrompt(output));
      var accepted := ex.Ok? && view.Ok? && DetectEventsSpec(ex.value.text).Ok?;
      && (!accepted ==>
            && r == Err(if ex.Err? then ex.error else if view.Err? then view.error
                        else DetectEventsSpec(ex.value.text).error)
            && gameState == previous && running == old(running)
            && previous.progression.applied == applied0)
      && (ex.Ok? ==> previous.Frozen(view))
      && (ex.Err? ==>
            && previous.facts == old(previous.facts) && previous.score == old(previous.score)
            && previous.won == old(previous.won) && previous.lost == old(previous.lost)
            && previous.admissible == old(previous.admissible) && previous.policy == old(previous.policy))
      && (accepted ==>
            && gameState != null && fresh(gameState)
            && previous.Follows(gameState, sent, ex.value, view.value, applied0)
            && running == stillRunning && gameState.hasTimeout == !stillRunning
            && (r.Ok? <==> gameState.ComputedScore().Ok?)
            && (r.Err? ==> r.error == gameState.ComputedScore().error)
            && (r.Ok? ==> r.value == (gameState, gameState.ComputedScore().value,
                                      gameState.ComputedWon() || gameState.ComputedLost() || !stillRunning)))
    }

    /** The rest of `step`, once the interpreter has answered `sent` with
        `output`. */
    method Play(sent: string, output: string, stillRunning: bool)
      returns (r: Result<(GlulxGameState, int, bool), Error>)
      requires gameState != null && gameState.Valid()
      modifies this, gameState, gameState.progression
      ensures gameState != null && gameState.Valid()
      ensures Played(old(gameState), sent, output, stillRunning, old(gameState.ViewValue()),
                     old(gameState.progression.applied), r)
    {
      var previous := gameState;
      var next := gameState.Update(sent, output);
      if next.Err? {
        return Err(next.error);
      }
      label updated:
      gameState := next.value;
      running := stillRunning;
      r := Report(gameState);
      assert unchanged@updated(previous, previous.progression);
    }

    /** The last lines of `step`: the timeout flag is set from the process
        state, then the score and `game_ended` are read, in that order. */
    method Report(state: GlulxGameState) returns (r: Result<(GlulxGameState, int, bool), Error>)
      modifies state`hasTimeout, state`score, state`won, state`lost
      ensures state.hasTimeout == !running
      ensures r.Ok? <==> old(state.ScoreValue()).Ok?
      ensures r.Err? ==> r.error == old(state.ScoreValue()).error && unchanged(state`score, state`won, state`lost)
      ensures r.Ok? ==>
        && r.value == (state, old(state.ScoreValue()).value, old(state.WonValue()) || old(state.LostValue()) || !running)
        && state.score == Resolved(r.value.1)
        && state.won == Resolved(old(state.WonValue())) && state.lost == Resolved(old(state.LostValue()))
    {
      state.hasTimeout := !running;
      var score := state.Score();
      if score.Err? {
        return Err(score.error);
      }
      var ended := state.GameEnded();
      return Ok((state, score.value, ended));
    }
  }
}
