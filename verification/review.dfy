/** The labelling loop of `qc_transcribed`, as a pure transition function over
    the table, the clip files kept in the QC folder and the last saved file.

    The reviewer's answers, both the lines typed at the prompt and the texts
    submitted in the labelling dialog, are one sequence consumed in the order
    they are asked for. Running out of answers is the end of input, which
    stops the program without the final save. */
module Review {
  import opened Wrappers
  import opened Strings
  import opened QcTable
  import opened LabelSanitizer
  import opened Actions

  /** What finding and playing a row's audio gives: no audio file for the
      folder, a clip that could not be played, or a clip that played. */
  datatype Audio = Missing | Unplayable | Played

  /** `table` is `qc` in review order, `clips` the uids whose clip was moved
      into the QC folder, `saved` the table as it stood at the last save made
      by this loop (`qc.csv` then holds it sorted by `(id, name)`). */
  datatype Session = Session(table: seq<Row>, clips: set<string>, saved: Option<seq<Row>>)

  const InaudibleLabel: string := "<inaudible>"
  const SkippedLabel: string := "[skipped]"

  /** Accepting keeps an existing label and otherwise takes the transcription. */
  function AcceptedLabel(row: Row): string {
    if |row.labelText| > 0 then row.labelText else row.text
  }

  /** The label the dialog's text becomes: the dialog strips what was typed,
      then the label is cleaned up. */
  function DialogLabel(typed: string): string {
    Sanitized(Strip(typed))
  }

  /** Row `i` gets its label and its clip is kept under its uid. */
  function Settle(s: Session, i: nat, newLabel: string): (t: Session)
    requires i < |s.table|
    ensures |t.table| == |s.table|
    ensures t.table[i] == s.table[i].(labelText := newLabel)
    ensures forall j :: 0 <= j < |s.table| && j != i ==> t.table[j] == s.table[j]
    ensures t.clips == s.clips + {s.table[i].uid}
    ensures t.saved == s.saved
  {
    Session(s.table[i := s.table[i].(labelText := newLabel)], s.clips + {s.table[i].uid}, s.saved)
  }

  /** A label the prompt loop can leave on a row. */
  ghost predicate SettledLabel(row: Row, newLabel: string) {
    || newLabel == AcceptedLabel(row)
    || newLabel == InaudibleLabel
    || newLabel == SkippedLabel
    || (exists typed :: newLabel == DialogLabel(typed))
  }

  /** How the prompt loop of one row ended: with the label it settled on
      (`None` when the reviewer quit), the action that left the loop and the
      answers not yet read; or at the end of input. `savedMidway` says that
      the table was saved while the row was shown. */
  datatype Prompt =
    | Decided(newLabel: Option<string>, lastAction: string, rest: seq<string>, savedMidway: bool)
    | Interrupted(savedMidway: bool)

  predicate IsSuffix<T(==)>(rest: seq<T>, all: seq<T>) {
    |rest| <= |all| && rest == all[|all| - |rest|..]
  }

  /** The `while True` prompt loop for one row. Replaying, showing context and
      unrecognized input ask again; saving writes the table and asks again;
      quitting leaves the row as it is. */
  function PromptRow(row: Row, played: bool, replies: seq<string>, savedBefore: bool): (p: Prompt)
    ensures p.Decided? ==> |p.rest| <= |replies|
    ensures !played ==> p == Decided(Some(InaudibleLabel), "inaudible", replies, savedBefore)
    decreases |replies|
  {
    if !played then Decided(Some(InaudibleLabel), "inaudible", replies, savedBefore)
    else if |replies| == 0 then Interrupted(savedBefore)
    else
      var action := ReadAction(true, replies[0]);
      var rest := replies[1..];
      match Classify(action)
      case Accept => Decided(Some(AcceptedLabel(row)), action, rest, savedBefore)
      case Inaudible => Decided(Some(InaudibleLabel), action, rest, savedBefore)
      case Label =>
        if |rest| == 0 then Interrupted(savedBefore)
        else Decided(Some(DialogLabel(rest[0])), action, rest[1..], savedBefore)
      case Skip => Decided(Some(SkippedLabel), action, rest, savedBefore)
      case Quit => Decided(None, action, rest, savedBefore)
      case Save => PromptRow(row, played, rest, true)
      case _ => PromptRow(row, played, rest, savedBefore)
  }

  /** The prompt loop reads its answers in order: what is left is a suffix
      of what it was given. */
  lemma {:induction false} PromptRowReads(row: Row, played: bool, replies: seq<string>, savedBefore: bool)
    ensures var p := PromptRow(row, played, replies, savedBefore);
            p.Decided? ==> IsSuffix(p.rest, replies)
    decreases |replies|
  {
    if played && |replies| > 0 {
      var rest := replies[1..];
      var c := Classify(ReadAction(true, replies[0]));
      if c == Save {
        PromptRowReads(row, played, rest, true);
      } else if c == Replay || c == Context || c == Unrecognized {
        PromptRowReads(row, played, rest, savedBefore);
      } else if c == Label && |rest| > 0 {
        SuffixOfTail(rest[1..], rest);
      }
      var p := PromptRow(row, played, replies, savedBefore);
      if p.Decided? {
        SuffixOfTail(p.rest, replies);
      }
    }
  }

  /** A save made at the prompt of a row is remembered however the prompt
      loop ends; starting from no save, the loop reports one exactly when a
      "save" was typed before the answer that ended it. */
  lemma {:induction false} PromptRowKeepsSave(row: Row, played: bool, replies: seq<string>)
    ensures PromptRow(row, played, replies, true).savedMidway
    ensures played ==>
              (PromptRow(row, played, replies, false).savedMidway <==> SavedAmong(replies, FirstDecider(replies)))
    decreases |replies|
  {
    if played {
      PromptRowIsFirstDecider(row, replies, false);
    }
    if played && |replies| > 0 {
      var c := Classify(ReadAction(true, replies[0]));
      if c == Save || c == Replay || c == Context || c == Unrecognized {
        PromptRowKeepsSave(row, played, replies[1..]);
      }
    }
  }

  /** A suffix of the tail is a suffix of the whole. */
  lemma SuffixOfTail<T>(rest: seq<T>, all: seq<T>)
    requires |all| > 0 && IsSuffix(rest, all[1..])
    ensures IsSuffix(rest, all)
  {
    assert all[1..][|all| - 1 - |rest|..] == all[|all| - |rest|..];
  }

  /** The prompt loop ends the review exactly on the quit command and
      otherwise settles on a label it may leave. */
  lemma {:induction false} PromptRowSettles(row: Row, played: bool, replies: seq<string>, savedBefore: bool)
    ensures var p := PromptRow(row, played, replies, savedBefore);
            && (p.Decided? ==> (p.newLabel.None? <==> StopsReview(p.lastAction)))
            && (p.Decided? && p.newLabel.Some? ==> SettledLabel(row, p.newLabel.value))
    ensures var p := PromptRow(row, played, replies, savedBefore);
            played && p.Decided? ==>
              FirstDecider(replies) < |replies| && p.lastAction == ReadAction(true, replies[FirstDecider(replies)])
    decreases |replies|
  {
    if played {
      PromptRowIsFirstDecider(row, replies, savedBefore);
    }
    if !played {
      assert !StopsReview("inaudible");
    } else if |replies| > 0 {
      var action := ReadAction(true, replies[0]);
      var rest := replies[1..];
      var c := Classify(action);
      StopsReviewIffQuit(action);
      if c == Save {
        PromptRowSettles(row, played, rest, true);
      } else if c == Replay || c == Context || c == Unrecognized {
        PromptRowSettles(row, played, rest, savedBefore);
      } else if c == Label && |rest| > 0 {
        assert SettledLabel(row, DialogLabel(rest[0]));
      }
    }
  }

  /** What a decided prompt stores, by the command of its last action:
      accepting keeps the label or takes the transcription, "inaudible" and
      "skip" store their markers, "label" stores the cleaned dialog answer read
      right after the action, and quitting stores nothing. Replaying, showing
      context, saving and unrecognized input never end the prompt. */
  predicate StoresLabelOf(row: Row, p: Prompt, replies: seq<string>)
    requires p.Decided? && |p.rest| <= |replies|
  {
    StoresLabelFor(row, Classify(p.lastAction), p, replies)
  }

  /** `StoresLabelOf` for an action already classified as `c`. */
  predicate StoresLabelFor(row: Row, c: Command, p: Prompt, replies: seq<string>)
    requires p.Decided? && |p.rest| <= |replies|
  {
    if c == Accept then p.newLabel == Some(AcceptedLabel(row))
    else if c == Inaudible then p.newLabel == Some(InaudibleLabel)
    else if c == Skip then p.newLabel == Some(SkippedLabel)
    else if c == Quit then p.newLabel.None?
    else if c == Label then
      |p.rest| + 2 <= |replies| && p.newLabel == Some(DialogLabel(replies[|replies| - |p.rest| - 1]))
    else false
  }

  /** The prompt loop stores the label of the action that ended it, and that
      action is the first answer that does not ask again; a label is read
      from the answer right after it. */
  lemma PromptRowLabels(row: Row, played: bool, replies: seq<string>, savedBefore: bool)
    ensures var p := PromptRow(row, played, replies, savedBefore);
            p.Decided? ==> StoresLabelOf(row, p, replies)
    ensures var p := PromptRow(row, played, replies, savedBefore);
            var m := FirstDecider(replies);
            played && p.Decided? ==>
              && m < |replies|
              && p.lastAction == ReadAction(true, replies[m])
              && var n := m + (if ReplyCommand(replies[m]) == Label then 2 else 1);
                 n <= |replies| && p.rest == replies[n..]
  {
    if !played {
      ClassifyInaudible();
    } else {
      PlayedPromptStoresLabel(row, replies, savedBefore);
      PlayedPromptDecider(row, replies, savedBefore);
    }
  }

  /** The induction behind the first half of `PromptRowLabels`. */
  lemma {:induction false} PlayedPromptStoresLabel(row: Row, replies: seq<string>, savedBefore: bool)
    ensures var p := PromptRow(row, true, replies, savedBefore);
            p.Decided? ==> StoresLabelOf(row, p, replies)
    decreases |replies|
  {
    if |replies| > 0 {
      var c := ReplyCommand(replies[0]);
      if AsksAgain(c) {
        var save := savedBefore || c == Save;
        PromptRowAsksAgain(row, replies, savedBefore);
        PlayedPromptStoresLabel(row, replies[1..], save);
        var p := PromptRow(row, true, replies[1..], save);
        if p.Decided? {
          StoresLabelOfTail(row, p, replies);
        }
      } else {
        PromptRowDecidesNow(row, replies, savedBefore);
      }
    }
  }

  /** The second half of `PromptRowLabels`, read off the first decider. */
  lemma PlayedPromptDecider(row: Row, replies: seq<string>, savedBefore: bool)
    ensures var p := PromptRow(row, true, replies, savedBefore);
            var m := FirstDecider(replies);
            p.Decided? ==>
              && m < |replies|
              && p.lastAction == ReadAction(true, replies[m])
              && var n := m + (if ReplyCommand(replies[m]) == Label then 2 else 1);
                 n <= |replies| && p.rest == replies[n..]
  {
    PromptRowIsFirstDecider(row, replies, savedBefore);
    var m := FirstDecider(replies);
    if m < |replies| {
      var c := ReplyCommand(replies[m]);
      DecideReads(row, ReadAction(true, replies[m]), c, replies[m + 1..], savedBefore || SavedAmong(replies, m));
      if c == Label && m + 1 < |replies| {
        assert replies[m + 1..][1..] == replies[m + 2..];
      }
    }
  }

  /** A decision keeps its action and reads one more answer only for "label". */
  lemma DecideReads(row: Row, action: string, c: Command, after: seq<string>, save: bool)
    requires !AsksAgain(c)
    ensures var p := Decide(row, action, c, after, save);
            p.Decided? ==> p.lastAction == action && p.rest == if c == Label then after[1..] else after
  {
  }

  /** Replaying, showing context, saving and unrecognized input ask again
      with the next answer. */
  lemma PromptRowAsksAgain(row: Row, replies: seq<string>, savedBefore: bool)
    requires |replies| > 0
    requires AsksAgain(ReplyCommand(replies[0]))
    ensures PromptRow(row, true, replies, savedBefore)
         == PromptRow(row, true, replies[1..], savedBefore || ReplyCommand(replies[0]) == Save)
  {
  }

  /** What a prompt stores, read against the answers after the first, holds
      against all of them. */
  lemma StoresLabelOfTail(row: Row, p: Prompt, replies: seq<string>)
    requires |replies| > 0 && p.Decided? && |p.rest| <= |replies| - 1
    requires StoresLabelOf(row, p, replies[1..])
    ensures StoresLabelOf(row, p, replies)
  {
    StoresLabelForTail(row, Classify(p.lastAction), p, replies);
  }

  lemma StoresLabelForTail(row: Row, c: Command, p: Prompt, replies: seq<string>)
    requires |replies| > 0 && p.Decided? && |p.rest| <= |replies| - 1
    requires StoresLabelFor(row, c, p, replies[1..])
    ensures StoresLabelFor(row, c, p, replies)
  {
    if c == Label {
      assert replies[1..][|replies| - 1 - |p.rest| - 1] == replies[|replies| - |p.rest| - 1];
    }
  }

  /** An action that ends the prompt stores its own label. */
  lemma PromptRowDecidesNow(row: Row, replies: seq<string>, savedBefore: bool)
    requires |replies| > 0
    requires !AsksAgain(ReplyCommand(replies[0]))
    ensures var p := PromptRow(row, true, replies, savedBefore);
            p.Decided? ==> StoresLabelOf(row, p, replies)
  {
    var action := ReadAction(true, replies[0]);
    var rest := replies[1..];
    var c := Classify(action);
    var p := PromptRow(row, true, replies, savedBefore);
    if c == Label {
      if |rest| > 0 {
        assert p == Decided(Some(DialogLabel(rest[0])), action, rest[1..], savedBefore);
        assert replies[|replies| - |p.rest| - 1] == rest[0];
        assert StoresLabelFor(row, c, p, replies);
      }
    } else if c == Accept {
      assert p == Decided(Some(AcceptedLabel(row)), action, rest, savedBefore);
      assert StoresLabelFor(row, c, p, replies);
    } else if c == Inaudible {
      assert p == Decided(Some(InaudibleLabel), action, rest, savedBefore);
      assert StoresLabelFor(row, c, p, replies);
    } else if c == Skip {
      assert p == Decided(Some(SkippedLabel), action, rest, savedBefore);
      assert StoresLabelFor(row, c, p, replies);
    } else {
      assert p == Decided(None, action, rest, savedBefore);
      assert StoresLabelFor(row, c, p, replies);
    }
  }

  // ---------------------------------------------------------------------------
  // The prompt loop of a played clip, without the loop

  /** The command a typed answer selects at the prompt of a played clip. */
  function ReplyCommand(reply: string): Command {
    Classify(ReadAction(true, reply))
  }

  /** The commands after which the loop asks again. */
  predicate AsksAgain(c: Command) {
    c == Save || c == Replay || c == Context || c == Unrecognized
  }

  /** Position of the first answer whose command ends the prompt loop, or
      the number of answers when none does. */
  function FirstDecider(replies: seq<string>): (m: nat)
    ensures m <= |replies|
    ensures forall k :: 0 <= k < m ==> AsksAgain(ReplyCommand(replies[k]))
    ensures m < |replies| ==> !AsksAgain(ReplyCommand(replies[m]))
    decreases |replies|
  {
    if |replies| == 0 then 0
    else if AsksAgain(ReplyCommand(replies[0])) then
      assert forall k :: 1 <= k < |replies| ==> replies[k] == replies[1..][k - 1];
      1 + FirstDecider(replies[1..])
    else 0
  }

  /** Some answer before position `m` is a save. */
  predicate SavedAmong(replies: seq<string>, m: nat)
    requires m <= |replies|
  {
    exists k :: 0 <= k < m && ReplyCommand(replies[k]) == Save
  }

  /** What the deciding `action`, whose command is `c`, does with the answers
      `after` it. */
  function Decide(row: Row, action: string, c: Command, after: seq<string>, save: bool): (p: Prompt)
    requires !AsksAgain(c)
    ensures p.savedMidway == save
    ensures p.Decided? ==> p.lastAction == action
  {
    if c == Accept then Decided(Some(AcceptedLabel(row)), action, after, save)
    else if c == Inaudible then Decided(Some(InaudibleLabel), action, after, save)
    else if c == Skip then Decided(Some(SkippedLabel), action, after, save)
    else if c == Quit then Decided(None, action, after, save)
    else if |after| == 0 then Interrupted(save)
    else Decided(Some(DialogLabel(after[0])), action, after[1..], save)
  }

  /** The prompt loop as a single decision: the first answer that does not
      ask again decides, with every save typed before it remembered; when
      there is none, input ran out. */
  function PromptByFirstDecider(row: Row, replies: seq<string>, savedBefore: bool): Prompt {
    var m := FirstDecider(replies);
    var save := savedBefore || SavedAmong(replies, m);
    if m == |replies| then Interrupted(save)
    else Decide(row, ReadAction(true, replies[m]), ReplyCommand(replies[m]), replies[m + 1..], save)
  }

  /** The `while True` loop of a played clip is that single decision. */
  lemma {:induction false} PromptRowIsFirstDecider(row: Row, replies: seq<string>, savedBefore: bool)
    ensures PromptRow(row, true, replies, savedBefore) == PromptByFirstDecider(row, replies, savedBefore)
    decreases |replies|
  {
    if |replies| > 0 {
      var c := ReplyCommand(replies[0]);
      if AsksAgain(c) {
        PromptRowAsksAgain(row, replies, savedBefore);
        PromptRowIsFirstDecider(row, replies[1..], savedBefore || c == Save);
        PromptByFirstDeciderShift(row, replies, savedBefore);
      } else {
        PromptRowDecidesFirst(row, replies, savedBefore);
      }
    }
  }

  /** An answer that asks again moves the decision one answer on. */
  lemma PromptByFirstDeciderShift(row: Row, replies: seq<string>, savedBefore: bool)
    requires |replies| > 0 && AsksAgain(ReplyCommand(replies[0]))
    ensures PromptByFirstDecider(row, replies, savedBefore)
         == PromptByFirstDecider(row, replies[1..], savedBefore || ReplyCommand(replies[0]) == Save)
  {
    var tail := replies[1..];
    var m := FirstDecider(tail);
    assert FirstDecider(replies) == m + 1;
    assert forall k :: 1 <= k < |replies| ==> replies[k] == tail[k - 1];
    assert SavedAmong(replies, m + 1) <==> ReplyCommand(replies[0]) == Save || SavedAmong(tail, m) by {
      if SavedAmong(replies, m + 1) && ReplyCommand(replies[0]) != Save {
        var k :| 0 <= k < m + 1 && ReplyCommand(replies[k]) == Save;
        assert ReplyCommand(tail[k - 1]) == Save;
      }
      if SavedAmong(tail, m) {
        var k :| 0 <= k < m && ReplyCommand(tail[k]) == Save;
        assert ReplyCommand(replies[k + 1]) == Save;
      }
      if ReplyCommand(replies[0]) == Save {
        assert ReplyCommand(replies[0]) == Save;
      }
    }
    if m < |tail| {
      assert replies[m + 1] == tail[m];
      assert replies[m + 2..] == tail[m + 1..];
    }
  }

  /** When the first answer decides, the loop is that decision. */
  lemma PromptRowDecidesFirst(row: Row, replies: seq<string>, savedBefore: bool)
    requires |replies| > 0 && !AsksAgain(ReplyCommand(replies[0]))
    ensures PromptRow(row, true, replies, savedBefore) == PromptByFirstDecider(row, replies, savedBefore)
  {
    var action := ReadAction(true, replies[0]);
    var c := ReplyCommand(replies[0]);
    assert FirstDecider(replies) == 0;
    assert !SavedAmong(replies, 0);
    var d := Decide(row, action, c, replies[1..], savedBefore);
    assert PromptByFirstDecider(row, replies, savedBefore) == d;
    var p := PromptRow(row, true, replies, savedBefore);
    if c == Label {
      if |replies| == 1 {
        assert p == Interrupted(savedBefore);
      } else {
        assert p == Decided(Some(DialogLabel(replies[1])), action, replies[2..], savedBefore);
      }
    } else if c == Accept {
      assert p == Decided(Some(AcceptedLabel(row)), action, replies[1..], savedBefore);
    } else if c == Inaudible {
      assert p == Decided(Some(InaudibleLabel), action, replies[1..], savedBefore);
    } else if c == Skip {
      assert p == Decided(Some(SkippedLabel), action, replies[1..], savedBefore);
    } else {
      assert p == Decided(None, action, replies[1..], savedBefore);
    }
  }

  /** Input runs out at a played clip's prompt exactly when no answer ends the
      loop, or the only one that does is a "label" with no dialog answer
      after it. */
  lemma PromptRowInterrupted(row: Row, replies: seq<string>, savedBefore: bool)
    ensures var m := FirstDecider(replies);
            PromptRow(row, true, replies, savedBefore).Interrupted? <==>
              m == |replies| || (ReplyCommand(replies[m]) == Label && m + 1 == |replies|)
  {
    PromptRowIsFirstDecider(row, replies, savedBefore);
    var m := FirstDecider(replies);
    if m < |replies| {
      DecideInterrupted(row, ReadAction(true, replies[m]), ReplyCommand(replies[m]), replies[m + 1..], savedBefore || SavedAmong(replies, m));
    }
  }

  /** A single decision runs out of input only at a "label" with nothing after it. */
  lemma DecideInterrupted(row: Row, action: string, c: Command, after: seq<string>, save: bool)
    requires !AsksAgain(c)
    ensures Decide(row, action, c, after, save).Interrupted? <==> c == Label && |after| == 0
  {
  }

  /** A clip that does not play is labelled inaudible without a prompt, just as
      the forced "inaudible" action does. */
  lemma UnplayedClipIsInaudible(reply: string)
    ensures Classify(ReadAction(false, reply)) == Inaudible
  {
    ClassifyInaudible();
  }

  /** Whether the loop passes over a row without prompting: when not revisiting,
      a row whose label is not blank (`Strings.BlankIffStripsEmpty` relates
      this to `strip()`). */
  predicate SkippedAsLabeled(row: Row, revisit: bool) {
    !revisit && !Blank(row.labelText)
  }

  /** A row that is prompted for. */
  predicate Prompted(row: Row, audio: Row -> Audio, revisit: bool) {
    !SkippedAsLabeled(row, revisit) && audio(row) != Missing
  }

  datatype SessionEnd =
    | Finished(session: Session, stopped: bool)
    | Abandoned(session: Session)

  /** The session after a save from the prompt of a row: the table as it
      stands is what was saved. */
  function SaveIf(s: Session, save: bool): (t: Session)
    ensures t.table == s.table && t.clips == s.clips
    ensures save ==> t.saved == Some(s.table)
    ensures !save ==> t == s
  {
    if save then s.(saved := Some(s.table)) else s
  }

  /** Row `b` is row `a` with at most its label changed, to a label the
      prompt loop can leave, and then the clip of `a` is among `clips`. */
  ghost predicate RowSettled(a: Row, b: Row, clips: set<string>) {
    && b == a.(labelText := b.labelText)
    && (b != a ==> SettledLabel(a, b.labelText) && a.uid in clips)
  }

  /** Only labels change, each to a label the prompt loop can leave, and the
      clip of every relabelled row is kept. */
  ghost predicate OnlyLabelsSettled(s: Session, t: Session) {
    && |t.table| == |s.table|
    && s.clips <= t.clips
    && forall j :: 0 <= j < |s.table| ==> RowSettled(s.table[j], t.table[j], t.clips)
  }

  lemma OnlyLabelsSettledTransitive(s: Session, t: Session, u: Session, i: nat)
    requires OnlyLabelsSettled(s, t) && OnlyLabelsSettled(t, u)
    requires i < |s.table|
    requires forall j :: 0 <= j < |s.table| && j != i ==> t.table[j] == s.table[j]
    requires u.table[i] == t.table[i]
    ensures OnlyLabelsSettled(s, u)
  {
  }

  /** One pass of the row loop at row `i`: on to the next row with the
      session and the answers left, or the end of the whole review. */
  datatype Step = Next(session: Session, rest: seq<string>) | Stop(end: SessionEnd)

  /** What the outcome of the prompt loop does to the session: a settled label
      is stored and its clip kept; quitting and the end of input stop the
      review; a save made at the prompt is kept either way. */
  function ApplyPrompt(s: Session, i: nat, p: Prompt): (r: Step)
    requires i < |s.table|
    ensures r.Next? ==> |r.session.table| == |s.table|
    ensures p.Interrupted? <==> r.Stop? && r.end.Abandoned?
    ensures p.Decided? && p.newLabel.None? <==> r.Stop? && r.end.Finished?
    ensures r.Stop? ==> r.end.session.table == s.table && r.end.session.clips == s.clips
    ensures r.Next? ==> && p.Decided? && p.newLabel.Some? && r.rest == p.rest
                        && r.session.table[i].labelText == p.newLabel.value
                        && r.session.clips == s.clips + {s.table[i].uid}
    ensures (if r.Next? then r.session.saved else r.end.session.saved)
         == (if p.savedMidway then Some(s.table) else s.saved)
  {
    match p
    case Interrupted(save) => Stop(Abandoned(SaveIf(s, save)))
    case Decided(None, _, _, save) => Stop(Finished(SaveIf(s, save), true))
    case Decided(Some(newLabel), _, rest, save) => Next(Settle(SaveIf(s, save), i, newLabel), rest)
  }

  /** One pass of the row loop at row `i`. */
  function ReviewStep(s: Session, i: nat, audio: Row -> Audio, revisit: bool, replies: seq<string>): (r: Step)
    requires i < |s.table|
    ensures r.Next? ==> |r.session.table| == |s.table| && |r.rest| <= |replies|
  {
    var row := s.table[i];
    if SkippedAsLabeled(row, revisit) || audio(row) == Missing then Next(s, replies)
    else ApplyPrompt(s, i, PromptRow(row, audio(row) == Played, replies, false))
  }

  /** A row skipped as labelled or without audio is passed over untouched,
      and a prompted row keeps its clip. */
  lemma StepPrompts(s: Session, i: nat, audio: Row -> Audio, revisit: bool, replies: seq<string>)
    requires i < |s.table|
    ensures var r := ReviewStep(s, i, audio, revisit, replies);
            && (!Prompted(s.table[i], audio, revisit) ==> r == Next(s, replies))
            && (r.Next? && Prompted(s.table[i], audio, revisit) ==> s.table[i].uid in r.session.clips)
  {
  }

  /** A step that goes on changes at most the label of row `i`. */
  lemma StepFrame(s: Session, i: nat, audio: Row -> Audio, revisit: bool, replies: seq<string>)
    requires i < |s.table|
    ensures var r := ReviewStep(s, i, audio, revisit, replies);
            r.Next? ==>
              && |r.session.table| == |s.table|
              && r.session.table[i] == s.table[i].(labelText := r.session.table[i].labelText)
              && forall j :: 0 <= j < |s.table| && j != i ==> r.session.table[j] == s.table[j]
  {
  }

  /** Storing a label the prompt loop may leave settles only that label. */
  lemma ApplySettles(s: Session, i: nat, p: Prompt)
    requires i < |s.table|
    requires p.Decided? && p.newLabel.Some? ==> SettledLabel(s.table[i], p.newLabel.value)
    ensures var r := ApplyPrompt(s, i, p);
            r.Next? ==> OnlyLabelsSettled(s, r.session)
  {
  }

  /** A step that goes on only settles labels the prompt loop may leave. */
  lemma StepSettles(s: Session, i: nat, audio: Row -> Audio, revisit: bool, replies: seq<string>)
    requires i < |s.table|
    ensures var r := ReviewStep(s, i, audio, revisit, replies);
            r.Next? ==> OnlyLabelsSettled(s, r.session)
  {
    var row := s.table[i];
    if !(SkippedAsLabeled(row, revisit) || audio(row) == Missing) {
      var p := PromptRow(row, audio(row) == Played, replies, false);
      PromptRowSettles(row, audio(row) == Played, replies, false);
      ApplySettles(s, i, p);
    }
  }

  /** Stopping leaves the table and the clips as they were: the reviewer quit,
      or the input ended. */
  lemma StepStops(s: Session, i: nat, audio: Row -> Audio, revisit: bool, replies: seq<string>)
    requires i < |s.table|
    ensures var r := ReviewStep(s, i, audio, revisit, replies);
            r.Stop? ==> && r.end.session.table == s.table && r.end.session.clips == s.clips
                        && ((r.end.Finished? && r.end.stopped) || r.end.Abandoned?)
  {
  }

  /** A save made in a step writes the table as it stood. */
  lemma StepSaves(s: Session, i: nat, audio: Row -> Audio, revisit: bool, replies: seq<string>)
    requires i < |s.table|
    ensures var r := ReviewStep(s, i, audio, revisit, replies);
            && (r.Next? ==> r.session.saved == s.saved || r.session.saved == Some(s.table))
            && (r.Stop? ==> r.end.session.saved == s.saved || r.end.session.saved == Some(s.table))
  {
  }

  /** The `for index, row in qc.iterrows()` loop from row `i` on. `audio`
      stands for finding, trimming and playing the row's clip. */
  function ReviewFrom(s: Session, i: nat, audio: Row -> Audio, revisit: bool, replies: seq<string>): (e: SessionEnd)
    requires i <= |s.table|
    ensures |e.session.table| == |s.table|
    decreases |s.table| - i
  {
    if i == |s.table| then Finished(s, false)
    else
      match ReviewStep(s, i, audio, revisit, replies)
      case Stop(e) => e
      case Next(t, rest) => ReviewFrom(t, i + 1, audio, revisit, rest)
  }

  /** The loop never touches a row before `i`, a row skipped as labelled or a
      row without audio. */
  lemma {:induction false} ReviewLeavesRow(
    s: Session, i: nat, audio: Row -> Audio, revisit: bool, replies: seq<string>, j: nat)
    requires i <= |s.table| && j < |s.table|
    requires j < i || !Prompted(s.table[j], audio, revisit)
    ensures ReviewFrom(s, i, audio, revisit, replies).session.table[j] == s.table[j]
    decreases |s.table| - i
  {
    if i < |s.table| {
      ReviewFromUnfolds(s, i, audio, revisit, replies);
      var r := ReviewStep(s, i, audio, revisit, replies);
      var e := ReviewFrom(s, i, audio, revisit, replies);
      if r.Next? {
        StepLeavesRow(s, i, audio, revisit, replies, j);
        ReviewLeavesRow(r.session, i + 1, audio, revisit, r.rest, j);
        assert e == ReviewFrom(r.session, i + 1, audio, revisit, r.rest);
        assert e.session.table[j] == s.table[j];
      } else {
        assert e == r.end;
        assert e.session.table == s.table;
        assert e.session.table[j] == s.table[j];
      }
    } else {
      assert ReviewFrom(s, i, audio, revisit, replies).session == s;
    }
  }

  lemma StepLeavesRow(s: Session, i: nat, audio: Row -> Audio, revisit: bool, replies: seq<string>, j: nat)
    requires i < |s.table| && j < |s.table|
    requires j < i || !Prompted(s.table[j], audio, revisit)
    requires ReviewStep(s, i, audio, revisit, replies).Next?
    ensures var t := ReviewStep(s, i, audio, revisit, replies).session;
            |t.table| == |s.table| && t.table[j] == s.table[j]
            && (j < i + 1 || !Prompted(t.table[j], audio, revisit))
  {
    StepFrame(s, i, audio, revisit, replies);
    StepPrompts(s, i, audio, revisit, replies);
  }

  /** The loop changes nothing but labels, each to a label the prompt loop can
      leave, and keeps the clip of every row it relabels. */
  lemma {:induction false} ReviewChangesOnlyLabels(
    s: Session, i: nat, audio: Row -> Audio, revisit: bool, replies: seq<string>)
    requires i <= |s.table|
    ensures OnlyLabelsSettled(s, ReviewFrom(s, i, audio, revisit, replies).session)
    decreases |s.table| - i
  {
    if i < |s.table| {
      ReviewFromUnfolds(s, i, audio, revisit, replies);
      StepSettles(s, i, audio, revisit, replies);
      StepFrame(s, i, audio, revisit, replies);
      var r := ReviewStep(s, i, audio, revisit, replies);
      if r.Next? {
        var t := r.session;
        var u := ReviewFrom(t, i + 1, audio, revisit, r.rest).session;
        ReviewChangesOnlyLabels(t, i + 1, audio, revisit, r.rest);
        ReviewLeavesRow(t, i + 1, audio, revisit, r.rest, i);
        OnlyLabelsSettledTransitive(s, t, u, i);
      }
    }
  }

  /** Both together: only prompted rows from `i` on can change. */
  lemma ReviewChangesOnlyPromptedLabels(
    s: Session, i: nat, audio: Row -> Audio, revisit: bool, replies: seq<string>)
    requires i <= |s.table|
    ensures OnlyLabelsSettled(s, ReviewFrom(s, i, audio, revisit, replies).session)
    ensures forall j :: 0 <= j < |s.table| && (j < i || !Prompted(s.table[j], audio, revisit)) ==>
              ReviewFrom(s, i, audio, revisit, replies).session.table[j] == s.table[j]
  {
    ReviewChangesOnlyLabels(s, i, audio, revisit, replies);
    forall j | 0 <= j < |s.table| && (j < i || !Prompted(s.table[j], audio, revisit))
      ensures ReviewFrom(s, i, audio, revisit, replies).session.table[j] == s.table[j]
    {
      ReviewLeavesRow(s, i, audio, revisit, replies, j);
    }
  }

  /** A review that goes past row `i` went through one step that did not stop. */
  lemma NotStoppedAt(s: Session, i: nat, audio: Row -> Audio, revisit: bool, replies: seq<string>)
    requires i < |s.table|
    requires ReviewFrom(s, i, audio, revisit, replies).Finished?
    requires !ReviewFrom(s, i, audio, revisit, replies).stopped
    ensures ReviewStep(s, i, audio, revisit, replies).Next?
    ensures ReviewFrom(s, i, audio, revisit, replies)
         == ReviewFrom(ReviewStep(s, i, audio, revisit, replies).session, i + 1, audio, revisit,
                       ReviewStep(s, i, audio, revisit, replies).rest)
  {
    ReviewFromUnfolds(s, i, audio, revisit, replies);
  }

  lemma {:induction false} CompletedReviewKeepsClip(
    s: Session, i: nat, audio: Row -> Audio, revisit: bool, replies: seq<string>, j: nat)
    requires i <= j < |s.table| && Prompted(s.table[j], audio, revisit)
    requires ReviewFrom(s, i, audio, revisit, replies).Finished?
    requires !ReviewFrom(s, i, audio, revisit, replies).stopped
    ensures s.table[j].uid in ReviewFrom(s, i, audio, revisit, replies).session.clips
    decreases |s.table| - i
  {
    NotStoppedAt(s, i, audio, revisit, replies);
    StepFrame(s, i, audio, revisit, replies);
    StepPrompts(s, i, audio, revisit, replies);
    var r := ReviewStep(s, i, audio, revisit, replies);
    if j == i {
      ReviewKeepsClips(r.session, i + 1, audio, revisit, r.rest);
    } else {
      var t := r.session;
      assert |t.table| == |s.table|;
      assert i + 1 <= j < |t.table|;
      assert t.table[j] == s.table[j];
      assert Prompted(t.table[j], audio, revisit);
      assert ReviewFrom(t, i + 1, audio, revisit, r.rest).Finished?;
      assert !ReviewFrom(t, i + 1, audio, revisit, r.rest).stopped;
      CompletedReviewKeepsClip(r.session, i + 1, audio, revisit, r.rest, j);
    }
  }

  /** A review that runs to the last row without quitting has kept the clip of
      every row it prompted for. */
  lemma CompletedReviewKeepsEveryClip(
    s: Session, i: nat, audio: Row -> Audio, revisit: bool, replies: seq<string>)
    requires i <= |s.table|
    requires ReviewFrom(s, i, audio, revisit, replies).Finished?
    requires !ReviewFrom(s, i, audio, revisit, replies).stopped
    ensures forall j :: i <= j < |s.table| && Prompted(s.table[j], audio, revisit) ==>
              s.table[j].uid in ReviewFrom(s, i, audio, revisit, replies).session.clips
  {
    forall j | i <= j < |s.table| && Prompted(s.table[j], audio, revisit)
      ensures s.table[j].uid in ReviewFrom(s, i, audio, revisit, replies).session.clips
    {
      CompletedReviewKeepsClip(s, i, audio, revisit, replies, j);
    }
  }

  lemma ReviewFromUnfolds(s: Session, i: nat, audio: Row -> Audio, revisit: bool, replies: seq<string>)
    requires i < |s.table|
    ensures ReviewStep(s, i, audio, revisit, replies).Stop? ==>
              ReviewFrom(s, i, audio, revisit, replies) == ReviewStep(s, i, audio, revisit, replies).end
    ensures ReviewStep(s, i, audio, revisit, replies).Next? ==>
              var r := ReviewStep(s, i, audio, revisit, replies);
              ReviewFrom(s, i, audio, revisit, replies) == ReviewFrom(r.session, i + 1, audio, revisit, r.rest)
  {
  }

  lemma {:induction false} ReviewKeepsClips(
    s: Session, i: nat, audio: Row -> Audio, revisit: bool, replies: seq<string>)
    requires i <= |s.table|
    ensures s.clips <= ReviewFrom(s, i, audio, revisit, replies).session.clips
    decreases |s.table| - i
  {
    if i < |s.table| {
      match ReviewStep(s, i, audio, revisit, replies)
      case Stop(e) =>
      case Next(t, rest) =>
        ReviewKeepsClips(t, i + 1, audio, revisit, rest);
    }
  }

  /** Two runs of one step that differ only in `revisit` agree at a row
      with no label. */
  lemma StepIgnoresRevisitOnUnlabelled(s: Session, i: nat, audio: Row -> Audio, replies: seq<string>)
    requires i < |s.table| && Blank(s.table[i].labelText)
    ensures ReviewStep(s, i, audio, true, replies) == ReviewStep(s, i, audio, false, replies)
  {
  }

  /** With no labelled row left to reach, whether the reviewer asked to revisit
      labels makes no difference: the loop is the same either way. */
  lemma {:induction false} RevisitIrrelevantWithoutLabels(
    s: Session, i: nat, audio: Row -> Audio, replies: seq<string>)
    requires i <= |s.table|
    requires forall j :: i <= j < |s.table| ==> Blank(s.table[j].labelText)
    ensures ReviewFrom(s, i, audio, true, replies) == ReviewFrom(s, i, audio, false, replies)
    decreases |s.table| - i
  {
    if i < |s.table| {
      StepIgnoresRevisitOnUnlabelled(s, i, audio, replies);
      ReviewFromUnfolds(s, i, audio, true, replies);
      ReviewFromUnfolds(s, i, audio, false, replies);
      var r := ReviewStep(s, i, audio, true, replies);
      if r.Next? {
        var t := r.session;
        assert |t.table| == |s.table|;
        assert forall j :: i < j < |s.table| ==> t.table[j] == s.table[j];
        RevisitIrrelevantWithoutLabels(t, i + 1, audio, r.rest);
      }
    }
  }

  /** Rows that agree on `(name, id)` position by position have the same keys. */
  lemma SameKeysPositionwise(a: seq<Row>, b: seq<Row>)
    requires |a| == |b|
    requires forall j :: 0 <= j < |a| ==> KeyOf(a[j]) == KeyOf(b[j])
    ensures KeysOf(a) == KeysOf(b)
  {
    forall k | k in KeysOf(a) ensures k in KeysOf(b) {
      var x :| x in a && KeyOf(x) == k;
      var j :| 0 <= j < |a| && a[j] == x;
      assert b[j] in b;
    }
    forall k | k in KeysOf(b) ensures k in KeysOf(a) {
      var x :| x in b && KeyOf(x) == k;
      var j :| 0 <= j < |b| && b[j] == x;
      assert a[j] in a;
    }
  }

  lemma SortKeepsKeySet(rows: seq<Row>)
    ensures KeysOf(SortByIdName(rows)) == KeysOf(rows)
  {
    PermutationKeepsKeys(SortByIdName(rows), rows);
  }

  /** A saved table holds the key of every row of the review table. */
  ghost predicate SavedSnapshot(table: seq<Row>, saved: Option<seq<Row>>) {
    saved.Some? ==> KeysOf(saved.value) == KeysOf(table)
  }

  /** Every save made during the review writes the whole table. */
  lemma {:induction false} ReviewSavesWholeTable(
    s: Session, i: nat, audio: Row -> Audio, revisit: bool, replies: seq<string>)
    requires i <= |s.table|
    requires SavedSnapshot(s.table, s.saved)
    ensures SavedSnapshot(s.table, ReviewFrom(s, i, audio, revisit, replies).session.saved)
    decreases |s.table| - i
  {
    if i < |s.table| {
      ReviewFromUnfolds(s, i, audio, revisit, replies);
      StepSaves(s, i, audio, revisit, replies);
      StepFrame(s, i, audio, revisit, replies);
      StepStops(s, i, audio, revisit, replies);
      var r := ReviewStep(s, i, audio, revisit, replies);
      if r.Next? {
        var t := r.session;
        SameKeysPositionwise(s.table, t.table);
        ReviewSavesWholeTable(t, i + 1, audio, revisit, r.rest);
      }
    }
  }
}
