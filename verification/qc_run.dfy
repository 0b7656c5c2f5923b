/** `qc_transcribed` from start to end: load and extend the table, clean its
    text, order it by confidence, ask whether to revisit labels, run the
    review loop and save. The files themselves are values: `qc.csv` is the
    table it holds, or `None` when there is no such file. */
module QcRun {
  import opened Wrappers
  import opened Strings
  import opened QcTable
  import opened Actions
  import opened Review

  // ---------------------------------------------------------------------------
  // Cleaning the text columns

  /** A string `str.strip()` leaves alone. */
  predicate Trimmed(s: string) {
    |s| == 0 || (!IsSpace(s[0]) && !IsSpace(s[|s| - 1]))
  }

  /** `qc["text"].str.strip()` and `qc["label"].str.strip()`. */
  function StripFields(rows: seq<Row>): (r: seq<Row>)
    ensures |r| == |rows|
    ensures forall k :: 0 <= k < |r| ==> Trimmed(r[k].text) && Trimmed(r[k].labelText)
    ensures forall k :: 0 <= k < |r| ==>
              r[k].text == Strip(rows[k].text) && r[k].labelText == Strip(rows[k].labelText)
    ensures forall k :: 0 <= k < |r| ==>
              r[k] == rows[k].(text := r[k].text, labelText := r[k].labelText)
    ensures forall k :: 0 <= k < |r| && Trimmed(rows[k].text) && Trimmed(rows[k].labelText) ==>
              r[k] == rows[k]
  {
    seq(|rows|, k requires 0 <= k < |rows| =>
      rows[k].(text := Strip(rows[k].text), labelText := Strip(rows[k].labelText)))
  }

  /** Stripping twice is stripping once. */
  lemma StripFieldsIdempotent(rows: seq<Row>)
    ensures StripFields(StripFields(rows)) == StripFields(rows)
  {
  }

  // ---------------------------------------------------------------------------
  // Review order: by increasing avg_logprob

  predicate SortedByLogprob(rows: seq<Row>) {
    forall i, j :: 0 <= i < j < |rows| ==> rows[i].avgLogprob <= rows[j].avgLogprob
  }

  /** Puts `x` in front of the first row whose score is not below its own. */
  function InsertByLogprob(x: Row, rows: seq<Row>): (r: seq<Row>)
    ensures multiset(r) == multiset(rows) + multiset{x}
    decreases |rows|
  {
    if |rows| == 0 then [x]
    else if x.avgLogprob <= rows[0].avgLogprob then [x] + rows
    else
      assert rows == [rows[0]] + rows[1..];
      [rows[0]] + InsertByLogprob(x, rows[1..])
  }

  /** Inserting into rows ordered by score keeps them ordered. */
  lemma {:induction false} InsertByLogprobSorted(x: Row, rows: seq<Row>)
    requires SortedByLogprob(rows)
    ensures SortedByLogprob(InsertByLogprob(x, rows))
    decreases |rows|
  {
    if |rows| > 0 && rows[0].avgLogprob < x.avgLogprob {
      var rest := InsertByLogprob(x, rows[1..]);
      assert SortedByLogprob(rows[1..]) by {
        forall i, j | 0 <= i < j < |rows[1..]| ensures rows[1..][i].avgLogprob <= rows[1..][j].avgLogprob {
          assert rows[1..][i] == rows[i + 1] && rows[1..][j] == rows[j + 1];
        }
      }
      InsertByLogprobSorted(x, rows[1..]);
      InsertByLogprobBounded(rows[0].avgLogprob, x, rows[1..]);
      var r := [rows[0]] + rest;
      forall i, j | 0 <= i < j < |r| ensures r[i].avgLogprob <= r[j].avgLogprob {
        assert r[j] == rest[j - 1];
        if i > 0 { assert r[i] == rest[i - 1]; }
      }
    }
  }

  /** A lower bound of the rows and of the inserted row bounds the result. */
  lemma InsertByLogprobBounded(b: real, x: Row, rows: seq<Row>)
    requires b <= x.avgLogprob
    requires forall k :: 0 <= k < |rows| ==> b <= rows[k].avgLogprob
    ensures forall e :: e in InsertByLogprob(x, rows) ==> b <= e.avgLogprob
  {
    var r := InsertByLogprob(x, rows);
    forall e | e in r ensures b <= e.avgLogprob {
      assert e in multiset(r);
      if e != x {
        assert e in multiset(rows);
      }
    }
  }

  /** `qc.sort_values(by="avg_logprob", ascending=True)`, stable. */
  function SortByLogprob(rows: seq<Row>): (r: seq<Row>)
    ensures SortedByLogprob(r)
    ensures multiset(r) == multiset(rows)
    decreases |rows|
  {
    if |rows| == 0 then []
    else
      assert rows == [rows[0]] + rows[1..];
      var sorted := SortByLogprob(rows[1..]);
      InsertByLogprobSorted(rows[0], sorted);
      InsertByLogprob(rows[0], sorted)
  }

  // ---------------------------------------------------------------------------
  // The revisit question

  /** `qc["label"].str.strip().ne("").sum()`. */
  function LabeledCount(rows: seq<Row>): (n: nat)
    ensures n <= |rows|
    ensures n == 0 <==> forall k :: 0 <= k < |rows| ==> |Strip(rows[k].labelText)| == 0
    decreases |rows|
  {
    if |rows| == 0 then 0
    else
      assert forall k :: 1 <= k < |rows| ==> rows[k] == rows[1..][k - 1];
      (if |Strip(rows[0].labelText)| > 0 then 1 else 0) + LabeledCount(rows[1..])
  }

  /** Whether to revisit labelled rows, and the answers left; `None` is the end
      of input at the question. With nothing labelled the question is not
      asked and the flag is the truthy string `"n"`, so revisiting is on. */
  function AskRevisit(labeled: nat, replies: seq<string>): (r: Option<(bool, seq<string>)>)
    ensures labeled == 0 ==> r == Some((true, replies))
    ensures labeled > 0 ==> (r.None? <==> |replies| == 0)
    ensures labeled > 0 && r.Some? ==> r.value.1 == replies[1..]
    ensures labeled > 0 && r.Some? ==> (r.value.0 <==> replies[0] == "y" || replies[0] == "Y")
  {
    if labeled == 0 then Some((true, replies))
    else if |replies| == 0 then None
    else
      var answer := if replies[0] == "" then "n" else replies[0];
      LowerIsY(answer);
      Some((Lower(answer) == "y", replies[1..]))
  }

  /** Only "y" and "Y" lower-case to "y". */
  lemma LowerIsY(s: string)
    ensures Lower(s) == "y" <==> s == "y" || s == "Y"
  {
    if |s| == 1 {
      assert Lower(s) == LowerChar(s[0]) + Lower(s[1..]);
      assert s == [s[0]];
    } else if |s| > 1 {
      assert |Lower(s)| >= 2;
    }
  }

  // ---------------------------------------------------------------------------
  // The whole run

  /** The end of a run: what `qc.csv` holds, the clips moved into the QC
      folder, and whether the run got to its final save. */
  datatype RunEnd = RunEnd(file: Option<seq<Row>>, clips: set<string>, finished: bool)

  /** The table before the review: the existing rows, or none when there is no
      `qc.csv`. */
  function Existing(fileBefore: Option<seq<Row>>): seq<Row> {
    if fileBefore.Some? then fileBefore.value else []
  }

  /** `qc_transcribed`. `nameUuid` stands for `uuid5` in the DNS namespace;
      `audio` for finding, trimming and playing a row's clip. */
  function QcTranscribed(fileBefore: Option<seq<Row>>, folders: seq<QcFolder>, nameUuid: string -> string,
                         audio: Row -> Audio, replies: seq<string>): (r: RunEnd)
    ensures r.finished ==> r.file.Some?
    ensures fileBefore.Some? ==> r.file.Some?
  {
    var qc0 := Existing(fileBefore);
    var qc1 := NewSegments(qc0, folders, nameUuid);
    if fileBefore.None? && |qc1| == 0 then
      // an empty DataFrame has no "text" column to strip
      RunEnd(None, {}, false)
    else
      var qc := Merge(qc0, qc1);
      var file := if |qc1| > 0 then Some(qc) else fileBefore;
      var table := SortByLogprob(StripFields(qc));
      match AskRevisit(LabeledCount(table), replies)
      case None => RunEnd(file, {}, false)
      case Some((revisit, rest)) =>
        match ReviewFrom(Session(table, {}, None), 0, audio, revisit, rest)
        case Abandoned(s) => RunEnd(if s.saved.Some? then Some(SortByIdName(s.saved.value)) else file, s.clips, false)
        case Finished(s, _) => RunEnd(Some(SortByIdName(s.table)), s.clips, true)
  }

  /** Without a `qc.csv` and without any new transcription the run stops before
      reviewing anything and writes nothing. */
  lemma NothingToLoadStops(folders: seq<QcFolder>, nameUuid: string -> string, audio: Row -> Audio, replies: seq<string>)
    requires NewSegments([], folders, nameUuid) == []
    ensures QcTranscribed(None, folders, nameUuid, audio, replies) == RunEnd(None, {}, false)
  {
  }

  lemma StripAndOrderKeepKeys(qc: seq<Row>)
    ensures KeysOf(SortByLogprob(StripFields(qc))) == KeysOf(qc)
  {
    var stripped := StripFields(qc);
    SameKeysPositionwise(qc, stripped);
    PermutationKeepsKeys(SortByLogprob(stripped), stripped);
  }

  /** The keys of the table the review works on: those of the existing rows
      and of the new ones. */
  lemma ReviewTableKeys(fileBefore: Option<seq<Row>>, folders: seq<QcFolder>, nameUuid: string -> string)
    ensures var qc0 := Existing(fileBefore);
            var qc1 := NewSegments(qc0, folders, nameUuid);
            KeysOf(SortByLogprob(StripFields(Merge(qc0, qc1)))) == KeysOf(qc0) + KeysOf(qc1)
  {
    var qc0 := Existing(fileBefore);
    var qc1 := NewSegments(qc0, folders, nameUuid);
    StripAndOrderKeepKeys(Merge(qc0, qc1));
    if |qc1| == 0 {
      assert KeysOf(qc1) == {};
    }
  }

  /** Whatever the reviewer does, `qc.csv` ends up either as it was or as a
      table ordered by `(id, name)` holding every existing and every new row;
      a finished run always writes it. */
  lemma RunWritesWholeTable(fileBefore: Option<seq<Row>>, folders: seq<QcFolder>, nameUuid: string -> string,
                            audio: Row -> Audio, replies: seq<string>)
    ensures var r := QcTranscribed(fileBefore, folders, nameUuid, audio, replies);
            var qc0 := Existing(fileBefore);
            var qc1 := NewSegments(qc0, folders, nameUuid);
            && (r.finished ==> r.file.Some?)
            && (r.file == fileBefore
                || (r.file.Some? && SortedByIdName(r.file.value)
                    && KeysOf(r.file.value) == KeysOf(qc0) + KeysOf(qc1)))
  {
    var qc0 := Existing(fileBefore);
    var qc1 := NewSegments(qc0, folders, nameUuid);
    if !(fileBefore.None? && |qc1| == 0) {
      var qc := Merge(qc0, qc1);
      var table := SortByLogprob(StripFields(qc));
      ReviewTableKeys(fileBefore, folders, nameUuid);
      if |qc1| > 0 {
        assert forall i, j :: 0 <= i < j < |qc| ==> !KeyLess(qc[j], qc[i]) by {
          forall i, j | 0 <= i < j < |qc| ensures !KeyLess(qc[j], qc[i]) {
            KeyLessAsymmetric(qc[i], qc[j]);
          }
        }
      }
      match AskRevisit(LabeledCount(table), replies)
      case None =>
      case Some((revisit, rest)) =>
        var s0 := Session(table, {}, None);
        ReviewSavesWholeTable(s0, 0, audio, revisit, rest);
        ReviewChangesOnlyPromptedLabels(s0, 0, audio, revisit, rest);
        var e := ReviewFrom(s0, 0, audio, revisit, rest);
        SameKeysPositionwise(table, e.session.table);
        SortKeepsKeySet(e.session.table);
        if e.session.saved.Some? {
          SortKeepsKeySet(e.session.saved.value);
        }
    }
  }

  /** A run that reaches the end writes the reviewed table, labels included:
      the file is the table the review loop finished with, ordered by
      `(id, name)`, and that table differs from the one the review started
      from only in labels the prompt loop left, on prompted rows. */
  lemma FinishedRunSavesReview(fileBefore: Option<seq<Row>>, folders: seq<QcFolder>, nameUuid: string -> string,
                               audio: Row -> Audio, replies: seq<string>)
    ensures var r := QcTranscribed(fileBefore, folders, nameUuid, audio, replies);
            var qc0 := Existing(fileBefore);
            var table := SortByLogprob(StripFields(Merge(qc0, NewSegments(qc0, folders, nameUuid))));
            var s0 := Session(table, {}, None);
            var answer := AskRevisit(LabeledCount(table), replies);
            r.finished ==>
              && answer.Some?
              && var e := ReviewFrom(s0, 0, audio, answer.value.0, answer.value.1);
                 && e.Finished?
                 && r.file == Some(SortByIdName(e.session.table))
                 && multiset(r.file.value) == multiset(e.session.table)
                 && OnlyLabelsSettled(s0, e.session)
                 && r.clips == e.session.clips
                 && forall j :: 0 <= j < |table| && !Prompted(table[j], audio, answer.value.0) ==>
                      e.session.table[j] == table[j]
  {
    var qc0 := Existing(fileBefore);
    var table := SortByLogprob(StripFields(Merge(qc0, NewSegments(qc0, folders, nameUuid))));
    var answer := AskRevisit(LabeledCount(table), replies);
    if answer.Some? {
      ReviewChangesOnlyPromptedLabels(Session(table, {}, None), 0, audio, answer.value.0, answer.value.1);
    }
  }

  /** The final save does not depend on the order the rows were reviewed in:
      two orderings of the same rows with unique keys save the same file. */
  lemma SaveIgnoresOrder(a: seq<Row>, b: seq<Row>)
    requires multiset(a) == multiset(b)
    requires UniqueKeys(a) && UniqueKeys(b)
    ensures SortByIdName(a) == SortByIdName(b)
  {
    SortKeepsKeys(a);
    SortKeepsKeys(b);
    SortedPermutationUnique(SortByIdName(a), SortByIdName(b));
  }
}
