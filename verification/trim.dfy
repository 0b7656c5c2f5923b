/** `trim_segments`: drop the transcription segments that start at or after the
    end of the audio, and rebuild the full text when anything was dropped. */
module TrimSegments {
  import opened Wrappers
  import opened Strings
  import opened Sequences
  import opened Transcripts

  /** The list comprehension keeping the segments whose `start < audio_dur`. */
  function KeepStartingBefore(segs: seq<Segment>, audioDur: real): (kept: seq<Segment>)
    ensures IsSubsequence(kept, segs)
    ensures forall k :: 0 <= k < |kept| ==> kept[k].start < audioDur
  {
    if |segs| == 0 then []
    else
      var rest := KeepStartingBefore(segs[1..], audioDur);
      if segs[0].start < audioDur then [segs[0]] + rest else rest
  }

  /** Every segment starting before the end is kept as often as it occurs,
      and no other segment is kept. */
  lemma {:induction false} KeepStartingBeforeCounts(segs: seq<Segment>, audioDur: real)
    ensures var kept := KeepStartingBefore(segs, audioDur);
            forall s :: multiset(kept)[s] == (if s.start < audioDur then multiset(segs)[s] else 0)
    decreases |segs|
  {
    if |segs| > 0 {
      KeepStartingBeforeCounts(segs[1..], audioDur);
      assert segs == [segs[0]] + segs[1..];
    }
  }

  /** Nothing is dropped exactly when every segment starts before the end,
      and then the segments are kept as they are. */
  lemma {:induction false} KeepStartingBeforeAll(segs: seq<Segment>, audioDur: real)
    ensures var kept := KeepStartingBefore(segs, audioDur);
            && (|kept| == |segs| <==> forall k :: 0 <= k < |segs| ==> segs[k].start < audioDur)
            && (|kept| == |segs| ==> kept == segs)
    decreases |segs|
  {
    if |segs| > 0 {
      KeepStartingBeforeAll(segs[1..], audioDur);
      var rest := KeepStartingBefore(segs[1..], audioDur);
      SubsequenceShorter(rest, segs[1..]);
      assert segs == [segs[0]] + segs[1..];
      assert forall k :: 1 <= k < |segs| ==> segs[k] == segs[1..][k - 1];
    }
  }

  /** The in-memory result after trimming, and whether `result.json` is written back. */
  datatype TrimResult = TrimResult(result: Transcription, rewritten: bool)

  /** Filters the segments against the audio duration; only when the count
      dropped is `text` rebuilt and the file rewritten. */
  function Trim(t: Transcription, audioDur: real): (r: TrimResult)
    ensures forall k :: 0 <= k < |r.result.segments| ==> r.result.segments[k].start < audioDur
    ensures IsSubsequence(r.result.segments, t.segments)
    ensures forall s :: s in t.segments && s.start < audioDur ==> s in r.result.segments
    ensures forall s :: multiset(r.result.segments)[s] == (if s.start < audioDur then multiset(t.segments)[s] else 0)
    ensures r.result.segments == KeepStartingBefore(t.segments, audioDur)
    ensures r.rewritten <==> exists k :: 0 <= k < |t.segments| && audioDur <= t.segments[k].start
    ensures r.rewritten ==> |r.result.segments| < |t.segments|
    ensures r.rewritten ==> r.result.text == Strip(JoinTexts(r.result.segments))
    ensures !r.rewritten ==> r.result == t
    ensures r.result.language == t.language
  {
    var kept := KeepStartingBefore(t.segments, audioDur);
    KeepStartingBeforeCounts(t.segments, audioDur);
    KeepStartingBeforeAll(t.segments, audioDur);
    SubsequenceShorter(kept, t.segments);
    assert forall s :: s in t.segments && s.start < audioDur ==> multiset(kept)[s] > 0;
    if |kept| < |t.segments| then
      TrimResult(t.(segments := kept, text := Strip(JoinTexts(kept))), true)
    else
      TrimResult(t, false)
  }

  /** A segment that starts exactly at the end of the audio is dropped. */
  lemma SegmentAtDurationDropped(t: Transcription, audioDur: real, k: nat)
    requires k < |t.segments| && t.segments[k].start == audioDur
    ensures Trim(t, audioDur).rewritten
    ensures t.segments[k] !in Trim(t, audioDur).result.segments
  {
  }

  /** A second pass with the same duration removes nothing and writes nothing. */
  lemma TrimIdempotent(t: Transcription, audioDur: real)
    ensures Trim(Trim(t, audioDur).result, audioDur) == TrimResult(Trim(t, audioDur).result, false)
  {
  }

  /** Trimming to one duration and then another keeps exactly what trimming to
      the smaller one keeps. */
  lemma {:induction false} KeepStartingBeforeComposes(segs: seq<Segment>, d1: real, d2: real)
    ensures KeepStartingBefore(KeepStartingBefore(segs, d1), d2)
         == KeepStartingBefore(segs, if d1 <= d2 then d1 else d2)
    decreases |segs|
  {
    if |segs| > 0 {
      KeepStartingBeforeComposes(segs[1..], d1, d2);
      var rest := KeepStartingBefore(segs[1..], d1);
      if segs[0].start < d1 {
        assert ([segs[0]] + rest)[1..] == rest;
      }
    }
  }

  /** `file.lower().endswith('.mp3')`. */
  predicate IsMp3Name(f: string) {
    EndsWith(Lower(f), ".mp3")
  }

  /** Position of the audio file chosen in a folder: the first `.mp3` of the listing. */
  function FirstMp3Index(files: seq<string>): (r: Option<nat>)
    ensures r.None? <==> forall k :: 0 <= k < |files| ==> !IsMp3Name(files[k])
    ensures r.Some? ==> r.value < |files| && IsMp3Name(files[r.value])
    ensures r.Some? ==> forall k :: 0 <= k < r.value ==> !IsMp3Name(files[k])
    decreases |files|
  {
    if |files| == 0 then None
    else if IsMp3Name(files[0]) then Some(0)
    else match FirstMp3Index(files[1..])
      case None => None
      case Some(i) => Some(i + 1)
  }

  /** What reading `result.json` produced: no file, a file that did not parse,
      a parsed object without a `segments` key, or a transcription. */
  datatype ResultFile = Missing | Unreadable | NoSegments | Loaded(transcription: Transcription)

  /** One entry of the transcribed directory: its listing and its `result.json`. */
  datatype Folder = Folder(name: string, isDir: bool, files: seq<string>, resultJson: ResultFile)

  datatype FolderOutcome =
    | NotADirectory
    | NoMp3
    | AudioUnreadable
    | NoResultJson
    | ResultUnreadable
    | SegmentsMissing
    | Unchanged
    | Rewritten(transcription: Transcription)

  /** The body of the folder loop. `audioLength` stands for reading the
      duration of the MP3 of a folder, by folder and file name; `None` is a
      file that could not be read. */
  function TrimFolder(f: Folder, audioLength: (string, string) -> Option<real>): (o: FolderOutcome)
    ensures !f.isDir <==> o == NotADirectory
    ensures f.isDir && FirstMp3Index(f.files).None? <==> o == NoMp3
    ensures f.isDir && FirstMp3Index(f.files).Some? ==>
              var dur := audioLength(f.name, f.files[FirstMp3Index(f.files).value]);
              && (dur.None? <==> o == AudioUnreadable)
              && (dur.Some? ==>
                    match f.resultJson
                    case Missing => o == NoResultJson
                    case Unreadable => o == ResultUnreadable
                    case NoSegments => o == SegmentsMissing
                    case Loaded(t) =>
                      var r := Trim(t, dur.value);
                      (o.Rewritten? <==> r.rewritten) && (o.Unchanged? <==> !r.rewritten)
                      && (o.Rewritten? ==> o.transcription == r.result))
  {
    if !f.isDir then NotADirectory
    else match FirstMp3Index(f.files)
      case None => NoMp3
      case Some(i) =>
        match audioLength(f.name, f.files[i])
        case None => AudioUnreadable
        case Some(dur) =>
          match f.resultJson
          case Missing => NoResultJson
          case Unreadable => ResultUnreadable
          case NoSegments => SegmentsMissing
          case Loaded(t) =>
            var r := Trim(t, dur);
            if r.rewritten then Rewritten(r.result) else Unchanged
  }

  /** The folder as it is on disk after its turn in the loop. */
  function AfterTrim(f: Folder, audioLength: (string, string) -> Option<real>): (g: Folder)
    ensures TrimFolder(f, audioLength).Rewritten? ==>
              g == f.(resultJson := Loaded(TrimFolder(f, audioLength).transcription))
    ensures !TrimFolder(f, audioLength).Rewritten? ==> g == f
  {
    match TrimFolder(f, audioLength)
    case Rewritten(t) => f.(resultJson := Loaded(t))
    case _ => f
  }

  /** `trim_segments(directory)`: every folder is handled on its own, and only
      a trimmed `result.json` changes. */
  function TrimDirectory(folders: seq<Folder>, audioLength: (string, string) -> Option<real>): (after: seq<Folder>)
    ensures |after| == |folders|
    ensures forall i :: 0 <= i < |after| ==>
              && after[i].name == folders[i].name
              && after[i].isDir == folders[i].isDir
              && after[i].files == folders[i].files
    ensures forall i :: 0 <= i < |after| && after[i] != folders[i] ==>
              TrimFolder(folders[i], audioLength).Rewritten?
              && after[i].resultJson == Loaded(TrimFolder(folders[i], audioLength).transcription)
    ensures forall i :: 0 <= i < |after| && TrimFolder(folders[i], audioLength).Rewritten? ==>
              after[i] == folders[i].(resultJson := Loaded(TrimFolder(folders[i], audioLength).transcription))
    ensures forall i :: 0 <= i < |after| && !TrimFolder(folders[i], audioLength).Rewritten? ==>
              after[i] == folders[i]
  {
    seq(|folders|, i requires 0 <= i < |folders| => AfterTrim(folders[i], audioLength))
  }

  /** Running the script twice writes nothing the second time. */
  lemma TrimDirectoryIdempotent(folders: seq<Folder>, audioLength: (string, string) -> Option<real>)
    ensures forall i :: 0 <= i < |folders| ==>
              !TrimFolder(TrimDirectory(folders, audioLength)[i], audioLength).Rewritten?
    ensures TrimDirectory(TrimDirectory(folders, audioLength), audioLength)
         == TrimDirectory(folders, audioLength)
  {
    var after := TrimDirectory(folders, audioLength);
    forall i | 0 <= i < |folders|
      ensures !TrimFolder(after[i], audioLength).Rewritten?
    {
      var f := folders[i];
      if TrimFolder(f, audioLength).Rewritten? {
        var dur := audioLength(f.name, f.files[FirstMp3Index(f.files).value]).value;
        TrimIdempotent(f.resultJson.transcription, dur);
      }
    }
  }

  // ---------------------------------------------------------------------------
  // The missing-segments guard as written

  /** A folder that gets as far as the `segments` guard and has no
      `segments` list there. */
  predicate ReachesSegmentsGuard(f: Folder, audioLength: (string, string) -> Option<real>) {
    && f.isDir
    && FirstMp3Index(f.files).Some?
    && audioLength(f.name, f.files[FirstMp3Index(f.files).value]).Some?
    && f.resultJson.NoSegments?
  }

  /** The folder loop body as written: every check before the guard for a
      missing `segments` key behaves as in `TrimFolder`, but the guard reports
      the folder without leaving the iteration, so the next access to
      `result["segments"]` raises and ends the whole run (`None`). */
  function TrimFolderAsWritten(f: Folder, audioLength: (string, string) -> Option<real>): (o: Option<FolderOutcome>)
    ensures o.None? <==> ReachesSegmentsGuard(f, audioLength)
    ensures o.Some? ==> o.value == TrimFolder(f, audioLength)
  {
    var outcome := TrimFolder(f, audioLength);
    TrimFolderStopsAtGuard(f, audioLength);
    if outcome == SegmentsMissing then None else Some(outcome)
  }

  /** Only the missing-segments guard yields `SegmentsMissing`. */
  lemma TrimFolderStopsAtGuard(f: Folder, audioLength: (string, string) -> Option<real>)
    ensures TrimFolder(f, audioLength) == SegmentsMissing <==> ReachesSegmentsGuard(f, audioLength)
  {
    if f.isDir && FirstMp3Index(f.files).Some? {
      var dur := audioLength(f.name, f.files[FirstMp3Index(f.files).value]);
      if dur.Some? && !f.resultJson.NoSegments? {
        assert TrimFolder(f, audioLength) != SegmentsMissing;
      }
    }
  }

  /** Position of the first folder at which the script as written stops, or
      the number of folders when it stops at none. */
  function FirstCrash(folders: seq<Folder>, audioLength: (string, string) -> Option<real>): (n: nat)
    ensures n <= |folders|
    ensures forall k :: 0 <= k < n ==> !ReachesSegmentsGuard(folders[k], audioLength)
    ensures n < |folders| ==> ReachesSegmentsGuard(folders[n], audioLength)
    decreases |folders|
  {
    if |folders| == 0 then 0
    else if ReachesSegmentsGuard(folders[0], audioLength) then 0
    else
      assert forall k :: 1 <= k < |folders| ==> folders[k] == folders[1..][k - 1];
      1 + FirstCrash(folders[1..], audioLength)
  }

  /** The folders before `FirstCrash` run through the loop body as written,
      and the one at `FirstCrash`, if any, ends the run there. */
  lemma FirstCrashIsFirstFailure(folders: seq<Folder>, audioLength: (string, string) -> Option<real>)
    ensures var n := FirstCrash(folders, audioLength);
            && (forall k :: 0 <= k < n ==>
                  TrimFolderAsWritten(folders[k], audioLength) == Some(TrimFolder(folders[k], audioLength)))
            && (n < |folders| ==> TrimFolderAsWritten(folders[n], audioLength).None?)
  {
  }

  /** `trim_segments(directory)` as written: the folders are handled in
      listing order until one reaches the missing-segments guard; that one and
      every later folder are left as they are. */
  function TrimDirectoryAsWritten(folders: seq<Folder>, audioLength: (string, string) -> Option<real>): (after: seq<Folder>)
    ensures |after| == |folders|
    ensures forall k :: 0 <= k < FirstCrash(folders, audioLength) ==>
              after[k] == TrimDirectory(folders, audioLength)[k]
    ensures forall k :: FirstCrash(folders, audioLength) <= k < |folders| ==> after[k] == folders[k]
  {
    var n := FirstCrash(folders, audioLength);
    TrimDirectory(folders[..n], audioLength) + folders[n..]
  }

  /** Without a folder that lacks `segments`, the script as written does what
      skipping such folders does. */
  lemma AsWrittenAgreesWithoutMissingSegments(folders: seq<Folder>, audioLength: (string, string) -> Option<real>)
    requires forall i :: 0 <= i < |folders| ==> TrimFolder(folders[i], audioLength) != SegmentsMissing
    ensures TrimDirectoryAsWritten(folders, audioLength) == TrimDirectory(folders, audioLength)
  {
    assert forall k :: 0 <= k < |folders| ==> !ReachesSegmentsGuard(folders[k], audioLength);
    var n := FirstCrash(folders, audioLength);
    assert n == |folders|;
    assert folders[..n] == folders;
  }

  /** A folder whose `result.json` lacks `segments`, listed before a folder
      that needs trimming, leaves that later folder untrimmed as written;
      skipping it, as the guard's message says, trims the later folder. */
  lemma MissingSegmentsStopsTheRun(bad: Folder, good: Folder, audioLength: (string, string) -> Option<real>)
    requires ReachesSegmentsGuard(bad, audioLength)
    requires TrimFolder(good, audioLength).Rewritten?
    ensures TrimDirectoryAsWritten([bad, good], audioLength)[1] == good
    ensures TrimDirectory([bad, good], audioLength)[1] != good
  {
    var fs := [bad, good];
    assert fs[0] == bad;
    assert FirstCrash(fs, audioLength) == 0;
    assert TrimDirectoryAsWritten(fs, audioLength) == TrimDirectory([], audioLength) + fs;
    var t := TrimFolder(good, audioLength).transcription;
    assert TrimDirectory(fs, audioLength)[1] == AfterTrim(good, audioLength) == good.(resultJson := Loaded(t));
    var dur := audioLength(good.name, good.files[FirstMp3Index(good.files).value]).value;
    var r := Trim(good.resultJson.transcription, dur);
    assert t == r.result;
    assert |r.result.segments| < |good.resultJson.transcription.segments|;
  }
}
