/** The reviewer's commands in `qc_transcribed`: a reply is lower-cased and
    matched as a prefix against a fixed list of command words. */
module Actions {
  import opened Strings

  datatype Command = Accept | Replay | Context | Inaudible | Label | Save | Skip | Quit | Unrecognized

  /** The action of one prompt: a clip that did not play forces "inaudible",
      and an empty reply means "accept". */
  function ReadAction(played: bool, reply: string): (a: string)
    ensures |a| > 0
    ensures !played ==> a == "inaudible"
    ensures played && reply == "" ==> a == "accept"
    ensures played && reply != "" ==> a == reply
  {
    if !played then "inaudible" else if reply == "" then "accept" else reply
  }

  /** The `if`/`elif` chain that dispatches an action. */
  function Classify(action: string): Command
  {
    var a := Lower(action);
    if a == "" || IsPrefix(a, "accept") then Accept
    else if IsPrefix(a, "replay") then Replay
    else if IsPrefix(a, "context") then Context
    else if IsPrefix(a, "inaudible") then Inaudible
    else if IsPrefix(a, "label") then Label
    else if IsPrefix(a, "save") then Save
    else if IsPrefix(a, "skip") then Skip
    else if IsPrefix(a, "quit") || IsPrefix(a, "exit") then Quit
    else Unrecognized
  }

  /** The command words, in the order they are tried. */
  const CommandWords: seq<(string, Command)> :=
    [("accept", Accept), ("replay", Replay), ("context", Context), ("inaudible", Inaudible),
     ("label", Label), ("save", Save), ("skip", Skip), ("quit", Quit), ("exit", Quit)]

  /** The command of the first word that `a` starts, or `Unrecognized`. */
  function FirstMatch(a: string, words: seq<(string, Command)>): (c: Command)
    ensures c == Unrecognized <==> forall k :: 0 <= k < |words| ==> words[k].1 == Unrecognized || !IsPrefix(a, words[k].0)
    decreases |words|
  {
    if |words| == 0 then Unrecognized
    else if IsPrefix(a, words[0].0) && words[0].1 != Unrecognized then words[0].1
    else
      assert forall k :: 1 <= k < |words| ==> words[k] == words[1..][k - 1];
      FirstMatch(a, words[1..])
  }

  /** The last five command words, tried in order. */
  lemma FirstMatchOfLaterWords(a: string)
    ensures FirstMatch(a, CommandWords[4..]) ==
              if IsPrefix(a, "label") then Label
              else if IsPrefix(a, "save") then Save
              else if IsPrefix(a, "skip") then Skip
              else if IsPrefix(a, "quit") || IsPrefix(a, "exit") then Quit
              else Unrecognized
  {
    var w4 := CommandWords[4..];
    assert w4 == [("label", Label), ("save", Save), ("skip", Skip), ("quit", Quit), ("exit", Quit)];
    var w5 := w4[1..];
    var w6 := w5[1..];
    var w7 := w6[1..];
    var w8 := w7[1..];
    assert w8 == [("exit", Quit)];
    assert FirstMatch(a, w8) == if IsPrefix(a, "exit") then Quit else Unrecognized by {
      assert w8[1..] == [];
    }
    assert FirstMatch(a, w7) == if IsPrefix(a, "quit") then Quit else FirstMatch(a, w8);
    assert FirstMatch(a, w6) == if IsPrefix(a, "skip") then Skip else FirstMatch(a, w7);
    assert FirstMatch(a, w5) == if IsPrefix(a, "save") then Save else FirstMatch(a, w6);
  }

  lemma FirstMatchOfCommandWords(a: string)
    ensures FirstMatch(a, CommandWords) ==
              if a == "" || IsPrefix(a, "accept") then Accept
              else if IsPrefix(a, "replay") then Replay
              else if IsPrefix(a, "context") then Context
              else if IsPrefix(a, "inaudible") then Inaudible
              else if IsPrefix(a, "label") then Label
              else if IsPrefix(a, "save") then Save
              else if IsPrefix(a, "skip") then Skip
              else if IsPrefix(a, "quit") || IsPrefix(a, "exit") then Quit
              else Unrecognized
  {
    var w := CommandWords;
    assert IsPrefix(a, "") <==> a == "";
    FirstMatchOfLaterWords(a);
    var w1 := w[1..];
    var w2 := w1[1..];
    var w3 := w2[1..];
    assert w3[1..] == w[4..];
    assert w3[0] == ("inaudible", Inaudible) && w2[0] == ("context", Context) && w1[0] == ("replay", Replay);
    assert FirstMatch(a, w3) == if IsPrefix(a, "inaudible") then Inaudible else FirstMatch(a, w[4..]);
    assert FirstMatch(a, w2) == if IsPrefix(a, "context") then Context else FirstMatch(a, w3);
    assert FirstMatch(a, w1) == if IsPrefix(a, "replay") then Replay else FirstMatch(a, w2);
  }

  /** The dispatch chain is "first command word the lowered reply is a prefix
      of"; a reply that starts none of them is not recognized. */
  lemma ClassifyIsFirstMatch(action: string)
    ensures Classify(action) == FirstMatch(Lower(action), CommandWords)
    ensures Classify(action) == Unrecognized <==>
              forall k :: 0 <= k < |CommandWords| ==> !IsPrefix(Lower(action), CommandWords[k].0)
  {
    FirstMatchOfCommandWords(Lower(action));
    NoCommandWordMatches(Lower(action));
  }

  lemma NoCommandWordMatches(a: string)
    ensures FirstMatch(a, CommandWords) == Unrecognized <==>
              forall k :: 0 <= k < |CommandWords| ==> !IsPrefix(a, CommandWords[k].0)
  {
  }

  lemma {:induction false} LowerKeepsLowercase(s: string)
    requires forall k :: 0 <= k < |s| ==> 'a' <= s[k] <= 'z'
    ensures Lower(s) == s
    decreases |s|
  {
    if |s| > 0 { LowerKeepsLowercase(s[1..]); }
  }

  /** A non-empty prefix of a word starts with the word's first letter. */
  lemma PrefixStartsAlike(a: string, w: string)
    requires |a| > 0 && IsPrefix(a, w)
    ensures a[0] == w[0]
  {
    assert a == w[..|a|];
  }

  /** A non-empty string whose first letter differs from a word's is no
      abbreviation of it. */
  lemma DifferentStart(a: string, w: string)
    requires |a| > 0 && |w| > 0 && a[0] != w[0]
    ensures !IsPrefix(a, w)
  {
    if IsPrefix(a, w) { PrefixStartsAlike(a, w); }
  }

  /** An action starting with 's' is no abbreviation of the words tried
      before "save". */
  lemma StartsWithS(a: string)
    requires |a| > 0 && a[0] == 's'
    ensures !IsPrefix(a, "accept") && !IsPrefix(a, "replay") && !IsPrefix(a, "context")
    ensures !IsPrefix(a, "inaudible") && !IsPrefix(a, "label")
  {
    DifferentStart(a, "accept");
    DifferentStart(a, "replay");
    DifferentStart(a, "context");
    DifferentStart(a, "inaudible");
    DifferentStart(a, "label");
  }

  /** Every abbreviation starting with 's' is taken by "save", which is tried
      before "skip". */
  lemma ClassifySave(action: string)
    ensures Classify(action) == Save <==> Lower(action) != "" && IsPrefix(Lower(action), "save")
  {
    var a := Lower(action);
    if a != "" && IsPrefix(a, "save") {
      PrefixStartsAlike(a, "save");
      StartsWithS(a);
    }
  }

  /** "skip" needs at least "sk": a lone "s" saves. */
  lemma ClassifySkip(action: string)
    ensures Classify(action) == Skip <==> |Lower(action)| >= 2 && IsPrefix(Lower(action), "skip")
  {
    var a := Lower(action);
    if |a| >= 2 && IsPrefix(a, "skip") {
      assert a[0] == 's' && a[1] == 'k' by { assert a == "skip"[..|a|]; }
      StartsWithS(a);
      assert !IsPrefix(a, "save") by {
        if |a| <= 4 { assert "save"[..|a|][1] == 'a'; }
      }
    }
  }

  /** Every abbreviation of "inaudible", and nothing else, selects the
      inaudible command: no earlier command word starts with 'i'. */
  lemma ClassifyAbbreviatesInaudible(action: string)
    ensures Classify(action) == Inaudible <==> Lower(action) != "" && IsPrefix(Lower(action), "inaudible")
  {
    var a := Lower(action);
    if a != "" && IsPrefix(a, "inaudible") {
      PrefixStartsAlike(a, "inaudible");
      DifferentStart(a, "accept");
      DifferentStart(a, "replay");
      DifferentStart(a, "context");
    }
  }

  /** On a reply already in lower case, the same holds without lowering. */
  lemma ClassifyLowercaseInaudible(w: string)
    requires forall k :: 0 <= k < |w| ==> 'a' <= w[k] <= 'z'
    ensures Classify(w) == Inaudible <==> w != "" && IsPrefix(w, "inaudible")
  {
    LowerKeepsLowercase(w);
    ClassifyAbbreviatesInaudible(w);
  }

  /** The word "inaudible", which an unplayed clip supplies as its action,
      selects the inaudible command. */
  lemma ClassifyInaudible()
    ensures Classify("inaudible") == Inaudible
  {
    var w := "inaudible";
    forall k | 0 <= k < |w| ensures 'a' <= w[k] <= 'z' { }
    ClassifyLowercaseInaudible(w);
    assert w[..|w|] == w;
  }

  /** The check after the prompt loop that ends the whole review. */
  predicate StopsReview(action: string) {
    IsPrefix(Lower(action), "quit") || IsPrefix(Lower(action), "exit")
  }

  /** For any action the prompt loop can end on, the review stops exactly
      when that action was the quit command. */
  lemma StopsReviewIffQuit(action: string)
    requires action != ""
    ensures StopsReview(action) <==> Classify(action) == Quit
  {
    var a := Lower(action);
    assert |a| > 0;
    forall w: string | |w| > 0 && IsPrefix(a, w) ensures a[0] == w[0] {
      assert a == w[..|a|];
    }
  }
}
