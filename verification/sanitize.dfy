/** Clean-up of a label typed into the labelling dialog: tabs and line breaks
    become spaces, then double spaces are collapsed until none is left. */
module LabelSanitizer {
  import opened Strings

  /** `s.replace("\t", " ").replace("\n", " ")`. */
  function SpacesForBreaks(s: string): (r: string)
    ensures |r| == |s|
    ensures forall k :: 0 <= k < |s| ==> r[k] == (if s[k] == '\t' || s[k] == '\n' then ' ' else s[k])
  {
    var t := Replace(s, "\t", " ");
    ReplaceCharMaps(s, '\t', ' ');
    ReplaceCharMaps(t, '\n', ' ');
    Replace(t, "\n", " ")
  }

  /** What collapsing leaves: every run of spaces shortened to one space.
      `afterSpace` says that the output so far ends with a space. */
  function SqueezeFrom(afterSpace: bool, s: string): string
    decreases |s|
  {
    if |s| == 0 then ""
    else if s[0] == ' ' then
      if afterSpace then SqueezeFrom(true, s[1..]) else " " + SqueezeFrom(true, s[1..])
    else [s[0]] + SqueezeFrom(false, s[1..])
  }

  function SqueezeSpaces(s: string): string {
    SqueezeFrom(false, s)
  }

  /** The label stored for the dialog's text. */
  function Sanitized(s: string): (r: string)
    ensures forall k :: 0 <= k < |r| ==> r[k] != '\t' && r[k] != '\n'
    ensures !Contains(r, "  ")
    ensures |r| <= |s|
  {
    var t := SpacesForBreaks(s);
    SqueezeShape(false, t);
    assert forall c :: c in t ==> c != '\t' && c != '\n';
    var r := SqueezeSpaces(t);
    assert forall k :: 0 <= k < |r| ==> r[k] in r;
    r
  }

  lemma {:induction false} SqueezeShape(afterSpace: bool, s: string)
    ensures |SqueezeFrom(afterSpace, s)| <= |s|
    ensures forall c :: c in SqueezeFrom(afterSpace, s) ==> c in s
    ensures !Contains(SqueezeFrom(afterSpace, s), "  ")
    ensures afterSpace ==> !IsPrefix(" ", SqueezeFrom(afterSpace, s))
    decreases |s|
  {
    if |s| > 0 {
      var t := s[1..];
      SqueezeShape(s[0] == ' ', t);
      var rest := SqueezeFrom(s[0] == ' ', t);
      assert forall c :: c in t ==> c in s;
      if s[0] == ' ' && !afterSpace {
        var r := " " + rest;
        assert r[1..] == rest;
        assert !IsPrefix("  ", r);
      } else if s[0] != ' ' {
        var r := [s[0]] + rest;
        assert r[1..] == rest;
        assert r[0] != ' ';
        assert !IsPrefix("  ", r) by {
          if |r| >= 2 { assert r[..2][0] == r[0]; }
        }
      }
    }
  }

  /** One `replace("  ", " ")` pass does not change what collapsing leaves. */
  lemma {:induction false} ReplacePairKeepsSqueeze(afterSpace: bool, s: string)
    ensures SqueezeFrom(afterSpace, Replace(s, "  ", " ")) == SqueezeFrom(afterSpace, s)
    decreases |s|
  {
    if IsPrefix("  ", s) {
      var r := Replace(s[2..], "  ", " ");
      ReplacePairKeepsSqueeze(true, s[2..]);
      assert (" " + r)[1..] == r;
      assert s[1..][1..] == s[2..];
    } else if |s| > 0 {
      var r := Replace(s[1..], "  ", " ");
      ReplacePairKeepsSqueeze(s[0] == ' ', s[1..]);
      assert ([s[0]] + r)[0] == s[0] && ([s[0]] + r)[1..] == r;
    }
  }

  /** A string with no double space, and no leading space after a space, is
      left as it is. */
  lemma {:induction false} SqueezeFixesCollapsed(afterSpace: bool, s: string)
    requires !Contains(s, "  ")
    requires afterSpace ==> !IsPrefix(" ", s)
    ensures SqueezeFrom(afterSpace, s) == s
    decreases |s|
  {
    if |s| > 0 {
      assert !IsPrefix("  ", s);
      SqueezeFixesCollapsed(s[0] == ' ', s[1..]);
      assert s == [s[0]] + s[1..];
    }
  }

  /** Sanitising twice gives the same label as sanitising once. */
  lemma SanitizedIdempotent(s: string)
    ensures Sanitized(Sanitized(s)) == Sanitized(s)
  {
    var r := Sanitized(s);
    assert SpacesForBreaks(r) == r;
    SqueezeFixesCollapsed(false, r);
  }

  /** Everything but blanks: the words of a label. */
  function NonBlank(s: string): string
    decreases |s|
  {
    if |s| == 0 then ""
    else if s[0] in " \t\n" then NonBlank(s[1..])
    else [s[0]] + NonBlank(s[1..])
  }

  lemma {:induction false} SqueezeKeepsWords(afterSpace: bool, s: string)
    ensures NonBlank(SqueezeFrom(afterSpace, s)) == NonBlank(s)
    decreases |s|
  {
    if |s| > 0 {
      SqueezeKeepsWords(s[0] == ' ', s[1..]);
      var rest := SqueezeFrom(s[0] == ' ', s[1..]);
      assert (" " + rest)[1..] == rest;
      assert ([s[0]] + rest)[1..] == rest;
    }
  }

  lemma {:induction false} BreaksKeepWords(s: string)
    ensures NonBlank(SpacesForBreaks(s)) == NonBlank(s)
    decreases |s|
  {
    if |s| > 0 {
      BreaksKeepWords(s[1..]);
      assert SpacesForBreaks(s) == [SpacesForBreaks(s)[0]] + SpacesForBreaks(s[1..]);
    }
  }

  /** Sanitising only touches whitespace: the words of the label, in order,
      are exactly those typed. */
  lemma SanitizedKeepsWords(s: string)
    ensures NonBlank(Sanitized(s)) == NonBlank(s)
  {
    BreaksKeepWords(s);
    SqueezeKeepsWords(false, SpacesForBreaks(s));
  }

  /** The clean-up loop of the "label" action. It terminates because every pass
      that runs finds a double space and so shortens the label. */
  method SanitizeLabel(newLabel: string) returns (r: string)
    ensures r == Sanitized(newLabel)
    ensures forall k :: 0 <= k < |r| ==> r[k] != '\t' && r[k] != '\n'
    ensures !Contains(r, "  ")
  {
    r := Replace(newLabel, "\t", " ");
    r := Replace(r, "\n", " ");
    assert r == SpacesForBreaks(newLabel);
    while Contains(r, "  ")
      invariant SqueezeSpaces(r) == Sanitized(newLabel)
      decreases |r|
    {
      ReplacePairKeepsSqueeze(false, r);
      r := Replace(r, "  ", " ");
    }
    SqueezeFixesCollapsed(false, r);
  }
}
