/** Worked examples of `clean_text` (src/watchfinder_scraper.py:50-59): the
    whole-word rule, and the input on which a second pass changes the result. */
module TextExamples {
  import opened Text

  /** Words joined by single spaces, as `' '.join(words)`. */
  function JoinWords(ws: seq<string>): string
  {
    if ws == [] then "" else if |ws| == 1 then ws[0] else ws[0] + " " + JoinWords(ws[1..])
  }

  ghost predicate AllWords(ws: seq<string>) { forall i :: 0 <= i < |ws| ==> IsWord(ws[i]) }

  lemma CollapsedAppend(x: string, y: string)
    requires Collapsed(x) && Collapsed(y)
    requires x == [] || y == [] || !IsSpace(x[|x| - 1]) || !IsSpace(y[0])
    ensures Collapsed(x + y)
  {
    var s := x + y;
    forall i | 0 <= i < |s| && IsSpace(s[i])
      ensures s[i] == ' ' && (i + 1 < |s| ==> !IsSpace(s[i + 1]))
    {
      if i < |x| {
        assert s[i] == x[i];
        if i + 1 < |x| { assert s[i + 1] == x[i + 1]; }
        else if i + 1 < |s| { assert s[i + 1] == y[0]; }
      } else {
        assert s[i] == y[i - |x|];
        if i + 1 < |s| { assert s[i + 1] == y[i + 1 - |x|]; }
      }
    }
  }

  lemma {:induction false} JoinWordsRuns(ws: seq<string>)
    requires AllWords(ws)
    ensures Runs(JoinWords(ws)) == ws
  {
    if |ws| == 1 {
      assert ws[0] + [] == ws[0];
      RunsWordThen(ws[0], []);
    } else if |ws| > 1 {
      var a, rest := ws[0], JoinWords(ws[1..]);
      JoinWordsRuns(ws[1..]);
      assert JoinWords(ws) == a + ([' '] + rest);
      RunsWordThen(a, [' '] + rest);
      RunsNonWordThen([' '], rest);
    }
  }

  lemma {:induction false} JoinWordsShape(ws: seq<string>)
    requires AllWords(ws)
    ensures Collapsed(JoinWords(ws)) && Trimmed(JoinWords(ws))
  {
    if |ws| == 1 {
      WordShape(ws[0]);
    } else if |ws| > 1 {
      var a, rest := ws[0], JoinWords(ws[1..]);
      var s := a + ([' '] + rest);
      assert JoinWords(ws) == s;
      JoinWordsShape(ws[1..]);
      JoinWordsNonEmpty(ws[1..]);
      WordShape(a);
      CollapsedCons(' ', rest);
      CollapsedAppend(a, [' '] + rest);
      assert s[0] == a[0] && s[|s| - 1] == rest[|rest| - 1];
    }
  }

  /** A word has no whitespace at all. */
  lemma WordShape(w: string)
    requires IsWord(w)
    ensures Collapsed(w) && Trimmed(w)
  {
    forall i | 0 <= i < |w| ensures !IsSpace(w[i]) { WordIsNotSpace(w[i]); }
  }

  lemma JoinWordsNonEmpty(ws: seq<string>)
    requires AllWords(ws) && ws != []
    ensures JoinWords(ws) != []
  {
  }

  lemma {:induction false} JoinWordsReplace(ws: seq<string>, w: string, r: string)
    requires AllWords(ws) && IsWord(r)
    ensures ReplaceWord(JoinWords(ws), w, r) == JoinWords(MapRuns(ws, w, r))
  {
    if |ws| == 1 {
      assert ws[0] + [] == ws[0];
      ReplaceWordWordThen(ws[0], [], w, r);
    } else if |ws| > 1 {
      var a, rest := ws[0], JoinWords(ws[1..]);
      var m := MapRuns(ws, w, r);
      var a' := if a == w then r else a;
      calc {
        ReplaceWord(JoinWords(ws), w, r);
        { assert JoinWords(ws) == a + ([' '] + rest); }
        ReplaceWord(a + ([' '] + rest), w, r);
        { ReplaceWordWordThen(a, [' '] + rest, w, r); }
        a' + ReplaceWord([' '] + rest, w, r);
        { ReplaceWordNonWordThen(' ', rest, w, r); }
        a' + ([' '] + ReplaceWord(rest, w, r));
        { JoinWordsReplace(ws[1..], w, r); }
        a' + ([' '] + JoinWords(MapRuns(ws[1..], w, r)));
        { assert m[0] == a' && m[1..] == MapRuns(ws[1..], w, r); }
        JoinWords(m);
      }
    }
  }

  /** On words separated by single spaces (none of them `metres`), `clean_text`
      lowers exactly the words equal to `MM`: "41 MM case" becomes "41 mm case". */
  lemma CleanTextOfWords(ws: seq<string>)
    requires AllWords(ws) && "metres" !in ws
    ensures CleanText(JoinWords(ws)) == JoinWords(MapRuns(ws, "MM", "mm"))
  {
    JoinWordsRuns(ws);
    JoinWordsShape(ws);
    JoinWordsReplace(ws, "MM", "mm");
    CleanTextOnlyLowersMM(JoinWords(ws));
  }

  /** The case-size example: "41 MM case" becomes "41 mm case". */
  lemma CleanCaseSize()
    ensures CleanText("41 MM case") == "41 mm case"
  {
    var ws := ["41", "MM", "case"];
    assert AllWords(ws) by {
      assert IsWord(ws[0]) && IsWord(ws[1]) && IsWord(ws[2]);
    }
    assert JoinWords(ws) == "41 MM case";
    assert MapRuns(ws, "MM", "mm") == ["41", "mm", "case"];
    assert JoinWords(["41", "mm", "case"]) == "41 mm case";
    CleanTextOfWords(ws);
  }

  /** A single word other than `MM` and `metres` is its own cleaned form. */
  lemma CleanWord(w: string)
    requires IsWord(w) && w != "MM" && w != "metres"
    ensures CleanText(w) == w
  {
    assert w + [] == w;
    RunsWordThen(w, []);
    WordShape(w);
    CleanTextFixpoint(w);
  }

  /** `MM` inside a longer word is left alone. */
  lemma KeepsEmbeddedMM()
    ensures CleanText("COMMENT") == "COMMENT"
    ensures CleanText("41MM") == "41MM"
  {
    assert IsWord("COMMENT") && IsWord("41MM");
    CleanWord("COMMENT");
    CleanWord("41MM");
  }

  lemma RunsSplitMM()
    ensures Runs("M\nM") == ["M", "M"]
  {
    assert "M\nM" == "M" + "\nM";
    assert "\nM" == ['\n'] + "M";
    assert "M" + [] == "M";
    RunsWordThen("M", "\nM");
    RunsNonWordThen("\n", "M");
    RunsWordThen("M", []);
  }

  lemma RemoveBreaksSplitMM()
    ensures RemoveLineBreaks("M\nM") == "MM"
  {
    var d := {'\r', '\n'};
    assert "M\nM" == "M" + "\nM";
    WithoutAppend("M", "\nM", d);
    assert "\nM" == "\n" + "M";
    WithoutAppend("\n", "M", d);
    WithoutAbsent("M", d);
  }

  /** A line break between two `M`s hides the `MM` from the first two steps. */
  lemma CleanSplitMM()
    ensures CleanText("M\nM") == "MM"
  {
    var s := "M\nM";
    RunsSplitMM();
    ReplaceWordAbsent(s, "MM", "mm");
    ReplaceWordAbsent(s, "metres", "m");
    RemoveBreaksSplitMM();
    assert Collapsed("MM");
    CollapseOfCollapsed("MM");
    StripOfTrimmed("MM");
  }

  lemma CleanMM()
    ensures CleanText("MM") == "mm"
  {
    RunsWordThen("MM", []);
    assert "MM" + [] == "MM";
    ReplaceWordWordThen("MM", [], "MM", "mm");
    assert Collapsed("MM");
    CleanTextOnlyLowersMM("MM");
  }

  /** Line breaks are deleted only after the `MM` rule has run, so a second
      pass can still find a whole-word `MM`: `clean_text` is not idempotent. */
  lemma NotIdempotentAcrossLineBreaks()
    ensures CleanText(CleanText("M\nM")) != CleanText("M\nM")
  {
    CleanSplitMM();
    CleanMM();
  }
}
