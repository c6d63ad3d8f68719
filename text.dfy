/** The text normaliser `clean_text` of `clean_watch_data`
    (src/watchfinder_scraper.py:50-59) and the Python string primitives it
    and the extractor rely on (`str.strip`, `\s`, `\b`, deleting characters).

    `clean_text` runs four steps in this order:
      1. every whole-word `MM` becomes `mm`          (`re.sub(r'\bMM\b', 'mm', …)`)
      2. every whole-word `metres` becomes `m`       (`re.sub(r'\bmetres\b', 'm', …)`)
      3. every `\r` and `\n` is deleted
      4. every run of whitespace becomes one space, then both ends are stripped.

    Word characters are the ASCII letters, digits and `_`. For a word `w` made of
    word characters, `\bw\b` matches exactly where a maximal run of word
    characters equals `w`, so the substitutions are defined run by run and their
    effect is described through `Runs`, the sequence of those maximal runs. */
module Text {
  /** Python's `\s` and `str.isspace()` (they agree on every character). */
  predicate IsSpace(c: char)
  {
    || ('\t' <= c <= '\r')
    || ('\U{1C}' <= c <= '\U{1F}')
    || c == ' ' || c == '\U{85}' || c == '\U{A0}' || c == '\U{1680}'
    || ('\U{2000}' <= c <= '\U{200A}')
    || c == '\U{2028}' || c == '\U{2029}' || c == '\U{202F}' || c == '\U{205F}' || c == '\U{3000}'
  }

  /** The characters of `\w` (ASCII only). */
  predicate IsWordChar(c: char)
  {
    ('a' <= c <= 'z') || ('A' <= c <= 'Z') || ('0' <= c <= '9') || c == '_'
  }

  /** A non-empty string made only of word characters. */
  ghost predicate IsWord(s: string)
  {
    |s| > 0 && forall i :: 0 <= i < |s| ==> IsWordChar(s[i])
  }

  /** Length of the maximal run of word characters that starts `s`. */
  function WordRunLen(s: string): (n: nat)
    ensures n <= |s|
    ensures forall i :: 0 <= i < n ==> IsWordChar(s[i])
    ensures n < |s| ==> !IsWordChar(s[n])
  {
    if s != [] && IsWordChar(s[0]) then 1 + WordRunLen(s[1..]) else 0
  }

  /** Length of the maximal run of whitespace that starts `s`. */
  function SpaceRunLen(s: string): (n: nat)
    ensures n <= |s|
    ensures forall i :: 0 <= i < n ==> IsSpace(s[i])
    ensures n < |s| ==> !IsSpace(s[n])
  {
    if s != [] && IsSpace(s[0]) then 1 + SpaceRunLen(s[1..]) else 0
  }

  /** Length of the maximal run of whitespace that ends `s`. */
  function TrailingSpaceLen(s: string): (n: nat)
    ensures n <= |s|
    ensures forall i :: |s| - n <= i < |s| ==> IsSpace(s[i])
    ensures n < |s| ==> !IsSpace(s[|s| - 1 - n])
  {
    if s != [] && IsSpace(s[|s| - 1]) then 1 + TrailingSpaceLen(s[..|s| - 1]) else 0
  }

  /** Python's `str.strip()`: `s` without its leading and trailing whitespace. */
  function Strip(s: string): (r: string)
    ensures r == [] || (!IsSpace(r[0]) && !IsSpace(r[|r| - 1]))
    ensures SpaceRunLen(s) + |r| <= |s| && r == s[SpaceRunLen(s)..SpaceRunLen(s) + |r|]
    ensures forall i :: 0 <= i < |s| && !(SpaceRunLen(s) <= i < SpaceRunLen(s) + |r|) ==> IsSpace(s[i])
  {
    var t := s[SpaceRunLen(s)..];
    t[..|t| - TrailingSpaceLen(t)]
  }

  /** `s` with every character of `drop` deleted (chained `str.replace(c, '')`
      calls, or `re.sub('[…]', '', s)`). */
  function Without(s: string, drop: set<char>): string
  {
    if s == [] then [] else (if s[0] in drop then [] else [s[0]]) + Without(s[1..], drop)
  }

  /** Step 3: `text.replace('\r', '').replace('\n', '')`. */
  function RemoveLineBreaks(s: string): string
  {
    Without(s, {'\r', '\n'})
  }

  /** Steps 1 and 2: `re.sub(r'\bw\b', r, s)` for a word `w`: every maximal run of
      word characters equal to `w` becomes `r`; everything else is copied. */
  function ReplaceWord(s: string, w: string, r: string): string
    decreases |s|
  {
    if s == [] then []
    else if IsWordChar(s[0]) then
      var n := WordRunLen(s);
      (if s[..n] == w then r else s[..n]) + ReplaceWord(s[n..], w, r)
    else [s[0]] + ReplaceWord(s[1..], w, r)
  }

  /** Step 4, first half: `re.sub(r'\s+', ' ', s)`. */
  function CollapseWhitespace(s: string): string
    decreases |s|
  {
    if s == [] then []
    else if IsSpace(s[0]) then [' '] + CollapseWhitespace(s[SpaceRunLen(s)..])
    else [s[0]] + CollapseWhitespace(s[1..])
  }

  /** `clean_text` (src/watchfinder_scraper.py:50-59). */
  function CleanText(s: string): string
  {
    var s1 := ReplaceWord(s, "MM", "mm");
    var s2 := ReplaceWord(s1, "metres", "m");
    var s3 := RemoveLineBreaks(s2);
    Strip(CollapseWhitespace(s3))
  }

  // ---------------------------------------------------------------------------
  // Specification vocabulary

  /** The maximal runs of word characters of `s`, left to right: exactly the
      places where `\bw\b` can match a word `w`. */
  ghost function Runs(s: string): seq<string>
    decreases |s|
  {
    if s == [] then []
    else if IsWordChar(s[0]) then [s[..WordRunLen(s)]] + Runs(s[WordRunLen(s)..])
    else Runs(s[1..])
  }

  /** `rs` with every run equal to `w` replaced by `r`. */
  ghost function MapRuns(rs: seq<string>, w: string, r: string): (m: seq<string>)
    ensures |m| == |rs|
  {
    if rs == [] then [] else [if rs[0] == w then r else rs[0]] + MapRuns(rs[1..], w, r)
  }

  /** Every whitespace character is a plain space and no two are adjacent. */
  ghost predicate Collapsed(s: string)
  {
    forall i :: 0 <= i < |s| && IsSpace(s[i]) ==> s[i] == ' ' && (i + 1 < |s| ==> !IsSpace(s[i + 1]))
  }

  ghost predicate Trimmed(s: string)
  {
    s == [] || (!IsSpace(s[0]) && !IsSpace(s[|s| - 1]))
  }

  /** What `clean_text` leaves behind on input without line breaks. */
  ghost predicate IsClean(s: string)
  {
    Collapsed(s) && Trimmed(s) && "MM" !in Runs(s) && "metres" !in Runs(s)
  }

  // ---------------------------------------------------------------------------
  // Runs of word characters

  lemma WordRunOfWordThen(x: string, y: string)
    requires forall i :: 0 <= i < |x| ==> IsWordChar(x[i])
    requires y == [] || !IsWordChar(y[0])
    ensures WordRunLen(x + y) == |x|
  {
    if x != [] {
      assert (x + y)[1..] == x[1..] + y;
      WordRunOfWordThen(x[1..], y);
    }
  }

  lemma RunsWordThen(x: string, y: string)
    requires IsWord(x)
    requires y == [] || !IsWordChar(y[0])
    ensures Runs(x + y) == [x] + Runs(y)
  {
    WordRunOfWordThen(x, y);
    assert (x + y)[..|x|] == x;
    assert (x + y)[|x|..] == y;
  }

  lemma {:induction false} RunsNonWordThen(x: string, y: string)
    requires forall i :: 0 <= i < |x| ==> !IsWordChar(x[i])
    ensures Runs(x + y) == Runs(y)
  {
    if x == [] {
      assert x + y == y;
    } else {
      assert (x + y)[0] == x[0];
      assert (x + y)[1..] == x[1..] + y;
      RunsNonWordThen(x[1..], y);
    }
  }

  lemma {:induction false} RunsThenNonWord(x: string, y: string)
    requires forall i :: 0 <= i < |y| ==> !IsWordChar(y[i])
    ensures Runs(x + y) == Runs(x)
    decreases |x|
  {
    if x == [] {
      RunsNonWordThen(y, []);
      assert y + [] == y;
      assert x + y == y;
    } else if IsWordChar(x[0]) {
      var n := WordRunLen(x);
      var u, v := x[..n], x[n..];
      assert x == u + v;
      assert x + y == u + (v + y);
      RunsThenNonWord(v, y);
      RunsWordThen(u, v + y);
      RunsWordThen(u, v);
    } else {
      assert (x + y)[1..] == x[1..] + y;
      RunsThenNonWord(x[1..], y);
    }
  }

  // ---------------------------------------------------------------------------
  // Steps 1 and 2

  /** Whole-word substitution rewrites exactly the runs equal to `w`. */
  lemma {:induction false} ReplaceWordRuns(s: string, w: string, r: string)
    requires IsWord(r)
    ensures Runs(ReplaceWord(s, w, r)) == MapRuns(Runs(s), w, r)
    decreases |s|
  {
    if s != [] {
      if IsWordChar(s[0]) {
        var n := WordRunLen(s);
        var u, rest := s[..n], s[n..];
        var v := if u == w then r else u;
        ReplaceWordRuns(rest, w, r);
        RunsWordThen(v, ReplaceWord(rest, w, r));
        assert s == u + rest;
      } else {
        ReplaceWordRuns(s[1..], w, r);
      }
    }
  }

  /** Without a whole-word occurrence of `w` the substitution changes nothing. */
  lemma {:induction false} ReplaceWordAbsent(s: string, w: string, r: string)
    requires w !in Runs(s)
    ensures ReplaceWord(s, w, r) == s
    decreases |s|
  {
    if s != [] {
      if IsWordChar(s[0]) {
        var n := WordRunLen(s);
        ReplaceWordAbsent(s[n..], w, r);
        assert s == s[..n] + s[n..];
      } else {
        ReplaceWordAbsent(s[1..], w, r);
      }
    }
  }

  /** The substitution only brings in characters of `r`. */
  lemma {:induction false} ReplaceWordChars(s: string, w: string, r: string)
    ensures forall c :: c in ReplaceWord(s, w, r) ==> c in s || c in r
    decreases |s|
  {
    if s != [] {
      if IsWordChar(s[0]) {
        var n := WordRunLen(s);
        ReplaceWordChars(s[n..], w, r);
        assert s == s[..n] + s[n..];
      } else {
        ReplaceWordChars(s[1..], w, r);
      }
    }
  }

  /** `MM` -> `mm` changes no length and only turns some `M` into `m`; together with
      ReplaceWordRuns it says that exactly the whole-word `MM`s are lowered. */
  lemma {:induction false} ReplaceMMPointwise(s: string)
    ensures |ReplaceWord(s, "MM", "mm")| == |s|
    ensures forall i :: 0 <= i < |s| ==>
      ReplaceWord(s, "MM", "mm")[i] == s[i] || (s[i] == 'M' && ReplaceWord(s, "MM", "mm")[i] == 'm')
    decreases |s|
  {
    if s != [] {
      var out := ReplaceWord(s, "MM", "mm");
      if IsWordChar(s[0]) {
        var n := WordRunLen(s);
        var u, rest := s[..n], s[n..];
        var v := if u == "MM" then "mm" else u;
        ReplaceMMPointwise(rest);
        var tail := ReplaceWord(rest, "MM", "mm");
        assert out == v + tail;
        forall i | 0 <= i < |s|
          ensures out[i] == s[i] || (s[i] == 'M' && out[i] == 'm')
        {
          if i < n {
            assert out[i] == v[i] && s[i] == u[i];
          } else {
            assert out[i] == tail[i - n] && s[i] == rest[i - n];
          }
        }
      } else {
        ReplaceMMPointwise(s[1..]);
      }
    }
  }

  lemma ReplaceWordWordThen(x: string, y: string, w: string, r: string)
    requires IsWord(x)
    requires y == [] || !IsWordChar(y[0])
    ensures ReplaceWord(x + y, w, r) == (if x == w then r else x) + ReplaceWord(y, w, r)
  {
    WordRunOfWordThen(x, y);
    assert (x + y)[..|x|] == x;
    assert (x + y)[|x|..] == y;
  }

  lemma ReplaceWordNonWordThen(c: char, y: string, w: string, r: string)
    requires !IsWordChar(c)
    ensures ReplaceWord([c] + y, w, r) == [c] + ReplaceWord(y, w, r)
  {
    assert ([c] + y)[1..] == y;
  }

  lemma {:induction false} MapRunsMembers(rs: seq<string>, w: string, r: string)
    ensures forall x :: x in MapRuns(rs, w, r) ==> x == r || (x in rs && x != w)
  {
    if rs != [] {
      MapRunsMembers(rs[1..], w, r);
    }
  }

  // ---------------------------------------------------------------------------
  // Step 4

  lemma {:induction false} CollapseWordPrefix(s: string)
    ensures CollapseWhitespace(s) == s[..WordRunLen(s)] + CollapseWhitespace(s[WordRunLen(s)..])
  {
    var n := WordRunLen(s);
    if n > 0 {
      var t := s[1..];
      calc {
        CollapseWhitespace(s);
        { WordIsNotSpace(s[0]); }
        [s[0]] + CollapseWhitespace(t);
        { assert n - 1 == WordRunLen(t); CollapseWordPrefix(t); }
        [s[0]] + (t[..n - 1] + CollapseWhitespace(t[n - 1..]));
        { assert t[..n - 1] == s[1..n] && t[n - 1..] == s[n..]; }
        [s[0]] + (s[1..n] + CollapseWhitespace(s[n..]));
        { assert s[..n] == [s[0]] + s[1..n]; }
        s[..n] + CollapseWhitespace(s[n..]);
      }
    } else {
      assert s[..n] + CollapseWhitespace(s[n..]) == CollapseWhitespace(s);
    }
  }

  lemma WordIsNotSpace(c: char)
    requires IsWordChar(c)
    ensures !IsSpace(c)
  {
  }

  /** Collapsing whitespace keeps every run of word characters. */
  lemma {:induction false} CollapseRuns(s: string)
    ensures Runs(CollapseWhitespace(s)) == Runs(s)
    decreases |s|
  {
    if s != [] {
      if IsWordChar(s[0]) {
        var n := WordRunLen(s);
        var w, rest := s[..n], s[n..];
        calc {
          Runs(CollapseWhitespace(s));
          { CollapseWordPrefix(s); }
          Runs(w + CollapseWhitespace(rest));
          { RunsWordThen(w, CollapseWhitespace(rest)); }
          [w] + Runs(CollapseWhitespace(rest));
          { CollapseRuns(rest); }
          [w] + Runs(rest);
          { RunsWordThen(w, rest); assert s == w + rest; }
          Runs(s);
        }
      } else if IsSpace(s[0]) {
        var k := SpaceRunLen(s);
        calc {
          Runs(CollapseWhitespace(s));
          Runs([' '] + CollapseWhitespace(s[k..]));
          Runs(CollapseWhitespace(s[k..]));
          { CollapseRuns(s[k..]); }
          Runs(s[k..]);
          { forall i | 0 <= i < k ensures !IsWordChar(s[..k][i]) { SpaceIsNotWord(s[i]); }
            RunsNonWordThen(s[..k], s[k..]);
            assert s == s[..k] + s[k..]; }
          Runs(s);
        }
      } else {
        CollapseRuns(s[1..]);
      }
    }
  }

  lemma CollapsedCons(c: char, t: string)
    requires Collapsed(t)
    requires IsSpace(c) ==> c == ' ' && (t == [] || !IsSpace(t[0]))
    ensures Collapsed([c] + t)
  {
    var s := [c] + t;
    forall i | 0 <= i < |s| && IsSpace(s[i])
      ensures s[i] == ' ' && (i + 1 < |s| ==> !IsSpace(s[i + 1]))
    {
      if i > 0 {
        assert s[i] == t[i - 1];
        if i + 1 < |s| { assert s[i + 1] == t[i]; }
      }
    }
  }

  /** `re.sub(r'\s+', ' ', s)` leaves only single plain spaces. */
  lemma {:induction false} CollapseIsCollapsed(s: string)
    ensures Collapsed(CollapseWhitespace(s))
    decreases |s|
  {
    if s != [] {
      if IsSpace(s[0]) {
        var k := SpaceRunLen(s);
        CollapseIsCollapsed(s[k..]);
        CollapsedCons(' ', CollapseWhitespace(s[k..]));
      } else {
        CollapseIsCollapsed(s[1..]);
        CollapsedCons(s[0], CollapseWhitespace(s[1..]));
      }
    }
  }

  lemma {:induction false} CollapseOfCollapsed(s: string)
    requires Collapsed(s)
    ensures CollapseWhitespace(s) == s
    decreases |s|
  {
    if s != [] {
      assert Collapsed(s[1..]) by {
        forall i | 0 <= i < |s[1..]| && IsSpace(s[1..][i])
          ensures s[1..][i] == ' ' && (i + 1 < |s[1..]| ==> !IsSpace(s[1..][i + 1]))
        {
          assert s[1..][i] == s[i + 1];
        }
      }
      if IsSpace(s[0]) {
        assert SpaceRunLen(s) == 1;
      }
      CollapseOfCollapsed(s[1..]);
    }
  }

  lemma CollapsedSlice(s: string, a: nat, b: nat)
    requires a <= b <= |s| && Collapsed(s)
    ensures Collapsed(s[a..b])
  {
    var t := s[a..b];
    forall i | 0 <= i < |t| && IsSpace(t[i])
      ensures t[i] == ' ' && (i + 1 < |t| ==> !IsSpace(t[i + 1]))
    {
      assert t[i] == s[a + i];
      if i + 1 < |t| { assert t[i + 1] == s[a + i + 1]; }
    }
  }

  lemma StripRuns(s: string)
    ensures Runs(Strip(s)) == Runs(s)
  {
    var a := SpaceRunLen(s);
    var t := s[a..];
    var m := |t| - TrailingSpaceLen(t);
    assert Strip(s) == t[..m];
    assert s == s[..a] + t;
    forall i | 0 <= i < a ensures !IsWordChar(s[..a][i]) {
      SpaceIsNotWord(s[i]);
    }
    RunsNonWordThen(s[..a], t);
    assert t == t[..m] + t[m..];
    forall i | 0 <= i < |t[m..]| ensures !IsWordChar(t[m..][i]) {
      assert t[m..][i] == t[m + i];
      SpaceIsNotWord(t[m + i]);
    }
    RunsThenNonWord(t[..m], t[m..]);
  }

  lemma SpaceIsNotWord(c: char)
    requires IsSpace(c)
    ensures !IsWordChar(c)
  {
  }

  lemma StripOfTrimmed(s: string)
    requires Trimmed(s)
    ensures Strip(s) == s
  {
    if s != [] {
      assert SpaceRunLen(s) == 0;
      assert TrailingSpaceLen(s) == 0;
    }
  }

  /** `Without` keeps exactly the characters of `s` outside `drop`. */
  lemma {:induction false} WithoutMembers(s: string, drop: set<char>)
    ensures forall c :: c in Without(s, drop) <==> c in s && c !in drop
  {
    if s != [] {
      WithoutMembers(s[1..], drop);
      assert s == [s[0]] + s[1..];
      forall c
        ensures c in Without(s, drop) <==> c in s && c !in drop
      {
        assert c in s <==> c == s[0] || c in s[1..];
      }
    }
  }

  /** Deleting characters that do not occur changes nothing. */
  lemma {:induction false} WithoutAbsent(s: string, drop: set<char>)
    requires forall c :: c in drop ==> c !in s
    ensures Without(s, drop) == s
  {
    if s != [] {
      assert s[0] in s;
      WithoutAbsent(s[1..], drop);
    }
  }

  /** Deleting characters distributes over concatenation. */
  lemma {:induction false} WithoutAppend(x: string, y: string, drop: set<char>)
    ensures Without(x + y, drop) == Without(x, drop) + Without(y, drop)
  {
    if x != [] {
      assert (x + y)[0] == x[0];
      assert (x + y)[1..] == x[1..] + y;
      WithoutAppend(x[1..], y, drop);
    }
    else {
      assert x + y == y;
    }
  }

  lemma RemoveLineBreaksOfPlain(s: string)
    requires '\r' !in s && '\n' !in s
    ensures RemoveLineBreaks(s) == s
  {
    WithoutAbsent(s, {'\r', '\n'});
  }

  // ---------------------------------------------------------------------------
  // clean_text

  /** The output of `clean_text` has no line breaks, no whitespace at either end,
      no whitespace other than single plain spaces, so never two whitespace
      characters in a row. */
  lemma CleanTextShape(s: string)
    ensures '\r' !in CleanText(s) && '\n' !in CleanText(s)
    ensures Trimmed(CleanText(s)) && Collapsed(CleanText(s))
    ensures forall i :: 0 <= i < |CleanText(s)| - 1 ==> !(IsSpace(CleanText(s)[i]) && IsSpace(CleanText(s)[i + 1]))
  {
    var c := CollapseWhitespace(RemoveLineBreaks(ReplaceWord(ReplaceWord(s, "MM", "mm"), "metres", "m")));
    CollapseIsCollapsed(RemoveLineBreaks(ReplaceWord(ReplaceWord(s, "MM", "mm"), "metres", "m")));
    var a := SpaceRunLen(c);
    CollapsedSlice(c, a, a + |Strip(c)|);
    var r := CleanText(s);
    assert r == Strip(c);
    forall i | 0 <= i < |r| ensures r[i] != '\r' && r[i] != '\n' {
      assert IsSpace(r[i]) ==> r[i] == ' ';
    }
  }

  /** On input without line breaks, the word runs of the output are those of the
      input with whole-word `MM` lowered and whole-word `metres` shortened. */
  lemma CleanTextRuns(s: string)
    requires '\r' !in s && '\n' !in s
    ensures Runs(CleanText(s)) == MapRuns(MapRuns(Runs(s), "MM", "mm"), "metres", "m")
  {
    var s1 := ReplaceWord(s, "MM", "mm");
    var s2 := ReplaceWord(s1, "metres", "m");
    assert '\r' !in s1 && '\n' !in s1 by { ReplaceWordChars(s, "MM", "mm"); }
    assert '\r' !in s2 && '\n' !in s2 by { ReplaceWordChars(s1, "metres", "m"); }
    calc {
      Runs(CleanText(s));
      { RemoveLineBreaksOfPlain(s2); }
      Runs(Strip(CollapseWhitespace(s2)));
      { StripRuns(CollapseWhitespace(s2)); }
      Runs(CollapseWhitespace(s2));
      { CollapseRuns(s2); }
      Runs(s2);
      { ReplaceWordRuns(s1, "metres", "m"); }
      MapRuns(Runs(s1), "metres", "m");
      { ReplaceWordRuns(s, "MM", "mm"); }
      MapRuns(MapRuns(Runs(s), "MM", "mm"), "metres", "m");
    }
  }

  /** `clean_text` maps input without line breaks to a clean string. */
  lemma CleanTextIsClean(s: string)
    requires '\r' !in s && '\n' !in s
    ensures IsClean(CleanText(s))
  {
    CleanTextShape(s);
    CleanTextRuns(s);
    var rs1 := MapRuns(Runs(s), "MM", "mm");
    MapRunsMembers(Runs(s), "MM", "mm");
    MapRunsMembers(rs1, "metres", "m");
  }

  /** A clean string is a fixed point of `clean_text`. */
  lemma CleanTextFixpoint(t: string)
    requires IsClean(t)
    ensures CleanText(t) == t
  {
    ReplaceWordAbsent(t, "MM", "mm");
    ReplaceWordAbsent(t, "metres", "m");
    assert '\r' !in t && '\n' !in t by {
      forall i | 0 <= i < |t| ensures t[i] != '\r' && t[i] != '\n' {
        assert IsSpace(t[i]) ==> t[i] == ' ';
      }
    }
    RemoveLineBreaksOfPlain(t);
    CollapseOfCollapsed(t);
    StripOfTrimmed(t);
  }

  /** On a collapsed, trimmed string without a whole-word `metres`, `clean_text`
      does nothing but lower the whole-word `MM`s. */
  lemma CleanTextOnlyLowersMM(s: string)
    requires Collapsed(s) && Trimmed(s) && "metres" !in Runs(s)
    ensures CleanText(s) == ReplaceWord(s, "MM", "mm")
  {
    var s1 := ReplaceWord(s, "MM", "mm");
    ReplaceWordRuns(s, "MM", "mm");
    MapRunsMembers(Runs(s), "MM", "mm");
    ReplaceWordAbsent(s1, "metres", "m");
    ReplaceMMPointwise(s);
    assert Collapsed(s1) by {
      forall i | 0 <= i < |s1| && IsSpace(s1[i])
        ensures s1[i] == ' ' && (i + 1 < |s1| ==> !IsSpace(s1[i + 1]))
      {
        assert s1[i] == s[i];
        if i + 1 < |s1| { assert s1[i + 1] == s[i + 1] || s1[i + 1] == 'm'; }
      }
    }
    assert Trimmed(s1) by {
      if s1 != [] {
        assert s1[0] == s[0] || s1[0] == 'm';
        assert s1[|s1| - 1] == s[|s| - 1] || s1[|s1| - 1] == 'm';
      }
    }
    assert '\r' !in s1 && '\n' !in s1 by {
      forall i | 0 <= i < |s1| ensures s1[i] != '\r' && s1[i] != '\n' {
        assert IsSpace(s1[i]) ==> s1[i] == ' ';
      }
    }
    RemoveLineBreaksOfPlain(s1);
    CollapseOfCollapsed(s1);
    StripOfTrimmed(s1);
  }

  /** `clean_text` is idempotent on input without line breaks. */
  lemma CleanTextIdempotent(s: string)
    requires '\r' !in s && '\n' !in s
    ensures CleanText(CleanText(s)) == CleanText(s)
  {
    CleanTextIsClean(s);
    CleanTextFixpoint(CleanText(s));
  }
}
