/** The three text counters of ccwc (`getNumberOfLines`, `getNumberOfWords`,
    `getNumberOfChars`): each is the length of a `String.split` result, and each is
    characterized here by an independent description of the text. */
module Counters {
  import opened JavaStrings

  // ---------------------------------------------------------------------------
  // Lines: text.split("\n").length

  function LineCount(text: string): (n: nat)
  {
    |SplitOnChar(text, '\n')|
  }

  /** `s` without its trailing line feeds. */
  function TrimTrailingNewlines(s: string): (r: string)
    ensures |r| <= |s| && r == s[..|r|]
    ensures r == [] || r[|r| - 1] != '\n'
    ensures forall i :: |r| <= i < |s| ==> s[i] == '\n'
    decreases |s|
  {
    if s != [] && s[|s| - 1] == '\n' then TrimTrailingNewlines(s[..|s| - 1]) else s
  }

  /** Text whose last character is not a line feed has one line more than it has
      line feeds. */
  lemma LineCountNoTrailingNewline(s: string)
    requires s != [] && s[|s| - 1] != '\n'
    ensures LineCount(s) == Occurrences(s, '\n') + 1
  {
    if '\n' in s {
      FieldsLastNonEmpty(s, '\n');
      FieldsCount(s, '\n');
    }
  }

  /** Non-empty text made only of line feeds has no lines. */
  lemma LineCountOnlyNewlines(s: string)
    requires s != []
    requires forall i :: 0 <= i < |s| ==> s[i] == '\n'
    ensures LineCount(s) == 0
  {
    assert s[0] == '\n';
    FieldsOnlySeparators(s, '\n');
    DropTrailingEmptyAllEmpty(Fields(s, '\n'));
  }

  /** A trailing line feed adds nothing to non-empty text. */
  lemma LineCountTrailingNewline(s: string)
    requires s != []
    ensures LineCount(s + ['\n']) == LineCount(s)
  {
    if forall i :: 0 <= i < |s| ==> s[i] == '\n' {
      LineCountOnlyNewlines(s);
      LineCountOnlyNewlines(s + ['\n']);
    } else {
      FieldsAppend(s, [], '\n');
      assert s + ['\n'] + [] == s + ['\n'];
      assert '\n' in s + ['\n'];
      DropTrailingEmptyAppend(Fields(s, '\n'));
      if '\n' !in s {
        FieldsNoSeparator(s, '\n');
      }
    }
  }

  /** The line count in full: 1 for empty text, 0 for text of line feeds only, and
      otherwise one more than the line feeds that precede the last other character. */
  lemma {:induction false} LineCountCharacterized(s: string)
    ensures LineCount(s) ==
      if s == [] then 1
      else if TrimTrailingNewlines(s) == [] then 0
      else Occurrences(TrimTrailingNewlines(s), '\n') + 1
    decreases |s|
  {
    var t := TrimTrailingNewlines(s);
    if s == [] {
    } else if s[|s| - 1] != '\n' {
      LineCountNoTrailingNewline(s);
    } else if t == [] {
      LineCountOnlyNewlines(s);
    } else {
      var s' := s[..|s| - 1];
      assert s' + ['\n'] == s;
      assert TrimTrailingNewlines(s') == t;
      assert t[|t| - 1] != '\n' && t[|t| - 1] == s'[|t| - 1];
      LineCountTrailingNewline(s');
      LineCountCharacterized(s');
    }
  }

  /** Non-empty lines joined by line feeds count as that many lines, with or
      without a final line feed. */
  lemma LinesOfJoin(ls: seq<string>)
    requires ls != []
    requires forall k :: 0 <= k < |ls| ==> ls[k] != [] && '\n' !in ls[k]
    ensures LineCount(JoinWith(ls, '\n')) == |ls|
    ensures LineCount(JoinWith(ls, '\n') + ['\n']) == |ls|
  {
    var s := JoinWith(ls, '\n');
    FieldsJoinWith(ls, '\n');
    DropTrailingEmptyKeeps(ls);
    if '\n' !in s {
      FieldsNoSeparator(s, '\n');
    }
    JoinWithFields(s, '\n');
    assert s != [] && s[0] == ls[0][0] by {
      if |ls| > 1 {
        assert s == ls[0] + ['\n'] + JoinWith(ls[1..], '\n');
      }
    }
    LineCountTrailingNewline(s);
  }

  // ---------------------------------------------------------------------------
  // Words: text.split("\\s+").length

  function WordCount(text: string): (n: nat)
  {
    |SplitOnWhitespace(text)|
  }

  /** The maximal prefix of `s` free of whitespace. */
  function LeadingWord(s: string): (w: string)
    ensures |w| <= |s| && w == s[..|w|] && !HasWhitespace(w)
    ensures |w| < |s| ==> IsJavaWhitespace(s[|w|])
    ensures s != [] && !IsJavaWhitespace(s[0]) ==> |w| >= 1
    decreases |s|
  {
    if s == [] || IsJavaWhitespace(s[0]) then [] else [s[0]] + LeadingWord(s[1..])
  }

  /** The words of `s` as the conventional tool sees them: its maximal runs of
      non-whitespace characters, in order. */
  function Words(s: string): (ws: seq<string>)
    ensures forall k :: 0 <= k < |ws| ==> ws[k] != [] && !HasWhitespace(ws[k])
    ensures ws == [] ==> forall i :: 0 <= i < |s| ==> IsJavaWhitespace(s[i])
    decreases |s|
  {
    if s == [] then []
    else if IsJavaWhitespace(s[0]) then Words(s[1..])
    else
      var w := LeadingWord(s);
      [w] + Words(s[|w|..])
  }

  /** Text has no words exactly when it is made only of whitespace. */
  lemma {:induction false} WordsEmptyIffBlank(s: string)
    ensures Words(s) == [] <==> forall i :: 0 <= i < |s| ==> IsJavaWhitespace(s[i])
    decreases |s|
  {
    if s != [] && IsJavaWhitespace(s[0]) {
      WordsEmptyIffBlank(s[1..]);
      if forall i :: 0 <= i < |s| ==> IsJavaWhitespace(s[i]) {
        assert forall i :: 0 <= i < |s[1..]| ==> IsJavaWhitespace(s[1..][i]) by {
          forall i | 0 <= i < |s[1..]| ensures IsJavaWhitespace(s[1..][i]) {
            assert s[1..][i] == s[i + 1];
          }
        }
      }
    }
  }

  lemma {:induction false} WordsSkipWhitespace(s: string)
    ensures Words(DropLeadingWhitespace(s)) == Words(s)
    decreases |s|
  {
    if s != [] && IsJavaWhitespace(s[0]) {
      WordsSkipWhitespace(s[1..]);
    }
  }

  lemma {:induction false} LeadingWordAll(s: string)
    requires !HasWhitespace(s)
    ensures LeadingWord(s) == s
    decreases |s|
  {
    if s != [] {
      assert !IsJavaWhitespace(s[0]);
      assert !HasWhitespace(s[1..]) by {
        forall i | 0 <= i < |s[1..]| ensures !IsJavaWhitespace(s[1..][i]) {
          assert s[1..][i] == s[i + 1];
        }
      }
      LeadingWordAll(s[1..]);
    }
  }

  lemma {:induction false} LeadingWordPrefix(w: string, t: string)
    requires !HasWhitespace(w)
    requires t == [] || IsJavaWhitespace(t[0])
    ensures LeadingWord(w + t) == w
    decreases |w|
  {
    if w == [] {
      assert w + t == t;
    } else {
      assert !IsJavaWhitespace(w[0]);
      assert (w + t)[1..] == w[1..] + t;
      assert !HasWhitespace(w[1..]) by {
        forall i | 0 <= i < |w[1..]| ensures !IsJavaWhitespace(w[1..][i]) {
          assert w[1..][i] == w[i + 1];
        }
      }
      LeadingWordPrefix(w[1..], t);
      assert [w[0]] + w[1..] == w;
    }
  }

  /** A word followed by a whitespace character starts the word list. */
  lemma WordsCons(w: string, c: char, rest: string)
    requires w != [] && !HasWhitespace(w) && IsJavaWhitespace(c)
    ensures Words(w + [c] + rest) == [w] + Words(rest)
  {
    var s := w + [c] + rest;
    assert s == w + ([c] + rest);
    LeadingWordPrefix(w, [c] + rest);
    assert s[0] == w[0];
    assert s[|w|..] == [c] + rest;
    assert ([c] + rest)[1..] == rest;
  }

  /** A whitespace-free non-empty text is one word. */
  lemma WordsSingle(w: string)
    requires w != [] && !HasWhitespace(w)
    ensures Words(w) == [w]
  {
    LeadingWordAll(w);
    assert w[|w|..] == [];
  }

  /** Words joined by single spaces are read back as the same words, so their
      count is the number of words. */
  lemma {:induction false} WordsOfJoin(ws: seq<string>)
    requires ws != []
    requires forall k :: 0 <= k < |ws| ==> ws[k] != [] && !HasWhitespace(ws[k])
    ensures Words(JoinWith(ws, ' ')) == ws
    ensures WordCount(JoinWith(ws, ' ')) == |ws|
    decreases |ws|
  {
    var s := JoinWith(ws, ' ');
    if |ws| == 1 {
      WordsSingle(ws[0]);
    } else {
      WordsOfJoin(ws[1..]);
      WordsCons(ws[0], ' ', JoinWith(ws[1..], ' '));
      assert [ws[0]] + ws[1..] == ws;
    }
    assert s[0] == ws[0][0];
    WordCountCharacterized(s);
  }

  lemma NoWhitespaceTail(w: string)
    requires w != [] && !HasWhitespace(w)
    ensures !IsJavaWhitespace(w[0]) && !HasWhitespace(w[1..])
  {
    forall i | 0 <= i < |w[1..]| ensures !IsJavaWhitespace(w[1..][i]) {
      assert w[1..][i] == w[i + 1];
    }
  }

  /** A non-whitespace character joins the first field of what follows it. */
  lemma WhitespaceFieldsCons(c: char, r: string)
    requires !IsJavaWhitespace(c)
    ensures WhitespaceFields([c] + r) == [[c] + WhitespaceFields(r)[0]] + WhitespaceFields(r)[1..]
  {
    assert ([c] + r)[0] == c && ([c] + r)[1..] == r;
  }

  /** The fields of a whitespace-free prefix glued to the rest. */
  lemma {:induction false} WhitespaceFieldsPrefix(w: string, t: string)
    requires !HasWhitespace(w)
    ensures WhitespaceFields(w + t) ==
      [w + WhitespaceFields(t)[0]] + WhitespaceFields(t)[1..]
    decreases |w|
  {
    var f := WhitespaceFields(t);
    if w != [] {
      NoWhitespaceTail(w);
      assert w + t == [w[0]] + (w[1..] + t);
      WhitespaceFieldsCons(w[0], w[1..] + t);
      WhitespaceFieldsPrefix(w[1..], t);
      assert [w[0]] + (w[1..] + f[0]) == w + f[0];
    } else {
      assert w + t == t;
      assert w + f[0] == f[0];
      assert [f[0]] + f[1..] == f;
    }
  }

  /** Whether `s` is empty or ends in whitespace: then its last field is empty. */
  predicate EndsOpen(s: string) {
    s == [] || IsJavaWhitespace(s[|s| - 1])
  }

  /** One step of the word scan: the leading word, then the rest after the run of
      whitespace that ends it. */
  lemma WhitespaceFieldsStep(s: string)
    requires s != [] && !IsJavaWhitespace(s[0])
    ensures var w := LeadingWord(s);
      var t := s[|w|..];
      && s == w + t
      && (t == [] ==> WhitespaceFields(s) == [w] && Words(s) == [w])
      && (t != [] ==>
            && WhitespaceFields(s) == [w] + WhitespaceFields(DropLeadingWhitespace(t))
            && Words(s) == [w] + Words(DropLeadingWhitespace(t)))
  {
    var w := LeadingWord(s);
    var t := s[|w|..];
    assert s == w + t;
    WhitespaceFieldsPrefix(w, t);
    assert w + "" == w;
    if t != [] {
      assert t[0] == s[|w|];
      WordsSkipWhitespace(t);
    }
  }

  /** A text and what remains of it after a word and the following run of
      whitespace end alike. */
  lemma EndsOpenAfterRun(s: string, w: string, t: string)
    requires s == w + t && t != [] && IsJavaWhitespace(t[0])
    ensures EndsOpen(DropLeadingWhitespace(t)) == EndsOpen(s)
  {
    var u := DropLeadingWhitespace(t);
    assert s[|s| - 1] == t[|t| - 1];
    if u != [] {
      assert u[|u| - 1] == t[|t| - 1];
    }
  }

  lemma ConsAppend<T>(fs: seq<T>, ws: seq<T>, w: T, fu: seq<T>, wu: seq<T>, tail: seq<T>)
    requires fs == [w] + fu && ws == [w] + wu && fu == wu + tail
    ensures fs == ws + tail
  {
  }

  /** For text that does not start with whitespace, the fields are its words,
      followed by one empty field when the text is empty or ends in whitespace. */
  lemma {:induction false} WhitespaceFieldsWords(s: string)
    requires s == [] || !IsJavaWhitespace(s[0])
    ensures WhitespaceFields(s) == Words(s) + (if EndsOpen(s) then [""] else [])
    decreases |s|
  {
    if s != [] {
      WhitespaceFieldsStep(s);
      var w := LeadingWord(s);
      var t := s[|w|..];
      if t == [] {
        assert s[|s| - 1] == w[|w| - 1];
      } else {
        var u := DropLeadingWhitespace(t);
        WhitespaceFieldsWords(u);
        EndsOpenAfterRun(s, w, t);
        var tail: seq<string> := if EndsOpen(s) then [""] else [];
        ConsAppend(WhitespaceFields(s), Words(s), w, WhitespaceFields(u), Words(u), tail);
      }
    }
  }

  lemma WhitespaceFieldsLeadingRun(s: string)
    requires s != [] && IsJavaWhitespace(s[0])
    ensures WhitespaceFields(s) ==
      [""] + Words(s) + (if EndsOpen(DropLeadingWhitespace(s)) then [""] else [])
  {
    var u := DropLeadingWhitespace(s);
    var tail: seq<string> := if EndsOpen(u) then [""] else [];
    WordsSkipWhitespace(s);
    WhitespaceFieldsWords(u);
    ConsAppend(WhitespaceFields(s), [""] + Words(s), "", WhitespaceFields(u), Words(s), tail);
  }

  /** The fields of any text: one empty field for a leading run of whitespace,
      then the words, then one empty field when what follows that run is empty or
      ends in whitespace. */
  lemma WhitespaceFieldsShape(s: string)
    ensures WhitespaceFields(s) ==
      (if s != [] && IsJavaWhitespace(s[0]) then [""] else []) + Words(s)
      + (if EndsOpen(DropLeadingWhitespace(s)) then [""] else [])
  {
    if s != [] && IsJavaWhitespace(s[0]) {
      WhitespaceFieldsLeadingRun(s);
    } else {
      WhitespaceFieldsWords(s);
      assert DropLeadingWhitespace(s) == s;
      assert [] + Words(s) == Words(s);
    }
  }

  lemma SplitOnWhitespaceNone(s: string)
    requires s != [] && !HasWhitespace(s)
    ensures SplitOnWhitespace(s) == Words(s)
  {
    LeadingWordAll(s);
    assert s[|s|..] == [];
  }

  lemma SplitOnWhitespaceSome(s: string)
    requires HasWhitespace(s) && Words(s) != []
    ensures SplitOnWhitespace(s) == (if IsJavaWhitespace(s[0]) then [""] else []) + Words(s)
  {
    var lead: seq<string> := if IsJavaWhitespace(s[0]) then [""] else [];
    var tail: seq<string> := if EndsOpen(DropLeadingWhitespace(s)) then [""] else [];
    var ws := Words(s);
    WhitespaceFieldsShape(s);
    assert ws[|ws| - 1] != "";
    DropTrailingEmptyOfNonEmpty(lead, ws, tail);
  }

  lemma SplitOnWhitespaceBlank(s: string)
    requires s != [] && forall i :: 0 <= i < |s| ==> IsJavaWhitespace(s[i])
    ensures SplitOnWhitespace(s) == []
  {
    assert HasWhitespace(s) by {
      assert IsJavaWhitespace(s[0]);
    }
    var u := DropLeadingWhitespace(s);
    assert u == [];
    assert WhitespaceFields(s) == [""] + WhitespaceFields(u);
    assert WhitespaceFields(s) == ["", ""];
    assert DropTrailingEmpty(["", ""]) == DropTrailingEmpty([""]);
    assert DropTrailingEmpty([""]) == DropTrailingEmpty([]);
  }

  /** `text.split("\\s+")` in terms of the words: empty text gives one empty piece,
      text of whitespace only gives none, and otherwise the pieces are the words,
      preceded by one empty piece exactly when the text starts with whitespace. */
  lemma SplitOnWhitespaceWords(s: string)
    ensures s == [] ==> SplitOnWhitespace(s) == [""]
    ensures s != [] && Words(s) == [] ==> SplitOnWhitespace(s) == []
    ensures Words(s) != [] ==>
      SplitOnWhitespace(s) == (if IsJavaWhitespace(s[0]) then [""] else []) + Words(s)
  {
    if s != [] && Words(s) == [] {
      SplitOnWhitespaceBlank(s);
    } else if s != [] && !HasWhitespace(s) {
      SplitOnWhitespaceNone(s);
    } else if s != [] {
      SplitOnWhitespaceSome(s);
    }
  }

  /** The word count in full: 1 for empty text, 0 for whitespace-only text, and
      otherwise the number of words plus one when the text starts with whitespace. */
  lemma WordCountCharacterized(s: string)
    ensures WordCount(s) ==
      if s == [] then 1
      else if Words(s) == [] then 0
      else |Words(s)| + (if IsJavaWhitespace(s[0]) then 1 else 0)
  {
    SplitOnWhitespaceWords(s);
  }

  lemma {:induction false} DropLeadingWhitespaceSkipsRun(run: string, b: string)
    requires forall i :: 0 <= i < |run| ==> IsJavaWhitespace(run[i])
    ensures DropLeadingWhitespace(run + b) == DropLeadingWhitespace(b)
    decreases |run|
  {
    if run != [] {
      assert (run + b)[1..] == run[1..] + b;
      DropLeadingWhitespaceSkipsRun(run[1..], b);
    } else {
      assert run + b == b;
    }
  }

  lemma {:induction false} DropLeadingWhitespaceAppend(a: string, t: string)
    requires DropLeadingWhitespace(a) != []
    ensures DropLeadingWhitespace(a + t) == DropLeadingWhitespace(a) + t
    decreases |a|
  {
    assert a != [] && (a + t)[0] == a[0];
    if IsJavaWhitespace(a[0]) {
      assert (a + t)[1..] == a[1..] + t;
      assert DropLeadingWhitespace(a) == DropLeadingWhitespace(a[1..]);
      assert DropLeadingWhitespace(a + t) == DropLeadingWhitespace(a[1..] + t);
      DropLeadingWhitespaceAppend(a[1..], t);
    } else {
      assert DropLeadingWhitespace(a) == a;
    }
  }

  /** When everything before the run is whitespace too, both texts lose their
      whole leading run and leave the same rest. */
  lemma {:induction false} WhitespaceFieldsCollapseLeading(a: string, run: string, b: string)
    requires run != []
    requires forall i :: 0 <= i < |run| ==> IsJavaWhitespace(run[i])
    requires forall i :: 0 <= i < |a| ==> IsJavaWhitespace(a[i])
    ensures WhitespaceFields(a + run + b) == WhitespaceFields(a + [' '] + b)
  {
    var x, y := a + run, a + [' '];
    assert forall i :: 0 <= i < |x| ==> IsJavaWhitespace(x[i]) by {
      forall i | 0 <= i < |x| ensures IsJavaWhitespace(x[i]) {
        if i >= |a| { assert x[i] == run[i - |a|]; }
      }
    }
    assert forall i :: 0 <= i < |y| ==> IsJavaWhitespace(y[i]);
    DropLeadingWhitespaceSkipsRun(x, b);
    DropLeadingWhitespaceSkipsRun(y, b);
    assert (x + b)[0] == x[0];
    assert (y + b)[0] == y[0];
    assert WhitespaceFields(x + b) == [""] + WhitespaceFields(DropLeadingWhitespace(b));
    assert WhitespaceFields(y + b) == [""] + WhitespaceFields(DropLeadingWhitespace(b));
  }

  /** When the text starts with whitespace but something else comes before the
      run, both texts lose the same leading run. */
  lemma WhitespaceFieldsCollapseDrop(a: string, mid: string, b: string)
    requires a != [] && IsJavaWhitespace(a[0]) && DropLeadingWhitespace(a) != []
    ensures WhitespaceFields(a + mid + b) ==
      [""] + WhitespaceFields(DropLeadingWhitespace(a) + mid + b)
  {
    DropLeadingWhitespaceAppend(a, mid + b);
    assert a + mid + b == a + (mid + b);
    assert DropLeadingWhitespace(a) + (mid + b) == DropLeadingWhitespace(a) + mid + b;
    assert (a + mid + b)[0] == a[0];
  }

  /** Replacing any non-empty stretch of whitespace by one space leaves the fields
      of a whitespace split unchanged. */
  lemma {:induction false} WhitespaceFieldsCollapse(a: string, run: string, b: string)
    requires run != []
    requires forall i :: 0 <= i < |run| ==> IsJavaWhitespace(run[i])
    ensures WhitespaceFields(a + run + b) == WhitespaceFields(a + [' '] + b)
    decreases |a|
  {
    if DropLeadingWhitespace(a) == [] {
      WhitespaceFieldsCollapseLeading(a, run, b);
    } else if IsJavaWhitespace(a[0]) {
      WhitespaceFieldsCollapseDrop(a, run, b);
      WhitespaceFieldsCollapseDrop(a, [' '], b);
      WhitespaceFieldsCollapse(DropLeadingWhitespace(a), run, b);
    } else {
      assert (a + run + b)[1..] == a[1..] + run + b;
      assert (a + [' '] + b)[1..] == a[1..] + [' '] + b;
      WhitespaceFieldsCollapse(a[1..], run, b);
    }
  }

  /** Collapsing any stretch of whitespace to a single space changes neither the
      pieces of the whitespace split nor, therefore, the word count. */
  lemma WordCountCollapse(a: string, run: string, b: string)
    requires run != []
    requires forall i :: 0 <= i < |run| ==> IsJavaWhitespace(run[i])
    ensures SplitOnWhitespace(a + run + b) == SplitOnWhitespace(a + [' '] + b)
    ensures WordCount(a + run + b) == WordCount(a + [' '] + b)
  {
    WhitespaceFieldsCollapse(a, run, b);
    assert (a + run + b)[|a|] == run[0];
    assert (a + [' '] + b)[|a|] == ' ';
  }

  // ---------------------------------------------------------------------------
  // Chars: text.split("").length

  /** One piece per character for non-empty text; the empty text is one piece. */
  function CharCount(text: string): (n: nat)
    ensures text != [] ==> n == |text|
    ensures text == [] ==> n == 1
  {
    |SplitEmpty(text)|
  }
}
