/** The ccwc command object (`com.kroka.Main`): its four count flags and the file
    name, the default selection, the response list in the fixed order lines, words,
    bytes, chars, and the outcome of one invocation.  Reading the input is outside
    the model: an invocation is given either the bytes read together with their
    decoding as text, or the failure of the read. */
module Ccwc {
  import opened JavaStrings
  import opened Counters

  type byte = bv8

  datatype Option<T> = None | Some(value: T)

  /** The values of the four flags `-c`, `-m`, `-w`, `-l`. */
  datatype Selection = Selection(bytes: bool, chars: bool, words: bool, lines: bool)

  /** What the read produced: the raw bytes and the text they decode to, or an
      I/O failure. */
  datatype ReadResult = Read(data: seq<byte>, text: string) | IOFailure

  /** The exit code and the line printed, if any (without its line terminator). */
  datatype Outcome = Outcome(exitCode: int, line: Option<string>)

  predicate NoneSelected(sel: Selection) {
    !sel.bytes && !sel.chars && !sel.words && !sel.lines
  }

  /** The selection used when no flag is given: lines, words and bytes. */
  const DefaultSelection := Selection(bytes := true, chars := false, words := true, lines := true)

  /** The effective flags: the defaults when no flag was given, otherwise the flags
      as given. */
  function ResolveDefaults(sel: Selection): (r: Selection)
    ensures NoneSelected(sel) ==> r.lines && r.words && r.bytes && !r.chars
    ensures !NoneSelected(sel) ==> r == sel
    ensures !NoneSelected(r)
  {
    if NoneSelected(sel) then DefaultSelection else sel
  }

  // ---------------------------------------------------------------------------
  // The response list.

  datatype Metric = CountLines | CountWords | CountBytes | CountChars

  /** The order in which counts are reported. */
  const CanonicalOrder: seq<Metric> := [CountLines, CountWords, CountBytes, CountChars]

  function Rank(m: Metric): nat {
    match m
    case CountLines => 0
    case CountWords => 1
    case CountBytes => 2
    case CountChars => 3
  }

  predicate Enabled(sel: Selection, m: Metric) {
    match m
    case CountLines => sel.lines
    case CountWords => sel.words
    case CountBytes => sel.bytes
    case CountChars => sel.chars
  }

  predicate Ascending(ms: seq<Metric>) {
    forall i, j :: 0 <= i < j < |ms| ==> Rank(ms[i]) < Rank(ms[j])
  }

  /** The metrics to report: exactly the enabled ones, each once, in canonical order. */
  function EnabledMetrics(sel: Selection): (r: seq<Metric>)
    ensures forall m :: m in r <==> Enabled(sel, m)
    ensures Ascending(r)
  {
    (if sel.lines then [CountLines] else []) + (if sel.words then [CountWords] else [])
    + (if sel.bytes then [CountBytes] else []) + (if sel.chars then [CountChars] else [])
  }

  /** The value of one metric for the given input. */
  function Measure(m: Metric, data: seq<byte>, text: string): nat {
    match m
    case CountLines => LineCount(text)
    case CountWords => WordCount(text)
    case CountBytes => |data|
    case CountChars => CharCount(text)
  }

  /** The decimal tokens of the given metrics, in their order. */
  function Tokens(ms: seq<Metric>, data: seq<byte>, text: string): seq<string>
    decreases |ms|
  {
    if ms == [] then [] else [NatToString(Measure(ms[0], data, text))] + Tokens(ms[1..], data, text)
  }

  /** The response list: one decimal token per enabled metric, in canonical order. */
  function Report(sel: Selection, data: seq<byte>, text: string): seq<string> {
    Tokens(EnabledMetrics(sel), data, text)
  }

  function Token(present: bool, n: nat): seq<string> {
    if present then [NatToString(n)] else []
  }

  lemma {:induction false} TokensAppend(a: seq<Metric>, b: seq<Metric>, data: seq<byte>, text: string)
    ensures Tokens(a + b, data, text) == Tokens(a, data, text) + Tokens(b, data, text)
    decreases |a|
  {
    if a == [] {
      assert a + b == b;
    } else {
      assert (a + b)[1..] == a[1..] + b;
      TokensAppend(a[1..], b, data, text);
    }
  }

  lemma {:induction false} TokensAt(ms: seq<Metric>, data: seq<byte>, text: string)
    ensures |Tokens(ms, data, text)| == |ms|
    ensures forall i :: 0 <= i < |ms| ==>
      Tokens(ms, data, text)[i] == NatToString(Measure(ms[i], data, text))
    decreases |ms|
  {
    if ms != [] {
      var rest := Tokens(ms[1..], data, text);
      assert Tokens(ms, data, text) == [NatToString(Measure(ms[0], data, text))] + rest;
      TokensAt(ms[1..], data, text);
      forall i | 1 <= i < |ms|
        ensures Tokens(ms, data, text)[i] == NatToString(Measure(ms[i], data, text))
      {
        assert Tokens(ms, data, text)[i] == rest[i - 1] && ms[1..][i - 1] == ms[i];
      }
    }
  }

  lemma TokensOptional(present: bool, m: Metric, data: seq<byte>, text: string)
    ensures Tokens(if present then [m] else [], data, text) == Token(present, Measure(m, data, text))
  {
    if present {
      assert [m][1..] == [];
    }
  }

  /** The response list holds the line, word, byte and char counts in that order,
      each exactly when its flag is set. */
  lemma ReportLayout(sel: Selection, data: seq<byte>, text: string)
    ensures Report(sel, data, text) ==
      Token(sel.lines, LineCount(text)) + Token(sel.words, WordCount(text))
      + Token(sel.bytes, |data|) + Token(sel.chars, CharCount(text))
  {
    var l: seq<Metric> := if sel.lines then [CountLines] else [];
    var w: seq<Metric> := if sel.words then [CountWords] else [];
    var b: seq<Metric> := if sel.bytes then [CountBytes] else [];
    var c: seq<Metric> := if sel.chars then [CountChars] else [];
    assert EnabledMetrics(sel) == l + w + b + c;
    TokensAppend(l + w + b, c, data, text);
    TokensAppend(l + w, b, data, text);
    TokensAppend(l, w, data, text);
    TokensOptional(sel.lines, CountLines, data, text);
    TokensOptional(sel.words, CountWords, data, text);
    TokensOptional(sel.bytes, CountBytes, data, text);
    TokensOptional(sel.chars, CountChars, data, text);
  }

  /** The byte entry is the decimal rendering of the byte count: it follows the
      line and word entries that are present and does not depend on the text. */
  lemma ReportBytesEntry(sel: Selection, data: seq<byte>, text: string)
    requires sel.bytes
    ensures var k := (if sel.lines then 1 else 0) + (if sel.words then 1 else 0);
      k < |Report(sel, data, text)| && Report(sel, data, text)[k] == NatToString(|data|)
  {
    var bytes := NatToString(|data|);
    ReportLayout(sel, data, text);
    var pre := Token(sel.lines, LineCount(text)) + Token(sel.words, WordCount(text));
    var post := Token(sel.chars, CharCount(text));
    assert |pre| == (if sel.lines then 1 else 0) + (if sel.words then 1 else 0);
    assert (pre + [bytes] + post)[|pre|] == bytes;
  }

  /** Each entry of the response list reads back as the count it reports. */
  lemma ReportReadsBack(sel: Selection, data: seq<byte>, text: string)
    ensures |Report(sel, data, text)| == |EnabledMetrics(sel)|
    ensures forall i :: 0 <= i < |Report(sel, data, text)| ==>
      IsNumeral(Report(sel, data, text)[i])
      && ParseNat(Report(sel, data, text)[i]) == Measure(EnabledMetrics(sel)[i], data, text)
  {
    var ms := EnabledMetrics(sel);
    TokensAt(ms, data, text);
    forall i | 0 <= i < |ms|
      ensures IsNumeral(Report(sel, data, text)[i])
      ensures ParseNat(Report(sel, data, text)[i]) == Measure(ms[i], data, text)
    {
      ParseNatToString(Measure(ms[i], data, text));
    }
  }

  // ---------------------------------------------------------------------------
  // The outcome of one invocation.

  /** The file name as Java's string concatenation renders it (`null` when absent). */
  function FileText(file: Option<string>): string {
    match file
    case None => "null"
    case Some(f) => f
  }

  /** The trailing file-name token: present only for a non-null, non-empty name. */
  function FileToken(file: Option<string>): seq<string> {
    if file.Some? && file.value != "" then [file.value] else []
  }

  const FailurePrefix := "Failed to read file "

  /** One invocation with the flags `sel`, the file name `file` and the read result
      `input`. */
  function Run(sel: Selection, file: Option<string>, input: ReadResult): Outcome {
    match input
    case IOFailure => Outcome(1, Some(FailurePrefix + FileText(file)))
    case Read(data, text) =>
      if |data| == 0 then Outcome(0, None)
      else Outcome(0, Some(JoinWith(Report(ResolveDefaults(sel), data, text) + FileToken(file), ' ')))
  }

  /** Zero bytes read: exit code 0 and no output, whatever the flags. */
  lemma RunEmptyInput(sel: Selection, file: Option<string>, data: seq<byte>, text: string)
    requires |data| == 0
    ensures Run(sel, file, Read(data, text)) == Outcome(0, None)
  {
  }

  /** A failed read: exit code 1 and the failure message naming the file. */
  lemma RunReadFailure(sel: Selection, file: Option<string>)
    ensures Run(sel, file, IOFailure).exitCode == 1
    ensures Run(sel, file, IOFailure).line == Some("Failed to read file " + FileText(file))
  {
  }

  /** No flags behave exactly as `-l -w -c`. */
  lemma RunDefaultIsLinesWordsBytes(file: Option<string>, input: ReadResult)
    ensures Run(Selection(false, false, false, false), file, input)
         == Run(Selection(bytes := true, chars := false, words := true, lines := true), file, input)
  {
  }

  /** For a non-empty input the output line is the counts joined by single spaces,
      with the file name appended as one more space-separated token when it is
      non-null and non-empty. */
  lemma RunOutputLine(sel: Selection, file: Option<string>, data: seq<byte>, text: string)
    requires |data| > 0
    ensures var counts := Report(ResolveDefaults(sel), data, text);
      && counts != []
      && Run(sel, file, Read(data, text)).exitCode == 0
      && Run(sel, file, Read(data, text)).line ==
           Some(if FileToken(file) == [] then JoinWith(counts, ' ')
                else JoinWith(counts, ' ') + " " + file.value)
  {
    var r := ResolveDefaults(sel);
    var counts := Report(r, data, text);
    var ms := EnabledMetrics(r);
    if r.lines { assert CountLines in ms; } else if r.words { assert CountWords in ms; }
    else if r.bytes { assert CountBytes in ms; } else { assert CountChars in ms; }
    if FileToken(file) != [] {
      JoinWithSnoc(counts, file.value, ' ');
    } else {
      assert counts + [] == counts;
    }
  }

  /** The output line splits at its spaces back into the reported counts, followed
      by the file name when there is one without spaces. */
  lemma RunOutputReadsBack(sel: Selection, file: Option<string>, data: seq<byte>, text: string)
    requires |data| > 0
    requires file.Some? ==> ' ' !in file.value
    ensures var ms := EnabledMetrics(ResolveDefaults(sel));
      var line := Run(sel, file, Read(data, text)).line;
      && line.Some?
      && Fields(line.value, ' ') == Report(ResolveDefaults(sel), data, text) + FileToken(file)
      && |ms| <= |Fields(line.value, ' ')|
      && forall i :: 0 <= i < |ms| ==>
           IsNumeral(Fields(line.value, ' ')[i])
           && ParseNat(Fields(line.value, ' ')[i]) == Measure(ms[i], data, text)
  {
    var r := ResolveDefaults(sel);
    var counts := Report(r, data, text);
    var tokens := counts + FileToken(file);
    RunOutputLine(sel, file, data, text);
    forall k | 0 <= k < |tokens| ensures ' ' !in tokens[k] {
      if k < |counts| {
        TokensAt(EnabledMetrics(r), data, text);
        NatToStringHasNoSpace(Measure(EnabledMetrics(r)[k], data, text));
      } else {
        assert tokens[k] == file.value;
      }
    }
    FieldsJoinWith(tokens, ' ');
    ReportReadsBack(r, data, text);
  }

  lemma StandardInputLines()
    ensures LineCount("Some test data from System.in") == 1
  {
    assert '\n' !in "Some test data from System.in";
  }

  /** The words of the standard-input test, joined by single spaces. */
  const StandardInputWordList: seq<string> := ["Some", "test", "data", "from", "System.in"]

  lemma StandardInputJoin()
    ensures JoinWith(StandardInputWordList, ' ') == "Some test data from System.in"
  {
    JoinWithFive("Some", "test", "data", "from", "System.in", ' ');
  }

  lemma StandardInputWordsAreWords()
    ensures forall k :: 0 <= k < |StandardInputWordList| ==>
      StandardInputWordList[k] != [] && !HasWhitespace(StandardInputWordList[k])
  {
    assert !HasWhitespace("Some") && !HasWhitespace("test") && !HasWhitespace("data");
    assert !HasWhitespace("from") && !HasWhitespace("System.in");
  }

  lemma StandardInputWords()
    ensures WordCount("Some test data from System.in") == 5
  {
    StandardInputWordsAreWords();
    WordsOfJoin(StandardInputWordList);
    StandardInputJoin();
  }

  lemma TokensOfThree(a: Metric, b: Metric, c: Metric, data: seq<byte>, text: string)
    ensures Tokens([a, b, c], data, text)
         == [NatToString(Measure(a, data, text)), NatToString(Measure(b, data, text)),
             NatToString(Measure(c, data, text))]
  {
    assert [a, b, c][1..] == [b, c];
    assert [b, c][1..] == [c];
    assert [c][1..] == [];
    assert Tokens([c], data, text) == [NatToString(Measure(c, data, text))];
    assert Tokens([b, c], data, text) == [NatToString(Measure(b, data, text))] + Tokens([c], data, text);
    assert Tokens([a, b, c], data, text) == [NatToString(Measure(a, data, text))] + Tokens([b, c], data, text);
  }

  lemma TokensOfFour(a: Metric, b: Metric, c: Metric, d: Metric, data: seq<byte>, text: string)
    ensures Tokens([a, b, c, d], data, text)
         == [NatToString(Measure(a, data, text)), NatToString(Measure(b, data, text)),
             NatToString(Measure(c, data, text)), NatToString(Measure(d, data, text))]
  {
    assert [a, b, c, d][1..] == [b, c, d];
    TokensOfThree(b, c, d, data, text);
  }

  /** The default selection reports the line, word and byte counts. */
  lemma DefaultReport(data: seq<byte>, text: string)
    ensures Report(DefaultSelection, data, text)
         == [NatToString(LineCount(text)), NatToString(WordCount(text)), NatToString(|data|)]
  {
    assert EnabledMetrics(DefaultSelection) == [CountLines, CountWords, CountBytes];
    TokensOfThree(CountLines, CountWords, CountBytes, data, text);
  }

  lemma AllMetrics(sel: Selection)
    requires sel.lines && sel.words && sel.bytes && sel.chars
    ensures EnabledMetrics(sel) == [CountLines, CountWords, CountBytes, CountChars]
  {
    assert EnabledMetrics(sel) == [CountLines] + [CountWords] + [CountBytes] + [CountChars];
  }

  /** All four flags report the line, word, byte and char counts. */
  lemma AllReport(sel: Selection, data: seq<byte>, text: string)
    requires sel.lines && sel.words && sel.bytes && sel.chars
    ensures Report(sel, data, text)
         == [NatToString(LineCount(text)), NatToString(WordCount(text)), NatToString(|data|),
             NatToString(CharCount(text))]
  {
    AllMetrics(sel);
    TokensOfFour(CountLines, CountWords, CountBytes, CountChars, data, text);
  }

  /** With no flags the line holds the line, word and byte counts, then the file
      name when one is given. */
  lemma DefaultOptionsOutput(file: Option<string>, data: seq<byte>, text: string)
    requires |data| > 0
    ensures var counts := NatToString(LineCount(text)) + " " + NatToString(WordCount(text))
                          + " " + NatToString(|data|);
      Run(Selection(false, false, false, false), file, Read(data, text))
      == Outcome(0, Some(if FileToken(file) == [] then counts else counts + " " + file.value))
  {
    RunOutputLine(Selection(false, false, false, false), file, data, text);
    DefaultReport(data, text);
    JoinWithThree(NatToString(LineCount(text)), NatToString(WordCount(text)), NatToString(|data|), ' ');
  }

  /** With all four flags the line holds the line, word, byte and character counts
      in that order, whatever order the flags were given in. */
  lemma AllOptionsOutput(file: Option<string>, data: seq<byte>, text: string)
    requires |data| > 0
    ensures var counts := NatToString(LineCount(text)) + " " + NatToString(WordCount(text))
                          + " " + NatToString(|data|) + " " + NatToString(CharCount(text));
      Run(Selection(true, true, true, true), file, Read(data, text))
      == Outcome(0, Some(if FileToken(file) == [] then counts else counts + " " + file.value))
  {
    RunOutputLine(Selection(true, true, true, true), file, data, text);
    AllReport(Selection(true, true, true, true), data, text);
    JoinWithFour(NatToString(LineCount(text)), NatToString(WordCount(text)), NatToString(|data|),
                 NatToString(CharCount(text)), ' ');
  }

  lemma StandardInputCounts(data: seq<byte>, text: string)
    requires |data| == 29 && text == "Some test data from System.in"
    ensures NatToString(LineCount(text)) == "1"
    ensures NatToString(WordCount(text)) == "5"
    ensures NatToString(|data|) == "29"
  {
    StandardInputLines();
    StandardInputWords();
  }

  /** Standard input holding "Some test data from System.in" (29 bytes) yields
      "1 5 29" with the default flags. */
  lemma StandardInputScenario(data: seq<byte>, text: string)
    requires |data| == 29 && text == "Some test data from System.in"
    ensures Run(Selection(false, false, false, false), None, Read(data, text))
         == Outcome(0, Some("1 5 29"))
  {
    DefaultOptionsOutput(None, data, text);
    StandardInputCounts(data, text);
    var l, w, c := NatToString(LineCount(text)), NatToString(WordCount(text)), NatToString(|data|);
    assert l + " " + w + " " + c == "1 5 29";
  }

  // ---------------------------------------------------------------------------
  // The command object.

  /** `com.kroka.Main`: the file argument and the four flags, which the invocation
      updates in place. */
  class Command {
    var file: Option<string>
    var countBytes: bool
    var countChars: bool
    var countWords: bool
    var countLines: bool

    constructor (file: Option<string>, sel: Selection)
      ensures this.file == file && Flags() == sel
    {
      this.file := file;
      countBytes, countChars, countWords, countLines := sel.bytes, sel.chars, sel.words, sel.lines;
    }

    function Flags(): Selection
      reads this
    {
      Selection(countBytes, countChars, countWords, countLines)
    }

    /** `setupDefaultOptions`: switch on lines, words and bytes when no flag is set. */
    method SetupDefaultOptions()
      modifies this`countBytes, this`countWords, this`countLines
      ensures Flags() == ResolveDefaults(old(Flags()))
    {
      if !countBytes && !countChars && !countWords && !countLines {
        countBytes := true;
        countWords := true;
        countLines := true;
      }
    }

    /** `getResponseList`: the counts of the enabled metrics, appended one by one. */
    method GetResponseList(data: seq<byte>, text: string) returns (responseList: seq<string>)
      ensures responseList == Report(Flags(), data, text)
    {
      responseList := [];
      if countLines {
        responseList := responseList + [NatToString(LineCount(text))];
      }
      assert responseList == Token(countLines, LineCount(text));
      if countWords {
        responseList := responseList + [NatToString(WordCount(text))];
      }
      assert responseList == Token(countLines, LineCount(text)) + Token(countWords, WordCount(text));
      if countBytes {
        responseList := responseList + [NatToString(|data|)];
      }
      assert responseList == Token(countLines, LineCount(text)) + Token(countWords, WordCount(text))
                           + Token(countBytes, |data|);
      if countChars {
        responseList := responseList + [NatToString(CharCount(text))];
      }
      ReportLayout(Flags(), data, text);
    }

    /** `call`: the outcome of one invocation on the given read result.  The flags
        are resolved in place, but only once a non-empty input has been read. */
    method Call(input: ReadResult) returns (exitCode: int, line: Option<string>)
      modifies this`countBytes, this`countWords, this`countLines
      ensures Outcome(exitCode, line) == Run(old(Flags()), file, input)
      ensures Flags() ==
        if input.Read? && |input.data| > 0 then ResolveDefaults(old(Flags())) else old(Flags())
    {
      match input
      case IOFailure =>
        return 1, Some(FailurePrefix + FileText(file));
      case Read(data, text) =>
        if |data| == 0 {
          return 0, None;
        }
        SetupDefaultOptions();
        var responseList := GetResponseList(data, text);
        if file.Some? && file.value != "" {
          responseList := responseList + [file.value];
        }
        assert responseList == Report(ResolveDefaults(old(Flags())), data, text) + FileToken(file);
        return 0, Some(JoinWith(responseList, ' '));
    }
  }
}
