# ccwc: a verified model of its counting and reporting core

`ccwc` is a Java clone of Unix `wc` (class `com.kroka.Main`). An invocation takes
an optional file name and the flags `-c` (bytes), `-m` (chars), `-w` (words) and
`-l` (lines). It reads the file, or standard input when no name is given, and
prints the selected counts. The counts always come in the order lines, words,
bytes, chars. They are separated by single spaces and followed by the file name
when a non-null, non-empty name was given.

This project models what happens once the bytes have been read:

- **`JavaStrings`** (`java_strings.dfy`) models the parts of the Java library the
  counters rely on. It covers `String.split` with limit 0 for three fixed
  patterns:
  - a single character (`"\n"`);
  - runs of Java's `\s` class (`"\\s+"`), where `\s` is space, tab, line feed,
    vertical tab, form feed and carriage return;
  - the empty pattern `""`.

  The model follows Java's rules for these patterns. Trailing empty pieces are
  dropped. A leading empty piece is kept when the separator matches with positive
  width at index 0, so the zero-width match of `""` there yields no piece.
  When nothing matches, the whole input is the one result. `JavaStrings` also
  models `String.join`, and `String.valueOf` for non-negative ints together with
  its inverse.
- **`Counters`** (`counters.dfy`) holds `getNumberOfLines`, `getNumberOfWords` and
  `getNumberOfChars`. Each counter is the length of a split. Each one is also
  characterized by an independent description of the text, such as the line
  feeds before the last other character or the maximal runs of non-whitespace.
- **`Ccwc`** (`ccwc.dfy`) holds the command object and the invocation:
  - the class `Command` with its file field and four flag fields, which
    `SetupDefaultOptions` updates in place;
  - `GetResponseList`, which appends the counts one by one;
  - `Call`, the decision and assembly logic of `call`.

  `Call` is proved against the specification function `Run`. The lemmas about
  `Run` state the output format and the default selection. They also show that
  the printed line reads back as the counts.

The model follows the code where the code differs from a conventional `wc`:

- **Lines are split fragments, not line feeds.** The option text of `-l` says
  "newline character counts", but the code counts the pieces of a split.
  So `"a\nb\n"` has 2 lines, text made only of line feeds has 0, and empty text
  has 1.
- **Leading whitespace adds a word.** Splitting on whitespace keeps a leading
  empty piece, so `" a"` has 2 words. Text made only of whitespace has 0 words,
  and empty text has 1.
- **The empty-input check comes first.** The char count of empty text would be 1,
  but empty input never reaches the counters, because `call` returns earlier
  with no output.
- **The standard-input test expects `1 5 29`.** That is 29 bytes for
  "Some test data from System.in". The model proves exactly that output.

## Model

| member | source | states |
|---|---|---|
| JavaStrings.Fields | src/main/java/com/kroka/Main.java:75 | the pieces of `split("\n")` before trailing empties are removed; its ensures says only that there is at least one piece, and `FieldsCount`, `JoinWithFields`, `FieldsAppend` and `FieldsJoinWith` describe it |
| JavaStrings.SplitOnChar | src/main/java/com/kroka/Main.java:75 | `split("\n")` with limit 0; no ensures of its own, described by `Counters.LineCountCharacterized` and `Counters.LinesOfJoin` |
| JavaStrings.WhitespaceFields | src/main/java/com/kroka/Main.java:81 | the pieces of `split("\\s+")` before trailing empties are removed; its ensures says only that there is at least one piece, and `Counters.WhitespaceFieldsShape` describes it |
| JavaStrings.SplitOnWhitespace | src/main/java/com/kroka/Main.java:81 | `split("\\s+")` with limit 0; no ensures of its own, described by `Counters.SplitOnWhitespaceWords` and `Counters.WordCountCollapse` |
| JavaStrings.JoinWith | src/main/java/com/kroka/Main.java:144 | `String.join` with a one-character delimiter; no ensures of its own, described by `JoinWithFields`, `FieldsJoinWith` and `JoinWithSnoc` |
| JavaStrings.DropTrailingEmpty | src/main/java/com/kroka/Main.java:75 | the result is a prefix of the pieces, does not end in an empty piece, and only empty pieces were removed (the limit-0 rule of `split`) |
| JavaStrings.JoinWithFields | src/main/java/com/kroka/Main.java:75 | joining the fields of a text with the separator gives the text back |
| JavaStrings.FieldsCount | src/main/java/com/kroka/Main.java:75-77 | a text has one more field than it has occurrences of the separator |
| JavaStrings.FieldsAppend | src/main/java/com/kroka/Main.java:75 | the fields of `a + sep + b` are the fields of `a` followed by those of `b` |
| JavaStrings.FieldsJoinWith | src/main/java/com/kroka/Main.java:75 | splitting a join of separator-free pieces gives the pieces back |
| JavaStrings.JoinWithSnoc | src/main/java/com/kroka/Main.java:140-144 | appending one token to a non-empty list appends the separator and the token to its join |
| JavaStrings.DropLeadingWhitespace | src/main/java/com/kroka/Main.java:81 | the result is a suffix of the input that does not start with whitespace, and everything removed is whitespace |
| JavaStrings.SplitEmpty | src/main/java/com/kroka/Main.java:86-90 | splitting on `""` gives one single-character piece per character of a non-empty text, and `[""]` for the empty text |
| JavaStrings.NatToString | src/main/java/com/kroka/Main.java:107 | the decimal rendering is non-empty, all digits, and has no leading zero |
| JavaStrings.ParseNatToString | src/main/java/com/kroka/Main.java:107 | reading a decimal rendering back gives the number |
| JavaStrings.NatToStringHasNoSpace | src/main/java/com/kroka/Main.java:144 | a rendered count never holds a space, so the join separator cannot occur inside it |
| Counters.LineCount | src/main/java/com/kroka/Main.java:74-78 | `getNumberOfLines`; no ensures of its own, described by `LineCountCharacterized` |
| Counters.WordCount | src/main/java/com/kroka/Main.java:80-84 | `getNumberOfWords`; no ensures of its own, described by `WordCountCharacterized` and `WordCountCollapse` |
| Counters.LineCountNoTrailingNewline | src/main/java/com/kroka/Main.java:74-78 | text not ending in a line feed has one line more than it has line feeds; with no line feed in it, that is 1 line |
| Counters.LineCountOnlyNewlines | src/main/java/com/kroka/Main.java:74-78 | non-empty text made only of line feeds has 0 lines |
| Counters.LineCountTrailingNewline | src/main/java/com/kroka/Main.java:74-78 | a trailing line feed leaves the line count of any non-empty text unchanged |
| Counters.LineCountCharacterized | src/main/java/com/kroka/Main.java:74-78 | the line count is 1 for empty text, 0 for text of line feeds only, and otherwise the line feeds before the last other character plus one |
| Counters.LinesOfJoin | src/main/java/com/kroka/Main.java:74-78 | non-empty lines joined by line feeds count as that many lines, with or without a final line feed |
| Counters.TrimTrailingNewlines | src/main/java/com/kroka/Main.java:75 | the result is the input without its trailing line feeds: a prefix, not ending in a line feed, with only line feeds removed |
| Counters.LeadingWord | src/main/java/com/kroka/Main.java:81 | the result is the longest whitespace-free prefix: it is followed by whitespace or the end, and it is non-empty when the text starts with a non-whitespace character |
| Counters.Words | src/main/java/com/kroka/Main.java:80-84 | the reference list of words (maximal whitespace-free runs): each word is non-empty and whitespace-free, and the list is empty only for all-whitespace text |
| Counters.WordsEmptyIffBlank | src/main/java/com/kroka/Main.java:80-84 | text has no words exactly when every character is whitespace (both directions) |
| Counters.WordsOfJoin | src/main/java/com/kroka/Main.java:80-84 | words joined by single spaces split back into exactly those words and count as that many |
| Counters.SplitOnWhitespaceWords | src/main/java/com/kroka/Main.java:81 | splitting on `\s+` gives `[""]` for empty text, nothing for blank text, and otherwise the words, after one empty piece when the text starts with whitespace |
| Counters.WordCountCharacterized | src/main/java/com/kroka/Main.java:80-84 | the word count is 1 for empty text, 0 for blank text, and otherwise the number of words plus one when the text starts with whitespace |
| Counters.WordCountCollapse | src/main/java/com/kroka/Main.java:80-84 | replacing any non-empty whitespace run by a single space changes neither the split nor the word count |
| Counters.CharCount | src/main/java/com/kroka/Main.java:86-90 | the char count of non-empty text is its number of characters; for empty text it is 1 |
| Ccwc.ResolveDefaults | src/main/java/com/kroka/Main.java:92-98 | with no flag set, lines, words and bytes are switched on and chars stays off; with any flag set, all four are unchanged; afterwards some flag is set |
| Ccwc.EnabledMetrics | src/main/java/com/kroka/Main.java:105-121 | a metric is reported if and only if its flag is set, and the reported metrics come in strictly ascending order lines, words, bytes, chars |
| Ccwc.ReportLayout | src/main/java/com/kroka/Main.java:100-125 | the response list is the line token, then the word token, then the byte token, then the char token, each present exactly when its flag is set |
| Ccwc.ReportBytesEntry | src/main/java/com/kroka/Main.java:115-117 | with `-c`, the entry after the line and word entries is the decimal rendering of the byte count, whatever the text |
| Ccwc.ReportReadsBack | src/main/java/com/kroka/Main.java:105-121 | the response list has one entry per enabled metric, and each entry is a numeral that reads back as that metric's count |
| Ccwc.DefaultReport | src/main/java/com/kroka/Main.java:105-117 | with lines, words and bytes selected (the defaults), the response list is exactly the line, word and byte counts |
| Ccwc.AllReport | src/main/java/com/kroka/Main.java:105-121 | with all four flags set, the response list is exactly the line, word, byte and char counts in that order |
| Ccwc.Measure | src/main/java/com/kroka/Main.java:105-121 | the value of one metric: the line, word or char count of the text, or the number of bytes; no ensures of its own, described by `ReportReadsBack` |
| Ccwc.Tokens | src/main/java/com/kroka/Main.java:105-121 | the decimal tokens of a list of metrics; no ensures of its own, described by `ReportLayout` and `ReportReadsBack` |
| Ccwc.Report | src/main/java/com/kroka/Main.java:100-125 | the response list of `getResponseList`; no ensures of its own, described by `ReportLayout`, `ReportBytesEntry` and `ReportReadsBack` |
| Ccwc.FileToken | src/main/java/com/kroka/Main.java:140-142 | the trailing file-name token, present only for a non-null, non-empty name; no ensures of its own, described by `RunOutputLine` |
| Ccwc.FileText | src/main/java/com/kroka/Main.java:148 | the file name as string concatenation renders it, `null` when absent; no ensures of its own, described by `RunReadFailure` |
| Ccwc.Run | src/main/java/com/kroka/Main.java:127-151 | the outcome of one invocation; no ensures of its own, described by `RunEmptyInput`, `RunReadFailure`, `RunOutputLine` and `RunOutputReadsBack`, and `Command.Call` is proved equal to it |
| Ccwc.RunEmptyInput | src/main/java/com/kroka/Main.java:132-134 | zero bytes read give exit code 0 and no output line, whatever the flags and the file |
| Ccwc.RunReadFailure | src/main/java/com/kroka/Main.java:147-149 | a failed read gives exit code 1 and the line "Failed to read file " followed by the file name (`null` when absent) |
| Ccwc.RunDefaultIsLinesWordsBytes | src/main/java/com/kroka/Main.java:136 | an invocation with no flag behaves exactly like one with `-l -w -c` |
| Ccwc.RunOutputLine | src/main/java/com/kroka/Main.java:140-146 | for non-empty input: exit code 0, at least one count, and the line is the counts joined by single spaces, followed by a space and the file name only when the name is non-null and non-empty |
| Ccwc.RunOutputReadsBack | src/main/java/com/kroka/Main.java:138-144 | when the file name holds no space, splitting the output line at its spaces gives back the counts and then the file name, and each count reads back as its metric's value |
| Ccwc.DefaultOptionsOutput | src/test/java/MainTest.java:98-108 | with no flags the line is the line, word and byte counts and then the file name |
| Ccwc.AllOptionsOutput | src/test/java/MainTest.java:112-122 | with all four flags the line is the line, word, byte and char counts in that order and then the file name |
| Ccwc.StandardInputLines | src/test/java/MainTest.java:155-169 | "Some test data from System.in" has 1 line |
| Ccwc.StandardInputWords | src/test/java/MainTest.java:155-169 | "Some test data from System.in" has 5 words |
| Ccwc.StandardInputCounts | src/test/java/MainTest.java:155-169 | for that text read as 29 bytes, the rendered counts are "1", "5" and "29" |
| Ccwc.StandardInputScenario | src/test/java/MainTest.java:142-169 | standard input holding that text, read as 29 bytes with no flags and no file, gives exit code 0 and the line "1 5 29" |
| Ccwc.Command.constructor | src/main/java/com/kroka/Main.java:23-40 | a new command holds the given file name and flags |
| Ccwc.Command.SetupDefaultOptions | src/main/java/com/kroka/Main.java:92-98 | the new flags are the resolved defaults of the old flags (only bytes, words and lines may change) |
| Ccwc.Command.GetResponseList | src/main/java/com/kroka/Main.java:100-125 | the list built by successive appends is the response list of the current flags |
| Ccwc.Command.Call | src/main/java/com/kroka/Main.java:127-151 | the exit code and output line are those of `Run` on the flags as given; the flags are resolved in place only when a non-empty input was read |

## Left out

- Command-line parsing by picocli, `--help` and `--version`, and `main` with
  `System.exit` (Main.java:16-45). These are framework glue. The model starts
  from the parsed file name and the four flag values, so the order in which
  flags are given does not exist in the model.
- Reading the input (`readSystemIn`'s buffered loop and `Files.readAllBytes`,
  Main.java:47-72). This is I/O. An invocation is given a `ReadResult`: either
  the bytes read or an I/O failure.
- Decoding the bytes with the platform charset (`new String(data)`, Main.java:101).
  This is a foreign call, and the decoded text is a separate given input. Dafny's
  `char` is a Unicode scalar value, whereas Java's is a UTF-16 unit. So for text
  outside the Basic Multilingual Plane, the char count that `split("")` would give
  over surrogate pairs is not modelled.
- `System.out.println` and the platform line terminator. The output line is
  modelled without its terminator.
- The general Java regex engine. Only the three fixed patterns used here are
  modelled.
- The counts of the large test fixture (342190 bytes and similar), which depend on
  a resource file that is not part of this model. `DefaultOptionsOutput` and
  `AllOptionsOutput` state the shape of those tests for any input.
- The 32-bit range of Java `int`. Counts are unbounded naturals. A Java array or
  string cannot hold more than 2^31 - 1 elements, so no count the program
  computes can overflow.
