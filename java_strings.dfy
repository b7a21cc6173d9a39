/** Models of the java.lang.String operations the counter relies on: `split` with
    limit 0 for the three fixed patterns it uses ("\n", "\\s+" and ""), `String.join`
    with a one-character delimiter, and `String.valueOf(int)` for non-negative values.
    Text is a sequence of characters, one element per Unicode scalar value;
    surrogate pairs are not modelled. */
module JavaStrings {

  /** Java's regular-expression class `\s`: space, tab, line feed, line tabulation,
      form feed and carriage return. */
  predicate IsJavaWhitespace(c: char) {
    c == ' ' || c == '\t' || c == '\n' || c == '\U{000B}' || c == '\U{000C}' || c == '\r'
  }

  predicate HasWhitespace(s: string) {
    exists i :: 0 <= i < |s| && IsJavaWhitespace(s[i])
  }

  /** Number of occurrences of `c` in `s`. */
  function Occurrences(s: string, c: char): (n: nat)
    ensures n <= |s|
    ensures n == 0 <==> c !in s
    decreases |s|
  {
    if s == [] then 0 else (if s[0] == c then 1 else 0) + Occurrences(s[1..], c)
  }

  // ---------------------------------------------------------------------------
  // The last step of split with limit 0: trailing empty strings are removed.

  /** The longest prefix of `ps` that does not end in an empty string. */
  function DropTrailingEmpty(ps: seq<string>): (r: seq<string>)
    ensures |r| <= |ps| && r == ps[..|r|]
    ensures r == [] || r[|r| - 1] != ""
    ensures forall i :: |r| <= i < |ps| ==> ps[i] == ""
    decreases |ps|
  {
    if ps == [] then []
    else if ps[|ps| - 1] == "" then DropTrailingEmpty(ps[..|ps| - 1])
    else ps
  }

  lemma DropTrailingEmptyAppend(ps: seq<string>)
    ensures DropTrailingEmpty(ps + [""]) == DropTrailingEmpty(ps)
  {
    assert (ps + [""])[..|ps|] == ps;
  }

  lemma DropTrailingEmptyKeeps(ps: seq<string>)
    requires ps != [] && ps[|ps| - 1] != ""
    ensures DropTrailingEmpty(ps) == ps
  {
  }

  /** Pieces ending in a non-empty piece, perhaps followed by one empty piece, keep
      exactly that non-empty ending. */
  lemma DropTrailingEmptyOfNonEmpty(lead: seq<string>, ps: seq<string>, tail: seq<string>)
    requires ps != [] && ps[|ps| - 1] != ""
    requires tail == [] || tail == [""]
    ensures DropTrailingEmpty(lead + ps + tail) == lead + ps
  {
    var core := lead + ps;
    assert core[|core| - 1] == ps[|ps| - 1];
    DropTrailingEmptyAppend(core);
    DropTrailingEmptyKeeps(core);
    if tail == [] {
      assert core + tail == core;
    }
  }

  lemma {:induction false} DropTrailingEmptyAllEmpty(ps: seq<string>)
    requires forall i :: 0 <= i < |ps| ==> ps[i] == ""
    ensures DropTrailingEmpty(ps) == []
  {
  }

  // ---------------------------------------------------------------------------
  // Splitting on one literal character ("\n": String.split's fast path).

  /** The pieces of `s` between occurrences of `sep`, every piece kept: what split
      collects before it removes trailing empty strings.  A separator at index 0
      yields an empty leading piece, as a match of positive width there does. */
  function Fields(s: string, sep: char): (r: seq<string>)
    ensures |r| >= 1
    decreases |s|
  {
    if s == [] then [""]
    else
      var rest := Fields(s[1..], sep);
      if s[0] == sep then [""] + rest
      else [[s[0]] + rest[0]] + rest[1..]
  }

  /** `String.join` with a one-character delimiter. */
  function JoinWith(ts: seq<string>, sep: char): (r: string)
    decreases |ts|
  {
    if ts == [] then ""
    else if |ts| == 1 then ts[0]
    else ts[0] + [sep] + JoinWith(ts[1..], sep)
  }

  /** `s.split(String.valueOf(sep))` for a character that is not a regex
      metacharacter: the whole input when `sep` does not occur, otherwise the
      fields with trailing empty strings removed. */
  function SplitOnChar(s: string, sep: char): (r: seq<string>)
  {
    if sep !in s then [s] else DropTrailingEmpty(Fields(s, sep))
  }

  lemma {:induction false} FieldsNoSeparator(s: string, sep: char)
    requires sep !in s
    ensures Fields(s, sep) == [s]
    decreases |s|
  {
    if s != [] {
      FieldsNoSeparator(s[1..], sep);
      assert [s[0]] + s[1..] == s;
    }
  }

  /** Every piece is free of the separator. */
  lemma {:induction false} FieldsSeparatorFree(s: string, sep: char)
    ensures forall k :: 0 <= k < |Fields(s, sep)| ==> sep !in Fields(s, sep)[k]
    decreases |s|
  {
    if s != [] {
      FieldsSeparatorFree(s[1..], sep);
    }
  }

  /** Joining the pieces with the separator gives back the input. */
  lemma {:induction false} JoinWithFields(s: string, sep: char)
    ensures JoinWith(Fields(s, sep), sep) == s
    decreases |s|
  {
    if s != [] {
      var rest := Fields(s[1..], sep);
      JoinWithFields(s[1..], sep);
      if s[0] == sep {
        assert JoinWith(Fields(s, sep), sep) == [sep] + JoinWith(rest, sep);
      } else if |rest| == 1 {
        assert JoinWith(Fields(s, sep), sep) == [s[0]] + rest[0];
      } else {
        var f := Fields(s, sep);
        assert f[1..] == rest[1..];
        assert JoinWith(rest, sep) == rest[0] + [sep] + JoinWith(rest[1..], sep);
        assert JoinWith(f, sep) == [s[0]] + rest[0] + [sep] + JoinWith(rest[1..], sep);
      }
    }
  }

  /** Splitting at one separator splits the field list accordingly. */
  /** A separator at the front starts a new, empty piece. */
  lemma FieldsConsSeparator(r: string, sep: char)
    ensures Fields([sep] + r, sep) == [""] + Fields(r, sep)
  {
    assert ([sep] + r)[0] == sep && ([sep] + r)[1..] == r;
  }

  /** Any other character at the front joins the first piece of what follows. */
  lemma FieldsConsOther(c: char, r: string, sep: char)
    requires c != sep
    ensures Fields([c] + r, sep) == [[c] + Fields(r, sep)[0]] + Fields(r, sep)[1..]
  {
    assert ([c] + r)[0] == c && ([c] + r)[1..] == r;
  }

  lemma GlueFirst<T>(h: seq<T>, fa: seq<seq<T>>, fb: seq<seq<T>>)
    requires fa != []
    ensures [h + (fa + fb)[0]] + (fa + fb)[1..] == ([h + fa[0]] + fa[1..]) + fb
  {
    assert (fa + fb)[0] == fa[0] && (fa + fb)[1..] == fa[1..] + fb;
  }

  lemma {:induction false} FieldsAppend(a: string, b: string, sep: char)
    ensures Fields(a + [sep] + b, sep) == Fields(a, sep) + Fields(b, sep)
    decreases |a|
  {
    if a == [] {
      assert a + [sep] + b == [sep] + b;
      FieldsConsSeparator(b, sep);
    } else {
      var c, a', x := a[0], a[1..], a[1..] + [sep] + b;
      assert a + [sep] + b == [c] + x;
      assert a == [c] + a';
      FieldsAppend(a', b, sep);
      var fa, fb := Fields(a', sep), Fields(b, sep);
      if c == sep {
        FieldsConsSeparator(x, sep);
        FieldsConsSeparator(a', sep);
        assert [""] + (fa + fb) == ([""] + fa) + fb;
      } else {
        FieldsConsOther(c, x, sep);
        FieldsConsOther(c, a', sep);
        GlueFirst([c], fa, fb);
      }
    }
  }

  /** The number of pieces is one more than the number of separators. */
  lemma {:induction false} FieldsCount(s: string, sep: char)
    ensures |Fields(s, sep)| == Occurrences(s, sep) + 1
    decreases |s|
  {
    if s != [] {
      FieldsCount(s[1..], sep);
    }
  }

  /** Text that does not end with the separator has a non-empty last piece. */
  lemma {:induction false} FieldsLastNonEmpty(s: string, sep: char)
    requires s != [] && s[|s| - 1] != sep
    ensures Fields(s, sep)[|Fields(s, sep)| - 1] != ""
    decreases |s|
  {
    if |s| > 1 {
      FieldsLastNonEmpty(s[1..], sep);
    }
  }

  /** Text made only of separators has only empty pieces. */
  lemma {:induction false} FieldsOnlySeparators(s: string, sep: char)
    requires forall i :: 0 <= i < |s| ==> s[i] == sep
    ensures forall k :: 0 <= k < |Fields(s, sep)| ==> Fields(s, sep)[k] == ""
    decreases |s|
  {
    if s != [] {
      FieldsOnlySeparators(s[1..], sep);
    }
  }

  /** Splitting a join gives back the joined pieces when none of them holds the
      separator. */
  lemma {:induction false} FieldsJoinWith(ts: seq<string>, sep: char)
    requires ts != []
    requires forall k :: 0 <= k < |ts| ==> sep !in ts[k]
    ensures Fields(JoinWith(ts, sep), sep) == ts
    decreases |ts|
  {
    if |ts| == 1 {
      FieldsNoSeparator(ts[0], sep);
    } else {
      FieldsJoinWith(ts[1..], sep);
      FieldsNoSeparator(ts[0], sep);
      FieldsAppend(ts[0], JoinWith(ts[1..], sep), sep);
      assert [ts[0]] + ts[1..] == ts;
    }
  }

  /** Appending one more piece to a non-empty join adds the separator and the piece. */
  lemma {:induction false} JoinWithSnoc(ts: seq<string>, t: string, sep: char)
    requires ts != []
    ensures JoinWith(ts + [t], sep) == JoinWith(ts, sep) + [sep] + t
    decreases |ts|
  {
    if |ts| > 1 {
      assert (ts + [t])[1..] == ts[1..] + [t];
      JoinWithSnoc(ts[1..], t, sep);
    }
  }

  lemma JoinWithThree(a: string, b: string, c: string, sep: char)
    ensures JoinWith([a, b, c], sep) == a + [sep] + b + [sep] + c
  {
    assert [a, b, c][1..] == [b, c];
    assert [b, c][1..] == [c];
    assert JoinWith([b, c], sep) == b + [sep] + c;
    assert JoinWith([a, b, c], sep) == a + [sep] + (b + [sep] + c);
  }

  lemma JoinWithFour(a: string, b: string, c: string, d: string, sep: char)
    ensures JoinWith([a, b, c, d], sep) == a + [sep] + b + [sep] + c + [sep] + d
  {
    assert [a, b, c, d][1..] == [b, c, d];
    assert JoinWith([a, b, c, d], sep) == a + [sep] + JoinWith([b, c, d], sep);
    JoinWithThree(b, c, d, sep);
    assert a + [sep] + (b + [sep] + c + [sep] + d) == a + [sep] + b + [sep] + c + [sep] + d;
  }

  lemma JoinWithFive(a: string, b: string, c: string, d: string, e: string, sep: char)
    ensures JoinWith([a, b, c, d, e], sep) == a + [sep] + b + [sep] + c + [sep] + d + [sep] + e
  {
    assert [a, b, c, d] + [e] == [a, b, c, d, e];
    JoinWithFour(a, b, c, d, sep);
    JoinWithSnoc([a, b, c, d], e, sep);
  }

  // ---------------------------------------------------------------------------
  // Splitting on runs of whitespace ("\\s+").

  /** `s` without its leading run of whitespace. */
  function DropLeadingWhitespace(s: string): (r: string)
    ensures |r| <= |s| && r == s[|s| - |r|..]
    ensures r == [] || !IsJavaWhitespace(r[0])
    ensures forall i :: 0 <= i < |s| - |r| ==> IsJavaWhitespace(s[i])
    decreases |s|
  {
    if s != [] && IsJavaWhitespace(s[0]) then DropLeadingWhitespace(s[1..]) else s
  }

  /** The pieces of `s` between maximal runs of whitespace, every piece kept.  The
      greedy `\s+` matches exactly these runs, and a run at index 0 is a match of
      positive width, so it yields an empty leading piece. */
  function WhitespaceFields(s: string): (r: seq<string>)
    ensures |r| >= 1
    decreases |s|
  {
    if s == [] then [""]
    else if IsJavaWhitespace(s[0]) then [""] + WhitespaceFields(DropLeadingWhitespace(s))
    else
      var rest := WhitespaceFields(s[1..]);
      [[s[0]] + rest[0]] + rest[1..]
  }

  /** `s.split("\\s+")`: the whole input when it holds no whitespace, otherwise the
      fields with trailing empty strings removed. */
  function SplitOnWhitespace(s: string): (r: seq<string>)
  {
    if !HasWhitespace(s) then [s] else DropTrailingEmpty(WhitespaceFields(s))
  }

  // ---------------------------------------------------------------------------
  // Splitting on the empty pattern ("").

  /** One single-character string per element of `s`. */
  function Singletons(s: string): (r: seq<string>)
    ensures |r| == |s|
    ensures forall i :: 0 <= i < |s| ==> r[i] == [s[i]]
  {
    seq(|s|, i requires 0 <= i < |s| => [s[i]])
  }

  /** `s.split("")`.  The empty pattern matches at every index; the zero-width match
      at index 0 yields no leading piece, the matches at indices 1..|s| yield one
      piece per character and the remainder after the last match is empty.  When
      `s` is empty the only match is the skipped one, so the input itself is the
      result. */
  function SplitEmpty(s: string): (r: seq<string>)
    ensures s == [] ==> r == [""]
    ensures s != [] ==> |r| == |s| && forall i :: 0 <= i < |s| ==> r[i] == [s[i]]
  {
    if s == [] then [s]
    else
      DropTrailingEmptyAppend(Singletons(s));
      DropTrailingEmptyKeeps(Singletons(s));
      DropTrailingEmpty(Singletons(s) + [""])
  }

  // ---------------------------------------------------------------------------
  // String.valueOf for non-negative ints, and its inverse.

  predicate IsDigit(c: char) {
    '0' as int <= c as int <= '9' as int
  }

  function DigitChar(d: nat): (c: char)
    requires d < 10
    ensures IsDigit(c) && c as int - '0' as int == d
  {
    "0123456789"[d]
  }

  /** A string of decimal digits. */
  predicate IsNumeral(s: string) {
    forall i :: 0 <= i < |s| ==> IsDigit(s[i])
  }

  /** Decimal rendering of `n`: digits only, no leading zero. */
  function NatToString(n: nat): (r: string)
    ensures |r| >= 1 && IsNumeral(r)
    ensures |r| > 1 ==> r[0] != '0'
    decreases n
  {
    if n < 10 then [DigitChar(n)] else NatToString(n / 10) + [DigitChar(n % 10)]
  }

  /** The value of a string of decimal digits. */
  function ParseNat(s: string): (n: nat)
    requires IsNumeral(s)
    decreases |s|
  {
    if s == [] then 0
    else
      assert IsDigit(s[|s| - 1]);
      ParseNat(s[..|s| - 1]) * 10 + (s[|s| - 1] as int - '0' as int)
  }

  /** Reading back the decimal rendering gives the number. */
  lemma {:induction false} ParseNatToString(n: nat)
    ensures ParseNat(NatToString(n)) == n
    decreases n
  {
    var r := NatToString(n);
    if n >= 10 {
      ParseNatToString(n / 10);
      assert r[..|r| - 1] == NatToString(n / 10);
    } else {
      assert r[..0] == [];
    }
  }

  /** A decimal rendering never contains a space. */
  lemma NatToStringHasNoSpace(n: nat)
    ensures ' ' !in NatToString(n)
  {
  }
}
