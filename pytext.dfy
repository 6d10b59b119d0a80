/**
 * The few pieces of Python 2 string handling the conversion scripts under
 * tools/ rely on: `str.strip()`, `str.split(sep)`, `re.split("[ \t]+", s)`,
 * `int(s)` and `int(s, 16)`, and `"%d" % n`. Together with the text a
 * script writes and the exception that stops it, they let each script be
 * modelled as a transformation from input lines to output text.
 */
module PyText {
  import opened Results

  /** What a script wrote to its output, and the exception that stopped it, if any. */
  datatype Run = Run(text: string, error: Option<string>)

  /** Runs one step after another: a step that raised ends the run. */
  function Then(a: Run, b: Run): (r: Run)
    ensures a.error.Some? ==> r == a
    ensures a.error.None? ==> r.text == a.text + b.text && r.error == b.error
  {
    if a.error.Some? then a else Run(a.text + b.text, b.error)
  }

  /** `int()` of text that is not a number. */
  function InvalidLiteral(s: string, base: nat): string {
    "ValueError: invalid literal for int() with base " + (if base == 16 then "16" else "10") + ": '" + s + "'"
  }

  /** Indexing past the end of a list. */
  const IndexOutOfRange: string := "IndexError: list index out of range"

  /** `%` formatting with fewer values than the format has conversions. */
  const NotEnoughArguments: string := "TypeError: not enough arguments for format string"

  /** Unpacking a list into two names when it does not have two elements. */
  function UnpackError(count: nat): string {
    if count < 2 then "ValueError: need more than " + (if count == 0 then "0" else "1") + " value to unpack"
    else "ValueError: too many values to unpack"
  }

  // ---------------------------------------------------------------- characters

  /** The characters `str.strip()` and `int()` treat as white space. */
  predicate IsSpace(c: char) {
    c == ' ' || c == '\t' || c == '\n' || c == '\r' || c as int == 11 || c as int == 12
  }

  /** The characters of the pattern `[ \t]+`. */
  predicate IsBlank(c: char) {
    c == ' ' || c == '\t'
  }

  // ---------------------------------------------------------------- strip

  /** `lstrip()`: drops the leading white space. */
  function StripLeft(s: string): (r: string)
    ensures |r| <= |s| && r == s[|s| - |r|..]
    ensures |r| > 0 ==> !IsSpace(r[0])
  {
    if |s| > 0 && IsSpace(s[0]) then StripLeft(s[1..]) else s
  }

  /** What `lstrip()` drops is white space. */
  lemma {:induction false} StripLeftSpaces(s: string)
    ensures forall i :: 0 <= i < |s| - |StripLeft(s)| ==> IsSpace(s[i])
    decreases |s|
  {
    if |s| > 0 && IsSpace(s[0]) {
      StripLeftSpaces(s[1..]);
      assert forall i :: 1 <= i < |s| ==> s[i] == s[1..][i - 1];
    }
  }

  /** `rstrip()`: drops the trailing white space. */
  function StripRight(s: string): (r: string)
    ensures |r| <= |s| && r == s[..|r|]
    ensures |r| > 0 ==> !IsSpace(r[|r| - 1])
  {
    if |s| > 0 && IsSpace(s[|s| - 1]) then StripRight(s[..|s| - 1]) else s
  }

  /** What `rstrip()` drops is white space. */
  lemma {:induction false} StripRightSpaces(s: string)
    ensures forall i :: |StripRight(s)| <= i < |s| ==> IsSpace(s[i])
    decreases |s|
  {
    if |s| > 0 && IsSpace(s[|s| - 1]) {
      StripRightSpaces(s[..|s| - 1]);
    }
  }

  /** `strip()`: drops the white space at both ends. */
  function Strip(s: string): (r: string)
    ensures |r| > 0 ==> !IsSpace(r[0]) && !IsSpace(r[|r| - 1])
  {
    StripRight(StripLeft(s))
  }

  /** Text without white space at either end is its own `strip()`. */
  lemma StripTrimmed(s: string)
    requires |s| > 0 ==> !IsSpace(s[0]) && !IsSpace(s[|s| - 1])
    ensures Strip(s) == s
  {
  }

  /** `strip()` keeps the text between the first and the last character that is not white space. */
  lemma StripKeepsInner(s: string, i: nat, j: nat)
    requires i <= j <= |s|
    requires forall k :: 0 <= k < i ==> IsSpace(s[k])
    requires forall k :: j <= k < |s| ==> IsSpace(s[k])
    requires i < j ==> !IsSpace(s[i]) && !IsSpace(s[j - 1])
    ensures Strip(s) == s[i..j]
  {
    var l := StripLeft(s);
    StripLeftSpaces(s);
    assert l == s[|s| - |l|..];
    if |s| - |l| < i {
      assert false;
    }
    if i < j {
      assert |s| - |l| == i;
      StripRightBetween(l, j - i);
    } else {
      assert l == "";
      StripRightBetween(l, 0);
    }
  }

  /** The right half of StripKeepsInner, on the text already stripped on the left. */
  lemma StripRightBetween(l: string, m: int)
    requires 0 <= m <= |l|
    requires forall k :: m <= k < |l| ==> IsSpace(l[k])
    requires m > 0 ==> !IsSpace(l[m - 1])
    ensures StripRight(l) == l[..m]
  {
    var r := StripRight(l);
    StripRightSpaces(l);
    if |r| != m {
      assert false;
    }
  }

  // ---------------------------------------------------------------- split

  /** `sep.join(parts)`. */
  function Join(parts: seq<string>, sep: string): (r: string)
    decreases |parts|
  {
    if |parts| == 0 then ""
    else if |parts| == 1 then parts[0]
    else parts[0] + sep + Join(parts[1..], sep)
  }

  /** `s.split(sep)` for a one-character separator: the pieces between the separators, empty ones included. */
  function Split(s: string, sep: char): (r: seq<string>)
    ensures |r| >= 1
    decreases |s|
  {
    if |s| == 0 then [""]
    else
      var rest := Split(s[1..], sep);
      if s[0] == sep then [""] + rest
      else [[s[0]] + rest[0]] + rest[1..]
  }

  /** Joining the pieces of a split with the separator gives the text back. */
  lemma {:induction false} JoinSplit(s: string, sep: char)
    ensures Join(Split(s, sep), [sep]) == s
    decreases |s|
  {
    if |s| > 0 {
      var rest := Split(s[1..], sep);
      JoinSplit(s[1..], sep);
      if s[0] == sep {
        assert Split(s, sep) == [""] + rest;
        assert ([""] + rest)[1..] == rest;
      } else {
        var r := Split(s, sep);
        assert r == [[s[0]] + rest[0]] + rest[1..];
        if |rest| == 1 {
          assert r == [[s[0]] + rest[0]];
        } else {
          assert r[1..] == rest[1..];
          assert Join(rest, [sep]) == rest[0] + [sep] + Join(rest[1..], [sep]);
        }
      }
    }
  }

  /** Splitting a join of pieces that do not contain the separator gives the pieces back. */
  lemma {:induction false} SplitJoin(parts: seq<string>, sep: char)
    requires |parts| >= 1
    requires forall i :: 0 <= i < |parts| ==> sep !in parts[i]
    ensures Split(Join(parts, [sep]), sep) == parts
    decreases |parts|, |parts[0]|
  {
    var p := parts[0];
    if |p| == 0 {
      if |parts| > 1 {
        SplitJoin(parts[1..], sep);
        assert Join(parts, [sep]) == [sep] + Join(parts[1..], [sep]);
        assert ([sep] + Join(parts[1..], [sep]))[1..] == Join(parts[1..], [sep]);
        assert [""] + parts[1..] == parts;
      }
    } else {
      var tail := [p[1..]] + parts[1..];
      assert sep !in p[1..] by { assert forall c :: c in p[1..] ==> c in p; }
      SplitJoin(tail, sep);
      var s := Join(parts, [sep]);
      var t := Join(tail, [sep]);
      if |parts| == 1 {
        assert s == p && t == p[1..];
      } else {
        assert tail[1..] == parts[1..];
        assert s == p + [sep] + Join(parts[1..], [sep]);
        assert t == p[1..] + [sep] + Join(parts[1..], [sep]);
      }
      assert s[0] == p[0] && s[1..] == t;
      assert p == [p[0]] + p[1..];
    }
  }

  /** The first piece of a split is the text before the first separator, and the rest splits on its own. */
  lemma {:induction false} SplitFirst(v: string, sep: char, rest: string)
    requires sep !in v
    ensures Split(v + [sep] + rest, sep) == [v] + Split(rest, sep)
    decreases |v|
  {
    var s := v + [sep] + rest;
    if |v| > 0 {
      assert s[1..] == v[1..] + [sep] + rest;
      assert sep !in v[1..] by { assert forall c :: c in v[1..] ==> c in v; }
      SplitFirst(v[1..], sep, rest);
      assert v == [v[0]] + v[1..];
    } else {
      assert s[0] == sep && s[1..] == rest;
    }
  }

  /** The first piece of a split is the whole text when it holds no separator, else the text before the first one. */
  lemma SplitHead(s: string, sep: char)
    ensures sep !in s ==> Split(s, sep)[0] == s
    ensures forall k :: 0 <= k < |s| && s[k] == sep && sep !in s[..k] ==> Split(s, sep)[0] == s[..k]
  {
    if sep !in s {
      SplitNone(s, sep);
    }
    forall k | 0 <= k < |s| && s[k] == sep && sep !in s[..k]
      ensures Split(s, sep)[0] == s[..k]
    {
      assert s == s[..k] + [sep] + s[k + 1..];
      SplitFirst(s[..k], sep, s[k + 1..]);
    }
  }

  /** Text without the separator splits into itself alone. */
  lemma SplitNone(v: string, sep: char)
    requires sep !in v
    ensures Split(v, sep) == [v]
  {
    SplitJoin([v], sep);
  }

  /** `re.split("[ \t]+", s)`: the pieces between maximal runs of blanks. */
  function SplitBlanks(s: string): (r: seq<string>)
    ensures |r| >= 1
    ensures |s| > 0 && !IsBlank(s[0]) ==> |r[0]| > 0
    decreases |s|
  {
    if |s| == 0 then [""]
    else
      var rest := SplitBlanks(s[1..]);
      if IsBlank(s[0]) then
        (if |s| > 1 && IsBlank(s[1]) then rest else [""] + rest)
      else
        [[s[0]] + rest[0]] + rest[1..]
  }

  /**
   * Splitting non-empty, blank-free pieces joined by one space gives the
   * pieces back: for text without leading or trailing blanks, the split
   * yields the fields, none of them empty.
   */
  lemma {:induction false} SplitBlanksJoin(parts: seq<string>)
    requires |parts| >= 1
    requires forall i :: 0 <= i < |parts| ==> |parts[i]| > 0 && forall c :: c in parts[i] ==> !IsBlank(c)
    ensures SplitBlanks(Join(parts, " ")) == parts
    decreases |parts|, |parts[0]|
  {
    var p := parts[0];
    assert !IsBlank(p[0]) by { assert p[0] in p; }
    if |p| == 1 {
      if |parts| == 1 {
        SplitBlanksCons(p[0], "");
        assert [p[0]] == p && p + "" == p;
      } else {
        SplitBlanksJoin(parts[1..]);
        JoinSingle(parts);
      }
    } else {
      var tail := [p[1..]] + parts[1..];
      ShorterFirst(parts);
      SplitBlanksJoin(tail);
      JoinLonger(parts);
    }
  }

  /** Dropping the first character of the first piece keeps every piece nonempty and free of blanks. */
  lemma ShorterFirst(parts: seq<string>)
    requires |parts| >= 1 && |parts[0]| > 1
    requires forall i :: 0 <= i < |parts| ==> |parts[i]| > 0 && forall c :: c in parts[i] ==> !IsBlank(c)
    ensures var tail := [parts[0][1..]] + parts[1..];
      forall i :: 0 <= i < |tail| ==> |tail[i]| > 0 && forall c :: c in tail[i] ==> !IsBlank(c)
  {
    var p := parts[0];
    var tail := [p[1..]] + parts[1..];
    assert forall c :: c in p[1..] ==> c in p;
    assert forall i :: 1 <= i < |tail| ==> tail[i] == parts[i];
  }

  /** A first piece of one character is split off before the rest. */
  lemma JoinSingle(parts: seq<string>)
    requires |parts| >= 2 && |parts[0]| == 1 && !IsBlank(parts[0][0])
    requires |parts[1]| > 0 && !IsBlank(parts[1][0])
    requires SplitBlanks(Join(parts[1..], " ")) == parts[1..]
    ensures SplitBlanks(Join(parts, " ")) == parts
  {
    var p := parts[0];
    var u := Join(parts[1..], " ");
    JoinFirst(parts[1..]);
    SplitBlanksSingle(p[0], u);
    assert [p[0]] == p && [p] + parts[1..] == parts;
  }

  /** The first character of a longer first piece opens the first piece of the rest. */
  lemma JoinLonger(parts: seq<string>)
    requires |parts| >= 1 && |parts[0]| > 1 && !IsBlank(parts[0][0])
    requires SplitBlanks(Join([parts[0][1..]] + parts[1..], " ")) == [parts[0][1..]] + parts[1..]
    ensures SplitBlanks(Join(parts, " ")) == parts
  {
    var p := parts[0];
    var tail := [p[1..]] + parts[1..];
    var t := Join(tail, " ");
    if |parts| == 1 {
      assert t == p[1..];
    } else {
      assert tail[1..] == parts[1..];
      assert t == p[1..] + " " + Join(parts[1..], " ");
    }
    assert Join(parts, " ") == [p[0]] + t;
    SplitBlanksCons(p[0], t);
    assert p == [p[0]] + p[1..];
  }

  /** Joined pieces start with the first character of the first piece. */
  lemma JoinFirst(parts: seq<string>)
    requires |parts| >= 1 && |parts[0]| > 0
    ensures |Join(parts, " ")| > 0 && Join(parts, " ")[0] == parts[0][0]
  {
  }

  /** A text starting with a character that is not blank: that character opens the first piece. */
  lemma SplitBlanksCons(ch: char, t: string)
    requires !IsBlank(ch)
    ensures SplitBlanks([ch] + t) == [[ch] + SplitBlanks(t)[0]] + SplitBlanks(t)[1..]
  {
    assert ([ch] + t)[1..] == t;
  }

  /** One character that is not blank, one space, and a text that starts with no blank: a piece of its own. */
  lemma SplitBlanksSingle(ch: char, u: string)
    requires !IsBlank(ch) && |u| > 0 && !IsBlank(u[0])
    ensures SplitBlanks([ch] + " " + u) == [[ch]] + SplitBlanks(u)
  {
    var s := [ch] + " " + u;
    assert s[1..] == " " + u;
    assert (" " + u)[1..] == u;
    assert SplitBlanks(" " + u) == [""] + SplitBlanks(u);
    SplitBlanksCons(ch, " " + u);
    assert [ch] + "" == [ch];
  }

  // ---------------------------------------------------------------- line loops

  /**
   * The run of a `for line in lines:` loop whose body writes `step(line)`:
   * the lines are handled in order, and the first line that raises ends
   * the run with what it had written.
   */
  function EachLine(step: string -> Run, lines: seq<string>): (r: Run)
    decreases |lines|
  {
    if |lines| == 0 then Run("", None)
    else Then(EachLine(step, lines[..|lines| - 1]), step(lines[|lines| - 1]))
  }

  /** Once a line has raised, the later lines change nothing. */
  lemma {:induction false} EachLineStops(step: string -> Run, lines: seq<string>, k: nat)
    requires k <= |lines|
    requires EachLine(step, lines[..k]).error.Some?
    ensures EachLine(step, lines) == EachLine(step, lines[..k])
    decreases |lines|
  {
    if k < |lines| {
      var front := lines[..|lines| - 1];
      assert front[..k] == lines[..k];
      EachLineStops(step, front, k);
    } else {
      assert lines[..k] == lines;
    }
  }

  /** A run without an exception is the text of every line, in order. */
  lemma {:induction false} EachLineText(step: string -> Run, lines: seq<string>)
    requires EachLine(step, lines).error.None?
    ensures EachLine(step, lines).text == Concat(seq(|lines|, i requires 0 <= i < |lines| => step(lines[i]).text))
    ensures forall i :: 0 <= i < |lines| ==> step(lines[i]).error.None?
    decreases |lines|
  {
    if |lines| > 0 {
      var n := |lines| - 1;
      var front := lines[..n];
      var texts := seq(|lines|, i requires 0 <= i < |lines| => step(lines[i]).text);
      EachLineText(step, front);
      var frontTexts := seq(|front|, i requires 0 <= i < |front| => step(front[i]).text);
      assert texts[..n] == frontTexts;
      ConcatSnoc(texts);
    }
  }

  /** `for line in lines: <step>`: writes what each line's step writes, until one raises. */
  method WriteLines(step: string -> Run, lines: seq<string>) returns (run: Run)
    ensures run == EachLine(step, lines)
  {
    var out := "";
    for i := 0 to |lines|
      invariant EachLine(step, lines[..i]).error.None?
      invariant out == EachLine(step, lines[..i]).text
    {
      var written := step(lines[i]);
      assert lines[..i + 1][..i] == lines[..i];
      out := out + written.text;
      if written.error.Some? {
        EachLineStops(step, lines, i + 1);
        return Run(out, written.error);
      }
    }
    assert lines[..|lines|] == lines;
    run := Run(out, None);
  }

  /** The concatenation of a sequence of strings. */
  function Concat(texts: seq<string>): (r: string)
    decreases |texts|
  {
    if |texts| == 0 then "" else Concat(texts[..|texts| - 1]) + texts[|texts| - 1]
  }

  /** Concatenation taken one string at a time from the end. */
  lemma ConcatSnoc(texts: seq<string>)
    requires |texts| > 0
    ensures Concat(texts) == Concat(texts[..|texts| - 1]) + texts[|texts| - 1]
  {
  }

  // ---------------------------------------------------------------- int()

  /** The value of one digit, for bases up to 16. */
  function DigitValue(c: char): (r: Option<nat>)
    ensures r.Some? ==> r.value < 16
  {
    if '0' <= c <= '9' then Some(c as int - '0' as int)
    else if 'a' <= c <= 'f' then Some(c as int - 'a' as int + 10)
    else if 'A' <= c <= 'F' then Some(c as int - 'A' as int + 10)
    else None
  }

  /** The value of a non-empty string of digits of the given base, most significant first. */
  function Digits(ds: string, base: nat): (r: Option<nat>)
    ensures |ds| == 0 ==> r.None?
    decreases |ds|
  {
    if |ds| == 0 then None
    else
      var d := DigitValue(ds[|ds| - 1]);
      if d.None? || d.value >= base then None
      else if |ds| == 1 then Some(d.value)
      else
        var high := Digits(ds[..|ds| - 1], base);
        if high.None? then None else Some(high.value * base + d.value)
  }

  /** The text after an optional sign, and whether the sign was a minus. */
  function Unsigned(t: string): (r: (bool, string))
    ensures |r.1| <= |t|
  {
    if |t| > 0 && (t[0] == '-' || t[0] == '+') then (t[0] == '-', t[1..]) else (false, t)
  }

  /** In base 16, `int()` also accepts a `0x` or `0X` before the digits. */
  function HexDigits(u: string, base: nat): string {
    if base == 16 && |u| >= 2 && u[0] == '0' && (u[1] == 'x' || u[1] == 'X') then u[2..] else u
  }

  /**
   * `int(s, base)` for base 10 or 16: surrounding white space, an optional
   * sign, in base 16 an optional `0x`, then at least one digit of the base.
   */
  function ParseInt(s: string, base: nat): (r: Option<int>)
    ensures |Strip(s)| == 0 ==> r.None?
  {
    var t := Strip(s);
    var (negative, u) := Unsigned(t);
    var d := Digits(HexDigits(u, base), base);
    if d.None? then None
    else
      var v: int := d.value;
      Some(if negative then -v else v)
  }

  /** `int(s, base)` with the exception it raises for bad text. */
  function Int(s: string, base: nat): (r: Result<int>)
    ensures r.Ok? <==> ParseInt(s, base).Some?
    ensures r.Ok? ==> r.value == ParseInt(s, base).value
    ensures r.Err? ==> r.error == InvalidLiteral(s, base)
  {
    var v := ParseInt(s, base);
    if v.Some? then Ok(v.value) else Err(InvalidLiteral(s, base))
  }

  // ---------------------------------------------------------------- %d

  /** The digit character of a value below ten. */
  function DigitChar(d: nat): (c: char)
    requires d < 10
    ensures DigitValue(c) == Some(d)
  {
    ('0' as int + d) as char
  }

  /** The decimal digits of a natural number, without leading zeros. */
  function NaturalText(n: nat): (r: string)
    ensures |r| > 0
    ensures forall i :: 0 <= i < |r| ==> '0' <= r[i] <= '9'
    decreases n
  {
    if n < 10 then [DigitChar(n)] else NaturalText(n / 10) + [DigitChar(n % 10)]
  }

  /** `"%d" % n`. */
  function Decimal(n: int): (r: string)
    ensures |r| > 0
  {
    if n < 0 then "-" + NaturalText(-n) else NaturalText(n)
  }

  /** Reading the decimal digits of n gives n. */
  lemma {:induction false} DigitsOfNaturalText(n: nat)
    ensures Digits(NaturalText(n), 10) == Some(n)
    decreases n
  {
    var t := NaturalText(n);
    if n >= 10 {
      DigitsOfNaturalText(n / 10);
      assert t[..|t| - 1] == NaturalText(n / 10);
      assert t[|t| - 1] == DigitChar(n % 10);
    }
  }

  /** `int("%d" % n) == n`: formatting a number and reading it back is the identity. */
  lemma DecimalRoundTrip(n: int)
    ensures ParseInt(Decimal(n), 10) == Some(n)
  {
    var t := Decimal(n);
    var m: nat := if n < 0 then -n else n;
    var digits := NaturalText(m);
    assert !IsSpace(t[0]) && !IsSpace(t[|t| - 1]) by {
      if n < 0 { assert t[0] == '-' && t[|t| - 1] == digits[|digits| - 1]; }
    }
    StripTrimmed(t);
    DigitsOfNaturalText(m);
    if n < 0 {
      assert t[1..] == digits;
    } else {
      assert digits[0] != '-' && digits[0] != '+';
    }
  }
}
