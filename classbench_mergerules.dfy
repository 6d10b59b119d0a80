/**
 * tools/classbench_mergerules.py: pastes two rule files together line by
 * line. Line i of the output is line i of the left file and line i of the
 * right file, each stripped, separated by one space; the output ends
 * where the shorter file ends.
 */
module ClassbenchMergeRules {
  import opened PyText

  /** One output line, without its newline. */
  function Pasted(left: string, right: string): string {
    Strip(left) + " " + Strip(right)
  }

  /** The pasted lines for the positions both files have. */
  function PastedLines(l: seq<string>, r: seq<string>): (lines: seq<string>)
    ensures |lines| == if |l| <= |r| then |l| else |r|
    ensures forall i :: 0 <= i < |lines| ==> lines[i] == Pasted(l[i], r[i])
  {
    var n := if |l| <= |r| then |l| else |r|;
    seq(n, i requires 0 <= i < n => Pasted(l[i], r[i]))
  }

  /** Lines written one after the other, each followed by a newline. */
  function Terminated(lines: seq<string>): string
    decreases |lines|
  {
    if |lines| == 0 then "" else lines[0] + "\n" + Terminated(lines[1..])
  }

  /** Writing one more line appends it and its newline. */
  lemma {:induction false} TerminatedSnoc(lines: seq<string>, line: string)
    ensures Terminated(lines + [line]) == Terminated(lines) + line + "\n"
    decreases |lines|
  {
    if |lines| > 0 {
      assert (lines + [line])[1..] == lines[1..] + [line];
      TerminatedSnoc(lines[1..], line);
    } else {
      assert Terminated([line]) == line + "\n" + Terminated([]);
    }
  }

  /** Every line followed by a newline is the lines and an empty last piece joined by newlines. */
  lemma {:induction false} TerminatedJoin(lines: seq<string>)
    ensures Terminated(lines) == Join(lines + [""], "\n")
    decreases |lines|
  {
    if |lines| > 0 {
      TerminatedJoin(lines[1..]);
      assert (lines + [""])[1..] == lines[1..] + [""];
    }
  }

  /** `merge_rules`. */
  method MergeRules(linesl: seq<string>, linesr: seq<string>) returns (out: string)
    ensures out == Terminated(PastedLines(linesl, linesr))
  {
    ghost var pasted := PastedLines(linesl, linesr);
    out := "";
    var indexl, indexr := 0, 0;
    while indexl < |linesl| && indexr < |linesr|
      invariant indexl == indexr <= |pasted|
      invariant out == Terminated(pasted[..indexl])
    {
      var line := Pasted(linesl[indexl], linesr[indexr]);
      TerminatedPrefix(pasted, indexl);
      out := out + line + "\n";
      indexl, indexr := indexl + 1, indexr + 1;
    }
    assert pasted[..indexl] == pasted;
  }

  /** Writing line k after the first k lines. */
  lemma TerminatedPrefix(lines: seq<string>, k: nat)
    requires k < |lines|
    ensures Terminated(lines[..k + 1]) == Terminated(lines[..k]) + lines[k] + "\n"
  {
    assert lines[..k + 1] == lines[..k] + [lines[k]];
    TerminatedSnoc(lines[..k], lines[k]);
  }

  /** A line as `readlines` returns it: a newline, if any, only at its end. */
  predicate ReadLine(s: string) {
    forall k :: 0 <= k < |s| - 1 ==> s[k] != '\n'
  }

  /** Stripping a line as `readlines` returns it leaves no newline. */
  lemma StrippedReadLine(s: string)
    requires ReadLine(s)
    ensures '\n' !in Strip(s)
  {
    var t := StripLeft(s);
    var r := StripRight(t);
    var off := |s| - |t|;
    assert r == s[off..off + |r|] by {
      assert r == t[..|r|] && t == s[off..];
    }
    PieceNoNewline(s, r, off);
  }

  /** A piece of a line that does not end in white space holds no newline. */
  lemma PieceNoNewline(s: string, r: string, off: nat)
    requires ReadLine(s) && off + |r| <= |s| && r == s[off..off + |r|]
    requires |r| > 0 ==> !IsSpace(r[|r| - 1])
    ensures '\n' !in r
  {
    forall k | 0 <= k < |r|
      ensures r[k] != '\n'
    {
      if k < |r| - 1 {
        assert r[k] == s[off + k];
      }
    }
  }

  /**
   * Two files read by `readlines` give one output line per position both
   * have, in order: the left line and the right line, stripped, with one
   * space between.
   */
  lemma MergedLines(l: seq<string>, r: seq<string>)
    requires forall i :: 0 <= i < |l| ==> ReadLine(l[i])
    requires forall i :: 0 <= i < |r| ==> ReadLine(r[i])
    ensures Split(Terminated(PastedLines(l, r)), '\n') == PastedLines(l, r) + [""]
  {
    var lines := PastedLines(l, r);
    forall i | 0 <= i < |lines + [""]|
      ensures '\n' !in (lines + [""])[i]
    {
      if i < |lines| {
        StrippedReadLine(l[i]);
        StrippedReadLine(r[i]);
        assert (lines + [""])[i] == Strip(l[i]) + " " + Strip(r[i]);
      }
    }
    TerminatedJoin(lines);
    SplitJoin(lines + [""], '\n');
  }

  /** Lines past the end of the shorter file are never read. */
  lemma LongerFileCut(l: seq<string>, r: seq<string>, extra: seq<string>)
    requires |l| <= |r|
    ensures PastedLines(l, r + extra) == PastedLines(l, r)
    ensures PastedLines(r + extra, l) == PastedLines(r, l)
  {
    assert forall i :: 0 <= i < |l| ==> (r + extra)[i] == r[i];
  }
}
