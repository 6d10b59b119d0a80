/**
 * tools/count_tuples.py: counts the distinct tuples of a rule file, a
 * tuple being the pair of prefix lengths of a line's source and
 * destination subnets. The file is given as its lines; the result is the
 * set of tuples and the summary line, or the Python exception of the
 * first line that raises, in which case nothing is printed.
 */
module CountTuples {
  import opened Results
  import opened PyText

  /** `int(field.split("/")[1])`: the number after a subnet's first '/'. */
  function PrefixLength(field: string): (r: Result<int>)
    ensures |Split(field, '/')| < 2 ==> r == Err(IndexOutOfRange)
    ensures |Split(field, '/')| >= 2 ==> r == Int(Split(field, '/')[1], 10)
  {
    var pieces := Split(field, '/');
    if |pieces| < 2 then Err(IndexOutOfRange) else Int(pieces[1], 10)
  }

  /** The tuple of one line: the prefix lengths of its first two space-separated fields, read left to right. */
  function LineTuple(line: string): (r: Result<(int, int)>)
    ensures r.Ok? <==> |Split(line, ' ')| >= 2 && PrefixLength(Split(line, ' ')[0]).Ok? && PrefixLength(Split(line, ' ')[1]).Ok?
    ensures PrefixLength(Split(line, ' ')[0]).Err? ==> r == Err(PrefixLength(Split(line, ' ')[0]).error)
    ensures r.Ok? ==> r.value == (PrefixLength(Split(line, ' ')[0]).value, PrefixLength(Split(line, ' ')[1]).value)
  {
    PartsTuple(Split(line, ' '))
  }

  /** The tuple of the space-separated fields of a line. */
  function PartsTuple(parts: seq<string>): Result<(int, int)>
    requires |parts| >= 1
  {
    var src := PrefixLength(parts[0]);
    if src.Err? then Err(src.error)
    else if |parts| < 2 then Err(IndexOutOfRange)
    else
      var dst := PrefixLength(parts[1]);
      if dst.Err? then Err(dst.error) else Ok((src.value, dst.value))
  }

  /**
   * The set a loop builds from the values `read` gives its lines, or the
   * exception of the first line that raises.
   */
  function Gather(read: string -> Result<(int, int)>, lines: seq<string>): Result<set<(int, int)>>
    decreases |lines|
  {
    if |lines| == 0 then Ok({})
    else
      var front := Gather(read, lines[..|lines| - 1]);
      var t := read(lines[|lines| - 1]);
      if front.Err? then front
      else if t.Err? then Err(t.error)
      else Ok(front.value + {t.value})
  }

  /** The set of distinct tuples of a file, or the exception of its first line without one. */
  function Tuples(lines: seq<string>): Result<set<(int, int)>> {
    Gather(LineTuple, lines)
  }

  /**
   * The loop runs without an exception iff every line is read, and then
   * the set holds exactly the values read.
   */
  lemma {:induction false} GatherContents(read: string -> Result<(int, int)>, lines: seq<string>)
    ensures Gather(read, lines).Ok? <==> forall i :: 0 <= i < |lines| ==> read(lines[i]).Ok?
    ensures Gather(read, lines).Ok? ==>
      forall t :: t in Gather(read, lines).value <==> exists i :: 0 <= i < |lines| && read(lines[i]) == Ok(t)
    decreases |lines|
  {
    if |lines| > 0 {
      var n := |lines| - 1;
      var front := lines[..n];
      GatherContents(read, front);
      assert forall i :: 0 <= i < n ==> front[i] == lines[i];
      if Gather(read, lines).Ok? {
        forall t | t in Gather(read, lines).value
          ensures exists i :: 0 <= i < |lines| && read(lines[i]) == Ok(t)
        {
          if t in Gather(read, front).value {
            var i :| 0 <= i < n && read(front[i]) == Ok(t);
            assert read(lines[i]) == Ok(t);
          } else {
            assert read(lines[n]) == Ok(t);
          }
        }
      }
    }
  }

  /** The exception, if any, is the one of the first line that is not read. */
  lemma {:induction false} GatherFirstError(read: string -> Result<(int, int)>, lines: seq<string>, k: nat)
    requires k < |lines| && read(lines[k]).Err?
    requires forall i :: 0 <= i < k ==> read(lines[i]).Ok?
    ensures Gather(read, lines) == Err(read(lines[k]).error)
    decreases |lines|
  {
    var n := |lines| - 1;
    var front := lines[..n];
    if k < n {
      assert forall i :: 0 <= i <= k ==> front[i] == lines[i];
      GatherFirstError(read, front, k);
    } else {
      assert forall i :: 0 <= i < n ==> front[i] == lines[i];
      GatherContents(read, front);
    }
  }

  /** There are at most as many values as lines. */
  lemma {:induction false} GatherBound(read: string -> Result<(int, int)>, lines: seq<string>)
    requires Gather(read, lines).Ok?
    ensures |Gather(read, lines).value| <= |lines|
    decreases |lines|
  {
    if |lines| > 0 {
      var front := lines[..|lines| - 1];
      GatherBound(read, front);
      var t := read(lines[|lines| - 1]);
      assert |Gather(read, front).value + {t.value}| <= |Gather(read, front).value| + |{t.value}|;
    }
  }

  /** A line repeated at the end adds nothing: the set keeps each value once. */
  lemma RepeatedLine(read: string -> Result<(int, int)>, lines: seq<string>, k: nat)
    requires k < |lines|
    ensures Gather(read, lines + [lines[k]]) == Gather(read, lines)
  {
    var more := lines + [lines[k]];
    assert more[..|more| - 1] == lines && more[|more| - 1] == lines[k];
    var front := Gather(read, lines);
    if front.Ok? {
      GatherContents(read, lines);
      var t := read(lines[k]);
      assert t.Ok? && t.value in front.value;
      assert front.value + {t.value} == front.value;
      assert Gather(read, more) == Ok(front.value + {t.value});
    }
  }

  /** Once the loop has raised, the later lines change nothing. */
  lemma {:induction false} GatherStops(read: string -> Result<(int, int)>, lines: seq<string>, k: nat)
    requires k <= |lines|
    requires Gather(read, lines[..k]).Err?
    ensures Gather(read, lines) == Gather(read, lines[..k])
    decreases |lines|
  {
    if k < |lines| {
      var front := lines[..|lines| - 1];
      assert front[..k] == lines[..k];
      GatherStops(read, front, k);
    } else {
      assert lines[..k] == lines;
    }
  }

  /** Splitting a subnet: the number after its only '/'. */
  lemma PrefixOfSubnet(address: string, length: string)
    requires '/' !in address && '/' !in length
    ensures PrefixLength(address + "/" + length) == Int(length, 10)
  {
    SplitFirst(address, '/', length);
    SplitNone(length, '/');
  }

  /** A line of space-separated fields: only its first two fields decide its tuple. */
  lemma LineOfFields(fields: seq<string>)
    requires |fields| >= 2
    requires forall i :: 0 <= i < |fields| ==> ' ' !in fields[i]
    ensures LineTuple(Join(fields, " ")) == LineTuple(fields[0] + " " + fields[1])
  {
    PairJoin(fields);
    SplitJoin(fields, ' ');
    SplitJoin(fields[..2], ' ');
    assert PartsTuple(fields) == PartsTuple(fields[..2]);
  }

  /** Two fields joined by a space. */
  lemma PairJoin(fields: seq<string>)
    requires |fields| >= 2
    ensures Join(fields[..2], " ") == fields[0] + " " + fields[1]
  {
    assert fields[..2][1..] == [fields[1]];
  }

  /** The summary line. */
  function Summary(count: nat): string {
    "The rule set has " + Decimal(count) + " tuples!"
  }

  /** The summary line tells the number of tuples: different counts print differently. */
  lemma SummaryTellsCount(a: nat, b: nat)
    requires Summary(a) == Summary(b)
    ensures a == b
  {
    var p := "The rule set has ";
    var q := " tuples!";
    var sa, sb := Summary(a), Summary(b);
    assert sa == p + Decimal(a) + q && sb == p + Decimal(b) + q;
    assert Decimal(a) == sa[|p|..|sa| - |q|];
    assert Decimal(b) == sb[|p|..|sb| - |q|];
    DecimalRoundTrip(a);
    DecimalRoundTrip(b);
  }

  /** The loop over the lines, with what `read` does to each. */
  method GatherLines(read: string -> Result<(int, int)>, lines: seq<string>) returns (r: Result<set<(int, int)>>)
    ensures r == Gather(read, lines)
  {
    var found: set<(int, int)> := {};
    for i := 0 to |lines|
      invariant Gather(read, lines[..i]) == Ok(found)
    {
      assert lines[..i + 1][..i] == lines[..i];
      var t := read(lines[i]);
      if t.Err? {
        GatherStops(read, lines, i + 1);
        return Err(t.error);
      }
      found := found + {t.value};
    }
    assert lines[..|lines|] == lines;
    r := Ok(found);
  }

  /**
   * `main`: the tuples of every line collected into a set, and the summary
   * line with their number; an exception leaves no summary.
   */
  method CountTuples(lines: seq<string>) returns (tuples: Result<set<(int, int)>>, summary: Option<string>)
    ensures tuples == Tuples(lines)
    ensures summary.Some? <==> tuples.Ok?
    ensures tuples.Ok? ==> summary == Some(Summary(|tuples.value|))
  {
    tuples := GatherLines(LineTuple, lines);
    summary := if tuples.Ok? then Some(Summary(|tuples.value|)) else None;
  }
}
