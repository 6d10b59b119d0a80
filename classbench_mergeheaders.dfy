/**
 * tools/classbench_mergeheaders.py: a merge-join of two header files whose
 * lines start with a rule index. Walking both files in step, a line pair
 * with the same index is written as one line (the index, then the left
 * fields, then the right fields); otherwise the side with the smaller
 * index moves on. The loop ends when either file is exhausted. The files
 * are given as their lines, and the output is returned as text with the
 * exception that stopped the script, if one did.
 */
module ClassbenchMergeHeaders {
  import opened Results
  import opened PyText

  /** `line.strip().split(" ")`: the rule index and the fields after it. */
  function Parts(line: string): (r: seq<string>)
    ensures |r| >= 1
  {
    Split(Strip(line), ' ')
  }

  /** `int(parts[0])`: the rule index of a line. */
  function Key(line: string): Result<int> {
    Int(Parts(line)[0], 10)
  }

  /** The fields from the second on, each followed by one space. */
  function Fields(parts: seq<string>): (r: string)
    decreases |parts|
  {
    if |parts| <= 1 then "" else Fields(parts[..|parts| - 1]) + parts[|parts| - 1] + " "
  }

  /** The rule index of every line of a file, or the exception reading it raises. */
  function Keys(lines: seq<string>): (keys: seq<Result<int>>)
    ensures |keys| == |lines|
    decreases |lines|
  {
    if |lines| == 0 then [] else Keys(lines[..|lines| - 1]) + [Key(lines[|lines| - 1])]
  }

  /** What each line of a file contributes to a combined line: its fields after the index. */
  function FieldTexts(lines: seq<string>): (texts: seq<string>)
    ensures |texts| == |lines|
    decreases |lines|
  {
    if |lines| == 0 then [] else FieldTexts(lines[..|lines| - 1]) + [Fields(Parts(lines[|lines| - 1]))]
  }

  /** Position a of the indices and the field texts belongs to line a. */
  lemma {:induction false} LineAt(lines: seq<string>, a: nat)
    requires a < |lines|
    ensures Keys(lines)[a] == Key(lines[a])
    ensures FieldTexts(lines)[a] == Fields(Parts(lines[a]))
    decreases |lines|
  {
    if a < |lines| - 1 {
      var init := lines[..|lines| - 1];
      LineAt(init, a);
      assert Keys(lines) == Keys(init) + [Key(lines[|lines| - 1])];
      assert FieldTexts(lines) == FieldTexts(init) + [Fields(Parts(lines[|lines| - 1]))];
      assert init[a] == lines[a];
    }
  }

  /** The output line for a left and a right line with the same index. */
  function Combined(key: int, left: string, right: string): string {
    Decimal(key) + " " + left + right + "\n"
  }

  /**
   * What the loop writes from positions i and j on, given each line's
   * index and fields, and the exception that ends it, if any.
   */
  function Walk(kl: seq<Result<int>>, fl: seq<string>, kr: seq<Result<int>>, fr: seq<string>, i: nat, j: nat): (run: Run)
    requires |kl| == |fl| && |kr| == |fr| && i <= |kl| && j <= |kr|
    decreases |kl| - i + |kr| - j
  {
    if i == |kl| || j == |kr| then Run("", None)
    else if kl[i].Err? then Run("", Some(kl[i].error))
    else if kr[j].Err? then Run("", Some(kr[j].error))
    else if kl[i].value == kr[j].value then Then(Run(Combined(kl[i].value, fl[i], fr[j]), None), Walk(kl, fl, kr, fr, i + 1, j + 1))
    else if kl[i].value > kr[j].value then Walk(kl, fl, kr, fr, i, j + 1)
    else Walk(kl, fl, kr, fr, i + 1, j)
  }

  /** `merge_headers` on two files. */
  function MergeOutput(l: seq<string>, r: seq<string>): Run {
    Walk(Keys(l), FieldTexts(l), Keys(r), FieldTexts(r), 0, 0)
  }

  /** An empty file on either side gives an empty output. */
  lemma MergeWithEmpty(l: seq<string>, r: seq<string>)
    requires |l| == 0 || |r| == 0
    ensures MergeOutput(l, r) == Run("", None)
  {
  }

  /** Writing two texts one after the other is writing their concatenation. */
  lemma ThenWritten(out: string, text: string, rest: Run)
    ensures Then(Run(out, None), Then(Run(text, None), rest)) == Then(Run(out + text, None), rest)
  {
    assert out + (text + rest.text) == (out + text) + rest.text;
  }

  /** The inner `while partidx < len(parts)` loop: writes every field after the index. */
  method WriteFields(parts: seq<string>) returns (text: string)
    requires |parts| >= 1
    ensures text == Fields(parts)
  {
    text := "";
    var partidx := 1;
    while partidx < |parts|
      invariant 1 <= partidx <= |parts|
      invariant text == Fields(parts[..partidx])
    {
      assert parts[..partidx + 1][..partidx] == parts[..partidx];
      text := text + parts[partidx] + " ";
      partidx := partidx + 1;
    }
    assert parts[..partidx] == parts;
  }

  /**
   * The reading part of the loop body, `line.strip().split(' ')`,
   * `int(parts[0])` and the inner field loop, done for every line of a file.
   */
  method ReadLines(lines: seq<string>) returns (keys: seq<Result<int>>, texts: seq<string>)
    ensures keys == Keys(lines) && texts == FieldTexts(lines)
  {
    keys, texts := [], [];
    var n := 0;
    while n < |lines|
      invariant n <= |lines|
      invariant keys == Keys(lines[..n]) && texts == FieldTexts(lines[..n])
    {
      assert lines[..n + 1][..n] == lines[..n];
      var parts := Parts(lines[n]);
      var text := WriteFields(parts);
      keys, texts := keys + [Int(parts[0], 10)], texts + [text];
      n := n + 1;
    }
    assert lines[..n] == lines;
  }

  /**
   * The two-pointer loop of `merge_headers` over the lines' indices and
   * field texts. The ghost count of iterations shows that each one
   * advances at least one of the two positions.
   */
  method MergeWalk(kl: seq<Result<int>>, fl: seq<string>, kr: seq<Result<int>>, fr: seq<string>) returns (run: Run, ghost iterations: nat)
    requires |kl| == |fl| && |kr| == |fr|
    ensures run == Walk(kl, fl, kr, fr, 0, 0)
    ensures iterations <= |kl| + |kr|
  {
    ghost var total := Walk(kl, fl, kr, fr, 0, 0);
    var out := "";
    var indexl, indexr := 0, 0;
    iterations := 0;
    while indexl < |kl| && indexr < |kr|
      invariant indexl <= |kl| && indexr <= |kr|
      invariant iterations <= indexl + indexr
      invariant total == Then(Run(out, None), Walk(kl, fl, kr, fr, indexl, indexr))
      decreases |kl| - indexl + |kr| - indexr
    {
      var ruleidxl := kl[indexl];
      if ruleidxl.Err? {
        return Run(out, Some(ruleidxl.error)), iterations;
      }
      var ruleidxr := kr[indexr];
      if ruleidxr.Err? {
        return Run(out, Some(ruleidxr.error)), iterations;
      }
      if ruleidxl.value == ruleidxr.value {
        var line := Decimal(ruleidxl.value) + " " + fl[indexl] + fr[indexr] + "\n";
        ThenWritten(out, line, Walk(kl, fl, kr, fr, indexl + 1, indexr + 1));
        out := out + line;
        indexl, indexr := indexl + 1, indexr + 1;
      } else if ruleidxl.value > ruleidxr.value {
        indexr := indexr + 1;
      } else {
        indexl := indexl + 1;
      }
      iterations := iterations + 1;
    }
    run := Run(out, None);
  }

  /** `merge_headers`: the lines of both files read, then walked. */
  method MergeHeaders(linesl: seq<string>, linesr: seq<string>) returns (run: Run)
    ensures run == MergeOutput(linesl, linesr)
  {
    var kl, fl := ReadLines(linesl);
    var kr, fr := ReadLines(linesr);
    ghost var iterations;
    run, iterations := MergeWalk(kl, fl, kr, fr);
  }

  // ------------------------------------------------------------ the join

  /** Keys that strictly increase along a file. */
  predicate Increasing(keys: seq<int>) {
    forall a, b :: 0 <= a < b < |keys| ==> keys[a] < keys[b]
  }

  /** Every line of a file has a readable rule index. */
  predicate Readable(keys: seq<Result<int>>) {
    forall a :: 0 <= a < |keys| ==> keys[a].Ok?
  }

  /** The values of readable indices. */
  function Values(keys: seq<Result<int>>): (vs: seq<int>)
    requires Readable(keys)
    ensures |vs| == |keys|
    ensures forall a :: 0 <= a < |keys| ==> keys[a] == Ok(vs[a])
  {
    seq(|keys|, a requires 0 <= a < |keys| => keys[a].value)
  }

  /** The positions of the line pairs the two-pointer walk combines, from positions i and j on. */
  function Matches(kl: seq<int>, kr: seq<int>, i: nat, j: nat): (m: seq<(nat, nat)>)
    requires i <= |kl| && j <= |kr|
    ensures forall x :: 0 <= x < |m| ==> i <= m[x].0 < |kl| && j <= m[x].1 < |kr|
    decreases |kl| - i + |kr| - j
  {
    if i == |kl| || j == |kr| then []
    else if kl[i] == kr[j] then [(i, j)] + Matches(kl, kr, i + 1, j + 1)
    else if kl[i] > kr[j] then Matches(kl, kr, i, j + 1)
    else Matches(kl, kr, i + 1, j)
  }

  /** The output lines of a list of combined pairs. */
  function CombinedLines(kl: seq<int>, fl: seq<string>, fr: seq<string>, m: seq<(nat, nat)>): string
    requires |kl| == |fl|
    requires forall x :: 0 <= x < |m| ==> m[x].0 < |fl| && m[x].1 < |fr|
    decreases |m|
  {
    if |m| == 0 then "" else Combined(kl[m[0].0], fl[m[0].0], fr[m[0].1]) + CombinedLines(kl, fl, fr, m[1..])
  }

  /** Every pair of positions holds equal keys. */
  predicate Paired(kl: seq<int>, kr: seq<int>, m: seq<(nat, nat)>) {
    forall x :: 0 <= x < |m| ==> m[x].0 < |kl| && m[x].1 < |kr| && kl[m[x].0] == kr[m[x].1]
  }

  /** The pairs advance on both sides. */
  predicate Advancing(m: seq<(nat, nat)>) {
    forall x, y :: 0 <= x < y < |m| ==> m[x].0 < m[y].0 && m[x].1 < m[y].1
  }

  /** Each combined pair has equal keys, and the pairs advance on both sides. */
  lemma {:induction false} MatchesSound(kl: seq<int>, kr: seq<int>, i: nat, j: nat)
    requires i <= |kl| && j <= |kr|
    ensures Paired(kl, kr, Matches(kl, kr, i, j))
    ensures Advancing(Matches(kl, kr, i, j))
    decreases |kl| - i + |kr| - j
  {
    if i < |kl| && j < |kr| {
      if kl[i] == kr[j] {
        MatchesSound(kl, kr, i + 1, j + 1);
        PairedCons(kl, kr, i, j, Matches(kl, kr, i + 1, j + 1));
      } else if kl[i] > kr[j] {
        MatchesSound(kl, kr, i, j + 1);
      } else {
        MatchesSound(kl, kr, i + 1, j);
      }
    }
  }

  /** A pair of equal keys in front of pairs further on both sides keeps the pairs sound. */
  lemma PairedCons(kl: seq<int>, kr: seq<int>, i: nat, j: nat, rest: seq<(nat, nat)>)
    requires i < |kl| && j < |kr| && kl[i] == kr[j]
    requires Paired(kl, kr, rest) && Advancing(rest)
    requires forall x :: 0 <= x < |rest| ==> i < rest[x].0 && j < rest[x].1
    ensures Paired(kl, kr, [(i, j)] + rest) && Advancing([(i, j)] + rest)
  {
    var m := [(i, j)] + rest;
    forall x, y | 0 <= x < y < |m|
      ensures m[x].0 < m[y].0 && m[x].1 < m[y].1
    {
      assert m[y] == rest[y - 1];
    }
    forall x | 0 <= x < |m|
      ensures m[x].0 < |kl| && m[x].1 < |kr| && kl[m[x].0] == kr[m[x].1]
    {
      if x > 0 {
        assert m[x] == rest[x - 1];
      }
    }
  }

  /** With strictly increasing keys on both sides, every pair of lines with equal keys is combined. */
  lemma {:induction false} MatchesComplete(kl: seq<int>, kr: seq<int>, i: nat, j: nat, a: nat, b: nat)
    requires Increasing(kl) && Increasing(kr)
    requires i <= a < |kl| && j <= b < |kr| && kl[a] == kr[b]
    ensures (a, b) in Matches(kl, kr, i, j)
    decreases |kl| - i + |kr| - j
  {
    if kl[i] == kr[j] {
      if a != i || b != j {
        assert a != i && b != j;
        MatchesComplete(kl, kr, i + 1, j + 1, a, b);
      }
    } else if kl[i] > kr[j] {
      assert b != j;
      MatchesComplete(kl, kr, i, j + 1, a, b);
    } else {
      assert a != i;
      MatchesComplete(kl, kr, i + 1, j, a, b);
    }
  }

  /**
   * With strictly increasing keys on both sides, the keys written are
   * exactly the keys common to both files, in strictly ascending order.
   */
  lemma CommonKeysAscending(kl: seq<int>, kr: seq<int>)
    requires Increasing(kl) && Increasing(kr)
    ensures var m := Matches(kl, kr, 0, 0);
      && (forall k :: (exists x :: 0 <= x < |m| && kl[m[x].0] == k) <==> k in kl && k in kr)
      && (forall x, y :: 0 <= x < y < |m| ==> kl[m[x].0] < kl[m[y].0])
  {
    var m := Matches(kl, kr, 0, 0);
    MatchesSound(kl, kr, 0, 0);
    assert Paired(kl, kr, m) && Advancing(m);
    forall k | k in kl && k in kr
      ensures exists x :: 0 <= x < |m| && kl[m[x].0] == k
    {
      var a :| 0 <= a < |kl| && kl[a] == k;
      var b :| 0 <= b < |kr| && kr[b] == k;
      MatchesComplete(kl, kr, 0, 0, a, b);
      var x :| 0 <= x < |m| && m[x] == (a, b);
      assert kl[m[x].0] == k;
    }
  }

  /** The keys `vs` are the values of the readable `keys`. */
  predicate ValuesOf(keys: seq<Result<int>>, vs: seq<int>) {
    |vs| == |keys| && forall a :: 0 <= a < |keys| ==> keys[a] == Ok(vs[a])
  }

  /** The positions the walk moves to from i and j over readable keys with values `vl` and `vr`. */
  function Next(vl: seq<int>, vr: seq<int>, i: nat, j: nat): (r: (nat, nat))
    requires i < |vl| && j < |vr|
  {
    if vl[i] == vr[j] then (i + 1, j + 1) else if vl[i] > vr[j] then (i, j + 1) else (i + 1, j)
  }

  /** A matched pair: its line, then what the walk writes after it. */
  lemma WalkMatched(kl: seq<Result<int>>, fl: seq<string>, kr: seq<Result<int>>, fr: seq<string>,
                    vl: seq<int>, vr: seq<int>, i: nat, j: nat, i2: nat, j2: nat)
    requires |kl| == |fl| && |kr| == |fr| && i < |kl| && j < |kr|
    requires ValuesOf(kl, vl) && ValuesOf(kr, vr) && vl[i] == vr[j] && (i2, j2) == (i + 1, j + 1)
    requires Walk(kl, fl, kr, fr, i2, j2) == Run(CombinedLines(vl, fl, fr, Matches(vl, vr, i2, j2)), None)
    ensures Walk(kl, fl, kr, fr, i, j) == Run(CombinedLines(vl, fl, fr, Matches(vl, vr, i, j)), None)
  {
    assert kl[i] == Ok(vl[i]) && kr[j] == Ok(vr[j]);
    var rest := Matches(vl, vr, i2, j2);
    assert Matches(vl, vr, i, j) == [(i, j)] + rest;
    CombinedCons(vl, fl, fr, i, j, rest);
  }

  /** The lines of a pair in front of others: its line, then theirs. */
  lemma CombinedCons(vl: seq<int>, fl: seq<string>, fr: seq<string>, i: nat, j: nat, rest: seq<(nat, nat)>)
    requires |vl| == |fl| && i < |fl| && j < |fr|
    requires forall x :: 0 <= x < |rest| ==> rest[x].0 < |fl| && rest[x].1 < |fr|
    ensures CombinedLines(vl, fl, fr, [(i, j)] + rest) == Combined(vl[i], fl[i], fr[j]) + CombinedLines(vl, fl, fr, rest)
  {
    assert ([(i, j)] + rest)[1..] == rest;
  }

  /** A smaller key on one side: the walk moves past it and writes nothing for it. */
  lemma WalkSkipped(kl: seq<Result<int>>, fl: seq<string>, kr: seq<Result<int>>, fr: seq<string>,
                    vl: seq<int>, vr: seq<int>, i: nat, j: nat, i2: nat, j2: nat)
    requires |kl| == |fl| && |kr| == |fr| && i < |kl| && j < |kr|
    requires ValuesOf(kl, vl) && ValuesOf(kr, vr) && vl[i] != vr[j]
    requires (i2, j2) == if vl[i] > vr[j] then (i, j + 1) else (i + 1, j)
    requires Walk(kl, fl, kr, fr, i2, j2) == Run(CombinedLines(vl, fl, fr, Matches(vl, vr, i2, j2)), None)
    ensures Walk(kl, fl, kr, fr, i, j) == Run(CombinedLines(vl, fl, fr, Matches(vl, vr, i, j)), None)
  {
    assert kl[i] == Ok(vl[i]) && kr[j] == Ok(vr[j]);
  }

  /** The walk over readable keys `kl` and `kr` with values `vl` and `vr`. */
  lemma {:induction false} WalkOfValues(kl: seq<Result<int>>, fl: seq<string>, kr: seq<Result<int>>, fr: seq<string>,
                                        vl: seq<int>, vr: seq<int>, i: nat, j: nat)
    requires |kl| == |fl| && |kr| == |fr| && i <= |kl| && j <= |kr|
    requires ValuesOf(kl, vl) && ValuesOf(kr, vr)
    ensures Walk(kl, fl, kr, fr, i, j) == Run(CombinedLines(vl, fl, fr, Matches(vl, vr, i, j)), None)
    decreases |kl| - i + |kr| - j
  {
    if i < |kl| && j < |kr| {
      var n := Next(vl, vr, i, j);
      WalkOfValues(kl, fl, kr, fr, vl, vr, n.0, n.1);
      WalkStep(kl, fl, kr, fr, vl, vr, i, j, n);
    }
  }

  /** One step of the walk: what it writes from i and j is what it writes from the next positions, after any match. */
  lemma WalkStep(kl: seq<Result<int>>, fl: seq<string>, kr: seq<Result<int>>, fr: seq<string>,
                 vl: seq<int>, vr: seq<int>, i: nat, j: nat, n: (nat, nat))
    requires |kl| == |fl| && |kr| == |fr| && i < |kl| && j < |kr|
    requires ValuesOf(kl, vl) && ValuesOf(kr, vr) && n == Next(vl, vr, i, j)
    requires n.0 <= |kl| && n.1 <= |kr|
    requires Walk(kl, fl, kr, fr, n.0, n.1) == Run(CombinedLines(vl, fl, fr, Matches(vl, vr, n.0, n.1)), None)
    ensures Walk(kl, fl, kr, fr, i, j) == Run(CombinedLines(vl, fl, fr, Matches(vl, vr, i, j)), None)
  {
    if vl[i] == vr[j] {
      WalkMatched(kl, fl, kr, fr, vl, vr, i, j, n.0, n.1);
    } else {
      WalkSkipped(kl, fl, kr, fr, vl, vr, i, j, n.0, n.1);
    }
  }

  /** When every index is readable, the walk writes the combined lines of the matched pairs and raises nothing. */
  lemma WalkOfReadable(kl: seq<Result<int>>, fl: seq<string>, kr: seq<Result<int>>, fr: seq<string>, i: nat, j: nat)
    requires |kl| == |fl| && |kr| == |fr| && i <= |kl| && j <= |kr|
    requires Readable(kl) && Readable(kr)
    ensures Walk(kl, fl, kr, fr, i, j) == Run(CombinedLines(Values(kl), fl, fr, Matches(Values(kl), Values(kr), i, j)), None)
  {
    WalkOfValues(kl, fl, kr, fr, Values(kl), Values(kr), i, j);
  }

  /**
   * Two files whose indices are all readable and strictly increasing merge
   * without an exception into one line per index common to both, in
   * ascending order; each line is the index, the left fields and the right
   * fields.
   */
  lemma MergeOfSorted(l: seq<string>, r: seq<string>)
    requires Readable(Keys(l)) && Readable(Keys(r))
    requires Increasing(Values(Keys(l))) && Increasing(Values(Keys(r)))
    ensures var kl, kr := Values(Keys(l)), Values(Keys(r));
      MergeOutput(l, r) == Run(CombinedLines(kl, FieldTexts(l), FieldTexts(r), Matches(kl, kr, 0, 0)), None)
  {
    WalkOfReadable(Keys(l), FieldTexts(l), Keys(r), FieldTexts(r), 0, 0);
  }
}
