/**
 * The header counter every classifier keeps for the memory manager's
 * checkpoints. `headerProcessed` counts each classified header, and once
 * the count reaches the headers-per-checkpoint setting it is handed to a
 * checkpoint and starts again from 0. This module gives the count and the
 * checkpoints after any number of headers in closed form.
 */
module HeaderCheckpoints {
  import opened BitOps
  import opened Sequences

  /** One `headerProcessed` from count cnt: the new count and the checkpoints it sets, none or one. */
  function Step(cnt: nat, setting: nat): (r: (nat, seq<nat>))
    ensures r.0 + Sum(r.1) == cnt + 1
    ensures setting > 0 ==> r.0 < setting
    ensures |r.1| <= 1
  {
    if cnt + 1 >= setting then (0, [cnt + 1]) else (cnt + 1, [])
  }

  /** n calls of `headerProcessed` from count cnt and checkpoints ck: the new count and checkpoints. */
  function Steps(cnt: nat, ck: seq<nat>, setting: nat, n: nat): (r: (nat, seq<nat>))
    ensures |ck| <= |r.1| <= |ck| + n && r.1[..|ck|] == ck
    decreases n
  {
    if n == 0 then (cnt, ck)
    else
      var prev := Steps(cnt, ck, setting, n - 1);
      (Step(prev.0, setting).0, prev.1 + Step(prev.0, setting).1)
  }

  /** n checkpoints of `setting` headers each. */
  function Repeat(setting: nat, n: nat): (r: seq<nat>)
    ensures |r| == n
    ensures forall i :: 0 <= i < n ==> r[i] == setting
  {
    seq(n, _ => setting)
  }

  /** The total of the header counts. */
  function Sum(s: seq<nat>): nat
  {
    if |s| == 0 then 0 else Sum(s[..|s| - 1]) + s[|s| - 1]
  }

  /**
   * The count and the checkpoints after n more headers, counted from cnt
   * under the given setting. From a count below the setting, every
   * `setting` headers make one full checkpoint and the remainder stays
   * counted. A count at or above the setting (the setting was lowered
   * after the count reached it) is handed over whole by the first header.
   */
  function After(cnt: nat, setting: nat, n: nat): (r: (nat, seq<nat>))
    requires setting > 0
    ensures |r.1| <= n
  {
    if n == 0 then (cnt, [])
    else if cnt < setting then
      FewFull(cnt + n, setting, n);
      ((cnt + n) % setting, Repeat(setting, (cnt + n) / setting))
    else
      FewFull(n - 1, setting, n - 1);
      ((n - 1) % setting, [cnt + 1] + Repeat(setting, (n - 1) / setting))
  }

  /** Fewer than setting + n headers fill at most n checkpoints. */
  lemma FewFull(t: nat, setting: nat, n: nat)
    requires setting > 0 && t < setting + n
    ensures t / setting <= n
  {
    var q := t / setting;
    assert t == setting * q + t % setting;
    if q > n {
      assert setting * q == setting * (q - 1) + setting;
      if q > 1 {
        MulAtLeast(q - 1, setting);
      }
    }
  }

  /** One more header: the remainder goes up by one, or wraps to 0 with one more quotient. */
  lemma ModStep(t: nat, s: nat)
    requires s > 0
    ensures t % s + 1 < s ==> (t + 1) % s == t % s + 1 && (t + 1) / s == t / s
    ensures t % s + 1 == s ==> (t + 1) % s == 0 && (t + 1) / s == t / s + 1
  {
    var q, m := t / s, t % s;
    assert t == s * q + m;
    if m + 1 < s {
      DivModUnique(t + 1, s, q, m + 1);
    } else if m + 1 == s {
      assert t + 1 == s * (q + 1) + 0;
      DivModUnique(t + 1, s, q + 1, 0);
    }
  }

  /** t headers past a first part p: the remainder, and p followed by the full checkpoints. */
  function Form(t: nat, setting: nat, p: seq<nat>): (nat, seq<nat>)
    requires setting > 0
  {
    (t % setting, p + Repeat(setting, t / setting))
  }

  /** One `headerProcessed` after the form for t headers gives the form for t + 1. */
  lemma FormStep(t: nat, setting: nat, p: seq<nat>)
    requires setting > 0
    ensures Form(t + 1, setting, p).0 == Step(Form(t, setting, p).0, setting).0
    ensures Form(t + 1, setting, p).1 == Form(t, setting, p).1 + Step(Form(t, setting, p).0, setting).1
  {
    var q := t / setting;
    ModStep(t, setting);
    if t % setting + 1 == setting {
      assert Repeat(setting, q + 1) == Repeat(setting, q) + [setting];
    }
  }

  /** From a count below the setting, the closed form is the form of the count plus the headers. */
  lemma AfterBelowForm(cnt: nat, setting: nat, n: nat)
    requires 0 < setting && cnt < setting
    ensures After(cnt, setting, n) == Form(cnt + n, setting, [])
  {
    var r := Repeat(setting, (cnt + n) / setting);
    if n == 0 {
      DivModUnique(cnt, setting, 0, cnt);
      assert Repeat(setting, 0) == [];
    }
    assert [] + r == r;
  }

  /** From a count below the setting, the closed form after n + 1 headers is one `headerProcessed` after n. */
  lemma AfterStepBelow(cnt: nat, setting: nat, n: nat)
    requires 0 < setting && cnt < setting
    ensures After(cnt, setting, n + 1).0 == Step(After(cnt, setting, n).0, setting).0
    ensures After(cnt, setting, n + 1).1 == After(cnt, setting, n).1 + Step(After(cnt, setting, n).0, setting).1
  {
    AfterBelowForm(cnt, setting, n);
    AfterBelowForm(cnt, setting, n + 1);
    FormStep(cnt + n, setting, []);
  }

  /** From a count at or above the setting, the closed form after n + 1 headers is one `headerProcessed` after n. */
  lemma AfterStepAbove(cnt: nat, setting: nat, n: nat)
    requires 0 < setting <= cnt
    ensures After(cnt, setting, n + 1).0 == Step(After(cnt, setting, n).0, setting).0
    ensures After(cnt, setting, n + 1).1 == After(cnt, setting, n).1 + Step(After(cnt, setting, n).0, setting).1
  {
    if n == 0 {
      assert Repeat(setting, 0) == [];
    } else {
      assert After(cnt, setting, n) == Form(n - 1, setting, [cnt + 1]);
      assert After(cnt, setting, n + 1) == Form(n, setting, [cnt + 1]);
      FormStep(n - 1, setting, [cnt + 1]);
    }
  }

  /** The closed form after n + 1 headers is one `headerProcessed` after the closed form after n. */
  lemma AfterStep(cnt: nat, setting: nat, n: nat)
    requires setting > 0
    ensures After(cnt, setting, n + 1).0 == Step(After(cnt, setting, n).0, setting).0
    ensures After(cnt, setting, n + 1).1 == After(cnt, setting, n).1 + Step(After(cnt, setting, n).0, setting).1
  {
    if cnt < setting {
      AfterStepBelow(cnt, setting, n);
    } else {
      AfterStepAbove(cnt, setting, n);
    }
  }

  /** One more `headerProcessed` after n. */
  lemma StepsNext(cnt: nat, ck: seq<nat>, setting: nat, n: nat)
    ensures Steps(cnt, ck, setting, n + 1).0 == Step(Steps(cnt, ck, setting, n).0, setting).0
    ensures Steps(cnt, ck, setting, n + 1).1 == Steps(cnt, ck, setting, n).1 + Step(Steps(cnt, ck, setting, n).0, setting).1
  {
  }

  /** The closed form is what n calls of `headerProcessed` give. */
  lemma {:induction false} AfterIsSteps(cnt: nat, ck: seq<nat>, setting: nat, n: nat)
    requires setting > 0
    ensures Steps(cnt, ck, setting, n).0 == After(cnt, setting, n).0
    ensures Steps(cnt, ck, setting, n).1 == ck + After(cnt, setting, n).1
  {
    if n > 0 {
      AfterIsSteps(cnt, ck, setting, n - 1);
      AfterStep(cnt, setting, n - 1);
      var prev := After(cnt, setting, n - 1);
      AppendAssoc(ck, prev.1, Step(prev.0, setting).1);
    } else {
      assert ck + [] == ck;
    }
  }

  /**
   * No header is lost: the checkpoints and the remaining count add up to
   * the old count plus the new headers, and the remaining count is below
   * the setting once a header was counted.
   */
  lemma {:induction false} AfterCounted(cnt: nat, setting: nat, n: nat)
    requires setting > 0
    ensures After(cnt, setting, n).0 + Sum(After(cnt, setting, n).1) == cnt + n
    ensures n > 0 || cnt < setting ==> After(cnt, setting, n).0 < setting
  {
    if n > 0 {
      AfterCounted(cnt, setting, n - 1);
      AfterStep(cnt, setting, n - 1);
      var prev := After(cnt, setting, n - 1);
      var step := Step(prev.0, setting);
      var ck := prev.1 + step.1;
      if prev.0 + 1 >= setting {
        assert ck[..|ck| - 1] == prev.1;
      } else {
        assert ck == prev.1;
      }
    }
  }

  /**
   * Every checkpoint holds the setting, except a first one that hands over
   * a count the setting was lowered under.
   */
  lemma AfterCheckpoints(cnt: nat, setting: nat, n: nat, i: nat)
    requires setting > 0 && i < |After(cnt, setting, n).1|
    ensures After(cnt, setting, n).1[i] == setting || (i == 0 && cnt >= setting && After(cnt, setting, n).1[i] == cnt + 1)
  {
  }
}
