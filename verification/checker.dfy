/**
  The password-strength evaluator: the number of single-character
  insertions, deletions or replacements that the source documents as the
  minimum needed to make a password strong.
  Phase 1 (Scan) reads the password once, left to right, and collects the
  missing character classes and the statistics of the repeat runs; phase 2
  (PasswordChecker) combines them by length bracket.
 */
module Checker {
  import opened Policy
  import opened RepeatRuns

  function Max(a: int, b: int): int {
    if a >= b then a else b
  }

  function Min(a: int, b: int): int {
    if a <= b then a else b
  }

  /** Dividing a non-negative amount by a bucket weight w (1, 2 or 3) gives at most that amount. */
  lemma DivShrinks(x: int, w: int)
    requires 0 <= x && 1 <= w <= 3
    ensures 0 <= x / w <= x
  {
  }

  /** At most h * w deletions spent on a bucket of h runs of weight w save at most h replacements. */
  lemma DivWithinBucket(x: int, h: int, w: int)
    requires x <= h * w && 1 <= w <= 3
    ensures x / w <= h
  {
  }

  /** Dividing by a bucket weight w (1, 2 or 3) is monotone. */
  lemma DivMonotone(x: int, y: int, w: int)
    requires x <= y && 1 <= w <= 3
    ensures x / w <= y / w
  {
  }

  /**
    Reduction of the replacement need that a budget of b deletions buys,
    spent on the buckets k, k + 1, ..., 2 of the histogram and then on the
    leftover: bucket k holds runs whose length is k modulo 3, and k + 1
    deletions lower floor(len / 3) of such a run by one, saving one
    replacement; past the buckets, every 3 deletions save one replacement.
   */
  function CreditFrom(hist: seq<int>, k: nat, b: int): int
    requires |hist| == 3 && k <= 3
    decreases 3 - k
  {
    if k == 3 then Max(b, 0) / 3
    else
      var spent := Min(hist[k] * (k + 1), b);
      spent / (k + 1) + CreditFrom(hist, k + 1, b - spent)
  }

  /** Reduction bought by the d mandatory deletions of a too-long password. */
  function DeletionCredit(hist: seq<int>, d: int): int
    requires |hist| == 3
  {
    CreditFrom(hist, 0, d)
  }

  /** The number of edits the checker reports for s. */
  function Strength(s: seq<char>): int {
    var sz := |s|;
    var special := NeedsSpecial(s);
    var change := ChangeNeed(Runs(s));
    if sz < MinLength then Max(Max(special, MinLength - sz), change)
    else if sz <= MaxLength then Max(special, change)
    else (sz - MaxLength) + Max(change - DeletionCredit(Histogram(Runs(s)), sz - MaxLength), special)
  }

  /** The credit never exceeds the deletions spent for it, and is never negative. */
  lemma {:induction false} CreditBounds(hist: seq<int>, k: nat, b: int)
    requires |hist| == 3 && k <= 3 && b >= 0
    requires forall j :: 0 <= j < 3 ==> hist[j] >= 0
    ensures 0 <= CreditFrom(hist, k, b) <= b
    decreases 3 - k
  {
    if k < 3 {
      var spent := Min(hist[k] * (k + 1), b);
      DivShrinks(spent, k + 1);
      CreditBounds(hist, k + 1, b - spent);
    }
  }

  /** More deletions never buy less: the credit is monotone in the budget. */
  lemma {:induction false} CreditMonotone(hist: seq<int>, k: nat, b: int, b': int)
    requires |hist| == 3 && k <= 3 && b <= b'
    ensures CreditFrom(hist, k, b) <= CreditFrom(hist, k, b')
    decreases 3 - k
  {
    if k < 3 {
      // the larger budget spends at least as much on bucket k and keeps at least as much
      var cap := hist[k] * (k + 1);
      var spent, spent' := Min(cap, b), Min(cap, b');
      DivMonotone(spent, spent', k + 1);
      CreditMonotone(hist, k + 1, b - spent, b' - spent');
    }
  }

  /** Each unit of credit needs a run of its bucket: the buckets can give at most one per run. */
  lemma {:induction false} CreditPerRun(hist: seq<int>, k: nat, b: int)
    requires |hist| == 3 && k <= 3 && b >= 0
    requires forall j :: 0 <= j < 3 ==> hist[j] >= 0
    ensures CreditFrom(hist, k, b) <= (if k == 0 then hist[0] + hist[1] + hist[2]
                                       else if k == 1 then hist[1] + hist[2]
                                       else if k == 2 then hist[2] else 0) + b / 3
    decreases 3 - k
  {
    if k < 3 {
      var spent := Min(hist[k] * (k + 1), b);
      DivWithinBucket(spent, hist[k], k + 1);
      DivMonotone(b - spent, b, 3);
      CreditPerRun(hist, k + 1, b - spent);
    }
  }

  /** The result is never negative. */
  lemma StrengthNonNegative(s: seq<char>)
    ensures Strength(s) >= 0
  {
  }

  /** The result is 0 exactly when the password is strong. */
  lemma StrengthZeroIffStrong(s: seq<char>)
    ensures Strength(s) == 0 <==> IsStrong(s)
  {
    ChangeNeedZeroIffNoTriple(s);
    NeedsSpecialRange(s);
  }

  /**
    Lower bounds that hold in every bracket: at least one edit per missing
    class, per missing character, per excess character, and deletions never
    bring the result below the replacements the runs need.
   */
  lemma StrengthLowerBounds(s: seq<char>)
    ensures Strength(s) >= NeedsSpecial(s)
    ensures Strength(s) >= MinLength - |s|
    ensures Strength(s) >= |s| - MaxLength
    ensures Strength(s) >= ChangeNeed(Runs(s))
  {
    if |s| > MaxLength {
      var hist := Histogram(Runs(s));
      CreditBounds(hist, 0, |s| - MaxLength);
    }
  }

  /** Too short: the missing characters dominate unless classes or runs need more; "" needs 6. */
  lemma StrengthTooShort(s: seq<char>)
    requires |s| < MinLength
    ensures Strength(s) == Max(Max(NeedsSpecial(s), MinLength - |s|), ChangeNeed(Runs(s)))
    ensures Strength(s) >= MinLength - |s| > 0
    ensures s == [] ==> Strength(s) == 6
  {
  }

  /**
    In range: replacements only. The result is the larger of the class need
    and the run need, whatever the length.
   */
  lemma StrengthInRange(s: seq<char>, t: seq<char>)
    requires MinLength <= |s| <= MaxLength && MinLength <= |t| <= MaxLength
    requires NeedsSpecial(s) == NeedsSpecial(t) && ChangeNeed(Runs(s)) == ChangeNeed(Runs(t))
    ensures Strength(s) == Strength(t) == Max(NeedsSpecial(s), ChangeNeed(Runs(s)))
  {
  }

  /**
    Too long: the sz - 20 deletions are always paid, on top of at least the
    class need and at most the larger of the class need and the undiscounted
    run need.
   */
  lemma StrengthTooLong(s: seq<char>)
    requires |s| > MaxLength
    ensures (|s| - MaxLength) + NeedsSpecial(s) <= Strength(s)
    ensures Strength(s) <= (|s| - MaxLength) + Max(NeedsSpecial(s), ChangeNeed(Runs(s)))
  {
    CreditBounds(Histogram(Runs(s)), 0, |s| - MaxLength);
  }

  /** The empty password needs six insertions. */
  lemma ExampleEmpty()
    ensures Strength("") == 6
  {
  }

  /** "aaaaa": one run of 5, missing digit and uppercase: max(2, 1, 1). */
  lemma ExampleShortRun()
    ensures Strength("aaaaa") == 2
  {
    var s: seq<char> := "aaaaa";
    SingleBlock(s);
    assert !Has(s, Digit) && !Has(s, Upper) && InClass(s[0], Lower);
  }

  /** "Aa1": every class present, three characters short. */
  lemma ExampleShortComplete()
    ensures Strength("Aa1") == 3
  {
    var s := "Aa1";
    assert InClass(s[0], Upper) && InClass(s[1], Lower) && InClass(s[2], Digit);
    assert NoTripleRepeat(s);
    RunsEmptyIffNoTriple(s, |s|);
  }

  /**
    Passwords shaped like "Aaa1aaa1": the leading pair of lowercase letters
    is too short to be a run, the triple is the only run, so one replacement.
   */
  lemma ExampleInRange(u: char, l: char, d: char)
    requires InClass(u, Upper) && InClass(l, Lower) && InClass(d, Digit)
    ensures Strength([u, l, l, d, l, l, l, d]) == 1
  {
    var s := [u, l, l, d, l, l, l, d];
    assert InClass(s[0], Upper) && InClass(s[1], Lower) && InClass(s[3], Digit);
    assert ChangeBefore(s, 1) == 0 by { assert TrailLen(s, 1) == 1; }
    assert ChangeBefore(s, 3) == 0 by { assert TrailLen(s, 2) == 1 && TrailLen(s, 3) == 2; }
    assert ChangeBefore(s, 4) == 0 by { assert TrailLen(s, 4) == 1; }
    assert ChangeBefore(s, 7) == 1 by { assert TrailLen(s, 5) == 1 && TrailLen(s, 6) == 2 && TrailLen(s, 7) == 3; }
    assert ChangeBefore(s, 8) == 1 by { assert TrailLen(s, 8) == 1; }
    ChangeBeforeIsChangeNeed(s, 8);
  }

  /**
    38 times 'a': 18 deletions are mandatory; 3 of them shorten the run of 38
    to 35, and the remaining 15 save five more replacements: 18 + max(6, 2).
   */
  lemma ExampleTooLong()
    ensures Strength(seq(38, _ => 'a')) == 24
  {
    var s: seq<char> := seq(38, _ => 'a');
    SingleBlock(s);
    assert !Has(s, Digit) && !Has(s, Upper) && InClass(s[0], Lower);
    assert ChangeNeed([38]) == 12;
    assert Histogram([38]) == [0, 0, 1];
    assert CreditFrom([0, 0, 1], 2, 18) == 1 + 5;
    assert DeletionCredit([0, 0, 1], 18) == 6;
  }

  /**
    The run-extension loop of phase 1: entered at the third of three equal
    characters v, it consumes the rest of the run and stops at the first
    different character or at the end, returning that position and the
    run length.
   */
  method ExtendRun(password: seq<char>, i: nat, v: char) returns (end: nat, seqLen: nat)
    requires 2 <= i < |password|
    requires password[i - 2] == v && password[i - 1] == v && password[i] == v
    ensures i < end <= |password| && seqLen == end - (i - 2)
    ensures forall k :: i - 2 <= k < end ==> password[k] == v
    ensures end == |password| || password[end] != v
  {
    seqLen := 3;
    end := i + 1;
    while end < |password| && password[end] == v
      invariant i < end <= |password| && seqLen == end - (i - 2)
      invariant forall k :: i - 2 <= k < end ==> password[k] == v
    {
      seqLen := seqLen + 1;
      end := end + 1;
    }
  }

  /** Reading character v clears the flag of its class, if it has one, and leaves the others. */
  method ClearClass(v: char, needDigits: int, needLowercase: int, needUppercase: int)
    returns (digits: int, lowercase: int, uppercase: int)
    ensures digits == if InClass(v, Digit) then 0 else needDigits
    ensures lowercase == if InClass(v, Lower) then 0 else needLowercase
    ensures uppercase == if InClass(v, Upper) then 0 else needUppercase
  {
    digits, lowercase, uppercase := needDigits, needLowercase, needUppercase;
    if '0' <= v <= '9' {
      digits := 0;
    } else if 'a' <= v <= 'z' {
      lowercase := 0;
    } else if 'A' <= v <= 'Z' {
      uppercase := 0;
    }
  }

  /**
    Phase 1: one left-to-right pass with a look-back of two characters.
    It clears the deficiency flags and, whenever three equal characters
    meet, consumes the whole run and records it.
   */
  method Scan(password: seq<char>)
    returns (needDigits: int, needLowercase: int, needUppercase: int, needsChange: int, histogram: seq<int>)
    ensures needDigits == Missing(password, Digit)
    ensures needLowercase == Missing(password, Lower)
    ensures needUppercase == Missing(password, Upper)
    ensures needsChange == ChangeNeed(Runs(password))
    ensures histogram == Histogram(Runs(password))
  {
    needDigits, needLowercase, needUppercase := 1, 1, 1;
    needsChange := 0;
    var canDeleteForChange := new int[] [0, 0, 0];

    var i := 0;
    while i < |password|
      invariant 0 <= i <= |password|
      // a block of equal characters that may still grow is at most 2 long: every run so far is recorded
      invariant 0 < i < |password| && password[i] == password[i - 1] ==> TrailLen(password, i) <= 2
      invariant needDigits == MissingBefore(password, i, Digit)
      invariant needLowercase == MissingBefore(password, i, Lower)
      invariant needUppercase == MissingBefore(password, i, Upper)
      invariant needsChange == ChangeBefore(password, i)
      invariant canDeleteForChange.Length == 3
      invariant forall r :: 0 <= r < 3 ==> canDeleteForChange[r] == CountBefore(password, i, r)
      // every iteration moves the index forward: each character is examined once
      decreases |password| - i
    {
      var v := password[i];
      MissingStep(password, i);
      needDigits, needLowercase, needUppercase := ClearClass(v, needDigits, needLowercase, needUppercase);

      if i - 2 >= 0 && password[i - 2] == v && password[i - 1] == v {
        var seqLen;
        ghost var third := i;
        i, seqLen := ExtendRun(password, i, v);
        MissingRepeat(password, third, third + 1, i);
        RunBlockLength(password, third, i);
        StatsRun(password, third, i);
        needsChange := needsChange + seqLen / 3;
        canDeleteForChange[seqLen % 3] := canDeleteForChange[seqLen % 3] + 1;
      } else {
        StatsStep(password, i);
        i := i + 1;
      }
    }
    ChangeBeforeIsChangeNeed(password, |password|);
    histogram := canDeleteForChange[..];
    HistogramFromCounts(password, histogram);
  }

  /**
    The deletion phase of a too-long password: the mandatory deletions go to
    the runs of bucket 0 first (one deletion each saves a replacement), then
    bucket 1 (two each), then bucket 2 (three each); every 3 deletions left
    over save one more replacement. The result is the replacement need that
    remains, needsChange reduced by exactly the deletion credit.
   */
  method SpendDeletions(canDeleteForChange: seq<int>, needsDeleted: int, needsChange: int) returns (change: int)
    requires |canDeleteForChange| == 3 && needsDeleted >= 0
    requires forall j :: 0 <= j < 3 ==> canDeleteForChange[j] >= 0
    ensures change == needsChange - DeletionCredit(canDeleteForChange, needsDeleted)
    ensures needsChange - needsDeleted <= change <= needsChange
  {
    change := needsChange;
    var canDelete := needsDeleted;
    for k := 0 to 3
      invariant 0 <= canDelete <= needsDeleted
      invariant change <= needsChange
      invariant change - CreditFrom(canDeleteForChange, k, canDelete)
                == needsChange - CreditFrom(canDeleteForChange, 0, needsDeleted)
    {
      var toDelete := Min(canDeleteForChange[k] * (1 + k), canDelete);
      DivShrinks(toDelete, 1 + k);
      canDelete := canDelete - toDelete;
      change := change - toDelete / (1 + k);
    }
    change := change - Max(canDelete, 0) / 3;
    CreditBounds(canDeleteForChange, 0, needsDeleted);
  }

  /**
    The checker: phase 1, then the combination by length bracket; a too-long
    password spends its mandatory deletions on the histogram buckets first.
   */
  method PasswordChecker(password: seq<char>) returns (r: int)
    ensures r == Strength(password)
    ensures r >= 0
    ensures r == 0 <==> IsStrong(password)
  {
    var needDigits, needLowercase, needUppercase, needsChange, canDeleteForChange := Scan(password);
    var sz := |password|;
    var needsSpecial := needDigits + needLowercase + needUppercase;
    if sz < MinLength {
      r := Max(Max(needsSpecial, MinLength - sz), needsChange);
    } else if sz <= MaxLength {
      r := Max(needsSpecial, needsChange);
    } else {
      var needsDeleted := sz - MaxLength;
      needsChange := SpendDeletions(canDeleteForChange, needsDeleted, needsChange);
      r := needsDeleted + Max(needsChange, needsSpecial);
    }
    StrengthZeroIffStrong(password);
  }
}
