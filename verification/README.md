# Password strength checker: a verified model

This project models the password-strength evaluator of a small React
application: the `passwordChecker` callback in `src/App.js`. Given a password,
it returns the minimum number of single-character edits that make it strong.
An edit is an insertion, a deletion or a replacement.

A password is strong when all of these hold:

- its length is between 6 and 20;
- it contains an ASCII digit, an ASCII lowercase letter and an ASCII uppercase letter;
- it has no three identical consecutive characters.

The evaluator works in two phases, and the model keeps that shape.

**Phase 1: `Checker.Scan`.** One left-to-right pass with a look-back of two
characters.

- Three deficiency flags start at 1. The flag of a character's class is cleared when one is read (`Checker.ClearClass`).
- When the character equals the two before it, the run of equal characters is read to its end (`Checker.ExtendRun`).
- Each run adds floor(len / 3) to `needsChange`.
- Each run adds one to bucket len % 3 of the three-element array `canDeleteForChange`.

**Phase 2: `Checker.PasswordChecker`.** It combines these by length bracket.

- A too-short password gets the maximum of the class need, the missing length and the run need.
- An in-range password gets the maximum of the class need and the run need.
- A too-long password pays sz - 20 deletions. Those deletions are spent on the buckets first (`Checker.SpendDeletions`), since a deletion shortens a run and can save a replacement.

The methods are imperative Dafny over the same variables as the code: the flags,
`needsChange`, the `canDeleteForChange` array updated in place, the scan index
and the deletion budget `canDelete`. Each is proved against pure specification
functions in three modules:

- `Policy` (`policy.dfy`): the character classes, the deficiency flags, `NeedsSpecial` and `IsStrong`.
- `RepeatRuns` (`runs.dfy`): the decomposition of a string into maximal blocks of equal characters. The repeat runs are the blocks of length at least 3, and the module defines their statistics (`ChangeNeed`, `RunCount`, `Histogram`).
- `Checker` (`checker.dfy`): the deletion credit `CreditFrom`/`DeletionCredit`, the specified result `Strength`, and the methods.

The scan loop keeps the statistics of every block that has ended, read block by
block (`ChangeBefore`, `CountBefore`). It relies on one invariant: a block that
may still grow is at most two characters long.

For `"Aaa1aaa1"` the code finds a single run, at positions 4-6. The leading
`"aa"` has only two characters, so the result is 1. `Checker.ExampleInRange`
proves the result 1 for every password of that shape.

JavaScript's `Math.floor(x / d)` with d > 0 is Dafny's `x / d`: Euclidean
division rounds down for a positive divisor. Numbers are unbounded integers. Every
quantity here is bounded by the password length, so no precision limit is
reached.

## Model

| member | source | states |
|---|---|---|
| `Checker.Strength` | src/App.js:46-61 | Defines the reported number of edits from the class need and the run need, by length bracket. Below 6 characters it is the largest of the class need, the missing length and the run need. From 6 to 20 it is the larger of the class need and the run need. Above 20 it is the sz - 20 deletions plus the larger of the class need and the run need reduced by the deletion credit. |
| `Checker.CreditFrom` | src/App.js:55-60 | Defines the deletion credit: the replacements that a budget of deletions saves. Buckets k to 2 are spent in order, each run in bucket k costing k + 1 deletions for one saved replacement, then every 3 leftover deletions save one more. |
| `Checker.PasswordChecker` | src/App.js:14-63 | The result is `Strength(password)`: the three-bracket combination of the class need, the run need and the deletion credit. It is never negative, and it is 0 exactly when the password is strong. |
| `Checker.Scan` | src/App.js:15-44 | After the pass, each flag is 1 exactly when no character of its class occurs. `needsChange` is the sum of floor(len / 3) over the maximal runs of 3 or more, and the array holds the number of runs of each length modulo 3. |
| `Checker.ClearClass` | src/App.js:23-30 | For any flag values, reading character v sets the flag of v's class to 0 and leaves the other flags as they were. A character outside the three classes changes nothing. |
| `Checker.ExtendRun` | src/App.js:33-38 | Entered at the third equal character, it stops at the first different character or at the end. Every character from i - 2 up to that point equals v, and `seqLen` is the length of that whole run. |
| `Checker.SpendDeletions` | src/App.js:53-60 | The remaining need is `needsChange` minus the deletion credit of the budget. It lies between `needsChange` minus the number of deletions and `needsChange`. The loop keeps the budget within 0..sz - 20 and never increases the need. |
| `Checker.StrengthNonNegative` | src/App.js:48-61 | The reported number of edits is never negative. |
| `Checker.StrengthZeroIffStrong` | src/App.js:46-51 | The result is 0 if and only if the length is in 6..20, all three classes occur and no three consecutive characters are equal. These are the criteria listed at src/App.js:128-136 and relied on at src/App.js:72. |
| `Checker.StrengthLowerBounds` | src/App.js:46-61 | In every bracket, the result is at least the class need, the missing length, the excess length and the undiscounted run need. |
| `Checker.StrengthTooShort` | src/App.js:48-49 | Below 6 characters, the result is max(class need, 6 - sz, run need). It is at least 6 - sz > 0, and the empty password needs 6. |
| `Checker.StrengthInRange` | src/App.js:50-51 | For lengths 6..20, the result is max(class need, run need): two passwords with the same needs get the same result whatever their lengths. |
| `Checker.StrengthTooLong` | src/App.js:52-61 | Above 20 characters, the result is at least (sz - 20) + class need and at most (sz - 20) + max(class need, run need). |
| `Checker.CreditBounds` | src/App.js:55-60 | Deletions spent on the buckets and the leftover save between 0 and as many replacements as there are deletions. |
| `Checker.CreditMonotone` | src/App.js:55-60 | A larger deletion budget never saves fewer replacements. |
| `Checker.CreditPerRun` | src/App.js:55-60 | From bucket k on, the buckets save at most one replacement per run they hold, and the leftover at most one per 3 deletions. |
| `Checker.ExampleEmpty` | src/App.js:48-49 | `""` needs 6 edits. |
| `Checker.ExampleShortRun` | src/App.js:48-49 | `"aaaaa"` needs max(2, 1, 1) = 2 edits. |
| `Checker.ExampleShortComplete` | src/App.js:48-49 | `"Aa1"` needs 3 edits. |
| `Checker.ExampleInRange` | src/App.js:32-40 | Every password shaped like `"Aaa1aaa1"` has one run and needs 1 edit: the leading pair is too short to be a run. |
| `Checker.ExampleTooLong` | src/App.js:52-61 | 38 copies of `'a'` need 18 + max(12 - 6, 2) = 24 edits. |
| `Policy.ClassesDisjoint` | src/App.js:24-30 | A character lies in at most one class, so the else-if chain clears at most one flag. |
| `Policy.MissingStep` | src/App.js:23-30 | A character clears exactly the flag of its own class. Characters outside the three classes clear nothing, and a cleared flag stays cleared. |
| `Policy.MissingRepeat` | src/App.js:33-38 | Run characters skipped by the inner loop equal one already classified, so skipping them leaves every flag as reading them would. |
| `Policy.NeedsSpecialRange` | src/App.js:47 | `needsSpecial` lies in 0..3, and it is 0 exactly when all three classes occur. |
| `RepeatRuns.TrailLen` | src/App.js:32-38 | The block of equal characters ending at a position has length between 1 and that position. |
| `RepeatRuns.TrailLenMaximal` | src/App.js:32-38 | That block is maximal: its characters are all equal, and the character before it differs. |
| `RepeatRuns.KeepLong` | src/App.js:32-40 | Only blocks of 3 or more are repeat runs. |
| `RepeatRuns.BlocksCover` | src/App.js:22-44 | The block lengths add up to the length of the string, so no character belongs to two runs. |
| `RepeatRuns.BlockEndingAt` | src/App.js:32-38 | A uniform stretch from a block boundary p up to i is exactly the block of equal characters that ends at i. |
| `RepeatRuns.RunsAt` | src/App.js:32-41 | A block added to the scanned prefix adds a run exactly when it is 3 or longer. |
| `RepeatRuns.RunsEmptyIffNoTriple` | src/App.js:32 | A string has no repeat run exactly when no three consecutive characters are equal. |
| `RepeatRuns.SingleBlock` | src/App.js:32-38 | A string of one repeated character is one block, and a run when it is 3 or longer. |
| `RepeatRuns.ChangeNeedZeroIffNoTriple` | src/App.js:39 | The run need is 0 exactly when no three consecutive characters are equal. |
| `RepeatRuns.ChangeBeforeIsChangeNeed` | src/App.js:39 | Read block by block, the run need of a prefix is the sum of floor(len / 3) over its repeat runs. |
| `RepeatRuns.CountBeforeIsRunCount` | src/App.js:40 | Read block by block, the count of bucket r of a prefix is the number of its repeat runs of length r modulo 3. |
| `RepeatRuns.HistogramFromCounts` | src/App.js:40 | Three bucket counts taken over the whole string form its histogram of run lengths modulo 3. |
| `RepeatRuns.StatsStep` | src/App.js:41-42 | A character that does not complete three equal in a row changes no run statistic, and the block it ends stays at most 2 long. |
| `RepeatRuns.RunBlockLength` | src/App.js:32-38 | At a detected triple, the block before the current character has exactly 2 characters, and the run read by the inner loop is a whole block. |
| `RepeatRuns.StatsRun` | src/App.js:39-40 | A detected run adds floor(len / 3) to the run need and one to bucket len % 3, and nothing to the other buckets. |
| `RepeatRuns.HistogramCountsRuns` | src/App.js:40 | Every run lands in exactly one of the three buckets. |

## Left out

- The React component is not part of this model: `useState`, `useCallback`, the form and the list rendering (src/App.js:5-8, 81-117). It is presentation state managed by a library.
- `handleSubmit` (src/App.js:65-79) is not modelled. It calls `preventDefault`, `trim` and `alert`. Its only tie to the core is that a password is added to the list only when the checker returns 0, which by `Checker.StrengthZeroIffStrong` means only when it is strong.
- `ICard` (src/App.js:121-140) is static text. Its criteria are stated as `Policy.IsStrong`.
- JavaScript strings are sequences of UTF-16 code units, while the model takes a `seq<char>` of Unicode scalar values. The model compares characters by equality and classifies them by ASCII range only, as the code does. A character outside the Basic Multilingual Plane, such as an emoji, counts as 2 in `password.length` but as one element here. This has two consequences:
  - The length bracket can differ. 19 BMP characters plus one emoji have length 21 in the code but length 20 in the model.
  - Three equal such characters form a triple in the model, but their code units never form three equal consecutive units.
- `Checker.PasswordChecker`: the comment at src/App.js:9-13 calls the result the minimum number of changes that make the password strong. Neither half of that claim is proved. Achievability, that some sequence of `Strength(s)` edits makes s strong, is not proved. Optimality, that no shorter sequence exists, is not proved either. A proof over all edit sequences would be far larger than this model. Only the zero case is characterised, by `Checker.StrengthZeroIffStrong`.
- `Checker.PasswordChecker` is split into `Checker.Scan`, `Checker.SpendDeletions` and the bracket choice. The inner run-extension loop is `Checker.ExtendRun`, and the class test is `Checker.ClearClass`. Each piece keeps the code's statements, in the same order, on the same variables.
- `Checker.Scan` returns the bucket counts as a sequence copied from the array it updates in place. The bucket loop of `Checker.SpendDeletions` reads that sequence.
