# mp primality toolkit — a verified model of its three number-theory cores

This project models, in Dafny, the three integer cores of the `mp` toolkit and
proves properties of them:

- **The Lucas–Lehmer engine** `lucas_lehmer(p, mem)` (module `LucasLehmer`,
  with `Checkpoint` for the state-file record and `ResultLine` for the verdict
  line). It decides whether the Mersenne number M = 2^p − 1 is prime. It runs
  the one-lane kernel step `s ← (s·s − 2) mod m` p − 2 times from s = 4, and
  reports prime when s ends at 0. The kernel works in 64-bit `ulong`
  arithmetic, so its product and subtraction wrap modulo 2^64. It also keeps
  s = 0 fixed. The "fits in u64" guard reads only M's lowest 64-bit digit.
  All of this is modelled as the code does it, not as the textbook does.
  As a consequence the verdicts for 32 < p ≤ 64 are not trustworthy: once s
  exceeds 2^32 its square wraps, and M_61, a Mersenne prime, is reported
  composite (`SixtyOneReportedComposite`).
  - The engine is a method over a `StateFile` object. The object's `contents`
    field is the state file: absent, or some bytes.
  - When `mem` is set, the method reads a 24-byte little-endian record (s, i)
    at start-up. It overwrites the record after every step whose number is a
    multiple of 100,000,000, and removes the file on completion.
  - The main theorems are about resuming. A run resumed from any point saved by
    a run with the same p reaches the same verdict as that run uninterrupted. So does a run resumed
    from the file a crash between two loop steps would leave behind. A crash
    inside a save is different: it leaves a torn file, and the next run fails.
    The record holds only (s, i), not p or M, and the file name is fixed, so
    a record left by a run with another exponent is resumed without
    complaint; the model behaves the same way, since `Outcome` accepts any
    stored bytes.
- **The strong probable-prime test** `is_prp(n, base)` (module
  `ProbablePrime`). It is a method with the source's two loops. The method is
  proved equal to a specification predicate. The predicate is then related to
  the textbook Miller–Rabin condition and to Fermat's congruence.
- **The range screener** `generate_primes(start, end)` (module
  `PrimeScreen`).
  - Each candidate is narrowed to 64 bits.
  - Each is judged by the `is_prime_kernel` Fermat test to base 2, in wrapped
    64-bit arithmetic.
  - The candidates whose flag is 1 are collected in order.
  - The parallel dispatch is modelled as a sequential loop that fills a
    results array.

`Arith` holds the shared arithmetic: powers, the 64-bit wrap, and modular
identities.

Integers are Dafny's unbounded `int`/`nat`. Wherever the source uses a
fixed-width type, the width is written out: `Wrap64` for `ulong` products,
`LowDigit` for `to_u64_digits().get(0)`, `Narrow` for `n as u64`, and byte
widths 8 and 16 for `u64`/`u128` records.

Two behaviours of the code are modelled as they are, although a reader might
expect otherwise:

- A state file shorter than one record makes the run fail
  (`CheckpointUnreadable`); it is not discarded, and the run does not restart
  at 0. Because the save truncates the file before writing it, a crash in the
  middle of a save leaves such a file (`TornSaveFails`).
- The u64 guard and the screener's narrowing truncate oversize values
  silently; they are not rejected.

## Model

| member | source | states |
|---|---|---|
| LucasLehmer.Mersenne | src/test_prime.rs:17 | M = 2^p − 1 is at least 1 for p ≥ 1 |
| LucasLehmer.Outcome | src/test_prime.rs:11-158 | the value `lucas_lehmer` returns: Ok(true) for p = 2; otherwise the guard's error, the state file's error, or Ok(s == 0) after the owed steps from the start point |
| LucasLehmer.OutcomeFailsOnlyOnShortFile | src/test_prime.rs:41-99 | a run returns an error exactly when p ≠ 2, `mem` is set and the state file exists but is shorter than 24 bytes |
| LucasLehmer.Steps | src/test_prime.rs:104 | the number of steps in `current_iteration..iterations`, none when the start is at or past the end |
| LucasLehmer.LowDigit | src/test_prime.rs:42-47 | the guard fails exactly when M has no 64-bit digit (M = 0); otherwise it passes a value below 2^64, equal to M whenever M < 2^64 |
| LucasLehmer.GuardOnMersenne | src/test_prime.rs:41-47 | for every p ≥ 1 the guard passes M itself when p ≤ 64, and silently passes 2^64 − 1 instead of M when p > 64 |
| LucasLehmer.Modulus | src/test_prime.rs:42-49 | the modulus handed to the kernel is always in (0, 2^64) |
| LucasLehmer.KernelStep | src/test_prime.rs:22-32 | one kernel run leaves the state below the modulus |
| LucasLehmer.WrapChangesStep | src/test_prime.rs:25 | from 2^33 modulo 2^61 − 1 (M_61, which passes the guard) the wrapped step gives 6 where the exact step gives 30 |
| LucasLehmer.KernelStepExact | src/test_prime.rs:25 | for 2 ≤ s < 2^32 the wrapped kernel step equals the exact (s² − 2) mod m |
| LucasLehmer.ZeroIsAbsorbing | src/test_prime.rs:27-28 | once the state is 0 it stays 0 for any number of steps, where the exact recurrence would move to m − 2 |
| LucasLehmer.Iterate | src/test_prime.rs:104-107 | zero kernel runs leave the start value; one or more leave a value below the modulus |
| LucasLehmer.IterateAdd | src/test_prime.rs:104-133 | running a steps and then b steps is running a + b steps, which is what makes a split run equal to a whole one |
| LucasLehmer.KernelFollowsLucasResidue | src/test_prime.rs:22-32 | for 3 ≤ p ≤ 32 the kernel's states from s = 4 equal the textbook Lucas–Lehmer residues, as long as no earlier state was 0 or 1 |
| LucasLehmer.StartPoint | src/test_prime.rs:81-99 | the loop starts from (4, 0) unless `mem` is set and a state file exists; a record that decodes gives a start below 2^64 and 2^128 |
| LucasLehmer.FreshOutcome | src/test_prime.rs:12-18 | without a state file and for 3 ≤ p ≤ 64 the verdict is whether p − 2 kernel steps from 4 modulo M reach 0 |
| LucasLehmer.SmallMersennePrimes | src/test_prime.rs:104-158 | M_3 = 7, M_5 = 31 and M_7 = 127 are reported prime |
| LucasLehmer.ElevenIsComposite | src/test_prime.rs:104-158 | M_11 = 2047 = 23 · 89 is reported composite |
| LucasLehmer.SixtyOneReportedComposite | src/test_prime.rs:22-32 | M_61 = 2^61 − 1, a Mersenne prime, is reported composite: the wrapped square sends s to 1683111231071585201 instead of 0 after the 59 steps |
| LucasLehmer.LastSave | src/test_prime.rs:111 | the last save up to step j is a multiple of 100,000,000 and not after j |
| LucasLehmer.LastSaveStep | src/test_prime.rs:110-111 | the last save moves to i + 1 exactly when i + 1 is a multiple of 100,000,000, and otherwise stays put |
| LucasLehmer.FileAfterStep | src/test_prime.rs:110-124 | after step i the state file holds the record (s after i + 1 steps, i + 1) when i + 1 is a multiple of 100,000,000, and is otherwise unchanged |
| LucasLehmer.RecordStart | src/test_prime.rs:86-94 | a run with `mem` set starts from exactly the (s, i) the record in the file was written for |
| LucasLehmer.ResumeAgrees | src/test_prime.rs:103-125 | a run whose file puts it at step k of an earlier run ends with that earlier run's verdict |
| LucasLehmer.ResumeFromSavedPoint | src/test_prime.rs:84-125 | resuming from the record of any step k ≤ p − 2 of an uninterrupted run gives the uninterrupted run's verdict |
| LucasLehmer.ResumeAfterCrash | src/test_prime.rs:104-125 | the file left by a crash after any step j of a checkpointing run resumes to that run's own verdict |
| LucasLehmer.ResumePastEnd | src/test_prime.rs:104 | a record already at or past p − 2 steps runs no further step: the verdict is whether its s is 0 |
| LucasLehmer.TruncatedCheckpointFails | src/test_prime.rs:88-94 | a state file shorter than 24 bytes makes the run fail with an unreadable-checkpoint error instead of restarting |
| LucasLehmer.LucasLehmerTest | src/test_prime.rs:11-159 | the result is the verdict of the model for the given file and `mem`; the line written is M in decimal plus the verdict; the file is removed on completion when `mem` is set; every crash state at a loop-step boundary resumes to the same result |
| LucasLehmer.RunKernel | src/test_prime.rs:103-133 | the loop leaves s equal to the owed number of kernel steps from the start, the state file equal to the last save after the start, and records the file after every step |
| LucasLehmer.SaveIfDue | src/test_prime.rs:110-124 | after step i the file is replaced by the record (s, i + 1) exactly when `mem` is set and i + 1 is a multiple of 100,000,000, otherwise it is unchanged; on the way it is empty and then holds only the 8 bytes of s |
| LucasLehmer.TornSaveFails | src/test_prime.rs:116-122 | the empty file and the 8-byte file a crash inside a save leaves make the next checkpointing run fail, where a run with no file succeeds |
| LucasLehmer.SaveStep | src/test_prime.rs:110-124 | one loop step moves the state file and the crash schedule from step i to step i + 1 |
| LucasLehmer.CrashScheduleAt | src/test_prime.rs:104-125 | the crash state after the (k + 1)-th step is the file as the save schedule leaves it at that step |
| LucasLehmer.CrashStatesAgree | src/test_prime.rs:84-146 | every crash state at a loop-step boundary resumes to the verdict of the run itself (a crash inside a save does not: `TornSaveFails`) |
| Checkpoint.EncodeLE | src/test_prime.rs:121-122 | `to_le_bytes` produces exactly `width` bytes |
| Checkpoint.DecodeLE | src/test_prime.rs:91-94 | `from_le_bytes`: the number whose little-endian bytes are given, inverse of `EncodeLE` by the two round-trip lemmas |
| Checkpoint.DecodeLEBound | src/test_prime.rs:91-94 | `from_le_bytes` of w bytes is below 256^w |
| Checkpoint.DecodeEncodeLE | src/test_prime.rs:121-122 | decoding the little-endian bytes of x < 256^w gives x back |
| Checkpoint.EncodeDecodeLE | src/test_prime.rs:88-94 | encoding what a byte sequence decodes to gives the same bytes back |
| Checkpoint.EncodeCheckpoint | src/test_prime.rs:121-122 | the record is 24 bytes long |
| Checkpoint.DecodeCheckpoint | src/test_prime.rs:88-94 | reading succeeds exactly when the file has at least 24 bytes, and yields s < 2^64 and i < 2^128 |
| Checkpoint.CheckpointRoundTrip | src/test_prime.rs:88-122 | reading back the record of (s, i) gives (s, i) |
| Checkpoint.CheckpointCanonical | src/test_prime.rs:88-94 | every 24-byte file decodes, and is exactly the record of what it decodes to |
| ResultLine.Decimal | src/test_prime.rs:149 | M's decimal form is non-empty and made of digits |
| ResultLine.DecimalValue | src/test_prime.rs:149 | the decimal form of n spells n, with no leading zero unless n is 0 |
| ResultLine.Tail | src/test_prime.rs:149 | the text after the number: " is a Mersenne prime." or " is not a Mersenne prime." |
| ResultLine.Line | src/test_prime.rs:149 | the `format!` of the verdict line: M in decimal followed by the tail |
| ResultLine.LineSpellsNumber | src/test_prime.rs:149 | the line opens with a run of digits, ended by a non-digit, that spells M |
| ResultLine.SkipDigits | src/test_prime.rs:149 | skipping the leading digits leaves a suffix that does not start with a digit |
| ResultLine.LineRoundTrip | src/test_prime.rs:149 | reading the written line back gives the verdict it was written for |
| ResultLine.LineSaysNotIffComposite | src/test_prime.rs:149 | the line contains "not " exactly when the verdict is composite |
| ProbablePrime.OddPart | src/test_prime.rs:165-168 | the halving loop's d is odd and at least 1 |
| ProbablePrime.TwoExponent | src/test_prime.rs:163-168 | the halving counter s: how many times 2 divides n − 1 |
| ProbablePrime.Decomposition | src/test_prime.rs:162-168 | n − 1 = d · 2^s with d the odd part and s the number of halvings |
| ProbablePrime.EvenHasTwo | src/test_prime.rs:165 | at least one halving happens exactly when n − 1 is even |
| ProbablePrime.Witness | src/test_prime.rs:170-176 | every x the test computes is below n |
| ProbablePrime.StrongProbablePrime | src/test_prime.rs:170-186 | the answer of `is_prp`: x = base^d mod n is 1 or n − 1, or becomes n − 1 within s − 1 squarings without first becoming 1 |
| ProbablePrime.DoubledIsProduct | src/test_prime.rs:166-167 | doubling d j times gives d · 2^j |
| ProbablePrime.WitnessClosedForm | src/test_prime.rs:170-176 | after j squarings x is base^(d·2^j) mod n |
| ProbablePrime.OnceOneAlwaysOne | src/test_prime.rs:175-179 | once x is 1 every later squaring leaves it 1, which justifies the early `false` |
| ProbablePrime.IsPrp | src/test_prime.rs:161-186 | the result is true exactly when x = base^d mod n is 1 or n − 1, or becomes n − 1 within s − 1 squarings without first becoming 1 |
| ProbablePrime.TextbookForm | src/test_prime.rs:170-186 | for odd n ≥ 3 that answer is the Miller–Rabin condition: base^d ≡ 1, or base^(d·2^j) ≡ n − 1 for some j < s, in both directions |
| ProbablePrime.MinusOneSquared | src/test_prime.rs:180 | (n − 1)² ≡ 1 (mod n) |
| ProbablePrime.FermatConsistent | src/test_prime.rs:161-186 | for odd n ≥ 3 a true answer implies base^(n − 1) mod n = 1 |
| ProbablePrime.TwoIsRejected | src/test_prime.rs:161-173 | `is_prp(2, 2)` is false although 2 is prime |
| PrimeScreen.SquareMultiply | src/generate_primes.rs:46-59 | the kernel's square-and-multiply loop, each product wrapped modulo 2^64 before it is reduced mod n |
| PrimeScreen.KernelFlag | src/generate_primes.rs:29-63 | every flag is 0 or 1 |
| PrimeScreen.SquareStep | src/generate_primes.rs:51-59 | one round of square-and-multiply keeps result · power^exponent fixed mod n when n < 2^32 |
| PrimeScreen.SquareMultiplyExact | src/generate_primes.rs:46-59 | for n < 2^32 the wrapped loop computes result · power^exponent mod n exactly |
| PrimeScreen.KernelFlagExact | src/generate_primes.rs:45-62 | for odd 3 ≤ n < 2^32 the flag is 1 exactly when base^(n − 1) mod n is 1 |
| PrimeScreen.IsPrimeKernel | src/generate_primes.rs:29-63 | the loop computes the kernel's flag, with special cases n < 2 → 0, n = 2 → 1, even → 0; for odd 3 ≤ n < 2^32 the flag is Fermat's test |
| PrimeScreen.Narrow | src/generate_primes.rs:85 | `n as u64` is below 2^64 |
| PrimeScreen.Keeps | src/generate_primes.rs:85 | a candidate is kept when the kernel flags its low 64 bits with base 2 |
| PrimeScreen.Flagged | src/generate_primes.rs:125-132 | the range elements whose flag is 1, in range order |
| PrimeScreen.Range | src/generate_primes.rs:81 | `(start..end).collect()` has end − start elements (none when start ≥ end), the idx-th being start + idx |
| PrimeScreen.EvaluateBatch | src/generate_primes.rs:85-116 | one flag per candidate, results[idx] being the kernel's flag for numbers[idx] |
| PrimeScreen.CollectFlagged | src/generate_primes.rs:125-132 | the pushed values are the range elements whose flag is 1, in range order |
| PrimeScreen.FlaggedMembers | src/generate_primes.rs:125-132 | a value is pushed exactly when it sits in the range at a position whose flag is 1 |
| PrimeScreen.FlaggedAscending | src/generate_primes.rs:125-132 | filtering a strictly ascending range keeps it strictly ascending |
| PrimeScreen.FlaggedLength | src/generate_primes.rs:125-132 | filtering never lengthens |
| PrimeScreen.GeneratePrimes | src/generate_primes.rs:17-137 | x is returned exactly when start ≤ x < end and the kernel flags x mod 2^64; the result is strictly ascending and at most end − start long |
| PrimeScreen.PrpImpliesScreened | src/generate_primes.rs:46-62 | for odd 3 ≤ n < 2^32, `is_prp(n, 2)` being true implies n is returned |
| PrimeScreen.NarrowingAdmitsEven | src/generate_primes.rs:85 | the even 2^64 + 2 is returned, because it narrows to 2 |
| PrimeScreen.PseudoprimeKept | src/generate_primes.rs:45-62 | the composite 341 = 11 · 31 is returned (a base-2 Fermat pseudoprime) |

## Left out

- OpenCL: platform, device, context and program set-up, buffer creation, host/device copies and `enq`. The kernels are pure functions and the dispatch is a sequential loop; device failures and their error results are not modelled.
- Progress bars and the terminal-clear escape: presentation only.
- Real file I/O. The state file is the `StateFile` object. Its existence check, open, read, write, flush and remove are assignments to that object, and their I/O errors are not modelled. The `out.txt` write is the returned `line`; `write_primes_to_file` is not part of this model.
- `BigUint` is Dafny's `nat`; `modpow`, shifts and `%` are exact operations on it.
- The Lucas–Lehmer theorem and Fermat's little theorem are not proved. The model relates the kernel to the textbook residues and the test to Fermat's congruence, and checks small exponents concretely.
- LucasLehmer.LucasLehmerTest: requires 2 ≤ p < 2^128. p is a `u128`, and for p < 2 the source's `p - 2` underflows.
- LucasLehmer.LucasLehmerTest: its crash states are the file between loop steps only. The file a crash inside a save leaves is given by `SaveIfDue`'s torn states, and `TornSaveFails` shows the next run fails on it; the run does not promise that every crash resumes.
- LucasLehmer.RunKernel: the source has two loops, one that saves and one that does not; the model runs one loop whose save is guarded by `mem`. The states they compute are the same.
- ProbablePrime.IsPrp: requires n ≥ 2. For n = 1 the halving loop never ends; for n = 0, `n - 1` underflows.
- ProbablePrime.IsPrp: `base` is a `u128` in the source and an unbounded `nat` here.
- PrimeScreen.GeneratePrimes: an empty range gives an empty result. Whether the OpenCL layer accepts a zero-length buffer is not modelled.
- PrimeScreen.IsPrimeKernel: exactness of the wrapped arithmetic is proved only for n < 2^32. Above that the products can wrap, and the flag is stated only as what the wrapped loop computes.
- The kernel's `int gid` index is not modelled as a 32-bit value; batches longer than 2^31 are not distinguished.
