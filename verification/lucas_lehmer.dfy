/** The Lucas–Lehmer engine of src/test_prime.rs:11-159: decides whether
    M = 2^p - 1 is prime by running s <- s*s - 2 (mod M) p - 2 times from
    s = 4 on a one-lane 64-bit kernel, optionally keeping a resumable state
    file. The kernel's 64-bit wrap-around, its zero-absorbing step and the
    guard that keeps only M's lowest 64-bit digit are modelled as written. */
module LucasLehmer {
  import opened Arith
  import opened Checkpoint
  import ResultLine

  datatype Failure =
    | MersenneExceedsU64    // "Mersenne number exceeds u64 limit."
    | CheckpointUnreadable  // `read_exact` on a state file shorter than a record

  datatype Result<T> = Ok(value: T) | Err(failure: Failure)

  /** Steps between two saves of the state file. */
  const SAVE_INTERVAL: nat := 100_000_000

  function Mersenne(p: nat): (m: nat)
    ensures p >= 1 ==> m >= 1
  {
    Pow(2, p) - 1
  }

  /** `m.to_u64_digits().get(0)`: the lowest 64-bit digit of m, or an error
      when m has no digits at all (m == 0). */
  function LowDigit(m: nat): (r: Result<nat>)
    ensures r.Err? <==> m == 0
    ensures r.Ok? ==> r.value < U64 && (m < U64 ==> r.value == m)
  {
    if m == 0 then Err(MersenneExceedsU64) else Ok(m % U64)
  }

  /** The guard reads only the lowest digit: it never fails for p >= 1, it
      passes M itself while M fits in 64 bits, and from p = 65 on it passes
      2^64 - 1 instead of M. */
  lemma GuardOnMersenne(p: nat)
    requires p >= 1
    ensures LowDigit(Mersenne(p)) == Ok(if p <= 64 then Mersenne(p) else U64 - 1)
  {
    BitWidths();
    if p <= 64 {
      PowMonotone(2, p, 64);
    } else {
      PowAdd(2, 64, p - 64);
      var k := Pow(2, p - 64);
      assert Mersenne(p) == (k - 1) * U64 + (U64 - 1);
      DivModUnique(Mersenne(p), k - 1, U64 - 1, U64);
    }
  }

  /** The modulus the kernel reduces by for exponent p. */
  function Modulus(p: nat): (m: nat)
    requires p >= 1
    ensures 0 < m < U64
  {
    GuardOnMersenne(p);
    LowDigit(Mersenne(p)).value
  }

  /** One run of the OpenCL kernel at src/test_prime.rs:22-32 in `ulong`
      arithmetic: the product and the subtraction wrap modulo 2^64, and a
      zero state stays zero. */
  function KernelStep(s: nat, m: nat): (r: nat)
    requires 0 < m
    ensures r < m
  {
    if s == 0 then 0 else Wrap64(Wrap64(s * s) - 2) % m
  }

  /** While s*s fits in 64 bits the kernel computes the exact (s^2 - 2) mod m. */
  lemma KernelStepExact(s: nat, m: nat)
    requires 2 <= s < U32 && 0 < m
    ensures KernelStep(s, m) == (s * s - 2) % m
  {
    MulBelowSquare(s, s, U32);
    assert s * s < U64;
  }

  /** Zero is a fixed point of the kernel, where the exact recurrence would move to m - 2. */
  lemma {:induction false} ZeroIsAbsorbing(m: nat, k: nat)
    requires m > 2
    ensures Iterate(0, m, k) == 0
    ensures (0 * 0 - 2) % m == m - 2
  {
    if k > 0 {
      ZeroIsAbsorbing(m, k - 1);
    }
    DivModUnique(-2, -1, m - 2, m);
  }

  /** Beyond 2^32 the wrap changes the step: from 2^33 modulo M_61 = 2^61 - 1
      the kernel reaches 6, where the exact recurrence reaches 30. */
  lemma WrapChangesStep(s: nat, m: nat)
    requires s == 0x2_0000_0000 && m == 0x1FFF_FFFF_FFFF_FFFF
    ensures m == Modulus(61)
    ensures KernelStep(s, m) == 6 && (s * s - 2) % m == 30
  {
    BitWidths();
    GuardOnMersenne(61);
    assert Pow(2, 61) * 8 == U64 by { PowAdd(2, 61, 3); }
    assert s * s == 4 * U64;
    DivModUnique(U64 - 2, 8, 6, m);
    DivModUnique(s * s - 2, 32, 30, m);
  }

  /** k kernel steps from s. */
  function Iterate(s: nat, m: nat, k: nat): (r: nat)
    requires 0 < m
    ensures k == 0 ==> r == s
    ensures k > 0 ==> r < m
  {
    if k == 0 then s else KernelStep(Iterate(s, m, k - 1), m)
  }

  /** Running a steps and then b steps is running a + b steps. */
  lemma {:induction false} IterateAdd(s: nat, m: nat, a: nat, b: nat)
    requires 0 < m
    ensures Iterate(Iterate(s, m, a), m, b) == Iterate(s, m, a + b)
  {
    if b > 0 {
      IterateAdd(s, m, a, b - 1);
    }
  }

  /** The textbook Lucas–Lehmer residues: s_0 = 4, s_(k+1) = s_k^2 - 2, all mod M. */
  function LucasResidue(mm: nat, k: nat): nat
    requires mm > 0
  {
    if k == 0 then 4 % mm
    else (LucasResidue(mm, k - 1) * LucasResidue(mm, k - 1) - 2) % mm
  }

  /** For p <= 32 every reachable value lies below 2^32, so the kernel follows
      the textbook residues exactly as long as no earlier residue was 0 or 1
      (the two inputs on which the kernel's step differs from s^2 - 2). */
  lemma {:induction false} KernelFollowsLucasResidue(p: nat, k: nat)
    requires 3 <= p <= 32
    requires forall j :: 0 <= j < k ==> Iterate(4, Mersenne(p), j) >= 2
    ensures Iterate(4, Mersenne(p), k) == LucasResidue(Mersenne(p), k)
  {
    var mm := Mersenne(p);
    BitWidths();
    PowMonotone(2, 3, p);
    PowMonotone(2, p, 32);
    assert 7 <= mm < U32;
    if k == 0 {
      DivModUnique(4, 0, 4, mm);
    } else {
      KernelFollowsLucasResidue(p, k - 1);
      var x := Iterate(4, mm, k - 1);
      assert x >= 2;
      assert x < U32;
      KernelStepExact(x, mm);
    }
  }

  /** The run without a state file for a p whose M fits the kernel. */
  lemma FreshOutcome(p: nat)
    requires 3 <= p <= 64
    ensures Outcome(p, false, None) == Ok(Iterate(4, Mersenne(p), p - 2) == 0)
  {
    GuardOnMersenne(p);
  }

  /** M_3 = 7, M_5 = 31 and M_7 = 127 are reported prime. */
  lemma SmallMersennePrimes()
    ensures Outcome(3, false, None) == Ok(true)
    ensures Outcome(5, false, None) == Ok(true)
    ensures Outcome(7, false, None) == Ok(true)
  {
    FreshOutcome(3);
    FreshOutcome(5);
    FreshOutcome(7);
    assert Mersenne(3) == 7 && Mersenne(5) == 31 && Mersenne(7) == 127;
    RunMod7(7);
    RunMod31(31);
    RunMod127(127);
  }

  /** M_11 = 2047 = 23 * 89 is reported composite: s ends at 1736. */
  lemma ElevenIsComposite()
    ensures Outcome(11, false, None) == Ok(false) && Mersenne(11) == 23 * 89
  {
    FreshOutcome(11);
    assert Mersenne(11) == 2047;
    RunMod2047(2047);
  }

  /** M_61 = 2^61 - 1 is prime, but it is reported composite: from step 5 on
      the state exceeds 2^32, its square wraps modulo 2^64, and after the 59
      steps s is 1683111231071585201 rather than 0. */
  lemma SixtyOneReportedComposite()
    ensures Outcome(61, false, None) == Ok(false)
    ensures Mersenne(61) == 0x1FFF_FFFF_FFFF_FFFF
  {
    FreshOutcome(61);
    assert Pow(2, 61) * 8 == Pow(2, 64) by { PowAdd(2, 61, 3); }
    BitWidths();
    RunMod61(0x1FFF_FFFF_FFFF_FFFF);
  }

  // The kernel's states from 4 for the five moduli above.
  lemma RunMod7(m: nat)
    requires m == 7
    ensures Iterate(4, m, 1) == 0
  {
    assert Iterate(4, m, 1) == 0;
  }

  lemma RunMod31(m: nat)
    requires m == 31
    ensures Iterate(4, m, 3) == 0
  {
    assert Iterate(4, m, 1) == 14;
    assert Iterate(4, m, 2) == 8;
    assert Iterate(4, m, 3) == 0;
  }

  lemma RunMod127(m: nat)
    requires m == 127
    ensures Iterate(4, m, 5) == 0
  {
    assert Iterate(4, m, 1) == 14;
    assert Iterate(4, m, 2) == 67;
    assert Iterate(4, m, 3) == 42;
    assert Iterate(4, m, 4) == 111;
    assert Iterate(4, m, 5) == 0;
  }

  lemma RunMod2047(m: nat)
    requires m == 2047
    ensures Iterate(4, m, 9) == 1736
  {
    assert Iterate(4, m, 1) == 14;
    assert Iterate(4, m, 2) == 194;
    assert Iterate(4, m, 3) == 788;
    assert Iterate(4, m, 4) == 701;
    assert Iterate(4, m, 5) == 119;
    assert Iterate(4, m, 6) == 1877;
    assert Iterate(4, m, 7) == 240;
    assert Iterate(4, m, 8) == 282;
    assert Iterate(4, m, 9) == 1736;
  }

  lemma RunMod61(m: nat)
    requires m == 0x1FFF_FFFF_FFFF_FFFF
    ensures Iterate(4, m, 59) == 1683111231071585201
  {
    assert Iterate(4, m, 1) == 14;
    assert Iterate(4, m, 2) == 194;
    assert Iterate(4, m, 3) == 37634;
    assert Iterate(4, m, 4) == 1416317954;
    assert Iterate(4, m, 5) == 2005956546822746114;
    assert Iterate(4, m, 6) == 921131292248293382;
    assert Iterate(4, m, 7) == 1989957555664257063;
    assert Iterate(4, m, 8) == 1861477335952131574;
    assert Iterate(4, m, 9) == 137791178887891048;
    assert Iterate(4, m, 10) == 869733377071032896;
    assert Iterate(4, m, 11) == 542707227500810239;
    assert Iterate(4, m, 12) == 542601317236727808;
    assert Iterate(4, m, 13) == 456291417866633215;
    assert Iterate(4, m, 14) == 1685994149259509760;
    assert Iterate(4, m, 15) == 1170935903116328958;
    assert Iterate(4, m, 16) == 2233785415175766023;
    assert Iterate(4, m, 17) == 1297036692682702900;
    assert Iterate(4, m, 18) == 1152921504606849680;
    assert Iterate(4, m, 19) == 7311614;
    assert Iterate(4, m, 20) == 53459699284994;
    assert Iterate(4, m, 21) == 429316550145273865;
    assert Iterate(4, m, 22) == 458335486183006287;
    assert Iterate(4, m, 23) == 2088098356835539043;
    assert Iterate(4, m, 24) == 1638645264033003081;
    assert Iterate(4, m, 25) == 285082467443073238;
    assert Iterate(4, m, 26) == 525032396623393507;
    assert Iterate(4, m, 27) == 872928615920530764;
    assert Iterate(4, m, 28) == 1306841505153322639;
    assert Iterate(4, m, 29) == 2085688834583360484;
    assert Iterate(4, m, 30) == 1985694957491102485;
    assert Iterate(4, m, 31) == 389791656876425146;
    assert Iterate(4, m, 32) == 2055417628666827555;
    assert Iterate(4, m, 33) == 204459728342890185;
    assert Iterate(4, m, 34) == 1390871531398719954;
    assert Iterate(4, m, 35) == 434691879079112774;
    assert Iterate(4, m, 36) == 623976848871609127;
    assert Iterate(4, m, 37) == 299663536002715638;
    assert Iterate(4, m, 38) == 723470221153255522;
    assert Iterate(4, m, 39) == 923168057998124423;
    assert Iterate(4, m, 40) == 2295497212131691829;
    assert Iterate(4, m, 41) == 639114370963270909;
    assert Iterate(4, m, 42) == 1094997920123154955;
    assert Iterate(4, m, 43) == 1964358782374890618;
    assert Iterate(4, m, 44) == 744333517212527141;
    assert Iterate(4, m, 45) == 102728850181531998;
    assert Iterate(4, m, 46) == 1619357143594122889;
    assert Iterate(4, m, 47) == 1079463296732276051;
    assert Iterate(4, m, 48) == 2122477846244628714;
    assert Iterate(4, m, 49) == 2019946916587812329;
    assert Iterate(4, m, 50) == 1631571942206819855;
    assert Iterate(4, m, 51) == 620048997540111587;
    assert Iterate(4, m, 52) == 537748110346723659;
    assert Iterate(4, m, 53) == 1661924310641241085;
    assert Iterate(4, m, 54) == 2063936759844796423;
    assert Iterate(4, m, 55) == 1950922550320074801;
    assert Iterate(4, m, 56) == 1915169490089748836;
    assert Iterate(4, m, 57) == 1974224847293198101;
    assert Iterate(4, m, 58) == 1029816873159669689;
    assert Iterate(4, m, 59) == 1683111231071585201;
  }

  /** Steps still owed by a run that has completed i of n. */
  function Steps(i: nat, n: nat): nat {
    if i < n then n - i else 0
  }

  /** The (s, completed steps) the loop starts from (src/test_prime.rs:81-99):
      the state file is consulted only when checkpointing is on. */
  function StartPoint(mem: bool, stored: Option<seq<byte>>): (r: Result<(nat, nat)>)
    ensures r.Ok? ==> r.value.0 < U64 && r.value.1 < U128
    ensures !mem || stored.None? ==> r == Ok((4, 0))
  {
    if mem && stored.Some? then
      match DecodeCheckpoint(stored.value)
      case None => Err(CheckpointUnreadable)
      case Some(si) => Ok(si)
    else Ok((4, 0))
  }

  /** What `lucas_lehmer(p, mem)` returns when the state file holds `stored`. */
  function Outcome(p: nat, mem: bool, stored: Option<seq<byte>>): Result<bool>
    requires p >= 2
  {
    if p == 2 then Ok(true)
    else
      match LowDigit(Mersenne(p))
      case Err(f) => Err(f)
      case Ok(_) =>
        match StartPoint(mem, stored)
        case Err(f) => Err(f)
        case Ok(si) => Ok(Iterate(si.0, Modulus(p), Steps(si.1, p - 2)) == 0)
  }

  lemma OutcomeFromStart(p: nat, mem: bool, stored: Option<seq<byte>>, s0: nat, i0: nat)
    requires 3 <= p && StartPoint(mem, stored) == Ok((s0, i0))
    ensures Outcome(p, mem, stored) == Ok(Iterate(s0, Modulus(p), Steps(i0, p - 2)) == 0)
  {
    GuardOnMersenne(p);
  }

  /** The only error a run can return is the unreadable state file. */
  lemma OutcomeFailsOnlyOnShortFile(p: nat, mem: bool, stored: Option<seq<byte>>)
    requires p >= 2
    ensures Outcome(p, mem, stored).Err? <==>
      p != 2 && mem && stored.Some? && |stored.value| < RECORD_BYTES
  {
    if p != 2 {
      GuardOnMersenne(p);
    }
  }

  /** The last step up to j at which the state file was saved. */
  function LastSave(j: nat): (last: nat)
    ensures last <= j && last % SAVE_INTERVAL == 0
  {
    j - j % SAVE_INTERVAL
  }

  lemma LastSaveStep(i: nat)
    ensures LastSave(i + 1) == if (i + 1) % SAVE_INTERVAL == 0 then i + 1 else LastSave(i)
  {
    var q, t := i / SAVE_INTERVAL, i % SAVE_INTERVAL;
    if t + 1 < SAVE_INTERVAL {
      DivModUnique(i + 1, q, t + 1, SAVE_INTERVAL);
    } else {
      DivModUnique(i + 1, q + 1, 0, SAVE_INTERVAL);
    }
  }

  /** The state file once the loop has completed step j of a run that started
      from (s0, i0) with checkpointing on: the record of the last multiple of
      SAVE_INTERVAL passed since i0, or else what the file held at the start. */
  function FileAfter(stored: Option<seq<byte>>, s0: nat, i0: nat, m: nat, j: nat): Option<seq<byte>>
    requires s0 < U64 && 0 < m < U64 && j < U128
  {
    var last := LastSave(j);
    if i0 < last then Some(EncodeCheckpoint(Iterate(s0, m, last - i0), last)) else stored
  }

  lemma FileAfterStep(stored: Option<seq<byte>>, s0: nat, i0: nat, m: nat, i: nat)
    requires s0 < U64 && 0 < m < U64 && i0 <= i && i + 1 < U128
    ensures FileAfter(stored, s0, i0, m, i + 1) ==
      if (i + 1) % SAVE_INTERVAL == 0 then Some(EncodeCheckpoint(Iterate(s0, m, i + 1 - i0), i + 1))
      else FileAfter(stored, s0, i0, m, i)
  {
    LastSaveStep(i);
  }

  /** A run that checkpoints starts from whatever record the file holds. */
  lemma RecordStart(s: nat, k: nat)
    requires s < U64 && k < U128
    ensures StartPoint(true, Some(EncodeCheckpoint(s, k))) == Ok((s, k))
  {
    CheckpointRoundTrip(s, k);
  }

  /** Resuming from a file that starts the run at step k of a run that
      started at (s0, i0) finishes with the verdict of that run. */
  lemma ResumeAgrees(p: nat, s0: nat, i0: nat, k: nat, record: Option<seq<byte>>)
    requires 3 <= p && s0 < U64 && i0 <= k <= p - 2
    requires StartPoint(true, record) == Ok((Iterate(s0, Modulus(p), k - i0), k))
    ensures Outcome(p, true, record) == Ok(Iterate(s0, Modulus(p), Steps(i0, p - 2)) == 0)
  {
    var m := Modulus(p);
    var a, b := k - i0, p - 2 - k;
    OutcomeFromStart(p, true, record, Iterate(s0, m, a), k);
    IterateAdd(s0, m, a, b);
    assert Steps(k, p - 2) == b && Steps(i0, p - 2) == a + b;
  }

  /** The key property of the state file: a run resumed from the record of
      any step k of an uninterrupted run reaches that run's verdict. */
  lemma ResumeFromSavedPoint(p: nat, k: nat)
    requires 3 <= p < U128 && k <= p - 2
    ensures Outcome(p, true, Some(EncodeCheckpoint(Iterate(4, Modulus(p), k), k))) == Outcome(p, false, None)
  {
    var record := Some(EncodeCheckpoint(Iterate(4, Modulus(p), k), k));
    RecordStart(Iterate(4, Modulus(p), k), k);
    ResumeAgrees(p, 4, 0, k, record);
    OutcomeFromStart(p, false, None, 4, 0);
  }

  /** A crash after any loop step of a checkpointing run leaves a state file
      from which the next checkpointing run reaches the same verdict. */
  lemma ResumeAfterCrash(p: nat, stored: Option<seq<byte>>, j: nat)
    requires 3 <= p < U128
    requires StartPoint(true, stored).Ok?
    requires StartPoint(true, stored).value.1 <= j <= p - 2
    ensures Outcome(p, true, FileAfter(stored, StartPoint(true, stored).value.0,
                                       StartPoint(true, stored).value.1, Modulus(p), j))
         == Outcome(p, true, stored)
  {
    var (s0, i0) := StartPoint(true, stored).value;
    var m := Modulus(p);
    var last := LastSave(j);
    if i0 < last {
      RecordStart(Iterate(s0, m, last - i0), last);
      ResumeAgrees(p, s0, i0, last, FileAfter(stored, s0, i0, m, j));
      OutcomeFromStart(p, true, stored, s0, i0);
    }
  }

  /** A record that has already reached p - 2 steps is not advanced: the verdict is its own s == 0. */
  lemma ResumePastEnd(p: nat, s: nat, k: nat)
    requires 3 <= p && s < U64 && p - 2 <= k < U128
    ensures Outcome(p, true, Some(EncodeCheckpoint(s, k))) == Ok(s == 0)
  {
    CheckpointRoundTrip(s, k);
  }

  /** A state file shorter than one record makes the run fail rather than start over. */
  lemma TruncatedCheckpointFails(p: nat, bs: seq<byte>)
    requires 3 <= p && |bs| < RECORD_BYTES
    ensures Outcome(p, true, Some(bs)) == Err(CheckpointUnreadable)
  {
    GuardOnMersenne(p);
  }

  /** `lucas_lehmer(p, mem)` with the state file `file`. Also returns the line
      written to out.txt and, as ghost output, the state file as a crash right
      after each loop step would leave it. */
  method LucasLehmerTest(p: nat, mem: bool, file: StateFile)
    returns (r: Result<bool>, line: Option<string>, ghost crashStates: seq<Option<seq<byte>>>)
    requires 2 <= p < U128
    modifies file
    ensures r == Outcome(p, mem, old(file.contents))
    ensures line == if p != 2 && r.Ok? then Some(ResultLine.Line(Mersenne(p), r.value)) else None
    ensures file.contents == if mem && p != 2 && r.Ok? then None else old(file.contents)
    ensures p != 2 && r.Ok? ==>
      var start := StartPoint(mem, old(file.contents)).value;
      crashStates == CrashSchedule(old(file.contents), start.0, start.1, Modulus(p), mem, Steps(start.1, p - 2))
    ensures forall k :: 0 <= k < |crashStates| ==> Outcome(p, mem, crashStates[k]) == r
  {
    crashStates := [];
    if p == 2 {
      return Ok(true), None, crashStates;
    }
    var mm := Mersenne(p);
    var iterations := p - 2;
    var guard := LowDigit(mm);
    if guard.Err? {
      return Err(MersenneExceedsU64), None, crashStates;
    }
    var m := guard.value;
    assert m == Modulus(p);
    var s := 4;
    var current := 0;
    if mem && file.contents.Some? {
      var loaded := DecodeCheckpoint(file.contents.value);
      if loaded.None? {
        return Err(CheckpointUnreadable), None, crashStates;
      }
      s, current := loaded.value.0, loaded.value.1;
    }
    ghost var s0, stored := s, file.contents;
    assert StartPoint(mem, stored) == Ok((s0, current));
    s, crashStates := RunKernel(s, current, iterations, m, mem, file);
    if mem {
      file.contents := None;
    }
    r := Ok(s == 0);
    line := Some(ResultLine.Line(mm, s == 0));
    OutcomeFromStart(p, mem, stored, s0, current);
    CrashStatesAgree(p, mem, stored, s0, current, Steps(current, iterations));
  }

  /** The loop of src/test_prime.rs:103-133: the kernel runs from step i0 up
      to step n, and with checkpointing on the state file receives the record
      of every step that is a multiple of SAVE_INTERVAL. */
  method RunKernel(s0: nat, i0: nat, n: nat, m: nat, mem: bool, file: StateFile)
    returns (s: nat, ghost crashStates: seq<Option<seq<byte>>>)
    requires s0 < U64 && 0 < m < U64 && i0 < U128 && n < U128
    modifies file
    ensures s == Iterate(s0, m, Steps(i0, n))
    ensures file.contents == if mem then FileAfter(old(file.contents), s0, i0, m, i0 + Steps(i0, n)) else old(file.contents)
    ensures crashStates == CrashSchedule(old(file.contents), s0, i0, m, mem, Steps(i0, n))
  {
    ghost var stored := file.contents;
    s, crashStates := s0, [];
    var i := i0;
    while i < n
      invariant i0 <= i < U128
      invariant i <= n || i == i0
      invariant s == Iterate(s0, m, i - i0)
      invariant file.contents == if mem then FileAfter(stored, s0, i0, m, i) else stored
      invariant crashStates == CrashSchedule(stored, s0, i0, m, mem, i - i0)
    {
      ghost var before := file.contents;
      s := KernelStep(s, m);
      ghost var torn := SaveIfDue(s, i, mem, file);
      SaveStep(stored, s0, i0, m, mem, i, s, before);
      crashStates := crashStates + [file.contents];
      i := i + 1;
    }
    assert i - i0 == Steps(i0, n);
  }

  /** The save of src/test_prime.rs:110-124: after step i, when checkpointing
      is on and i + 1 is a multiple of SAVE_INTERVAL, the state file is
      truncated (or created empty), then receives the 8 bytes of s, then the
      16 bytes of i + 1. `torn` is the file as a crash between those writes
      would leave it. */
  method SaveIfDue(s: nat, i: nat, mem: bool, file: StateFile)
    returns (ghost torn: seq<Option<seq<byte>>>)
    requires s < U64 && i + 1 < U128
    modifies file
    ensures file.contents ==
      if mem && (i + 1) % SAVE_INTERVAL == 0 then Some(EncodeCheckpoint(s, i + 1)) else old(file.contents)
    ensures torn ==
      if mem && (i + 1) % SAVE_INTERVAL == 0 then [Some([]), Some(EncodeLE(s, VALUE_BYTES))] else []
  {
    torn := [];
    if mem && (i + 1) % SAVE_INTERVAL == 0 {
      file.contents := Some([]);
      torn := torn + [file.contents];
      var empty: seq<byte> := [];
      assert empty + EncodeLE(s, VALUE_BYTES) == EncodeLE(s, VALUE_BYTES);
      file.contents := Some(file.contents.value + EncodeLE(s, VALUE_BYTES));
      torn := torn + [file.contents];
      file.contents := Some(file.contents.value + EncodeLE(i + 1, COUNTER_BYTES));
      assert file.contents == Some(EncodeCheckpoint(s, i + 1));
    }
  }

  /** A crash inside a save leaves a file that makes the next checkpointing
      run fail, where a run with no file at all would have succeeded. */
  lemma TornSaveFails(p: nat, s: nat)
    requires 3 <= p && s < U64
    ensures Outcome(p, true, Some([])) == Err(CheckpointUnreadable)
    ensures Outcome(p, true, Some(EncodeLE(s, VALUE_BYTES))) == Err(CheckpointUnreadable)
    ensures Outcome(p, true, None).Ok?
  {
    TruncatedCheckpointFails(p, []);
    TruncatedCheckpointFails(p, EncodeLE(s, VALUE_BYTES));
    OutcomeFromStart(p, true, None, 4, 0);
  }

  /** One loop step keeps the state file and the crash schedule on track. */
  lemma SaveStep(stored: Option<seq<byte>>, s0: nat, i0: nat, m: nat, mem: bool, i: nat, s: nat,
                 before: Option<seq<byte>>)
    requires s0 < U64 && 0 < m < U64 && i0 <= i && i + 1 < U128
    requires s == Iterate(s0, m, i + 1 - i0)
    requires before == if mem then FileAfter(stored, s0, i0, m, i) else stored
    ensures (if mem && (i + 1) % SAVE_INTERVAL == 0 then Some(EncodeCheckpoint(s, i + 1)) else before)
         == if mem then FileAfter(stored, s0, i0, m, i + 1) else stored
    ensures CrashSchedule(stored, s0, i0, m, mem, i + 1 - i0)
         == CrashSchedule(stored, s0, i0, m, mem, i - i0) + [if mem then FileAfter(stored, s0, i0, m, i + 1) else stored]
  {
    FileAfterStep(stored, s0, i0, m, i);
  }

  /** The state file as a crash right after each of the first n loop steps
      of a run started from (s0, i0) would leave it. */
  ghost function CrashSchedule(stored: Option<seq<byte>>, s0: nat, i0: nat, m: nat, mem: bool, n: nat)
    : (states: seq<Option<seq<byte>>>)
    requires s0 < U64 && 0 < m < U64 && i0 + n < U128
    ensures |states| == n
  {
    if n == 0 then []
    else CrashSchedule(stored, s0, i0, m, mem, n - 1)
         + [if mem then FileAfter(stored, s0, i0, m, i0 + n) else stored]
  }

  lemma {:induction false} CrashScheduleAt(stored: Option<seq<byte>>, s0: nat, i0: nat, m: nat, mem: bool, n: nat, k: nat)
    requires s0 < U64 && 0 < m < U64 && i0 + n < U128 && k < n
    ensures CrashSchedule(stored, s0, i0, m, mem, n)[k] ==
      if mem then FileAfter(stored, s0, i0, m, i0 + k + 1) else stored
  {
    if k < n - 1 {
      CrashScheduleAt(stored, s0, i0, m, mem, n - 1, k);
    }
  }

  /** Every crash state of the schedule resumes to the run's own verdict. */
  lemma CrashStatesAgree(p: nat, mem: bool, stored: Option<seq<byte>>, s0: nat, i0: nat, n: nat)
    requires 3 <= p < U128 && StartPoint(mem, stored) == Ok((s0, i0)) && n == Steps(i0, p - 2)
    ensures var states := CrashSchedule(stored, s0, i0, Modulus(p), mem, n);
      forall k :: 0 <= k < n ==> Outcome(p, mem, states[k]) == Outcome(p, mem, stored)
  {
    var states := CrashSchedule(stored, s0, i0, Modulus(p), mem, n);
    forall k | 0 <= k < n
      ensures Outcome(p, mem, states[k]) == Outcome(p, mem, stored)
    {
      CrashScheduleAt(stored, s0, i0, Modulus(p), mem, n, k);
      if mem {
        ResumeAfterCrash(p, stored, i0 + k + 1);
      }
    }
  }
}
