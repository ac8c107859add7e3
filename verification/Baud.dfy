/** The baud-rate divisors of JuliusSerial.cpp, against what the PL011 manual (ARM DDI 0183,
    sections 3.3.5 and 3.3.6) asks for: IBRD + FBRD / 64 is the clock over 16 times the rate. */
module Baud {
  import opened Machine

  const CLOCK_HZ: nat := 24_000_000
  const DEFAULT_BAUD: uint32 := 115_200

  /** `16 * baud` in 32-bit unsigned arithmetic. */
  function Scaled(baud: uint32): uint32 {
    (16 * baud) % 0x1_0000_0000
  }

  /** hw_init divides by both of these. */
  predicate Divides(baud: uint32) {
    baud != 0 && Scaled(baud) != 0
  }

  /** x / d rounded, as the code does it. */
  function Round(x: nat, d: nat): nat
    requires 0 < d
  {
    (x + d / 2) / d
  }

  function Ibrd(baud: uint32): nat
    requires Divides(baud)
  {
    CLOCK_HZ / Scaled(baud)
  }

  /** What the integer division leaves over. */
  function Rest(baud: uint32): nat
    requires Divides(baud)
  {
    CLOCK_HZ % Scaled(baud)
  }

  /** The rounded fraction with a given factor. */
  function FbrdWith(factor: nat, baud: uint32): nat
    requires Divides(baud)
  {
    Round(Rest(baud) * factor, baud)
  }

  /** The code's factor is 64. */
  function Fbrd(baud: uint32): nat
    requires Divides(baud)
  {
    FbrdWith(64, baud)
  }

  function Abs(x: int): nat {
    if x < 0 then -x else x
  }

  /** How far n / 64 is from the exact divisor, in units of 1 / (64 * baud). */
  function Error(n: int, baud: uint32): nat {
    Abs(n * baud - 4 * CLOCK_HZ)
  }

  /** The rates whose integer divisor fits the 16-bit register and is not zero. */
  predicate Supported(baud: uint32) {
    23 <= baud <= 1_500_000
  }

  /** The products behind a rounded quotient. */
  lemma RoundTimes(x: nat, d: nat)
    requires 0 < d
    ensures Round(x, d) * d <= x + d / 2 < Round(x, d) * d + d
  {
    QuotientTimes(x + d / 2, d);
  }

  /** A rounded quotient is at most k exactly when the next half step is not reached. */
  lemma RoundAtMost(x: nat, d: nat, k: nat)
    requires 0 < d
    ensures Round(x, d) <= k <==> x + d / 2 < (k + 1) * d
  {
    RoundTimes(x, d);
    var f := Round(x, d);
    hide Round;
    if f <= k { MulLe(d, f + 1, k + 1); } else { MulLe(d, k + 1, f); }
  }

  lemma ScaledIs(baud: uint32)
    ensures Scaled(baud) == 16 * (baud % 0x1000_0000)
    ensures Divides(baud) <==> baud % 0x1000_0000 != 0
  {
  }

  /** The pair that the code computes, for every rate it can divide by, with the clock of 24 MHz: IBRD is the
      quotient by 16 times the rate, of which 28 bits are left, and FBRD is 64 times the remainder over the
      rate, rounded half up. */
  lemma CodedPair(baud: uint32)
    requires Divides(baud)
    ensures var x, i, r, f := 16 * (baud % 0x1000_0000), Ibrd(baud), Rest(baud), Fbrd(baud);
      && i * x + r == 24_000_000 && r < x
      && f * baud <= 64 * r + baud / 2 < f * baud + baud
  {
    ScaledIs(baud);
    QuotientTimes(CLOCK_HZ, Scaled(baud));
    RoundTimes(Rest(baud) * 64, baud);
    hide Scaled, Round;
  }

  lemma DivisorTimes(baud: uint32)
    requires Supported(baud)
    ensures Divides(baud) && 16 * (Ibrd(baud) * baud) + Rest(baud) == CLOCK_HZ && Rest(baud) < 16 * baud
  {
    assert Scaled(baud) == 16 * baud;
    QuotientTimes(CLOCK_HZ, 16 * baud);
    var i := Ibrd(baud);
    assert i * (16 * baud) == 16 * (i * baud);
  }

  lemma IbrdInRange(baud: uint32)
    requires Supported(baud)
    ensures Divides(baud) && 1 <= Ibrd(baud) <= 65217
  {
    DivisorTimes(baud);
    var i := Ibrd(baud);
    hide Ibrd, Rest;
    MulLe(i, 23, baud);
    assert i < 1 ==> i * baud == 0;
  }

  /** With factor 4 the pair is within half a step of the exact divisor. */
  lemma FactorFourIsWithinHalf(baud: uint32)
    requires Supported(baud)
    ensures Divides(baud) && 2 * Error(64 * Ibrd(baud) + FbrdWith(4, baud), baud) <= baud
    ensures 2 * Abs((64 * Ibrd(baud) + FbrdWith(4, baud)) * baud - 96_000_000) <= baud
  {
    DivisorTimes(baud);
    RoundTimes(Rest(baud) * 4, baud);
    var i, r, f := Ibrd(baud), Rest(baud), FbrdWith(4, baud);
    hide Ibrd, Rest, FbrdWith, Round;
    assert (64 * i + f) * baud == 64 * (i * baud) + f * baud;
  }

  /** So no other divisor in steps of 1 / 64 is nearer. */
  lemma FactorFourIsNearest(baud: uint32, n: int)
    requires Supported(baud)
    ensures Divides(baud)
    ensures Error(64 * Ibrd(baud) + FbrdWith(4, baud), baud) <= Error(n, baud)
  {
    FactorFourIsWithinHalf(baud);
    MultiplesApart(baud, 64 * Ibrd(baud) + FbrdWith(4, baud), n);
    hide Ibrd, FbrdWith;
  }

  /** Rounding may reach a whole step of IBRD: exactly when 4 * rest is within half a step of it. The
      carried pair is the same divisor and fits both registers. */
  lemma FactorFourCarry(baud: uint32)
    requires Supported(baud)
    ensures Divides(baud) && FbrdWith(4, baud) <= 64
    ensures FbrdWith(4, baud) == 64 <==> 4 * Rest(baud) + baud / 2 >= 64 * baud
    ensures 1 <= Ibrd(baud) + FbrdWith(4, baud) / 64 <= 65535
    ensures 64 * (Ibrd(baud) + FbrdWith(4, baud) / 64) + FbrdWith(4, baud) % 64
            == 64 * Ibrd(baud) + FbrdWith(4, baud)
  {
    IbrdInRange(baud);
    DivisorTimes(baud);
    RoundAtMost(Rest(baud) * 4, baud, 64);
    RoundAtMost(Rest(baud) * 4, baud, 63);
  }

  /** The word that the code computes for FBRD is the intended fraction exactly when 64 * rest rounds to
      nothing. */
  lemma CodedFractionAgrees(baud: uint32)
    requires Supported(baud)
    ensures Divides(baud)
    ensures Fbrd(baud) == FbrdWith(4, baud) <==> 64 * Rest(baud) < (baud + 1) / 2
  {
    DivisorTimes(baud);
    var r := Rest(baud);
    RoundAtMost(r * 64, baud, 0);
    RoundAtMost(r * 4, baud, 0);
    RoundTimes(r * 64, baud);
    RoundTimes(r * 4, baud);
    var f, g := Fbrd(baud), FbrdWith(4, baud);
    assert f == Round(r * 64, baud) && g == Round(r * 4, baud);
    hide Ibrd, Rest, Fbrd, FbrdWith, Round;
    MultiplesApart(baud, 0, f);
  }

  /** That word fits the 6-bit register exactly when the rest is, within the rounding, below
      the rate itself: a sixteenth of its range. */
  lemma CodedFractionFits(baud: uint32)
    requires Supported(baud)
    ensures Divides(baud)
    ensures Fbrd(baud) < 64 <==> 64 * Rest(baud) + baud / 2 < 64 * baud
    ensures Fbrd(baud) <= 1024
  {
    DivisorTimes(baud);
    RoundAtMost(Rest(baud) * 64, baud, 63);
    RoundAtMost(Rest(baud) * 64, baud, 1024);
  }

  // ---- What the registers hold of the coded pair ----

  /** No divisor in steps of 1 / 64 is nearer. */
  ghost predicate Nearest(baud: uint32, n: int) {
    forall m: int :: Error(n, baud) <= Error(m, baud)
  }

  /** The nearest divisors are those within half a step of the exact one. */
  lemma NearestIff(baud: uint32, n: int)
    requires Supported(baud)
    ensures Nearest(baud, n) <==> 2 * Error(n, baud) <= baud
  {
    FactorFourIsWithinHalf(baud);
    var best := 64 * Ibrd(baud) + FbrdWith(4, baud);
    assert Nearest(baud, n) ==> Error(n, baud) <= Error(best, baud);
    hide Ibrd, FbrdWith;
    if 2 * Error(n, baud) <= baud {
      forall m: int
        ensures Error(n, baud) <= Error(m, baud)
      {
        MultiplesApart(baud, n, m);
      }
    }
  }

  /** The pair that the registers hold after the code's two writes: 16 bits of IBRD, 6 bits of FBRD. */
  function HeldPair(baud: uint32): nat
    requires Divides(baud)
  {
    64 * (Ibrd(baud) % 0x1_0000) + Fbrd(baud) % 64
  }

  /** Sixteen times how far what FBRD keeps of a coded fraction k, k % 64, is above the intended k / 16. */
  function Drift(k: nat): int {
    15 * k - 1024 * (k / 64)
  }

  lemma HeldPairIs(baud: uint32)
    requires Supported(baud)
    ensures Divides(baud) && HeldPair(baud) == 64 * Ibrd(baud) + Fbrd(baud) % 64
  {
    IbrdInRange(baud);
    hide Ibrd, Fbrd;
  }

  lemma ErrorFrom(i: nat, f: nat, r: nat, baud: uint32)
    requires 16 * (i * baud) + r == CLOCK_HZ
    ensures Error(64 * i + f, baud) == Abs(f * baud - 4 * r)
  {
    assert (64 * i + f) * baud == 64 * (i * baud) + f * baud;
  }

  /** The error of the held pair, from the remainder alone. */
  lemma HeldError(baud: uint32)
    requires Supported(baud)
    ensures Divides(baud)
    ensures Error(HeldPair(baud), baud) == Abs(Fbrd(baud) % 64 * baud - 4 * Rest(baud))
  {
    HeldPairIs(baud);
    DivisorTimes(baud);
    hide Ibrd, Rest, Fbrd, HeldPair, Error, Abs;
    ErrorFrom(Ibrd(baud), Fbrd(baud) % 64, Rest(baud), baud);
  }

  lemma DriftTimes(b: nat, k: nat)
    ensures Drift(k) * b == 16 * (k % 64 * b) - k * b
  {
    var f := k % 64;
    assert Drift(k) == 16 * f - k;
    hide Drift;
    Distribute(b, f, k);
  }

  lemma Distribute(b: nat, f: nat, k: nat)
    ensures (16 * f - k) * b == 16 * (f * b) - k * b
  {
  }

  /** With kb, a multiple of b, within half of b of 64 * r, the held fraction fb / b is within half a step
      of 4 * r / b exactly under a condition on the drift d. */
  lemma DriftDecides(b: nat, r: nat, kb: nat, fb: nat, d: int)
    requires kb <= 64 * r + b / 2 < kb + b && d * b == 16 * fb - kb
    ensures 2 * Abs(fb - 4 * r) <= b <==> DriftIsSmall(d, kb, 64 * r)
  {
    hide DriftIsSmall, Abs;
    MultiplesApart(b, -8, d);
    MultiplesApart(b, 8, d);
    WithinHalf(b, r, kb, d, d * b, fb);
  }

  /** The products of b in DriftDecides, as numbers of their own. */
  lemma WithinHalf(b: nat, r: nat, kb: nat, d: int, db: int, fb: nat)
    requires kb <= 64 * r + b / 2 < kb + b && db == 16 * fb - kb
    requires d > 8 ==> db >= 8 * b + b
    requires d < -8 ==> db <= -8 * b - b
    requires d < 8 ==> db <= 8 * b - b
    requires d > -8 ==> db >= -8 * b + b
    requires (d == 8 ==> db == 8 * b) && (d == -8 ==> db == -8 * b)
    ensures 2 * Abs(fb - 4 * r) <= b <==> DriftIsSmall(d, kb, 64 * r)
  {
  }

  /** At most 7; or 8 if the coded fraction, as a multiple of 1 / (64 * rate), was rounded towards it. */
  predicate DriftIsSmall(d: int, rounded: nat, exact: nat) {
    -7 <= d <= 7 || (d == 8 && rounded <= exact) || (d == -8 && exact <= rounded)
  }

  /** The pair that the registers hold is the nearest divisor exactly when the drift of the coded
      fraction is small. */
  lemma HeldPairIsNearest(baud: uint32)
    requires Supported(baud)
    ensures Divides(baud)
    ensures var k := Fbrd(baud);
      Nearest(baud, HeldPair(baud)) <==> DriftIsSmall(Drift(k), k * baud, 64 * Rest(baud))
  {
    HeldError(baud);
    RoundTimes(Rest(baud) * 64, baud);
    DriftTimes(baud, Fbrd(baud));
    DriftDecides(baud, Rest(baud), Fbrd(baud) * baud, Fbrd(baud) % 64 * baud, Drift(Fbrd(baud)));
    NearestIff(baud, HeldPair(baud));
    hide Nearest, Drift, DriftIsSmall, HeldPair, Ibrd, Rest, Error, Round;
  }

  /** At 36 the coded fraction is 683, of which the register keeps 43: by accident the nearest, although
      the code did not compute it. */
  lemma NearestByAccident()
    ensures Divides(36) && Fbrd(36) == 683 && Fbrd(36) % 64 == FbrdWith(4, 36) == 43
    ensures Nearest(36, HeldPair(36)) && !(64 * Rest(36) < (36 + 1) / 2)
  {
    assert Rest(36) == 384 && Fbrd(36) == 683;
    assert DriftIsSmall(Drift(683), 683 * 36, 64 * 384);
    HeldPairIsNearest(36);
    hide Nearest, HeldPair, Drift, DriftIsSmall, Rest, Fbrd, FbrdWith;
  }

  /** At 9600 it is 256, of which nothing is kept, where 16 is the nearest. */
  lemma NothingHeld()
    ensures Divides(9600) && Fbrd(9600) == 256 && Fbrd(9600) % 64 == 0 && FbrdWith(4, 9600) == 16
    ensures !Nearest(9600, HeldPair(9600))
  {
    assert Rest(9600) == 38400 && Fbrd(9600) == 256;
    assert !DriftIsSmall(Drift(256), 256 * 9600, 64 * 38400);
    HeldPairIsNearest(9600);
    hide Nearest, HeldPair, Drift, DriftIsSmall, Rest, Fbrd, FbrdWith;
  }

  /** At the default rate the code programs 13 and 21, which the registers hold, where 13 and 1 is the
      nearest divisor. */
  lemma DefaultRate()
    ensures Divides(115_200)
    ensures Ibrd(115_200) == 13 && Fbrd(115_200) == 21 && FbrdWith(4, 115_200) == 1
    ensures HeldPair(115_200) == 64 * 13 + 21 && !Nearest(115_200, HeldPair(115_200))
  {
    assert Rest(DEFAULT_BAUD) == 38400;
    assert !DriftIsSmall(Drift(21), 21 * DEFAULT_BAUD, 64 * 38400);
    HeldPairIsNearest(DEFAULT_BAUD);
    hide Nearest, Drift, DriftIsSmall, Rest;
  }
}
