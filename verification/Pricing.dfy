/**
 The pricing arithmetic: integer rates in ten-thousandths of a cent ("micro-cents") per million units, three ways
 of rounding up to whole cents, and what they promise about each other and about reservations.
 */
module Pricing {

  const MILLION: int := 1_000_000
  const MICROS_PER_CENT: int := 10_000
  /** Micro-cents times a million in one cent. */
  const DENOM: int := 10_000_000_000

  // ----------------------------------------------------------------------------------------------
  // The computations
  // ----------------------------------------------------------------------------------------------

  /** Sums both sides exactly, then divides and rounds up once. */
  function ComputeCostCents(promptTokens: nat, outputTokens: nat, inputRate: nat, outputRate: nat): nat {
    (promptTokens * inputRate + outputTokens * outputRate + DENOM - 1) / DENOM
  }

  function CeilMicroCentsToCents(microCents: nat): nat {
    (microCents + 9999) / MICROS_PER_CENT
  }

  /** Embeddings and speech: a floor to micro-cents before the ceiling. */
  function ComputeInputOnlyCostCents(units: nat, rate: nat): nat {
    CeilMicroCentsToCents(units * rate / MILLION)
  }

  /** A stream that ended without usage: a floor on each side before the ceiling. */
  function ComputePartialCents(promptTokens: nat, outputTokens: nat, inputRate: nat, outputRate: nat): nat {
    CeilMicroCentsToCents(promptTokens * inputRate / MILLION + outputTokens * outputRate / MILLION)
  }

  function ComputePerImageCents(microPerImage: nat): nat {
    CeilMicroCentsToCents(microPerImage)
  }

  function ComputePerSecondCents(seconds: nat, microPerSecond: nat): nat {
    CeilMicroCentsToCents(seconds * microPerSecond)
  }

  datatype Rate = Rate(input: nat, output: nat)

  datatype Reservation = Reservation(estCents: nat, promptEstimateTokens: nat, maxCompletionTokens: nat)

  function Max(a: int, b: int): int {
    if a >= b then a else b
  }

  function Min(a: int, b: int): int {
    if a <= b then a else b
  }

  /** The characters of a prompt divided by 3, rounded up. */
  function CharacterEstimate(chars: nat): nat {
    (chars + 2) / 3
  }

  /** `promptTokens` is the audited count, or the estimate by characters. */
  function EstimateReservation(promptTokens: nat, maxTokens: nat, rate: Rate): Reservation {
    var prompt := Max(1, promptTokens);
    Reservation(ComputeCostCents(prompt, maxTokens, rate.input, rate.output), prompt, maxTokens)
  }

  function ComputeActualCost(promptTokens: nat, completionTokens: nat, rate: Rate): nat {
    ComputeCostCents(promptTokens, completionTokens, rate.input, rate.output)
  }

  const BITRATE_BYTES_PER_SEC: int := 8_000
  const MAX_RESERVE_SECONDS: int := 3600

  function EstimateTranscriptionSeconds(fileSizeBytes: nat): nat {
    Max(1, Min((fileSizeBytes + BITRATE_BYTES_PER_SEC - 1) / BITRATE_BYTES_PER_SEC, MAX_RESERVE_SECONDS))
  }

  // ----------------------------------------------------------------------------------------------
  // Exact ceilings
  // ----------------------------------------------------------------------------------------------

  /** Whole cents that cover `x` units of 1/`d` cent, and no more than needed. */
  ghost predicate IsCeiling(cents: int, x: int, d: int) {
    (cents - 1) * d < x <= cents * d
  }

  /** The chat cost is the least number of cents that covers the exact price, at rates in ten-thousandths of a cent for
      a million tokens. */
  lemma CostIsCeiling(p: nat, o: nat, i: nat, u: nat)
    ensures IsCeiling(ComputeCostCents(p, o, i, u), p * i + o * u, 10_000_000_000)
  {
  }

  /** The partial-stream charge is the least number of cents that covers both prices, each cut to micro-cents. */
  lemma PartialIsCeiling(p: nat, o: nat, i: nat, u: nat)
    ensures IsCeiling(ComputePartialCents(p, o, i, u), p * i / 1_000_000 + o * u / 1_000_000, 10_000)
  {
  }

  /** A reservation covers the estimated prompt, at least one token, and the most completion tokens, and no more. */
  lemma EstimateIsCeiling(promptTokens: nat, maxTokens: nat, rate: Rate)
    ensures var r := EstimateReservation(promptTokens, maxTokens, rate);
      && r.maxCompletionTokens == maxTokens
      && r.promptEstimateTokens == (if promptTokens == 0 then 1 else promptTokens)
      && IsCeiling(r.estCents, r.promptEstimateTokens * rate.input + maxTokens * rate.output, 10_000_000_000)
  {
    CostIsCeiling(Max(1, promptTokens), maxTokens, rate.input, rate.output);
  }

  /** The actual cost of reported usage, likewise. */
  lemma ActualIsCeiling(promptTokens: nat, completionTokens: nat, rate: Rate)
    ensures IsCeiling(ComputeActualCost(promptTokens, completionTokens, rate),
                      promptTokens * rate.input + completionTokens * rate.output, 10_000_000_000)
  {
    CostIsCeiling(promptTokens, completionTokens, rate.input, rate.output);
  }

  /** An image, and a number of seconds of audio, cost the least number of cents that covers their price. */
  lemma PerUnitCeilings(microPerImage: nat, seconds: nat, microPerSecond: nat)
    ensures IsCeiling(ComputePerImageCents(microPerImage), microPerImage, 10_000)
    ensures IsCeiling(ComputePerSecondCents(seconds, microPerSecond), seconds * microPerSecond, 10_000)
  {
  }

  /** Without an audited count, three characters make a token, the last ones rounded up. */
  lemma CharactersAreTokens(chars: nat)
    ensures IsCeiling(CharacterEstimate(chars), chars, 3)
  {
  }

  /** The estimated seconds cover the file at 8000 bytes a second, and no more than needed, between one second and an
      hour. */
  lemma EstimatedSeconds(fileSizeBytes: nat)
    ensures var s := EstimateTranscriptionSeconds(fileSizeBytes);
      if fileSizeBytes == 0 then s == 1
      else if fileSizeBytes > 3600 * 8_000 then s == 3600
      else IsCeiling(s, fileSizeBytes, 8_000)
  {
  }

  // ----------------------------------------------------------------------------------------------
  // Rounding agreement
  // ----------------------------------------------------------------------------------------------

  /** Rounding down to micro-cents first loses a cent exactly when the part below a micro-cent decides. */
  lemma TwoStepCeiling(x: nat)
    ensures var exact, twoStep := (x + DENOM - 1) / DENOM, CeilMicroCentsToCents(x / MILLION);
      && (twoStep == exact - 1 <==> 0 < x % DENOM < MILLION)
      && (twoStep == exact <==> !(0 < x % DENOM < MILLION))
  {
    var q, m := x / DENOM, x % DENOM;
    assert x == q * DENOM + m;
    assert x / MILLION == q * MICROS_PER_CENT + m / MILLION;
  }

  /** The input-only form is the exact ceiling except, by one cent, when 0 < units * rate mod 10^10 < 10^6. */
  lemma InputOnlyAgreement(units: nat, rate: nat)
    ensures var exact := ComputeCostCents(units, 0, rate, 0);
      && (ComputeInputOnlyCostCents(units, rate) == exact <==> !(0 < units * rate % DENOM < MILLION))
      && (ComputeInputOnlyCostCents(units, rate) == exact - 1 <==> 0 < units * rate % DENOM < MILLION)
  {
    TwoStepCeiling(units * rate);
  }

  /**
   The partial-stream charge is the chat cost or one cent less, and less exactly when what the two floors drop
   reaches the last cent: `past` is how far the exact price goes beyond the cents before the last.
   */
  lemma PartialAgreement(p: nat, o: nat, i: nat, u: nat)
    ensures var a, b := p * i, o * u;
      var partial, exact := ComputePartialCents(p, o, i, u), ComputeCostCents(p, o, i, u);
      var dropped, past := a % MILLION + b % MILLION, (a + b - 1) % DENOM + 1;
      && exact - 1 <= partial <= exact
      && (partial == exact - 1 <==> a + b > 0 && past <= dropped)
  {
    PartialOf(p * i, o * u);
  }

  lemma PartialOf(a: nat, b: nat)
    ensures var s, x := a / MILLION + b / MILLION, a + b;
      var partial, exact := CeilMicroCentsToCents(s), (x + DENOM - 1) / DENOM;
      var dropped, past := a % MILLION + b % MILLION, (x - 1) % DENOM + 1;
      && exact - 1 <= partial <= exact
      && (partial == exact - 1 <==> x > 0 && past <= dropped)
  {
    var s, x := a / MILLION + b / MILLION, a + b;
    var dropped := a % MILLION + b % MILLION;
    assert x == MILLION * s + dropped;
    var partial, exact := CeilMicroCentsToCents(s), (x + DENOM - 1) / DENOM;
    assert (partial - 1) * MICROS_PER_CENT < s <= partial * MICROS_PER_CENT;
    assert (exact - 1) * DENOM < x <= exact * DENOM;
    if x > 0 {
      assert x - 1 == (exact - 1) * DENOM + (x - 1 - (exact - 1) * DENOM);
      assert (x - 1) / DENOM == exact - 1;
    }
  }

  // ----------------------------------------------------------------------------------------------
  // Monotone and subadditive
  // ----------------------------------------------------------------------------------------------

  lemma ProductMonotone(a: nat, b: nat, rate: nat)
    requires a <= b
    ensures a * rate <= b * rate
  {
  }

  /** More tokens never cost less. */
  lemma CostMonotone(p: nat, o: nat, p': nat, o': nat, i: nat, u: nat)
    requires p <= p' && o <= o'
    ensures ComputeCostCents(p, o, i, u) <= ComputeCostCents(p', o', i, u)
  {
    ProductMonotone(p, p', i);
    ProductMonotone(o, o', u);
  }

  /** Splitting a bill never makes it cheaper, and makes it at most one cent dearer. */
  lemma CostSubadditive(p1: nat, o1: nat, p2: nat, o2: nat, i: nat, u: nat)
    ensures var joint := ComputeCostCents(p1 + p2, o1 + o2, i, u);
      joint <= ComputeCostCents(p1, o1, i, u) + ComputeCostCents(p2, o2, i, u) <= joint + 1
  {
    assert (p1 + p2) * i == p1 * i + p2 * i;
    assert (o1 + o2) * u == o1 * u + o2 * u;
    SplitCeiling(p1 * i + o1 * u, p2 * i + o2 * u);
  }

  lemma SplitCeiling(x: nat, y: nat)
    ensures var joint := (x + y + DENOM - 1) / DENOM;
      joint <= (x + DENOM - 1) / DENOM + (y + DENOM - 1) / DENOM <= joint + 1
  {
  }

  lemma InputOnlyMonotone(a: nat, b: nat, rate: nat)
    requires a <= b
    ensures ComputeInputOnlyCostCents(a, rate) <= ComputeInputOnlyCostCents(b, rate)
  {
    ProductMonotone(a, b, rate);
  }

  // ----------------------------------------------------------------------------------------------
  // Reservations cover bills
  // ----------------------------------------------------------------------------------------------

  /** Usage within the estimate never bills more than was reserved, reported or partial. */
  lemma ReservationCoversChat(promptTokens: nat, maxTokens: nat, usedPrompt: nat, usedCompletion: nat, rate: Rate)
    requires usedPrompt <= Max(1, promptTokens) && usedCompletion <= maxTokens
    ensures var r := EstimateReservation(promptTokens, maxTokens, rate);
      && ComputeActualCost(usedPrompt, usedCompletion, rate) <= r.estCents
      && ComputePartialCents(usedPrompt, usedCompletion, rate.input, rate.output) <= r.estCents
  {
    CostMonotone(usedPrompt, usedCompletion, Max(1, promptTokens), maxTokens, rate.input, rate.output);
    PartialAgreement(usedPrompt, usedCompletion, rate.input, rate.output);
  }

  /** What fits a hold, before the last rounding. */
  lemma FitsHold(microCents: nat, hold: nat)
    ensures CeilMicroCentsToCents(microCents) <= hold <==> microCents <= hold * MICROS_PER_CENT
  {
  }

  /** A floor to micro-cents does not change whether an amount of whole cents covers it plus a fraction. */
  lemma FloorFits(x: nat, hold: nat)
    ensures x / MILLION <= hold * MICROS_PER_CENT <==> x < hold * DENOM + MILLION
  {
  }

  /** Embeddings hold at least one token; usage up to the held tokens is covered, beyond them exactly while the price
      stays below the hold and a micro-cent. */
  lemma ReservationCoversEmbeddings(estimated: nat, used: nat, rate: nat)
    ensures var held := Max(1, estimated);
      var hold, bill := ComputeInputOnlyCostCents(held, rate), ComputeInputOnlyCostCents(used, rate);
      && (used <= held ==> bill <= hold)
      && (bill <= hold <==> used * rate < hold * DENOM + MILLION)
  {
    UnitsFit(Max(1, estimated), used, rate);
  }

  /** Speech holds the characters of the input and nothing for none; a bill of no characters fits every hold. */
  lemma ReservationCoversSpeech(inputChars: int, billedChars: int, rate: nat)
    ensures var held, used := Max(0, inputChars), Max(0, billedChars);
      var hold, bill := ComputeInputOnlyCostCents(held, rate), ComputeInputOnlyCostCents(used, rate);
      && (used <= held ==> bill <= hold)
      && (bill <= hold <==> used * rate < hold * DENOM + MILLION)
      && (held == 0 ==> (bill <= hold <==> used * rate < MILLION))
  {
    UnitsFit(Max(0, inputChars), Max(0, billedChars), rate);
  }

  lemma UnitsFit(held: nat, used: nat, rate: nat)
    ensures var hold, bill := ComputeInputOnlyCostCents(held, rate), ComputeInputOnlyCostCents(used, rate);
      && (used <= held ==> bill <= hold)
      && (bill <= hold <==> used * rate < hold * DENOM + MILLION)
  {
    var hold := ComputeInputOnlyCostCents(held, rate);
    if used <= held {
      InputOnlyMonotone(used, held, rate);
    }
    FitsHold(used * rate / MILLION, hold);
    FloorFits(used * rate, hold);
  }

  /** An image bill fits its hold exactly when no more images came back than were asked for, or images are free. */
  lemma ReservationCoversImages(n: nat, returned: nat, microPerImage: nat)
    ensures var perImage := ComputePerImageCents(microPerImage);
      perImage * returned <= perImage * n <==> returned <= n || microPerImage == 0
  {
    var perImage := ComputePerImageCents(microPerImage);
    if returned <= n {
      ProductMonotone(returned, n, perImage);
    } else if microPerImage > 0 {
      assert perImage >= 1;
      assert perImage * returned >= perImage * (n + 1);
    }
  }

  /** What a transcription reserves: the estimated seconds, which are capped at an hour. */
  function TranscriptionHold(fileSizeBytes: nat, microPerSecond: nat): nat {
    ComputePerSecondCents(EstimateTranscriptionSeconds(fileSizeBytes), microPerSecond)
  }

  /** A transcription bill fits its hold exactly when the exact price does; within the estimated seconds it always
      does. */
  lemma ReservationCoversTranscription(fileSizeBytes: nat, seconds: nat, microPerSecond: nat)
    ensures var hold := TranscriptionHold(fileSizeBytes, microPerSecond);
      && (ComputePerSecondCents(seconds, microPerSecond) <= hold
          <==> seconds * microPerSecond <= hold * MICROS_PER_CENT)
      && (seconds <= EstimateTranscriptionSeconds(fileSizeBytes) ==>
            ComputePerSecondCents(seconds, microPerSecond) <= hold)
  {
    var est := EstimateTranscriptionSeconds(fileSizeBytes);
    FitsHold(seconds * microPerSecond, TranscriptionHold(fileSizeBytes, microPerSecond));
    if seconds <= est {
      ProductMonotone(seconds, est, microPerSecond);
    }
  }

  /** A recording priced a cent or more beyond the capped hour exceeds its hold, however large the file. */
  lemma LongTranscriptionExceedsHold(fileSizeBytes: nat, seconds: nat, microPerSecond: nat)
    requires seconds * microPerSecond >= MAX_RESERVE_SECONDS * microPerSecond + MICROS_PER_CENT
    ensures ComputePerSecondCents(seconds, microPerSecond) > TranscriptionHold(fileSizeBytes, microPerSecond)
  {
    var est, hold := EstimateTranscriptionSeconds(fileSizeBytes), TranscriptionHold(fileSizeBytes, microPerSecond);
    ProductMonotone(est, MAX_RESERVE_SECONDS, microPerSecond);
    assert (hold - 1) * MICROS_PER_CENT < est * microPerSecond;
    ReservationCoversTranscription(fileSizeBytes, seconds, microPerSecond);
  }

  /** Two hours at 50 micro-cents a second, which is 0.003 USD a minute, for example. */
  lemma TwoHoursExceedHold(fileSizeBytes: nat)
    ensures ComputePerSecondCents(7200, 50) > TranscriptionHold(fileSizeBytes, 50)
  {
    LongTranscriptionExceedsHold(fileSizeBytes, 7200, 50);
  }
}
