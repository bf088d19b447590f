/**
 * `decay_tokens` of merkle_drop/server.py: the part of a claimant's tokens still payable at
 * time `now` when the airdrop decays linearly from `decay_start_time` over
 * `decay_duration_in_seconds`. The clock and the two module globals are parameters here.
 *
 * The code computes `math.ceil(tokens * time_decayed / duration)` with a float division; the
 * model uses the exact rational ceiling, which is what the float expression approximates.
 */
module Decay {
  import opened Wrappers

  /** The failure of `assert(decay <= tokens)`. */
  datatype DecayError = AssertionError

  /** The least integer `c` with `c * b >= a`: `math.ceil(a / b)` computed exactly. */
  function CeilDiv(a: int, b: int): (c: int)
    requires b > 0
    ensures (c - 1) * b < a <= c * b
  {
    var q := -a / b;
    assert -a == q * b + -a % b;
    -q
  }

  /** A positive factor can be cancelled from a strict inequality. */
  lemma MulCancelLess(x: int, y: int, b: int)
    requires b > 0 && x * b < y * b
    ensures x < y
  {
    assert (y - x) * b == y * b - x * b;
  }

  /** A positive factor can be cancelled from a non-strict inequality. */
  lemma MulCancelLeq(x: int, y: int, b: int)
    requires b > 0 && x * b <= y * b
    ensures x <= y
  {
    assert (y - x) * b == y * b - x * b;
  }

  /** `now` lies strictly inside the decay period: the case `decay_tokens` reaches the division in. */
  predicate Decaying(now: int, start: int, duration: int) {
    start < now < start + duration
  }

  /** The tokens still payable at `now`: all of them up to the start, none from the end on,
      and in between the tokens minus the decayed share rounded up. */
  function DecayTokens(tokens: int, now: int, start: int, duration: int): (r: Result<int, DecayError>)
    ensures r.Err? <==> tokens < 0 && Decaying(now, start, duration)
  {
    if now <= start then Ok(tokens)
    else if now >= start + duration then Ok(0)
    else
      var elapsed := now - start;
      var decay := CeilDiv(tokens * elapsed, duration);
      NegativeDecayExceeds(tokens, elapsed, duration, decay);
      if decay <= tokens then Ok(tokens - decay) else Err(AssertionError)
  }

  /** For non-negative tokens the decayed share never exceeds them; for negative tokens it
      always does, so the assertion fires exactly then. */
  lemma NegativeDecayExceeds(tokens: int, elapsed: int, duration: int, decay: int)
    requires 0 < elapsed < duration && decay == CeilDiv(tokens * elapsed, duration)
    ensures decay <= tokens <==> tokens >= 0
  {
    assert tokens * duration - tokens * elapsed == tokens * (duration - elapsed);
    if tokens >= 0 {
      assert tokens * (duration - elapsed) >= 0;
      MulCancelLess(decay - 1, tokens, duration);
    } else {
      assert tokens * (duration - elapsed) < 0;
      MulCancelLess(tokens, decay, duration);
    }
  }

  /** Before or at the start nothing has decayed. */
  lemma DecayBeforeStart(tokens: int, now: int, start: int, duration: int)
    requires now <= start
    ensures DecayTokens(tokens, now, start, duration) == Ok(tokens)
  {
  }

  /** From the end of the decay period on nothing is left. */
  lemma DecayAfterEnd(tokens: int, now: int, start: int, duration: int)
    requires start < now && now >= start + duration
    ensures DecayTokens(tokens, now, start, duration) == Ok(0)
  {
  }

  /** The division is only reached with a positive duration. */
  lemma DecayingDurationPositive(now: int, start: int, duration: int)
    requires Decaying(now, start, duration)
    ensures duration > 0 && 0 < now - start < duration
  {
  }

  /** Inside the period the result is the remaining share rounded down:
      `floor(tokens * (start + duration - now) / duration)`. */
  lemma DecayRoundsPayoutDown(tokens: int, now: int, start: int, duration: int)
    requires tokens >= 0 && Decaying(now, start, duration)
    ensures DecayTokens(tokens, now, start, duration) == Ok(tokens * (start + duration - now) / duration)
  {
    var elapsed := now - start;
    var decay := CeilDiv(tokens * elapsed, duration);
    var rest := start + duration - now;
    assert tokens * rest == tokens * duration - tokens * elapsed;
    var q := tokens * rest / duration;
    assert tokens * rest == q * duration + tokens * rest % duration;
    assert (tokens - decay) * duration == tokens * duration - decay * duration;
    assert (tokens - decay + 1) * duration == tokens * duration - (decay - 1) * duration;
    FloorUnique(tokens * rest, duration, tokens - decay);
  }

  /** `f` is the floor of `a / b` when `f * b <= a < (f + 1) * b`. */
  lemma FloorUnique(a: int, b: int, f: int)
    requires b > 0 && f * b <= a < (f + 1) * b
    ensures a / b == f
  {
    var q := a / b;
    assert a == q * b + a % b;
    assert (q + 1) * b == q * b + b;
    MulCancelLess(q, f + 1, b);
    MulCancelLess(f, q + 1, b);
  }

  /** The assertion in `decay_tokens` holds for every non-negative balance, and the result
      lies between nothing and the full balance. */
  lemma DecayBounded(tokens: int, now: int, start: int, duration: int)
    requires tokens >= 0
    ensures DecayTokens(tokens, now, start, duration).Ok?
    ensures 0 <= DecayTokens(tokens, now, start, duration).value <= tokens
  {
    if Decaying(now, start, duration) {
      var elapsed := now - start;
      var decay := CeilDiv(tokens * elapsed, duration);
      assert tokens * elapsed >= 0;
      MulCancelLeq(0, decay, duration);
    }
  }

  /** Waiting never increases what is payable. */
  lemma DecayNonIncreasing(tokens: int, now1: int, now2: int, start: int, duration: int)
    requires tokens >= 0 && now1 <= now2
    ensures DecayTokens(tokens, now2, start, duration).Ok? && DecayTokens(tokens, now1, start, duration).Ok?
    ensures DecayTokens(tokens, now2, start, duration).value <= DecayTokens(tokens, now1, start, duration).value
  {
    DecayBounded(tokens, now1, start, duration);
    DecayBounded(tokens, now2, start, duration);
    if Decaying(now1, start, duration) && Decaying(now2, start, duration) {
      var a1, a2 := tokens * (now1 - start), tokens * (now2 - start);
      assert a2 - a1 == tokens * (now2 - now1);
      CeilMonotone(a1, a2, duration);
    }
  }

  /** Rounding up keeps order. */
  lemma CeilMonotone(a1: int, a2: int, b: int)
    requires b > 0 && a1 <= a2
    ensures CeilDiv(a1, b) <= CeilDiv(a2, b)
  {
    var c1, c2 := CeilDiv(a1, b), CeilDiv(a2, b);
    MulCancelLess(c1 - 1, c2, b);
  }

  /** 33 tokens at half the decay period: 17 decay (16.5 rounded up) and 16 remain, the
      amount each claimant receives in the rounding regression of the contract tests. */
  lemma HalfwayThirtyThree(start: int, half: int)
    requires half > 0
    ensures DecayTokens(33, start + half, start, 2 * half) == Ok(16)
  {
    var a, b := 33 * half, 2 * half;
    var decay := CeilDiv(a, b);
    assert 16 * b < a <= 17 * b;
    MulCancelLess(decay - 1, 17, b);
    MulCancelLess(16, decay, b);
  }
}
