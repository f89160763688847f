/**
 * The per-character extract/evaluate retry cycle and the run over all
 * character indices (ExtractionEvaluationService in src/llm/services.py).
 *
 * The extraction and evaluation clients are replaced by a finite script:
 * for each character index, the sequence of what each round of the cycle
 * got back (an extraction that raised, an evaluation that raised, or an
 * extraction with its evaluation). A round is one pass of the `while`
 * body: one extract call and, when that returned, one evaluate call. When a
 * character's script runs out before the cycle ends, the cycle is
 * `Stalled`: the service would keep calling the clients. The thread pool is
 * a sequential map over the indices (the tasks share no state and the
 * results are collected in submission order).
 */
module LlmServices {
  import opened Wrappers
  import opened Strings
  import opened Decimal

  /** A JSON value in a client response: the response schemas use integers,
      strings and lists of strings. */
  datatype Value = Int(n: int) | Text(s: string) | TextList(items: seq<string>)

  /** A decoded JSON object, i.e. a Python dict. */
  type Record = map<string, Value>

  /** `max_attempts` of `_cycle` */
  const MaxAttempts: nat := 5
  /** The evaluation score at or above which an extraction is accepted. */
  const AcceptScore: int := 8
  /** `base_delay`, in seconds */
  const BaseDelay: nat := 1
  /** The backoff cap, in seconds */
  const MaxDelay: real := 60.0

  /** What one round of the cycle got back from the clients. `message` is
      the text of the raised exception, `str(e)`. */
  datatype Round =
    | ExtractRaised(message: string)
    | EvaluateRaised(extraction: Record, message: string)
    | Evaluated(extraction: Record, evaluation: Record)

  /** The text functions the cycle applies to responses, which the model
      takes as given: `str()` of a response dict, and the evaluation prompt
      template's `format(user_query=..., generated_answer=...)`. */
  datatype Formatting = Formatting(render: Record -> string, evaluationTemplate: (string, string) -> string)

  /** How a cycle ended: the merged record (`_cycle` returns a dict), `None`
      after the attempt ceiling, or never, because the script ran out. */
  datatype Outcome = Accepted(record: Record) | GaveUp | Stalled

  /** A cycle's outcome and the calls it made: the prompt of every extract
      call, the prompt of every evaluate call, the `attempt` value at every
      rate-limit backoff, and the number of low-scoring evaluations. */
  datatype Trace = Trace(
    outcome: Outcome,
    extractionPrompts: seq<string>,
    evaluationPrompts: seq<string>,
    backoffAttempts: seq<nat>,
    lowScores: nat)

  /** An exception counts as rate limiting iff its lower-cased text contains
      "429" or "exceeded your current quota". */
  predicate IsRateLimited(message: string) {
    Contains(Lower(message), "429") || Contains(Lower(message), "exceeded your current quota")
  }

  /** `evaluation_response["score"]` when it is an integer; a missing key
      (KeyError) or a non-integer (TypeError on `>=`) raise, and their texts
      are not rate-limit texts. */
  function Score(evaluation: Record): Option<int> {
    if "score" in evaluation && evaluation["score"].Int? then Some(evaluation["score"].n) else None
  }

  /** `{**character_index_dict, **extraction_response, **evaluation_response}` */
  function Merge(index: int, extraction: Record, evaluation: Record): (r: Record)
    ensures r.Keys == {"character_index"} + extraction.Keys + evaluation.Keys
    ensures forall k | k in evaluation :: r[k] == evaluation[k]
    ensures forall k | k in extraction && k !in evaluation :: r[k] == extraction[k]
    ensures "character_index" !in extraction && "character_index" !in evaluation ==>
              r["character_index"] == Int(index)
  {
    map["character_index" := Int(index)] + extraction + evaluation
  }

  /** The evaluation prompt: the extraction response is both the user query
      and the generated answer. */
  function EvaluationPrompt(f: Formatting, extraction: Record): string {
    f.evaluationTemplate(f.render(extraction), f.render(extraction))
  }

  /** What a low score appends to the extraction prompt. */
  function Feedback(attempt: nat, renderedExtraction: string): string {
    "\nAttempt " + NatToString(attempt) + ": " + renderedExtraction
  }

  /** The attempts logged for a backoff when an exception with this text is
      caught at `attempt`. */
  function Backoffs(message: string, attempt: nat): seq<nat> {
    if IsRateLimited(message) then [attempt] else []
  }

  /** `t` preceded by calls and low scores that came before it. */
  function Prefixed(extractions: seq<string>, evaluations: seq<string>, backoffs: seq<nat>, low: nat, t: Trace): Trace {
    Trace(t.outcome, extractions + t.extractionPrompts, evaluations + t.evaluationPrompts,
          backoffs + t.backoffAttempts, low + t.lowScores)
  }

  /** The cycle for character `index` from the loop state (`attempt`,
      `extraction_prompt`), given what the remaining rounds get back. */
  function Run(f: Formatting, index: int, attempt: nat, prompt: string, rounds: seq<Round>): Trace
    decreases |rounds|
  {
    if attempt > MaxAttempts then Trace(GaveUp, [], [], [], 0)
    else if rounds == [] then Trace(Stalled, [], [], [], 0)
    else
      var rest := rounds[1..];
      match rounds[0]
      case ExtractRaised(m) =>
        Prefixed([prompt], [], Backoffs(m, attempt), 0, Run(f, index, attempt, prompt, rest))
      case EvaluateRaised(e, m) =>
        Prefixed([prompt], [EvaluationPrompt(f, e)], Backoffs(m, attempt), 0, Run(f, index, attempt, prompt, rest))
      case Evaluated(e, v) =>
        match Score(v)
        case None =>
          Prefixed([prompt], [EvaluationPrompt(f, e)], [], 0, Run(f, index, attempt, prompt, rest))
        case Some(s) =>
          if s >= AcceptScore then Trace(Accepted(Merge(index, e, v)), [prompt], [EvaluationPrompt(f, e)], [], 0)
          else
            Prefixed([prompt], [EvaluationPrompt(f, e)], [], 1,
                     Run(f, index, attempt + 1, prompt + Feedback(attempt + 1, f.render(e)), rest))
  }

  lemma PrefixedTwice(e1: seq<string>, v1: seq<string>, b1: seq<nat>, l1: nat,
                      e2: seq<string>, v2: seq<string>, b2: seq<nat>, l2: nat, t: Trace)
    ensures Prefixed(e1, v1, b1, l1, Prefixed(e2, v2, b2, l2, t)) == Prefixed(e1 + e2, v1 + v2, b1 + b2, l1 + l2, t)
  {
    assert e1 + (e2 + t.extractionPrompts) == (e1 + e2) + t.extractionPrompts;
    assert v1 + (v2 + t.evaluationPrompts) == (v1 + v2) + t.evaluationPrompts;
    assert b1 + (b2 + t.backoffAttempts) == (b1 + b2) + t.backoffAttempts;
  }

  /** The prompts of the evaluate calls one round makes. */
  function RoundEvaluations(f: Formatting, round: Round): seq<string> {
    if round.ExtractRaised? then [] else [EvaluationPrompt(f, round.extraction)]
  }

  /** A round that raised leaves `attempt` and the prompt as they were. */
  lemma RunAfterRaise(f: Formatting, index: int, attempt: nat, prompt: string, rounds: seq<Round>)
    requires attempt <= MaxAttempts && rounds != [] && !rounds[0].Evaluated?
    ensures Run(f, index, attempt, prompt, rounds)
            == Prefixed([prompt], RoundEvaluations(f, rounds[0]), Backoffs(rounds[0].message, attempt), 0,
                        Run(f, index, attempt, prompt, rounds[1..]))
  {
  }

  /** An evaluation without an integer score raises too, without backoff. */
  lemma RunAfterScoreError(f: Formatting, index: int, attempt: nat, prompt: string, rounds: seq<Round>)
    requires attempt <= MaxAttempts && rounds != [] && rounds[0].Evaluated? && Score(rounds[0].evaluation).None?
    ensures Run(f, index, attempt, prompt, rounds)
            == Prefixed([prompt], RoundEvaluations(f, rounds[0]), [], 0, Run(f, index, attempt, prompt, rounds[1..]))
  {
  }

  /** A low score advances `attempt` and appends the rejected extraction to the prompt. */
  lemma RunAfterLowScore(f: Formatting, index: int, attempt: nat, prompt: string, rounds: seq<Round>)
    requires attempt <= MaxAttempts && rounds != [] && rounds[0].Evaluated?
    requires Score(rounds[0].evaluation).Some? && Score(rounds[0].evaluation).value < AcceptScore
    ensures Run(f, index, attempt, prompt, rounds)
            == Prefixed([prompt], RoundEvaluations(f, rounds[0]), [], 1,
                        Run(f, index, attempt + 1, prompt + Feedback(attempt + 1, f.render(rounds[0].extraction)), rounds[1..]))
  {
  }

  /** A score of at least 8 ends the cycle with the merged record. */
  lemma RunAccepts(f: Formatting, index: int, attempt: nat, prompt: string, rounds: seq<Round>)
    requires attempt <= MaxAttempts && rounds != [] && rounds[0].Evaluated?
    requires Score(rounds[0].evaluation).Some? && Score(rounds[0].evaluation).value >= AcceptScore
    ensures Run(f, index, attempt, prompt, rounds)
            == Trace(Accepted(Merge(index, rounds[0].extraction, rounds[0].evaluation)), [prompt],
                     RoundEvaluations(f, rounds[0]), [], 0)
  {
  }

  /** `ExtractionEvaluationService._cycle(character_index)`, with
      `initialPrompt` the formatted extraction prompt. A rate-limit backoff
      is logged instead of slept. */
  method Cycle(f: Formatting, index: int, initialPrompt: string, rounds: seq<Round>) returns (t: Trace)
    ensures t == Run(f, index, 0, initialPrompt, rounds)
  {
    var attempt: nat := 0;
    var prompt := initialPrompt;
    var k := 0;
    var extractions: seq<string> := [];
    var evaluations: seq<string> := [];
    var backoffs: seq<nat> := [];
    var lowScores: nat := 0;
    ghost var whole := Run(f, index, 0, initialPrompt, rounds);
    while attempt <= MaxAttempts
      invariant k <= |rounds|
      invariant whole == Prefixed(extractions, evaluations, backoffs, lowScores, Run(f, index, attempt, prompt, rounds[k..]))
      decreases |rounds| - k
    {
      if k == |rounds| {
        t := Trace(Stalled, extractions, evaluations, backoffs, lowScores);
        return;
      }
      ghost var rest := rounds[k..];
      ghost var (e0, v0, b0, l0, a0, p0) := (extractions, evaluations, backoffs, lowScores, attempt, prompt);
      var round := rounds[k];
      assert rest[0] == round && rest[1..] == rounds[k + 1..];
      k := k + 1;
      extractions := extractions + [prompt];
      match round {
        case ExtractRaised(m) =>
          if IsRateLimited(m) {
            backoffs := backoffs + [attempt];
          }
          RunAfterRaise(f, index, attempt, prompt, rest);
        case EvaluateRaised(e, m) =>
          evaluations := evaluations + [EvaluationPrompt(f, e)];
          if IsRateLimited(m) {
            backoffs := backoffs + [attempt];
          }
          RunAfterRaise(f, index, attempt, prompt, rest);
        case Evaluated(e, v) =>
          evaluations := evaluations + [EvaluationPrompt(f, e)];
          var score := Score(v);
          if score.None? {
            RunAfterScoreError(f, index, attempt, prompt, rest);
          } else if score.value >= AcceptScore {
            RunAccepts(f, index, attempt, prompt, rest);
            t := Trace(Accepted(Merge(index, e, v)), extractions, evaluations, backoffs, lowScores);
            return;
          } else {
            RunAfterLowScore(f, index, attempt, prompt, rest);
            attempt := attempt + 1;
            prompt := prompt + Feedback(attempt, f.render(e));
            lowScores := lowScores + 1;
          }
      }
      ghost var db := if round.Evaluated? then [] else Backoffs(round.message, a0);
      assert backoffs == b0 + db;
      assert evaluations == v0 + RoundEvaluations(f, round);
      PrefixedTwice(e0, v0, b0, l0, [p0], RoundEvaluations(f, round), db, lowScores - l0,
                    Run(f, index, attempt, prompt, rounds[k..]));
    }
    t := Trace(GaveUp, extractions, evaluations, backoffs, lowScores);
  }

  /** A score of at least 8 ends the cycle at once: the result is the
      character index merged with that round's extraction and evaluation. */
  lemma {:induction false} AcceptedIsLastRoundMerged(f: Formatting, index: int, attempt: nat, prompt: string, rounds: seq<Round>)
    requires Run(f, index, attempt, prompt, rounds).outcome.Accepted?
    ensures var t := Run(f, index, attempt, prompt, rounds);
            var k := |t.extractionPrompts| - 1;
            && 0 <= k < |rounds|
            && rounds[k].Evaluated?
            && Score(rounds[k].evaluation).Some?
            && Score(rounds[k].evaluation).value >= AcceptScore
            && t.outcome.record == Merge(index, rounds[k].extraction, rounds[k].evaluation)
    decreases |rounds|
  {
    var t := Run(f, index, attempt, prompt, rounds);
    assert attempt <= MaxAttempts && rounds != [];
    var r := rounds[0];
    if r.Evaluated? && Score(r.evaluation).Some? && Score(r.evaluation).value >= AcceptScore {
      RunAccepts(f, index, attempt, prompt, rounds);
    } else {
      var low := r.Evaluated? && Score(r.evaluation).Some?;
      var nextAttempt := if low then attempt + 1 else attempt;
      var nextPrompt := if low then prompt + Feedback(attempt + 1, f.render(r.extraction)) else prompt;
      if !r.Evaluated? {
        RunAfterRaise(f, index, attempt, prompt, rounds);
      } else if !low {
        RunAfterScoreError(f, index, attempt, prompt, rounds);
      } else {
        RunAfterLowScore(f, index, attempt, prompt, rounds);
      }
      var u := Run(f, index, nextAttempt, nextPrompt, rounds[1..]);
      assert t.outcome == u.outcome && |t.extractionPrompts| == 1 + |u.extractionPrompts|;
      AcceptedIsLastRoundMerged(f, index, nextAttempt, nextPrompt, rounds[1..]);
      assert rounds[|u.extractionPrompts|] == rounds[1..][|u.extractionPrompts| - 1];
    }
  }

  /** Only low scores advance `attempt`: starting from `attempt`, at most
      `MaxAttempts + 1 - attempt` evaluations score low (six from the start),
      and the cycle gives up exactly when that many did. */
  lemma {:induction false} LowScoresBounded(f: Formatting, index: int, attempt: nat, prompt: string, rounds: seq<Round>)
    requires attempt <= MaxAttempts + 1
    ensures var t := Run(f, index, attempt, prompt, rounds);
            && t.lowScores <= MaxAttempts + 1 - attempt
            && (t.outcome == GaveUp <==> t.lowScores == MaxAttempts + 1 - attempt)
    decreases |rounds|
  {
    if attempt <= MaxAttempts && rounds != [] {
      var r := rounds[0];
      if !r.Evaluated? {
        RunAfterRaise(f, index, attempt, prompt, rounds);
        LowScoresBounded(f, index, attempt, prompt, rounds[1..]);
      } else if Score(r.evaluation).None? {
        RunAfterScoreError(f, index, attempt, prompt, rounds);
        LowScoresBounded(f, index, attempt, prompt, rounds[1..]);
      } else if Score(r.evaluation).value < AcceptScore {
        RunAfterLowScore(f, index, attempt, prompt, rounds);
        LowScoresBounded(f, index, attempt + 1, prompt + Feedback(attempt + 1, f.render(r.extraction)), rounds[1..]);
      }
    }
  }

  /** A round whose evaluation returned an integer score below 8. */
  predicate IsLowScoreRound(r: Round) {
    r.Evaluated? && Score(r.evaluation).Some? && Score(r.evaluation).value < AcceptScore
  }

  /** When every evaluation scores low, the cycle gives up after exactly
      `MaxAttempts + 1 - attempt` extract/evaluate pairs (six from the
      start); each evaluation prompt is built from that round's extraction,
      and each new extraction prompt is the previous one plus
      "\nAttempt n: <rejected extraction>". */
  lemma {:induction false} PersistentLowScoresGiveUp(f: Formatting, index: int, attempt: nat, prompt: string, rounds: seq<Round>)
    requires attempt <= MaxAttempts + 1
    requires |rounds| >= MaxAttempts + 1 - attempt
    requires forall k | 0 <= k < |rounds| :: IsLowScoreRound(rounds[k])
    ensures var t := Run(f, index, attempt, prompt, rounds);
            && t.outcome == GaveUp
            && |t.extractionPrompts| == MaxAttempts + 1 - attempt
            && |t.evaluationPrompts| == MaxAttempts + 1 - attempt
            && (|t.extractionPrompts| > 0 ==> t.extractionPrompts[0] == prompt)
            && (forall k | 0 <= k < |t.extractionPrompts| - 1 ::
                  rounds[k].Evaluated? &&
                  t.extractionPrompts[k + 1]
                  == t.extractionPrompts[k] + Feedback(attempt + k + 1, f.render(rounds[k].extraction)))
            && (forall k | 0 <= k < |t.evaluationPrompts| ::
                  rounds[k].Evaluated? && t.evaluationPrompts[k] == EvaluationPrompt(f, rounds[k].extraction))
  {
    LowScoresShape(f, index, attempt, prompt, rounds);
    LowScoresExtractionPrompts(f, index, attempt, prompt, rounds);
    LowScoresEvaluationPrompts(f, index, attempt, prompt, rounds);
  }

  /** The outcome and the number of prompts when every evaluation scores low. */
  lemma {:induction false} LowScoresShape(f: Formatting, index: int, attempt: nat, prompt: string, rounds: seq<Round>)
    requires attempt <= MaxAttempts + 1
    requires |rounds| >= MaxAttempts + 1 - attempt
    requires forall k | 0 <= k < |rounds| :: IsLowScoreRound(rounds[k])
    ensures var t := Run(f, index, attempt, prompt, rounds);
            && t.outcome == GaveUp
            && |t.extractionPrompts| == MaxAttempts + 1 - attempt
            && |t.evaluationPrompts| == MaxAttempts + 1 - attempt
            && (|t.extractionPrompts| > 0 ==> t.extractionPrompts[0] == prompt)
    decreases |rounds|
  {
    if attempt <= MaxAttempts {
      var next := prompt + Feedback(attempt + 1, f.render(rounds[0].extraction));
      RunAfterLowScore(f, index, attempt, prompt, rounds);
      LowScoresShape(f, index, attempt + 1, next, rounds[1..]);
    }
  }

  /** Each extraction prompt after the first is the previous one plus the
      feedback on the rejected extraction, when every evaluation scores low. */
  lemma {:induction false} LowScoresExtractionPrompts(f: Formatting, index: int, attempt: nat, prompt: string, rounds: seq<Round>)
    requires forall k | 0 <= k < |rounds| :: IsLowScoreRound(rounds[k])
    ensures var t := Run(f, index, attempt, prompt, rounds);
            && |t.extractionPrompts| <= |rounds|
            && (|t.extractionPrompts| > 0 ==> t.extractionPrompts[0] == prompt)
            && (forall k | 0 <= k < |t.extractionPrompts| - 1 ::
                  rounds[k].Evaluated? &&
                  t.extractionPrompts[k + 1]
                  == t.extractionPrompts[k] + Feedback(attempt + k + 1, f.render(rounds[k].extraction)))
    decreases |rounds|
  {
    if attempt <= MaxAttempts && rounds != [] {
      var next := prompt + Feedback(attempt + 1, f.render(rounds[0].extraction));
      RunAfterLowScore(f, index, attempt, prompt, rounds);
      LowScoresExtractionPrompts(f, index, attempt + 1, next, rounds[1..]);
      var t := Run(f, index, attempt, prompt, rounds);
      var u := Run(f, index, attempt + 1, next, rounds[1..]);
      assert t.extractionPrompts == [prompt] + u.extractionPrompts;
      forall k | 0 <= k < |t.extractionPrompts| - 1
        ensures rounds[k].Evaluated? && t.extractionPrompts[k + 1]
                == t.extractionPrompts[k] + Feedback(attempt + k + 1, f.render(rounds[k].extraction))
      {
        if k == 0 {
          assert t.extractionPrompts[1] == u.extractionPrompts[0] == next;
        } else {
          assert t.extractionPrompts[k + 1] == u.extractionPrompts[k];
          assert t.extractionPrompts[k] == u.extractionPrompts[k - 1];
          assert rounds[1..][k - 1] == rounds[k];
        }
      }
    }
  }

  /** Each evaluation prompt is built from that round's extraction, when
      every evaluation scores low. */
  lemma {:induction false} LowScoresEvaluationPrompts(f: Formatting, index: int, attempt: nat, prompt: string, rounds: seq<Round>)
    requires forall k | 0 <= k < |rounds| :: IsLowScoreRound(rounds[k])
    ensures var t := Run(f, index, attempt, prompt, rounds);
            && |t.evaluationPrompts| <= |rounds|
            && (forall k | 0 <= k < |t.evaluationPrompts| ::
                  rounds[k].Evaluated? && t.evaluationPrompts[k] == EvaluationPrompt(f, rounds[k].extraction))
    decreases |rounds|
  {
    if attempt <= MaxAttempts && rounds != [] {
      var next := prompt + Feedback(attempt + 1, f.render(rounds[0].extraction));
      RunAfterLowScore(f, index, attempt, prompt, rounds);
      LowScoresEvaluationPrompts(f, index, attempt + 1, next, rounds[1..]);
      var t := Run(f, index, attempt, prompt, rounds);
      var u := Run(f, index, attempt + 1, next, rounds[1..]);
      forall k | 0 <= k < |t.evaluationPrompts|
        ensures rounds[k].Evaluated? && t.evaluationPrompts[k] == EvaluationPrompt(f, rounds[k].extraction)
      {
        if k > 0 {
          assert t.evaluationPrompts[k] == u.evaluationPrompts[k - 1];
          assert rounds[1..][k - 1] == rounds[k];
        }
      }
    }
  }

  /** Exceptions never advance the attempt counter: a cycle whose rounds all
      raise (rate limited or not) never gives up, sends the same extraction
      prompt every time and backs off at the same attempt, once per
      rate-limit exception. */
  lemma {:induction false} RaisingRoundsNeverGiveUp(f: Formatting, index: int, attempt: nat, prompt: string, rounds: seq<Round>)
    requires attempt <= MaxAttempts
    requires forall k | 0 <= k < |rounds| :: !rounds[k].Evaluated?
    ensures var t := Run(f, index, attempt, prompt, rounds);
            && t.outcome == Stalled
            && t.lowScores == 0
            && |t.extractionPrompts| == |rounds|
            && (forall k | 0 <= k < |rounds| :: t.extractionPrompts[k] == prompt)
            && (forall k | 0 <= k < |t.backoffAttempts| :: t.backoffAttempts[k] == attempt)
            && ((forall k | 0 <= k < |rounds| :: IsRateLimited(rounds[k].message)) ==> |t.backoffAttempts| == |rounds|)
    decreases |rounds|
  {
    if rounds != [] {
      RunAfterRaise(f, index, attempt, prompt, rounds);
      RaisingRoundsNeverGiveUp(f, index, attempt, prompt, rounds[1..]);
      var t := Run(f, index, attempt, prompt, rounds);
      var u := Run(f, index, attempt, prompt, rounds[1..]);
      assert t.extractionPrompts == [prompt] + u.extractionPrompts;
      if forall k | 0 <= k < |rounds| :: IsRateLimited(rounds[k].message) {
        assert IsRateLimited(rounds[0].message);
        assert forall k | 0 <= k < |rounds[1..]| :: IsRateLimited(rounds[1..][k].message) by {
          forall k | 0 <= k < |rounds[1..]| ensures IsRateLimited(rounds[1..][k].message) {
            assert rounds[1..][k] == rounds[k + 1];
          }
        }
      }
    }
  }

  /** Every backoff happens at an attempt within the ceiling, and backoffs
      happen at non-decreasing attempts. */
  lemma {:induction false} BackoffAttemptsBounded(f: Formatting, index: int, attempt: nat, prompt: string, rounds: seq<Round>)
    ensures var b := Run(f, index, attempt, prompt, rounds).backoffAttempts;
            && (forall k | 0 <= k < |b| :: attempt <= b[k] <= MaxAttempts)
            && (forall j, k | 0 <= j < k < |b| :: b[j] <= b[k])
    decreases |rounds|
  {
    if attempt <= MaxAttempts && rounds != [] {
      var r := rounds[0];
      if !r.Evaluated? {
        RunAfterRaise(f, index, attempt, prompt, rounds);
        BackoffAttemptsBounded(f, index, attempt, prompt, rounds[1..]);
      } else if Score(r.evaluation).None? {
        RunAfterScoreError(f, index, attempt, prompt, rounds);
        BackoffAttemptsBounded(f, index, attempt, prompt, rounds[1..]);
      } else if Score(r.evaluation).value < AcceptScore {
        RunAfterLowScore(f, index, attempt, prompt, rounds);
        BackoffAttemptsBounded(f, index, attempt + 1, prompt + Feedback(attempt + 1, f.render(r.extraction)), rounds[1..]);
      }
    }
  }

  function Pow2(n: nat): (r: nat)
    ensures r >= 1
  {
    if n == 0 then 1 else 2 * Pow2(n - 1)
  }

  lemma {:induction false} Pow2Monotone(m: nat, n: nat)
    requires m <= n
    ensures Pow2(m) <= Pow2(n)
    decreases n
  {
    if m < n {
      Pow2Monotone(m, n - 1);
    }
  }

  /** `min(base_delay * (2 ** attempt) + jitter, 60)` */
  function BackoffDelay(attempt: nat, jitter: real): (d: real)
    ensures d <= MaxDelay
  {
    var raw := (BaseDelay * Pow2(attempt)) as real + jitter;
    if raw <= MaxDelay then raw else MaxDelay
  }

  /** Within the attempt ceiling the 60-second cap never applies: every
      backoff sleeps 2^attempt seconds plus the jitter, between 2^attempt
      and 60 seconds. */
  lemma BackoffWithinCeiling(attempt: nat, jitter: real)
    requires attempt <= MaxAttempts
    requires 0.0 <= jitter <= 1.0
    ensures BackoffDelay(attempt, jitter) == Pow2(attempt) as real + jitter
    ensures Pow2(attempt) as real <= BackoffDelay(attempt, jitter) <= MaxDelay
  {
    Pow2Monotone(attempt, MaxAttempts);
    assert Pow2(MaxAttempts) == 32;
  }

  /** For the same jitter, the delay does not decrease as `attempt` grows. */
  lemma BackoffMonotone(m: nat, n: nat, jitter: real)
    requires m <= n
    ensures BackoffDelay(m, jitter) <= BackoffDelay(n, jitter)
  {
    Pow2Monotone(m, n);
  }

  /** Lower-casing preserves containment. */
  lemma {:induction false} ContainsLower(s: string, sub: string)
    requires Contains(s, sub)
    ensures Contains(Lower(s), Lower(sub))
    decreases |s|
  {
    if StartsWith(s, sub) {
      assert Lower(s)[..|sub|] == Lower(sub);
    } else {
      ContainsLower(s[1..], sub);
      assert Lower(s)[1..] == Lower(s[1..]);
    }
  }

  /** The rate-limit test ignores case: "429" or the quota phrase in any
      mix of cases anywhere in the text. */
  lemma RateLimitMarkersAnyCase(message: string, marker: string)
    requires Contains(message, marker)
    requires Lower(marker) == "429" || Lower(marker) == "exceeded your current quota"
    ensures IsRateLimited(message)
  {
    ContainsLower(message, marker);
  }

  // ---------------------------------------------------------------------
  // run_cycle

  /** The initial extraction prompt for each index (the Langfuse template
      formatted with `character_index`) and the script of each index. */
  datatype Oracle = Oracle(initialPrompt: int -> string, rounds: int -> seq<Round>)

  function StartIndex(zeroIndexed: bool): int {
    if zeroIndexed then 0 else 1
  }

  /** `range(start_index, total_characters + 1)` */
  function Indices(zeroIndexed: bool, totalCharacters: int): (r: seq<int>)
    ensures |r| == if totalCharacters >= StartIndex(zeroIndexed) then totalCharacters - StartIndex(zeroIndexed) + 1 else 0
    ensures forall k | 0 <= k < |r| :: r[k] == StartIndex(zeroIndexed) + k
  {
    var start := StartIndex(zeroIndexed);
    if totalCharacters < start then [] else seq(totalCharacters - start + 1, k => start + k)
  }

  /** The cycle of one character, run by itself. */
  function TaskOutcome(f: Formatting, oracle: Oracle, index: int): Outcome {
    Run(f, index, 0, oracle.initialPrompt(index), oracle.rounds(index)).outcome
  }

  /** Each submitted index with its cycle's outcome, in submission order. */
  function TaskOutcomes(f: Formatting, oracle: Oracle, indices: seq<int>): (r: seq<(int, Outcome)>)
    ensures |r| == |indices|
    ensures forall k | 0 <= k < |r| :: r[k] == (indices[k], TaskOutcome(f, oracle, indices[k]))
  {
    seq(|indices|, k requires 0 <= k < |indices| => (indices[k], TaskOutcome(f, oracle, indices[k])))
  }

  /** How many futures the collection loop gets through: up to the first
      cycle that never returns. */
  function Collected(outcomes: seq<(int, Outcome)>): (n: nat)
    ensures n <= |outcomes|
    ensures forall k | 0 <= k < n :: !outcomes[k].1.Stalled?
    ensures n < |outcomes| ==> outcomes[n].1.Stalled?
    decreases |outcomes|
  {
    if outcomes == [] || outcomes[0].1.Stalled? then 0 else 1 + Collected(outcomes[1..])
  }

  /** The records of the accepted cycles, in order. */
  function AcceptedRecords(outcomes: seq<(int, Outcome)>): seq<Record>
    decreases |outcomes|
  {
    if outcomes == [] then []
    else
      var last := outcomes[|outcomes| - 1];
      AcceptedRecords(outcomes[..|outcomes| - 1]) + if last.1.Accepted? then [last.1.record] else []
  }

  /** The indices of the cycles that gave up, in order. */
  function FailedIndexes(outcomes: seq<(int, Outcome)>): seq<int>
    decreases |outcomes|
  {
    if outcomes == [] then []
    else
      var last := outcomes[|outcomes| - 1];
      FailedIndexes(outcomes[..|outcomes| - 1]) + if last.1.GaveUp? then [last.0] else []
  }

  /** On outcomes without a stalled cycle and with ascending indices, the
      accepted records and the failed indices partition the indices: each
      index is failed exactly when its cycle gave up, the two lists together
      have one entry per index, and the failed indices are ascending. */
  lemma PartitionIsExact(outcomes: seq<(int, Outcome)>)
    requires forall k | 0 <= k < |outcomes| :: !outcomes[k].1.Stalled?
    requires forall j, k | 0 <= j < k < |outcomes| :: outcomes[j].0 < outcomes[k].0
    ensures |AcceptedRecords(outcomes)| + |FailedIndexes(outcomes)| == |outcomes|
    ensures forall k | 0 <= k < |outcomes| :: outcomes[k].0 in FailedIndexes(outcomes) <==> outcomes[k].1.GaveUp?
    ensures forall i | 0 <= i < |FailedIndexes(outcomes)| :: exists k | 0 <= k < |outcomes| :: outcomes[k].0 == FailedIndexes(outcomes)[i]
    ensures forall i, j | 0 <= i < j < |FailedIndexes(outcomes)| :: FailedIndexes(outcomes)[i] < FailedIndexes(outcomes)[j]
  {
    PartitionCount(outcomes);
    FailedIffGaveUp(outcomes);
    FailedAreIndexes(outcomes);
    FailedAscending(outcomes);
  }

  /** Without a stalled cycle, every outcome is filed exactly once. */
  lemma {:induction false} PartitionCount(outcomes: seq<(int, Outcome)>)
    requires forall k | 0 <= k < |outcomes| :: !outcomes[k].1.Stalled?
    ensures |AcceptedRecords(outcomes)| + |FailedIndexes(outcomes)| == |outcomes|
    decreases |outcomes|
  {
    if outcomes != [] {
      var n := |outcomes| - 1;
      assert forall k | 0 <= k < n :: outcomes[..n][k] == outcomes[k];
      PartitionCount(outcomes[..n]);
    }
  }

  /** Each failed index is the index of one of the outcomes. */
  lemma {:induction false} FailedAreIndexes(outcomes: seq<(int, Outcome)>)
    ensures forall i | 0 <= i < |FailedIndexes(outcomes)| :: exists k | 0 <= k < |outcomes| :: outcomes[k].0 == FailedIndexes(outcomes)[i]
    decreases |outcomes|
  {
    if outcomes != [] {
      var n := |outcomes| - 1;
      var init := outcomes[..n];
      FailedAreIndexes(init);
      var failed := FailedIndexes(outcomes);
      var failedInit := FailedIndexes(init);
      assert failed == failedInit + if outcomes[n].1.GaveUp? then [outcomes[n].0] else [];
      forall i | 0 <= i < |failed| ensures exists k | 0 <= k < |outcomes| :: outcomes[k].0 == failed[i] {
        if i < |failedInit| {
          var k :| 0 <= k < |init| && init[k].0 == failedInit[i];
          assert outcomes[k].0 == failed[i];
        } else {
          assert outcomes[n].0 == failed[i];
        }
      }
    } else {
      assert FailedIndexes(outcomes) == [];
    }
  }

  /** With ascending indices, the failed indices before the last outcome are
      all below its index. */
  lemma FailedBelowLast(outcomes: seq<(int, Outcome)>)
    requires outcomes != []
    requires forall j, k | 0 <= j < k < |outcomes| :: outcomes[j].0 < outcomes[k].0
    ensures var n := |outcomes| - 1;
            forall i | 0 <= i < |FailedIndexes(outcomes[..n])| :: FailedIndexes(outcomes[..n])[i] < outcomes[n].0
  {
    var n := |outcomes| - 1;
    var init := outcomes[..n];
    var failedInit := FailedIndexes(init);
    FailedAreIndexes(init);
    forall i | 0 <= i < |failedInit| ensures failedInit[i] < outcomes[n].0 {
      var k :| 0 <= k < |init| && init[k].0 == failedInit[i];
      assert init[k] == outcomes[k];
    }
  }

  /** With distinct indices, an index is failed exactly when its cycle gave up. */
  lemma {:induction false} FailedIffGaveUp(outcomes: seq<(int, Outcome)>)
    requires forall j, k | 0 <= j < k < |outcomes| :: outcomes[j].0 < outcomes[k].0
    ensures forall k | 0 <= k < |outcomes| :: outcomes[k].0 in FailedIndexes(outcomes) <==> outcomes[k].1.GaveUp?
    decreases |outcomes|
  {
    if outcomes != [] {
      var n := |outcomes| - 1;
      var init := outcomes[..n];
      FailedIffGaveUp(init);
      FailedBelowLast(outcomes);
      var failed := FailedIndexes(outcomes);
      assert failed == FailedIndexes(init) + if outcomes[n].1.GaveUp? then [outcomes[n].0] else [];
      forall k | 0 <= k < |outcomes|
        ensures outcomes[k].0 in failed <==> outcomes[k].1.GaveUp?
      {
        if k < n {
          assert init[k] == outcomes[k];
          assert outcomes[k].0 != outcomes[n].0;
        }
      }
    }
  }

  /** With ascending indices, the failed indices are ascending. */
  lemma {:induction false} FailedAscending(outcomes: seq<(int, Outcome)>)
    requires forall j, k | 0 <= j < k < |outcomes| :: outcomes[j].0 < outcomes[k].0
    ensures forall i, j | 0 <= i < j < |FailedIndexes(outcomes)| :: FailedIndexes(outcomes)[i] < FailedIndexes(outcomes)[j]
    decreases |outcomes|
  {
    if outcomes != [] {
      var n := |outcomes| - 1;
      FailedAscending(outcomes[..n]);
      FailedBelowLast(outcomes);
    }
  }

  /** The submission loop: one cycle per index from `startIndex` to
      `endIndex`, each with its own initial prompt and script. */
  method SubmitAll(f: Formatting, oracle: Oracle, startIndex: int, endIndex: int) returns (futures: seq<(int, Trace)>)
    ensures |futures| == if endIndex >= startIndex then endIndex - startIndex + 1 else 0
    ensures forall k | 0 <= k < |futures| ::
              futures[k] == (startIndex + k, Run(f, startIndex + k, 0, oracle.initialPrompt(startIndex + k), oracle.rounds(startIndex + k)))
  {
    futures := [];
    var characterIndex := startIndex;
    while characterIndex <= endIndex
      invariant startIndex <= characterIndex
      invariant characterIndex <= endIndex + 1 || futures == []
      invariant |futures| == characterIndex - startIndex
      invariant forall k | 0 <= k < |futures| ::
                  futures[k] == (startIndex + k, Run(f, startIndex + k, 0, oracle.initialPrompt(startIndex + k), oracle.rounds(startIndex + k)))
    {
      var t := Cycle(f, characterIndex, oracle.initialPrompt(characterIndex), oracle.rounds(characterIndex));
      futures := futures + [(characterIndex, t)];
      characterIndex := characterIndex + 1;
    }
  }

  /** Each future's index with its cycle's outcome. */
  function OutcomesOf(futures: seq<(int, Trace)>): (r: seq<(int, Outcome)>)
    ensures |r| == |futures|
    ensures forall k | 0 <= k < |r| :: r[k] == (futures[k].0, futures[k].1.outcome)
  {
    seq(|futures|, k requires 0 <= k < |futures| => (futures[k].0, futures[k].1.outcome))
  }

  /** The collection loop: wait for each future in submission order, file
      it as a success or a failed index, and report progress after each. */
  method CollectResults(futures: seq<(int, Trace)>, totalTasks: int, hasCallback: bool)
    returns (successful: seq<Record>, failedIndexes: seq<int>, progress: seq<(int, int)>, finished: bool)
    ensures var outcomes := OutcomesOf(futures);
            var n := Collected(outcomes);
            && finished == (n == |outcomes|)
            && successful == AcceptedRecords(outcomes[..n])
            && failedIndexes == FailedIndexes(outcomes[..n])
            && |progress| == (if hasCallback then n else 0)
            && (forall k | 0 <= k < |progress| :: progress[k] == (k + 1, totalTasks))
  {
    ghost var outcomes := OutcomesOf(futures);
    successful, failedIndexes, progress := [], [], [];
    finished := true;
    var i := 0;
    while i < |futures|
      invariant 0 <= i <= |futures|
      invariant forall k | 0 <= k < i :: !outcomes[k].1.Stalled?
      invariant successful == AcceptedRecords(outcomes[..i])
      invariant failedIndexes == FailedIndexes(outcomes[..i])
      invariant |progress| == (if hasCallback then i else 0)
      invariant forall k | 0 <= k < |progress| :: progress[k] == (k + 1, totalTasks)
      invariant finished
    {
      var (index, t) := futures[i];
      if t.outcome.Stalled? {
        // future.result() never returns
        finished := false;
        break;
      }
      assert outcomes[..i + 1][..i] == outcomes[..i];
      if t.outcome.GaveUp? {
        failedIndexes := failedIndexes + [index];
      } else {
        successful := successful + [t.outcome.record];
      }
      if hasCallback {
        progress := progress + [(i + 1, totalTasks)];
      }
      i := i + 1;
    }
    CollectedIsFirstStalled(outcomes, i);
  }

  /** What `ThreadPoolExecutor` raises for a pool size below one. */
  const PoolSizeError := "ValueError: max_workers must be greater than 0"

  /** `ExtractionEvaluationService.run_cycle(progress_callback)`, with
      `maxWorkers` the `settings.max_workers` the pool is opened with. A pool
      size below one raises before any task is submitted, and the error
      leaves `run_cycle`. Otherwise: submit one cycle per index, then collect
      the futures in submission order into the successful records and the
      failed indexes, reporting progress `(i + 1) / total_tasks` (as the pair
      of numerator and denominator) after each. `finished` is false when a
      cycle never returns: collection blocks there. */
  method RunCycle(f: Formatting, oracle: Oracle, zeroIndexed: bool, totalCharacters: int, hasCallback: bool,
                  maxWorkers: int)
    returns (raised: Option<string>, successful: seq<Record>, failedIndexes: seq<int>,
             progress: seq<(int, int)>, finished: bool)
    ensures raised.Some? <==> maxWorkers <= 0
    ensures raised.Some? ==> raised.value == PoolSizeError && successful == [] && failedIndexes == []
                             && progress == [] && !finished
    ensures raised.None? ==>
            var outcomes := TaskOutcomes(f, oracle, Indices(zeroIndexed, totalCharacters));
            var n := Collected(outcomes);
            && finished == (n == |outcomes|)
            && successful == AcceptedRecords(outcomes[..n])
            && failedIndexes == FailedIndexes(outcomes[..n])
            && |progress| == (if hasCallback then n else 0)
            && (forall k | 0 <= k < |progress| :: progress[k] == (k + 1, |outcomes|))
  {
    if maxWorkers <= 0 {
      return Some(PoolSizeError), [], [], [], false;
    }
    raised := None;
    var startIndex := if zeroIndexed then 0 else 1;
    var endIndex := totalCharacters;
    var totalTasks := endIndex - startIndex + 1;
    var futures := SubmitAll(f, oracle, startIndex, endIndex);
    assert OutcomesOf(futures) == TaskOutcomes(f, oracle, Indices(zeroIndexed, totalCharacters));
    successful, failedIndexes, progress, finished := CollectResults(futures, totalTasks, hasCallback);
  }

  /** When `run_cycle` finishes, every character index is filed exactly
      once: the successful records and the failed indexes together number
      the indices, an index is failed exactly when its cycle gave up, and
      the failed indexes are ascending. */
  lemma FinishedRunPartitionsIndices(f: Formatting, oracle: Oracle, zeroIndexed: bool, totalCharacters: int)
    requires var outcomes := TaskOutcomes(f, oracle, Indices(zeroIndexed, totalCharacters));
             Collected(outcomes) == |outcomes|
    ensures var indices := Indices(zeroIndexed, totalCharacters);
            var outcomes := TaskOutcomes(f, oracle, indices);
            var done := outcomes[..Collected(outcomes)];
            && |AcceptedRecords(done)| + |FailedIndexes(done)| == |indices|
            && (forall i | i in indices :: i in FailedIndexes(done) <==> TaskOutcome(f, oracle, i).GaveUp?)
            && (forall j, k | 0 <= j < k < |FailedIndexes(done)| :: FailedIndexes(done)[j] < FailedIndexes(done)[k])
  {
    var indices := Indices(zeroIndexed, totalCharacters);
    var outcomes := TaskOutcomes(f, oracle, indices);
    assert outcomes[..Collected(outcomes)] == outcomes;
    PartitionIsExact(outcomes);
    forall i | i in indices
      ensures i in FailedIndexes(outcomes) <==> TaskOutcome(f, oracle, i).GaveUp?
    {
      var k :| 0 <= k < |indices| && indices[k] == i;
      assert outcomes[k] == (i, TaskOutcome(f, oracle, i));
    }
  }

  lemma CollectedIsFirstStalled(outcomes: seq<(int, Outcome)>, i: nat)
    requires i <= |outcomes|
    requires forall k | 0 <= k < i :: !outcomes[k].1.Stalled?
    requires i < |outcomes| ==> outcomes[i].1.Stalled?
    ensures Collected(outcomes) == i
  {
  }
}
