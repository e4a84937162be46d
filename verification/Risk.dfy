/** Verdicts: the severity of a signal and the fold of many signals into one level. */
module Risk {

  /** From least to most severe, in declaration order. */
  datatype RiskLevel = Safe | Unknown | Suspicious | HighRisk {
    function Rank(): nat {
      match this
      case Safe => 0
      case Unknown => 1
      case Suspicious => 2
      case HighRisk => 3
    }

    function Max(other: RiskLevel): RiskLevel {
      if Rank() <= other.Rank() then other else this
    }
  }

  datatype RiskSignal =
    | Typosquat(domain: string, looksLike: string, distance: nat)
    | RiskyLaunchContext(parentProcess: string)
    | NotInSafeCache
    | EncryptedClientHello
    | NoServerName
    | MalformedClientHello
  {
    function Severity(): RiskLevel {
      match this
      case Typosquat(_, _, _) => Suspicious
      case RiskyLaunchContext(_) => HighRisk
      case _ => Unknown
    }
  }

  datatype Verdict = Verdict(level: RiskLevel, signals: seq<RiskSignal>) {
    predicate AllowsNativePath() { level == Safe }
  }

  const SAFE_VERDICT := Verdict(Safe, [])

  /** The worst severity, if there is a signal at all. */
  function Worst(signals: seq<RiskSignal>): RiskLevel
    requires signals != []
  {
    if |signals| == 1 then signals[0].Severity()
    else signals[0].Severity().Max(Worst(signals[1..]))
  }

  function Evaluate(signals: seq<RiskSignal>): Verdict {
    Verdict(if signals == [] then Unknown else Worst(signals), signals)
  }

  // ── The fold ─────────────────────────────────────────────────────────────

  /** The level is the least one at or above Unknown that no signal exceeds. */
  lemma {:induction false} EvaluateIff(signals: seq<RiskSignal>, level: RiskLevel)
    ensures Evaluate(signals).level == level <==>
            && (forall s <- signals :: s.Severity().Rank() <= level.Rank())
            && (level == Unknown || exists s <- signals :: s.Severity() == level)
            && level != Safe
  {
    if signals != [] {
      var later := signals[1..];
      assert signals == [signals[0]] + later;
      EvaluateIff(later, Evaluate(later).level);
      assert Evaluate(signals).level == signals[0].Severity().Max(Evaluate(later).level);
    }
  }

  lemma {:induction false} EvaluateConcat(s: seq<RiskSignal>, t: seq<RiskSignal>)
    ensures Evaluate(s + t).level == Evaluate(s).level.Max(Evaluate(t).level)
  {
    EvaluateIff(s, Evaluate(s).level);
    EvaluateIff(t, Evaluate(t).level);
    EvaluateIff(s + t, Evaluate(s).level.Max(Evaluate(t).level));
  }

  /** The order of the evidence does not matter. */
  lemma EvaluatePermuted(s: seq<RiskSignal>, t: seq<RiskSignal>)
    requires multiset(s) == multiset(t)
    ensures Evaluate(s).level == Evaluate(t).level
  {
    EvaluateIff(s, Evaluate(s).level);
    EvaluateIff(t, Evaluate(s).level);
    assert forall x :: x in s <==> x in multiset(s);
    assert forall x :: x in t <==> x in multiset(t);
  }

  /** No evidence, however little, is ever Safe. */
  lemma EvaluateNeverSafe(signals: seq<RiskSignal>)
    ensures !Evaluate(signals).AllowsNativePath()
  {
    EvaluateIff(signals, Evaluate(signals).level);
  }
}
