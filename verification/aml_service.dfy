/** The draft AML check: a tiered risk score from the fiat amount alone,
    mapped to a level and a manual-review flag. The logger call and the
    asynchronous wrapper are not modelled. */
module AmlService {

  datatype AmlCheckInput = AmlCheckInput(fiatAmount: real, fiatCurrency: string, cryptoCurrency: string)

  datatype RiskLevel = Low | Medium | High

  datatype AmlCheckResult = AmlCheckResult(riskScore: int, level: RiskLevel, flagged: bool)

  /** Amount tiers: 80 from 10 000, 40 from 3 000, 5 below (zero and
      negative amounts included). */
  function AmountRiskScore(fiatAmount: real): (score: int)
    ensures 0 <= score <= 100
  {
    if fiatAmount >= 10000.0 then 80
    else if fiatAmount >= 3000.0 then 40
    else 5
  }

  /** Level thresholds on the score: 70 and 30. */
  function LevelFor(score: int): (level: RiskLevel)
  {
    if score >= 70 then High else if score >= 30 then Medium else Low
  }

  /** `checkInvoice`: total, and a function of `fiatAmount` only. */
  function CheckInvoice(input: AmlCheckInput): (r: AmlCheckResult)
    ensures 0 <= r.riskScore <= 100
    ensures r.riskScore == 80 <==> input.fiatAmount >= 10000.0
    ensures r.riskScore == 40 <==> 3000.0 <= input.fiatAmount < 10000.0
    ensures r.riskScore == 5 <==> input.fiatAmount < 3000.0
    ensures r.level == High <==> input.fiatAmount >= 10000.0
    ensures r.level == Medium <==> 3000.0 <= input.fiatAmount < 10000.0
    ensures r.level == Low <==> input.fiatAmount < 3000.0
    ensures r.flagged <==> r.level != Low
    ensures r.flagged <==> input.fiatAmount >= 3000.0
  {
    var score := AmountRiskScore(input.fiatAmount);
    var level := LevelFor(score);
    AmlCheckResult(score, level, level != Low)
  }

  /** The level thresholds, for any score. */
  lemma LevelThresholds(score: int)
    ensures LevelFor(score) == High <==> score >= 70
    ensures LevelFor(score) == Medium <==> 30 <= score < 70
    ensures LevelFor(score) == Low <==> score < 30
  {
  }

  /** A larger amount never lowers the score or the level. */
  lemma ScoreMonotone(x: AmlCheckInput, y: AmlCheckInput)
    requires x.fiatAmount <= y.fiatAmount
    ensures CheckInvoice(x).riskScore <= CheckInvoice(y).riskScore
    ensures LevelRank(CheckInvoice(x).level) <= LevelRank(CheckInvoice(y).level)
  {
  }

  function LevelRank(level: RiskLevel): nat {
    match level
    case Low => 0
    case Medium => 1
    case High => 2
  }

  /** The currencies are only logged: inputs that agree on the amount get the same verdict. */
  lemma CurrenciesIgnored(x: AmlCheckInput, y: AmlCheckInput)
    requires x.fiatAmount == y.fiatAmount
    ensures CheckInvoice(x) == CheckInvoice(y)
  {
  }
}
