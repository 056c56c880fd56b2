/** The trending score `calculateScore` (server.js:49-61). The clock reading
    `Date.now()` becomes the explicit parameter `now`; times are integer
    milliseconds since the epoch. The age in hours is computed by exact real
    division, as the source's floating-point division would be without rounding. */
module Scorer {
  import opened Optional

  const MillisPerHour: int := 1000 * 60 * 60
  const PointsPerRepetition: int := 6

  /** `hoursOld`: the age of a topic, in hours, at time `now`. */
  function HoursOld(createdAt: int, now: int): real {
    (now - createdAt) as real / (MillisPerHour as real)
  }

  /** The recency bonus: 10 within the first hour, 5 up to three hours, else 0.
      A creation time in the future counts as fresh. */
  function AgeBonus(hoursOld: real): (b: int)
    ensures b == 0 || b == 5 || b == 10
  {
    if hoursOld < 1.0 then 10 else if hoursOld < 3.0 then 5 else 0
  }

  /** The category bonus: the source compares with `===`, so an absent category
      earns nothing. */
  function CategoryBonus(category: Option<string>): (b: int)
    ensures b == 0 || b == 2 || b == 3
    ensures b == 3 <==> category == Some("Cricket")
    ensures b == 2 <==> category == Some("Politics")
  {
    if category == Some("Cricket") then 3
    else if category == Some("Politics") then 2
    else 0
  }

  function Score(count: int, category: Option<string>, createdAt: int, now: int): (r: int)
    ensures PointsPerRepetition * count <= r <= PointsPerRepetition * count + 13
  {
    var base := count * PointsPerRepetition;
    base + AgeBonus(HoursOld(createdAt, now)) + CategoryBonus(category)
  }

  /** The age test on hours is the same as a test on whole milliseconds:
      under an hour means under 3,600,000 ms, under three hours means under
      10,800,000 ms. */
  lemma AgeBonusInMillis(createdAt: int, now: int)
    ensures AgeBonus(HoursOld(createdAt, now))
         == if now - createdAt < 3600000 then 10
            else if now - createdAt < 10800000 then 5
            else 0
  {
    var age := now - createdAt;
    var h := HoursOld(createdAt, now);
    assert h * 3600000.0 == age as real;
    if age < 3600000 {
      assert h < 1.0;
    } else {
      assert h >= 1.0;
      if age < 10800000 {
        assert h < 3.0;
      } else {
        assert h >= 3.0;
      }
    }
  }

  /** The score as a closed formula over integers. */
  lemma ScoreFormula(count: int, category: Option<string>, createdAt: int, now: int)
    ensures Score(count, category, createdAt, now)
         == 6 * count
          + (if now - createdAt < 3600000 then 10
             else if now - createdAt < 10800000 then 5
             else 0)
          + (if category == Some("Cricket") then 3
             else if category == Some("Politics") then 2
             else 0)
  {
    AgeBonusInMillis(createdAt, now);
  }

  /** One more repetition is worth exactly six points. */
  lemma ScoreCountStep(count: int, category: Option<string>, createdAt: int, now: int)
    ensures Score(count + 1, category, createdAt, now) == Score(count, category, createdAt, now) + 6
  {
  }

  /** With everything else fixed, a later clock reading never raises the score. */
  lemma ScoreDecaysWithTime(count: int, category: Option<string>, createdAt: int, now: int, later: int)
    requires now <= later
    ensures Score(count, category, createdAt, later) <= Score(count, category, createdAt, now)
  {
    AgeBonusInMillis(createdAt, now);
    AgeBonusInMillis(createdAt, later);
  }

  /** Scoring is decided by the age alone, not by the two clock readings. */
  lemma ScoreDependsOnAge(count: int, category: Option<string>, createdAt: int, now: int, shift: int)
    ensures Score(count, category, createdAt + shift, now + shift) == Score(count, category, createdAt, now)
  {
    AgeBonusInMillis(createdAt, now);
    AgeBonusInMillis(createdAt + shift, now + shift);
  }

  /** The score when the creation time cannot be read: in JavaScript
      `Date.now() - undefined` is NaN, both age comparisons are false, and no
      age bonus is added. */
  function ScoreOfUnknownAge(count: int, category: Option<string>): (r: int)
    ensures PointsPerRepetition * count <= r <= PointsPerRepetition * count + 3
  {
    count * PointsPerRepetition + CategoryBonus(category)
  }

  /** A row of unknown age scores like a row three hours old or older, and
      ten or five points below a row under one or under three hours old. */
  lemma UnknownAgeScoresAsStale(count: int, category: Option<string>, createdAt: int, now: int)
    ensures Score(count, category, createdAt, now) - ScoreOfUnknownAge(count, category)
         == if now - createdAt < 3600000 then 10
            else if now - createdAt < 10800000 then 5
            else 0
  {
    AgeBonusInMillis(createdAt, now);
  }
}
