/** Temperature classification of `determineColorsForDisplay`: an integer
    temperature, a unit system and the role of the reading (indoor or outdoor)
    select one of three buckets through fixed strict thresholds. */
module Classifier {

  datatype Role = Indoor | Outdoor

  datatype Bucket = Hot | Neutral | Cold

  /** The program takes the imperial thresholds only for the exact unit name
      "imperial"; every other configured unit name takes the metric ones. */
  predicate IsImperial(units: string) {
    units == "imperial"
  }

  /** The strict thresholds of one role in one unit system: a temperature above
      `high` is hot, one below `low` is cold, the closed range between is neutral. */
  datatype Band = Band(high: int, low: int)

  function BandFor(units: string, role: Role): (b: Band)
    ensures b.low < b.high
  {
    if IsImperial(units) then
      match role
      case Outdoor => Band(89, 35)
      case Indoor => Band(83, 50)
    else
      match role
      case Outdoor => Band(31, 2)
      case Indoor => Band(26, -2)
  }

  function Classify(temp: int, units: string, role: Role): (r: Bucket)
    ensures r == Hot <==> temp > BandFor(units, role).high
    ensures r == Cold <==> temp < BandFor(units, role).low
    ensures r == Neutral <==> BandFor(units, role).low <= temp <= BandFor(units, role).high
  {
    var band := BandFor(units, role);
    if temp > band.high then Hot
    else if temp < band.low then Cold
    else Neutral
  }

  /** Position of a bucket on the temperature scale, coldest first. */
  function Rank(b: Bucket): nat {
    match b
    case Cold => 0
    case Neutral => 1
    case Hot => 2
  }

  /** The threshold table, stated with its literal numbers for every role and
      both unit systems. */
  lemma ThresholdTable(temp: int, units: string)
    ensures IsImperial(units) ==>
              && (Classify(temp, units, Outdoor) == Hot <==> temp > 89)
              && (Classify(temp, units, Outdoor) == Cold <==> temp < 35)
              && (Classify(temp, units, Indoor) == Hot <==> temp > 83)
              && (Classify(temp, units, Indoor) == Cold <==> temp < 50)
    ensures !IsImperial(units) ==>
              && (Classify(temp, units, Outdoor) == Hot <==> temp > 31)
              && (Classify(temp, units, Outdoor) == Cold <==> temp < 2)
              && (Classify(temp, units, Indoor) == Hot <==> temp > 26)
              && (Classify(temp, units, Indoor) == Cold <==> temp < -2)
  {
  }

  /** The thresholds are strict: the threshold values themselves are neutral
      and one degree past them changes the bucket. */
  lemma ImperialOutdoorBoundaries()
    ensures Classify(89, "imperial", Outdoor) == Neutral
    ensures Classify(90, "imperial", Outdoor) == Hot
    ensures Classify(35, "imperial", Outdoor) == Neutral
    ensures Classify(34, "imperial", Outdoor) == Cold
  {
  }

  /** Every unit name other than "imperial" classifies exactly as "metric" does. */
  lemma OtherUnitsAreMetric(temp: int, units: string, role: Role)
    requires units != "imperial"
    ensures Classify(temp, units, role) == Classify(temp, "metric", role)
  {
  }

  /** A warmer reading never lands in a colder bucket. */
  lemma ClassifyMonotone(t1: int, t2: int, units: string, role: Role)
    requires t1 <= t2
    ensures Rank(Classify(t1, units, role)) <= Rank(Classify(t2, units, role))
  {
  }

  /** Between a cold reading and a hot one there is always a neutral reading:
      the classification cannot jump from cold to hot. */
  lemma NoJumpFromColdToHot(t1: int, t2: int, units: string, role: Role)
    requires Classify(t1, units, role) == Cold
    requires Classify(t2, units, role) == Hot
    ensures t1 < t2
    ensures exists t :: t1 < t < t2 && Classify(t, units, role) == Neutral
  {
    var band := BandFor(units, role);
    assert t1 < band.low <= band.high < t2;
    assert Classify(band.low, units, role) == Neutral;
  }
}
