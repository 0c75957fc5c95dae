/** The threshold classifier of categories.py: a client's average hourly
    consumption and coefficient of variation become a consumption level, a
    variability level and a category label. */
module Categories {
  import opened Wrappers
  import opened Stats

  datatype Level = Low | Medium | High

  /** The result dictionary of `process_client` minus scno and name. */
  datatype Category = Category(avg: real, cv: real, consumptionLevel: Level, variabilityLevel: Level, finalCategory: string)

  /** The order of the levels, for comparisons. */
  function LevelRank(l: Level): int
  {
    match l
    case Low => 0
    case Medium => 1
    case High => 2
  }

  function LevelName(l: Level): (s: string)
    ensures |s| > 0
  {
    match l
    case Low => "Low"
    case Medium => "Medium"
    case High => "High"
  }

  /** `get_consumption_level`. */
  function ConsumptionLevel(avg: real): (l: Level)
    ensures l == High <==> avg >= 200.0
    ensures l == Medium <==> 50.0 <= avg < 200.0
    ensures l == Low <==> avg < 50.0
  {
    if avg >= 200.0 then High else if avg >= 50.0 then Medium else Low
  }

  /** `get_variability_level`: never `Medium`. */
  function VariabilityLevel(cv: real): (l: Level)
    ensures l == High <==> cv >= 40.0
    ensures l != Medium
  {
    if cv >= 40.0 then High else Low
  }

  const ConsumerInfix: string := " Consumer — "
  const VariabilitySuffix: string := " Variability"

  /** `final_cat`: "<consumption level> Consumer — <variability level>
      Variability". The label determines both levels: decoding it gives
      them back. */
  function FinalCategory(consumption: Level, variability: Level): (s: string)
    ensures CategoryLevels(s) == Some((consumption, variability))
  {
    var s := LevelName(consumption) + ConsumerInfix + LevelName(variability) + VariabilitySuffix;
    var at := |LevelName(consumption)| + |ConsumerInfix|;
    assert s[0] == LevelName(consumption)[0];
    assert s[at] == LevelName(variability)[0];
    s
  }

  /** The level a level name starts with. */
  function LevelOfInitial(c: char): Option<Level>
  {
    if c == 'L' then Some(Low) else if c == 'M' then Some(Medium) else if c == 'H' then Some(High) else None
  }

  /** Reads the two levels back out of a category label. */
  function CategoryLevels(s: string): Option<(Level, Level)>
  {
    if |s| == 0 then None
    else
      match LevelOfInitial(s[0])
      case None => None
      case Some(cons) =>
        var at := |LevelName(cons)| + |ConsumerInfix|;
        if at < |s| then
          match LevelOfInitial(s[at])
          case None => None
          case Some(variability) => Some((cons, variability))
        else None
  }

  /** `process_client`'s statistics block: `None` for no rows; the sample
      standard deviation only with more than one row; the CV only with a
      non-zero average. */
  function Categorise(values: seq<real>, est: Estimators): (r: Option<Category>)
    ensures r.None? <==> values == []
  {
    if values == [] then None
    else
      var avg := Mean(values);
      var sd := if |values| > 1 then est.std(values) else 0.0;
      var cv := if avg != 0.0 then sd / avg * 100.0 else 0.0;
      var cons := ConsumptionLevel(avg);
      var variability := VariabilityLevel(cv);
      Some(Category(avg, cv, cons, variability, FinalCategory(cons, variability)))
  }

  /** A larger average never yields a lower consumption level. */
  lemma ConsumptionLevelMonotone(a: real, b: real)
    requires a <= b
    ensures LevelRank(ConsumptionLevel(a)) <= LevelRank(ConsumptionLevel(b))
  {
  }

  /** A larger CV never yields a lower variability level. */
  lemma VariabilityLevelMonotone(a: real, b: real)
    requires a <= b
    ensures LevelRank(VariabilityLevel(a)) <= LevelRank(VariabilityLevel(b))
  {
  }

  /** Two clients share a label exactly when they share both levels. */
  lemma FinalCategoryInjective(a: Level, b: Level, c: Level, d: Level)
    ensures FinalCategory(a, b) == FinalCategory(c, d) <==> a == c && b == d
  {
    var ab, cd := FinalCategory(a, b), FinalCategory(c, d);
    assert ab == cd ==> CategoryLevels(ab) == CategoryLevels(cd);
  }

  /** A single row has no spread: CV 0 and low variability. */
  lemma SingleRowLowVariability(v: real, est: Estimators)
    ensures Categorise([v], est).value.cv == 0.0
    ensures Categorise([v], est).value.variabilityLevel == Low
  {
  }

  /** A zero average gives CV 0 rather than a division by zero. */
  lemma ZeroAverageZeroCv(values: seq<real>, est: Estimators)
    requires values != [] && Mean(values) == 0.0
    ensures Categorise(values, est).value.cv == 0.0
  {
  }

  /** For non-negative readings the CV is non-negative, and zero exactly when
      every reading is the same or the average is zero. */
  lemma CvRange(values: seq<real>, est: Estimators)
    requires IsSampleStd(est.std) && values != [] && AllNonNegative(values)
    ensures var cv := Categorise(values, est).value.cv;
      cv >= 0.0 && (cv == 0.0 <==> Constant(values) || Mean(values) == 0.0)
  {
    var avg := Mean(values);
    MeanZeroIff(values);
    var sd := if |values| > 1 then est.std(values) else 0.0;
    if avg != 0.0 {
      DivZeroIff(sd, avg);
      if |values| <= 1 {
        assert Constant(values);
      }
    }
  }
}
