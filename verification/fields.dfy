/** Field validators: the title year (serializer and model), the review
    score, and the custom MaxValueValidator of users/serializers.py. */
module Fields {
  import opened Outcome
  import opened Store

  /** The year floor of the older schema in yamdb/models.py. */
  const LegacyStartYear := 1455

  /** Django's MinValueValidator and MaxValueValidator together: both
      limits are inclusive. */
  function WithinLimits(value: int, low: int, high: int): (r: Result<int>)
    ensures r.Ok? <==> low <= value <= high
    ensures r.Ok? ==> r.value == value
    ensures value < low ==> r == Fail(Invalid(BelowMin))
    ensures low <= value && high < value ==> r == Fail(Invalid(AboveMax))
  {
    if value < low then Fail(Invalid(BelowMin))
    else if value > high then Fail(Invalid(AboveMax))
    else Ok(value)
  }

  /** `TitleCreateSerializer.validate_year`, the clock's year passed in. */
  function ValidateYear(year: int, currentYear: int): (r: Result<int>)
    ensures r.Ok? <==> StartYear <= year <= currentYear
    ensures r.Ok? ==> r.value == year
    ensures year < StartYear ==> r == Fail(Invalid(BelowMin))
    ensures StartYear <= year && currentYear < year ==> r == Fail(Invalid(AboveMax))
  {
    if year < StartYear then Fail(Invalid(BelowMin))
    else if year > currentYear then Fail(Invalid(AboveMax))
    else Ok(year)
  }

  /** The score field of ReviewSerializer (and the validators of the score
      column): from MinScore to MaxScore inclusive. */
  function ValidateScore(score: int): (r: Result<int>)
    ensures r.Ok? <==> 1 <= score <= 10
    ensures r.Ok? ==> r.value == score
  {
    WithinLimits(score, MinScore, MaxScore)
  }

  /** The validators on the year column of Title in reviews/models.py; the
      upper limit is the year read when the module was imported. */
  function ModelYearCheck(year: int, importYear: int): (r: Result<int>)
    ensures r.Ok? <==> 1 <= year <= importYear
  {
    WithinLimits(year, StartYear, importYear)
  }

  /** The validators on the year column of Title in yamdb/models.py. */
  function LegacyModelYearCheck(year: int, importYear: int): (r: Result<int>)
    ensures r.Ok? <==> 1455 <= year <= importYear
    ensures year < 1455 ==> r == Fail(Invalid(BelowMin))
  {
    WithinLimits(year, LegacyStartYear, importYear)
  }

  /** The year check TitleCreateSerializer applies as written: the model
      serializer copies the column's limits onto its year field, whose
      validators run before `validate_year`. */
  function AcceptedYearAsWritten(year: int, importYear: int, currentYear: int): (r: Result<int>)
    ensures r.Ok? <==> StartYear <= year && year <= importYear && year <= currentYear
  {
    match ModelYearCheck(year, importYear)
    case Fail(f) => Fail(f)
    case Ok(_) => ValidateYear(year, currentYear)
  }

  /** Once the calendar year has moved past the import year, the current
      year is refused as written although `validate_year` accepts it. */
  lemma FrozenYearRejectsCurrentYear(importYear: int)
    requires importYear >= StartYear
    ensures AcceptedYearAsWritten(importYear + 1, importYear, importYear + 1) == Fail(Invalid(AboveMax))
    ensures ValidateYear(importYear + 1, importYear + 1) == Ok(importYear + 1)
  {
  }

  /** A Python value as the custom validator receives it. */
  datatype PyValue = PyInt(i: int) | PyStr(s: string)

  /** The custom `MaxValueValidator(max_value)` of users/serializers.py. On an
      integer it raises exactly when the value exceeds the limit, so the
      limit itself passes. On a string, `value > self.max_value` compares a
      str with an int, which Python 3 answers with a TypeError. */
  function CheckMaxValue(maxValue: int, v: PyValue): (r: Result<PyValue>)
    ensures v.PyInt? ==> (r.Ok? <==> v.i <= maxValue)
    ensures v.PyInt? && r.Fail? ==> r.failure == Invalid(AboveMax)
    ensures v.PyStr? ==> r == Fail(Crashed)
    ensures r.Ok? ==> r.value == v
  {
    match v
    case PyInt(i) => if i > maxValue then Fail(Invalid(AboveMax)) else Ok(v)
    case PyStr(_) => Fail(Crashed)
  }

  /** The older UserSerializer attaches `MaxValueValidator(150)` to the
      `last_name` string field: every non-blank last name supplied raises.
      A blank one is refused by the field's own blank check before any
      validator runs. */
  lemma LegacyLastNameCheckRaises(lastName: string)
    requires lastName != ""
    ensures CheckMaxValue(150, PyStr(lastName)) == Fail(Crashed)
  {
  }

  /** The length limit the validator evidently stands for, as the current
      UserSerializer states it with `max_length=150`. */
  function CheckLastName(lastName: string): (r: Result<string>)
    ensures r.Ok? <==> 0 < |lastName| <= 150
    ensures r.Ok? ==> r.value == lastName
  {
    if lastName == "" then Fail(Invalid(Blank))
    else if |lastName| > 150 then Fail(Invalid(TooLong))
    else Ok(lastName)
  }

  /** A text column's serializer field: blanks are refused and at most 200
      characters are allowed. `required` is false on a partial update, where
      the field may be absent. */
  function CheckText(text: Option<string>, required: bool): (r: Result<Option<string>>)
    ensures r.Ok? <==> (text.None? ==> !required) && (text.Some? ==> 0 < |text.value| <= MaxTextLength)
    ensures r.Ok? ==> r.value == text
    ensures text.None? && required ==> r == Fail(Invalid(Missing))
  {
    match text
    case None => if required then Fail(Invalid(Missing)) else Ok(None)
    case Some(v) =>
      if v == "" then Fail(Invalid(Blank))
      else if |v| > MaxTextLength then Fail(Invalid(TooLong))
      else Ok(text)
  }

  /** The score field of ReviewSerializer, possibly absent on a partial
      update. */
  function CheckScore(score: Option<int>, required: bool): (r: Result<Option<int>>)
    ensures r.Ok? <==> (score.None? ==> !required) && (score.Some? ==> MinScore <= score.value <= MaxScore)
    ensures r.Ok? ==> r.value == score
  {
    match score
    case None => if required then Fail(Invalid(Missing)) else Ok(None)
    case Some(v) => var checked :- ValidateScore(v); Ok(Some(checked))
  }
}
