/** The pure helpers of the home page: the user-facing error text, the
    temperature-range label shown beside the slider, the table of ranges,
    tomorrow's representative temperature, and the guards that decide whether
    an outfit is requested at all. */
module Page {
  import opened Text
  import opened OutfitFilter

  /** A value that is `null` until the weather has been fetched. */
  datatype Option<T> = None | Some(value: T)

  /** Shown when the text-generation service rejects a call for rate limiting
      (written in two pieces only so that the verifier can index into it). */
  const BusyMessage: string := "El servicio está ocupado." + " Por favor intente nuevamente en un momento."

  /** The fragment of an error message that signals rate limiting. */
  const RateLimitMarker: string := "429 Too Many Requests"

  /** `handleApiError`: the busy message for a rate-limited call, otherwise the
      error's own message behind `"Error: "`. */
  function HandleApiError(message: string): (r: string)
    ensures r == BusyMessage <==> Contains(message, RateLimitMarker)
    ensures r != BusyMessage ==> r == "Error: " + message
  {
    if Contains(message, RateLimitMarker) then BusyMessage
    else
      assert BusyMessage[1] == 'l';
      assert ("Error: " + message)[1] == "Error: "[1] == 'r';
      "Error: " + message
  }

  /** The `data-temp-range` attribute: empty while the temperature is unknown. */
  function TempRangeLabel(temperature: Option<real>): string
  {
    if temperature.Some? then
      (if temperature.value <= 10.0 then "frio" else if temperature.value <= 25.0 then "templado" else "calor")
    else ""
  }

  /** The label the page uses for a band. */
  function LabelOf(b: Band): string
  {
    match b
    case Cold => "frio"
    case Mild => "templado"
    case Hot => "calor"
  }

  /** The page's label names the same band the catalog filter uses for that
      temperature; every known temperature gets exactly one non-empty label and
      an unknown one gets the empty label. */
  lemma LabelAgreesWithFilterBand(temperature: Option<real>)
    ensures temperature.Some? ==> TempRangeLabel(temperature) == LabelOf(Classify(temperature.value))
    ensures temperature.Some? ==> TempRangeLabel(temperature) in {"frio", "templado", "calor"}
    ensures TempRangeLabel(temperature) == "" <==> temperature.None?
  {
  }

  /** An inclusive range of whole degrees. */
  datatype Range = Range(min: int, max: int)

  predicate InRange(t: int, r: Range)
  {
    r.min <= t <= r.max
  }

  /** `temperatureRanges`, keyed by range label. */
  const TemperatureRanges: map<string, Range> :=
    map["frio" := Range(-10, 10), "templado" := Range(11, 25), "calor" := Range(26, 40)]

  /** For a whole-degree temperature from -10 to 40, the page's label is a key of the
      range table whose range holds that temperature, and no other range holds it. */
  lemma LabelNamesItsRange(t: int)
    requires -10 <= t <= 40
    ensures TempRangeLabel(Some(t as real)) in TemperatureRanges
    ensures InRange(t, TemperatureRanges[TempRangeLabel(Some(t as real))])
    ensures forall name :: name in TemperatureRanges && InRange(t, TemperatureRanges[name]) ==>
      name == TempRangeLabel(Some(t as real))
  {
  }

  /** Some range of the table holds `t`. */
  ghost predicate Covered(t: int)
  {
    exists name :: name in TemperatureRanges && InRange(t, TemperatureRanges[name])
  }

  /** The table's ranges are pairwise disjoint and cover -10..40 without a gap. */
  lemma RangesPartitionScale()
    ensures forall a, b, t ::
      (a in TemperatureRanges && b in TemperatureRanges
       && InRange(t, TemperatureRanges[a]) && InRange(t, TemperatureRanges[b])) ==> a == b
    ensures forall t :: -10 <= t <= 40 ==> Covered(t)
  {
    forall t | -10 <= t <= 40 ensures Covered(t) {
      LabelNamesItsRange(t);
    }
  }

  /** Tomorrow's representative temperature: the mean of the forecast maximum and
      minimum. It lies between the two, at equal distance from each. */
  function TomorrowAverage(nextDayMax: real, nextDayMin: real): (r: real)
    ensures (if nextDayMax <= nextDayMin then nextDayMax else nextDayMin) <= r
    ensures r <= (if nextDayMax <= nextDayMin then nextDayMin else nextDayMax)
    ensures r - nextDayMin == nextDayMax - r
    ensures nextDayMax == nextDayMin ==> r == nextDayMax
  {
    (nextDayMax + nextDayMin) / 2.0
  }

  /** The guard of `generateOutfit`: with no temperature nothing is requested (and so
      no outfit, explanation or error is set); otherwise the flow is asked for the
      current temperature and the selected style. */
  function TodayRequest(temperature: Option<real>, selectedStyle: string): (r: Option<GenerateOutfitInput>)
    ensures r.None? <==> temperature.None?
    ensures r.Some? ==> r.value.temperatureCelsius == temperature.value && r.value.style == selectedStyle
  {
    if temperature.None? then None else Some(GenerateOutfitInput(temperature.value, selectedStyle))
  }

  /** The guard of `generateTomorrowOutfit`: nothing is requested unless both forecast
      values are known; otherwise the flow is asked for their mean and the selected style. */
  function TomorrowRequest(nextDayMax: Option<real>, nextDayMin: Option<real>, selectedStyle: string): (r: Option<GenerateOutfitInput>)
    ensures r.None? <==> nextDayMax.None? || nextDayMin.None?
    ensures r.Some? ==> r.value.style == selectedStyle
    ensures r.Some? ==> r.value.temperatureCelsius - nextDayMin.value == nextDayMax.value - r.value.temperatureCelsius
  {
    if nextDayMax.None? || nextDayMin.None? then None
    else Some(GenerateOutfitInput(TomorrowAverage(nextDayMax.value, nextDayMin.value), selectedStyle))
  }

  /** Tomorrow's band lies between the bands of the two forecast values: never
      colder than the colder one's, never warmer than the warmer one's. */
  lemma TomorrowBandBetween(nextDayMax: real, nextDayMin: real, selectedStyle: string)
    ensures var r := TomorrowRequest(Some(nextDayMax), Some(nextDayMin), selectedStyle);
      var lo := if nextDayMin <= nextDayMax then nextDayMin else nextDayMax;
      var hi := if nextDayMin <= nextDayMax then nextDayMax else nextDayMin;
      r.Some?
      && Rank(Classify(lo)) <= Rank(Classify(r.value.temperatureCelsius)) <= Rank(Classify(hi))
  {
    var avg := TomorrowAverage(nextDayMax, nextDayMin);
    var lo := if nextDayMin <= nextDayMax then nextDayMin else nextDayMax;
    var hi := if nextDayMin <= nextDayMax then nextDayMax else nextDayMin;
    ClassifyMonotone(lo, avg);
    ClassifyMonotone(avg, hi);
  }
}
