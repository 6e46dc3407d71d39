/** The conversion computed by the calculator page's submit handler.

    The page does not call the server: it converts with a fixed table of unit
    factors and a fixed table of yields per item and process. Unit and item
    ids are the strings the page's select boxes hold ("1", "2", ...), an empty
    select is the empty string, and an empty amount field is `None`. */
module ConversionCalculator {
  import opened Wrappers

  /** The form fields `handleSubmit` reads. */
  datatype Form = Form(
    selectedItem: string,
    fromAmount: Option<real>,
    fromUnit: string,
    toUnit: string,
    includeYield: bool,
    yieldType: string)

  /** The result record the handler stores (without the unit codes it looks up for display). */
  datatype Calculation = Calculation(
    originalValue: real,
    convertedValue: real,
    conversionFactor: real,
    yieldFactor: real,
    yieldFactorApplied: bool)

  const RequiredFieldsMessage: string := "Please fill in all required fields"

  /** The price the results panel shows per source unit. */
  const CostPerFromUnit: real := 0.60

  predicate MissingField(form: Form) {
    form.selectedItem == "" || form.fromAmount.None? || form.fromUnit == "" || form.toUnit == ""
  }

  /** The page's unit factors: pound (1) to ounce (2) and pound to cup (5) and back; 1 otherwise. */
  function MockConversionFactor(fromUnit: string, toUnit: string): (f: real)
    ensures f > 0.0
  {
    if fromUnit == "1" && toUnit == "2" then 16.0
    else if fromUnit == "2" && toUnit == "1" then 0.0625
    else if fromUnit == "1" && toUnit == "5" then 2.0
    else if fromUnit == "5" && toUnit == "1" then 0.5
    else 1.0
  }

  /** Only the four listed pairs convert by something other than 1; same-unit and unknown pairs do not. */
  lemma MockFactorIsOneOffTable(fromUnit: string, toUnit: string)
    ensures MockConversionFactor(fromUnit, toUnit) != 1.0 <==>
      (fromUnit, toUnit) in {("1", "2"), ("2", "1"), ("1", "5"), ("5", "1")}
    ensures MockConversionFactor(fromUnit, fromUnit) == 1.0
  {
  }

  /** Every pair of the table is the inverse of the pair the other way round. */
  lemma MockFactorsAreReciprocal(fromUnit: string, toUnit: string)
    ensures MockConversionFactor(fromUnit, toUnit) * MockConversionFactor(toUnit, fromUnit) == 1.0
  {
  }

  /** The page's yield table: carrots (1) trim 80% and cook 70%, onions (2) trim 83% and cook 75%. */
  function MockYield(item: string, processType: string): (y: Option<real>)
    ensures y.Some? ==> 0.0 < y.value < 1.0
  {
    if item == "1" && processType == "trim" then Some(0.8)
    else if item == "1" && processType == "cook" then Some(0.7)
    else if item == "2" && processType == "trim" then Some(0.83)
    else if item == "2" && processType == "cook" then Some(0.75)
    else None
  }

  /** The table holds a yield exactly for items 1 and 2 with trim or cook. */
  lemma MockYieldEntries(item: string, processType: string)
    ensures MockYield(item, processType).Some? <==>
      item in {"1", "2"} && processType in {"trim", "cook"}
  {
  }

  /** `handleSubmit` without its React state: the error message when a required field is empty,
      otherwise the amount times the table's unit factor times the yield, when a yield is
      requested and recorded. The yield counts as applied whenever one is requested. */
  function HandleSubmit(form: Form): (r: Result<Calculation, string>)
    ensures r.Failure? <==> MissingField(form)
    ensures r.Failure? ==> r.error == RequiredFieldsMessage
    ensures r.Success? ==>
      && r.value.originalValue == form.fromAmount.value
      && r.value.conversionFactor == MockConversionFactor(form.fromUnit, form.toUnit)
      && r.value.yieldFactorApplied == (form.includeYield && form.yieldType != "")
      && (r.value.yieldFactor != 1.0 ==>
            r.value.yieldFactorApplied && MockYield(form.selectedItem, form.yieldType) == Some(r.value.yieldFactor))
      && (r.value.yieldFactorApplied && MockYield(form.selectedItem, form.yieldType).Some? ==>
            r.value.yieldFactor == MockYield(form.selectedItem, form.yieldType).value)
      && r.value.convertedValue == r.value.originalValue * r.value.conversionFactor * r.value.yieldFactor
  {
    if MissingField(form) then Failure(RequiredFieldsMessage)
    else
      var amount := form.fromAmount.value;
      var conversionFactor := MockConversionFactor(form.fromUnit, form.toUnit);
      var requested := form.includeYield && form.yieldType != "";
      var yieldFactor := if requested && MockYield(form.selectedItem, form.yieldType).Some?
                         then MockYield(form.selectedItem, form.yieldType).value
                         else 1.0;
      Success(Calculation(amount, amount * conversionFactor * yieldFactor, conversionFactor, yieldFactor, requested))
  }

  /** Converting an amount and then converting the result back between the same two units
      (without a yield) gives the amount again. */
  lemma SubmitRoundTrip(form: Form)
    requires HandleSubmit(form).Success?
    requires !form.includeYield
    ensures var there := HandleSubmit(form).value;
      var back := HandleSubmit(form.(fromAmount := Some(there.convertedValue), fromUnit := form.toUnit, toUnit := form.fromUnit));
      back.Success? && back.value.convertedValue == form.fromAmount.value
  {
    var x := form.fromAmount.value;
    var f := MockConversionFactor(form.fromUnit, form.toUnit);
    var g := MockConversionFactor(form.toUnit, form.fromUnit);
    MockFactorsAreReciprocal(form.fromUnit, form.toUnit);
    calc {
      (x * f * 1.0) * g * 1.0;
      x * (f * g);
      x;
    }
  }

  /** A yield never increases the result: the yield factor lies in (0, 1], so a non-negative
      amount converts to at most what the unit factor alone gives. */
  lemma YieldNeverIncreasesResult(form: Form)
    requires HandleSubmit(form).Success?
    requires form.fromAmount.value >= 0.0
    ensures var r := HandleSubmit(form).value;
      && 0.0 < r.yieldFactor <= 1.0
      && r.convertedValue <= r.originalValue * r.conversionFactor
  {
    var r := HandleSubmit(form).value;
    var base := r.originalValue * r.conversionFactor;
    assert base >= 0.0;
    assert base * r.yieldFactor <= base * 1.0;
  }

  /** A requested yield that the table does not hold is still reported as applied, with factor 1. */
  lemma AppliedYieldWithoutEntry(form: Form)
    requires !MissingField(form)
    requires form.includeYield && form.yieldType != ""
    requires MockYield(form.selectedItem, form.yieldType).None?
    ensures HandleSubmit(form).Success?
    ensures HandleSubmit(form).value.yieldFactorApplied && HandleSubmit(form).value.yieldFactor == 1.0
  {
  }

  /** The results panel's cost per target unit: the source unit's price divided by the unit factor. */
  function CostPerTargetUnit(conversionFactor: real): (cost: real)
    requires conversionFactor != 0.0
    ensures cost * conversionFactor == CostPerFromUnit
  {
    CostPerFromUnit / conversionFactor
  }

  /** The displayed cost per target unit ignores the yield: it is the same with or without one, and
      pricing the converted amount at it gives back the price of the original amount only when no
      yield factor other than 1 is applied. */
  lemma DisplayedCostIgnoresYield(form: Form)
    requires HandleSubmit(form).Success?
    ensures var r := HandleSubmit(form).value;
      var plain := HandleSubmit(form.(includeYield := false)).value;
      && CostPerTargetUnit(r.conversionFactor) == CostPerTargetUnit(plain.conversionFactor)
      && (r.originalValue != 0.0 ==>
            (r.convertedValue * CostPerTargetUnit(r.conversionFactor) == r.originalValue * CostPerFromUnit
             <==> r.yieldFactor == 1.0))
  {
    var r := HandleSubmit(form).value;
    var x, f, y := r.originalValue, r.conversionFactor, r.yieldFactor;
    var c := CostPerTargetUnit(f);
    calc {
      r.convertedValue * c;
      (x * f * y) * c;
      (x * y) * (c * f);
      x * y * CostPerFromUnit;
    }
    if x != 0.0 && x * y * CostPerFromUnit == x * CostPerFromUnit {
      assert x * (y - 1.0) * CostPerFromUnit == 0.0;
    }
  }
}
