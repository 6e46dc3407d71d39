/** The server's unit-conversion controller, restated over in-memory tables.

    The database tables become values: `unit_conversions` is a sequence of
    `Conversion` rows, the base-unit flag of `units_of_measure` is a set of
    unit ids, and `yield_factors` is a sequence of `YieldFactor` rows. Every
    SQL filter of the controller becomes a predicate on rows, and the
    `ORDER BY item_specific DESC LIMIT 1` lookups become `Lookup`, whose
    contract says only which rows the database may return. */
module ConversionController {
  import opened Wrappers

  /** A row of `unit_conversions`: converting `v` units of `fromUnit` gives `v * factor` units of `toUnit`. */
  datatype Conversion = Conversion(
    id: int,
    fromUnit: int,
    toUnit: int,
    factor: real,
    itemSpecific: bool,
    itemId: Option<int>)

  /** A row of `yield_factors`; the percentage is a whole-number percent (80 means 80%). */
  datatype YieldFactor = YieldFactor(itemId: int, processType: string, yieldPercentage: real)

  /** The errors the controller throws. */
  datatype ConversionError = AlreadyExists | MissingParameters | NoConversionPath

  /** The text each error carries. */
  function Message(e: ConversionError): (m: string)
    ensures |m| > 0
  {
    match e
    case AlreadyExists => "Conversion already exists"
    case MissingParameters => "Missing required parameters"
    case NoConversionPath => "No conversion path found between these units"
  }

  /** Different errors carry different texts, so a client can tell them apart by the message alone. */
  lemma MessagesAreDistinct(e: ConversionError, e': ConversionError)
    ensures Message(e) == Message(e') ==> e == e'
  {
    assert Message(AlreadyExists)[0] == 'C';
    assert Message(MissingParameters)[0] == 'M';
    var noPath := "No conversion path found between these units";
    assert Message(NoConversionPath) == noPath && noPath[0] == 'N';
  }

  type Table = seq<Conversion>

  /** Division by a factor is only defined when no row has factor 0. */
  predicate NonZeroFactors(t: Table) {
    forall i :: 0 <= i < |t| ==> t[i].factor != 0.0
  }

  /** The rows that can be divisors: the base-to-target rows of the fallback of `convertUnits`. */
  predicate BaseRowsNonZero(t: Table, bases: set<int>) {
    forall i :: 0 <= i < |t| && t[i].fromUnit in bases ==> t[i].factor != 0.0
  }

  /** A JavaScript id is truthy when present and not 0. */
  predicate Truthy(x: Option<int>) {
    x.Some? && x.value != 0
  }

  // ---------------------------------------------------------------------------
  // Lookups with item-specific preference
  // ---------------------------------------------------------------------------

  /** The unit part of the WHERE clause of the three preferring lookups. */
  datatype Query =
    | Direct(from: int, to: int)                // from_unit_id = from AND to_unit_id = to
    | FromToBase(from: int, bases: set<int>)    // from_unit_id = from AND to_unit_id is a base unit
    | BaseToTo(to: int, bases: set<int>)        // to_unit_id = to AND from_unit_id is a base unit

  predicate MatchesQuery(c: Conversion, q: Query) {
    match q
    case Direct(a, b) => c.fromUnit == a && c.toUnit == b
    case FromToBase(a, bs) => c.fromUnit == a && c.toUnit in bs
    case BaseToTo(b, bs) => c.toUnit == b && c.fromUnit in bs
  }

  /** `item_specific = false OR (item_specific = true AND item_id = $n)`: a NULL item id equals nothing. */
  predicate Eligible(c: Conversion, itemId: Option<int>) {
    !c.itemSpecific || (itemId.Some? && c.itemId == itemId)
  }

  predicate Candidate(c: Conversion, q: Query, itemId: Option<int>) {
    MatchesQuery(c, q) && Eligible(c, itemId)
  }

  predicate HasCandidate(t: Table, q: Query, itemId: Option<int>) {
    exists i :: 0 <= i < |t| && Candidate(t[i], q, itemId)
  }

  predicate HasSpecificCandidate(t: Table, q: Query, itemId: Option<int>) {
    exists i :: 0 <= i < |t| && Candidate(t[i], q, itemId) && t[i].itemSpecific
  }

  /** The rows `ORDER BY item_specific DESC LIMIT 1` may return: any candidate, item-specific whenever one exists. */
  predicate Preferred(t: Table, q: Query, itemId: Option<int>, c: Conversion) {
    c in t && Candidate(c, q, itemId) && (HasSpecificCandidate(t, q, itemId) ==> c.itemSpecific)
  }

  /** The first candidate row whose `item_specific` flag is `specific`. */
  function FirstCandidate(t: Table, q: Query, itemId: Option<int>, specific: bool): (r: Option<Conversion>)
    ensures r.Some? <==> exists i :: 0 <= i < |t| && Candidate(t[i], q, itemId) && t[i].itemSpecific == specific
    ensures r.Some? ==> r.value in t && Candidate(r.value, q, itemId) && r.value.itemSpecific == specific
  {
    if t == [] then None
    else if Candidate(t[0], q, itemId) && t[0].itemSpecific == specific then Some(t[0])
    else
      var r := FirstCandidate(t[1..], q, itemId, specific);
      assert forall i :: 1 <= i < |t| ==> t[i] == t[1..][i - 1];
      r
  }

  /** One preferring lookup. Among equally preferred rows the database's choice is
      unspecified; this resolves it by table order, and the contract promises no more
      than `Preferred`. */
  function Lookup(t: Table, q: Query, itemId: Option<int>): (r: Option<Conversion>)
    ensures r.Some? <==> HasCandidate(t, q, itemId)
    ensures r.Some? ==> Preferred(t, q, itemId, r.value)
    ensures itemId.None? && r.Some? ==> !r.value.itemSpecific
  {
    match FirstCandidate(t, q, itemId, true)
    case Some(c) => Some(c)
    case None => FirstCandidate(t, q, itemId, false)
  }

  // ---------------------------------------------------------------------------
  // Composing conversions along a path
  // ---------------------------------------------------------------------------

  /** Rows that compose: the first leaves `from`, each next row starts where the previous one ends, the last reaches `to`. */
  predicate IsChain(path: seq<Conversion>, from: int, to: int) {
    && |path| > 0
    && path[0].fromUnit == from
    && path[|path| - 1].toUnit == to
    && forall k :: 0 <= k < |path| - 1 ==> path[k].toUnit == path[k + 1].fromUnit
  }

  /** Converting a value one row at a time along a path. */
  function ApplyPath(value: real, path: seq<Conversion>): real
    decreases path
  {
    if path == [] then value else ApplyPath(value * path[0].factor, path[1..])
  }

  /** The product of the factors along a path. */
  function PathFactor(path: seq<Conversion>): real {
    if path == [] then 1.0 else path[0].factor * PathFactor(path[1..])
  }

  /** Converting step by step is multiplying by the product of the factors. */
  lemma {:induction false} ApplyPathIsProduct(value: real, path: seq<Conversion>)
    ensures ApplyPath(value, path) == value * PathFactor(path)
    decreases path
  {
    if path != [] {
      ApplyPathIsProduct(value * path[0].factor, path[1..]);
      calc {
        ApplyPath(value, path);
        ApplyPath(value * path[0].factor, path[1..]);
        (value * path[0].factor) * PathFactor(path[1..]);
        value * (path[0].factor * PathFactor(path[1..]));
        value * PathFactor(path);
      }
    }
  }

  // ---------------------------------------------------------------------------
  // getAllConversions
  // ---------------------------------------------------------------------------

  /** The rows whose `item_specific` equals `specific`, each as often as in `t`. */
  function KeepItemSpecific(t: Table, specific: bool): (r: Table)
    ensures forall c :: multiset(r)[c] == if c.itemSpecific == specific then multiset(t)[c] else 0
  {
    if t == [] then []
    else
      var rest := KeepItemSpecific(t[1..], specific);
      assert t == [t[0]] + t[1..];
      if t[0].itemSpecific == specific then [t[0]] + rest else rest
  }

  /** The `itemSpecific` query parameter of `getAllConversions`: absent returns every row,
      present keeps the rows whose flag equals `param == "true"`. */
  function GetAllConversions(t: Table, itemSpecific: Option<string>): (r: Table)
    ensures itemSpecific.None? ==> r == t
    ensures itemSpecific.Some? ==>
      forall c :: multiset(r)[c] == if c.itemSpecific == (itemSpecific.value == "true") then multiset(t)[c] else 0
    ensures forall c :: c in r ==> c in t
  {
    match itemSpecific
    case None => t
    case Some(p) =>
      var r := KeepItemSpecific(t, p == "true");
      assert forall c :: c in r ==> multiset(r)[c] > 0;
      r
  }

  // ---------------------------------------------------------------------------
  // createConversion
  // ---------------------------------------------------------------------------

  /** The body of a `createConversion` request. */
  datatype CreateRequest = CreateRequest(
    fromUnitId: int,
    toUnitId: int,
    conversionFactor: real,
    itemSpecific: bool,
    itemId: Option<int>)

  /** The duplicate check: same units and flag, and `item_id = $4 OR (item_id IS NULL AND $4 IS NULL)`
      against the request's item id as sent, not as it would be stored. */
  predicate SameKey(c: Conversion, req: CreateRequest) {
    c.fromUnit == req.fromUnitId && c.toUnit == req.toUnitId &&
    c.itemSpecific == req.itemSpecific && c.itemId == req.itemId
  }

  predicate IsDuplicate(t: Table, req: CreateRequest) {
    exists i :: 0 <= i < |t| && SameKey(t[i], req)
  }

  /** Scans the table for a row the duplicate check matches. */
  function HasDuplicate(t: Table, req: CreateRequest): (b: bool)
    ensures b <==> IsDuplicate(t, req)
  {
    if t == [] then false
    else
      var rest := HasDuplicate(t[1..], req);
      assert forall i :: 1 <= i < |t| ==> t[i] == t[1..][i - 1];
      SameKey(t[0], req) || rest
  }

  /** The item id stored with a new row: kept only for item-specific conversions. */
  function StoredItemId(req: CreateRequest): Option<int> {
    if req.itemSpecific then req.itemId else None
  }

  function ForwardRow(req: CreateRequest, id: int): Conversion {
    Conversion(id, req.fromUnitId, req.toUnitId, req.conversionFactor, req.itemSpecific, StoredItemId(req))
  }

  function ReverseRow(req: CreateRequest, id: int): Conversion
    requires req.conversionFactor != 0.0
  {
    Conversion(id, req.toUnitId, req.fromUnitId, 1.0 / req.conversionFactor, req.itemSpecific, StoredItemId(req))
  }

  /** The two rows created together are inverse to each other. */
  lemma CreatedPairIsReciprocal(req: CreateRequest, id: int, id': int)
    requires req.conversionFactor != 0.0
    ensures ForwardRow(req, id).factor * ReverseRow(req, id').factor == 1.0
    ensures ReverseRow(req, id').fromUnit == ForwardRow(req, id).toUnit
    ensures ReverseRow(req, id').toUnit == ForwardRow(req, id).fromUnit
    ensures ReverseRow(req, id').itemSpecific == ForwardRow(req, id).itemSpecific == req.itemSpecific
    ensures ReverseRow(req, id').itemId == ForwardRow(req, id).itemId
    ensures ForwardRow(req, id).itemId == if req.itemSpecific then req.itemId else None
  {
  }

  /** The `unit_conversions` table with the serial that numbers its rows, beside the read-only
      base-unit ids and yield table. */
  class ConversionStore {
    var conversions: Table
    var nextId: int
    const baseUnits: set<int>
    const yieldFactors: seq<YieldFactor>

    /** No factor is 0; the id conjuncts record that the serial issues ids in increasing order. */
    ghost predicate Valid()
      reads this
    {
      && NonZeroFactors(conversions)
      && (forall i :: 0 <= i < |conversions| ==> conversions[i].id < nextId)
      && (forall i, j :: 0 <= i < j < |conversions| ==> conversions[i].id < conversions[j].id)
    }

    constructor (baseUnits: set<int>, yieldFactors: seq<YieldFactor>)
      ensures Valid()
      ensures conversions == [] && nextId == 1
      ensures this.baseUnits == baseUnits && this.yieldFactors == yieldFactors
    {
      conversions := [];
      nextId := 1;
      this.baseUnits := baseUnits;
      this.yieldFactors := yieldFactors;
    }

    /** `createConversion`: rejects a duplicate and leaves the table as it was; otherwise appends
        the forward row and its automatic reverse row, and returns the forward row. */
    method CreateConversion(req: CreateRequest) returns (r: Result<Conversion, ConversionError>)
      requires Valid()
      requires req.conversionFactor != 0.0
      modifies this
      ensures Valid()
      ensures IsDuplicate(old(conversions), req) ==>
        r == Failure(AlreadyExists) && conversions == old(conversions) && nextId == old(nextId)
      ensures !IsDuplicate(old(conversions), req) ==>
        && r == Success(ForwardRow(req, old(nextId)))
        && conversions == old(conversions) + [ForwardRow(req, old(nextId)), ReverseRow(req, old(nextId) + 1)]
        && nextId == old(nextId) + 2
    {
      if HasDuplicate(conversions, req) {
        return Failure(AlreadyExists);
      }
      var forward := ForwardRow(req, nextId);
      var reverse := ReverseRow(req, nextId + 1);
      conversions := conversions + [forward, reverse];
      nextId := nextId + 2;
      r := Success(forward);
    }
  }

  /** The table after a successful `createConversion` with serial value `id`. */
  function AfterCreate(t: Table, req: CreateRequest, id: int): Table
    requires req.conversionFactor != 0.0
  {
    t + [ForwardRow(req, id), ReverseRow(req, id + 1)]
  }

  /** The duplicate check compares the raw request item id, so repeating a request is rejected
      exactly when it is item-specific, carries no item id, or was already a duplicate: a general
      request that carries an item id can be stored any number of times. */
  lemma RepeatedCreateRejectedIff(t: Table, req: CreateRequest, id: int)
    requires req.conversionFactor != 0.0
    ensures IsDuplicate(AfterCreate(t, req, id), req) <==>
      (req.itemSpecific || req.itemId.None? || IsDuplicate(t, req))
  {
    var t' := AfterCreate(t, req, id);
    if req.itemSpecific || req.itemId.None? {
      assert SameKey(t'[|t|], req);
    }
    if IsDuplicate(t, req) {
      var i :| 0 <= i < |t| && SameKey(t[i], req);
      assert SameKey(t'[i], req);
    }
    if IsDuplicate(t', req) {
      var i :| 0 <= i < |t'| && SameKey(t'[i], req);
      if i < |t| {
        assert t'[i] == t[i];
      }
    }
  }

  /** A general request that carries an item id is never caught as a duplicate, so it can be
      repeated with another factor. With forward factor 2 and then 3 between units 1 and 2, the
      first forward row and the second reverse row are both possible direct answers, and their
      factors do not multiply to 1. */
  lemma RepeatedGeneralCreateBreaksReciprocity()
    ensures var first := CreateRequest(1, 2, 2.0, false, Some(9));
      var second := CreateRequest(1, 2, 3.0, false, Some(9));
      var t := AfterCreate(AfterCreate([], first, 1), second, 3);
      && !IsDuplicate(AfterCreate([], first, 1), second)
      && Preferred(t, Direct(1, 2), None, ForwardRow(first, 1))
      && Preferred(t, Direct(2, 1), None, ReverseRow(second, 4))
      && ForwardRow(first, 1).factor * ReverseRow(second, 4).factor != 1.0
  {
    var first := CreateRequest(1, 2, 2.0, false, Some(9));
    var second := CreateRequest(1, 2, 3.0, false, Some(9));
    var t1 := AfterCreate([], first, 1);
    var t := AfterCreate(t1, second, 3);
    assert t[0] == ForwardRow(first, 1) && t[3] == ReverseRow(second, 4);
    assert !HasSpecificCandidate(t, Direct(1, 2), None);
    assert !HasSpecificCandidate(t, Direct(2, 1), None);
  }

  // ---------------------------------------------------------------------------
  // convertUnits
  // ---------------------------------------------------------------------------

  /** The body of a `convertUnits` request; `None` is an absent field. */
  datatype ConvertRequest = ConvertRequest(
    fromUnitId: Option<int>,
    toUnitId: Option<int>,
    value: Option<real>,
    itemId: Option<int>)

  datatype ConvertResponse = ConvertResponse(
    originalValue: real,
    convertedValue: real,
    conversionFactor: real,
    conversionPath: seq<Conversion>)

  /** `!fromUnitId || !toUnitId || value === undefined` */
  predicate MissingConvertParameters(req: ConvertRequest) {
    !Truthy(req.fromUnitId) || !Truthy(req.toUnitId) || req.value.None?
  }

  /** `convertUnits`: a preferred direct row if there is one; otherwise a preferred row from the
      source unit to some base unit and a preferred row from some base unit to the target unit,
      whose factors are divided. */
  function ConvertUnits(t: Table, bases: set<int>, req: ConvertRequest): (r: Result<ConvertResponse, ConversionError>)
    requires BaseRowsNonZero(t, bases)
    ensures r == Failure(MissingParameters) <==> MissingConvertParameters(req)
    ensures r.Success? ==>
      && r.value.originalValue == req.value.value
      && r.value.convertedValue == req.value.value * r.value.conversionFactor
    ensures !MissingConvertParameters(req) && HasCandidate(t, Direct(req.fromUnitId.value, req.toUnitId.value), req.itemId) ==>
      && r.Success?
      && |r.value.conversionPath| == 1
      && Preferred(t, Direct(req.fromUnitId.value, req.toUnitId.value), req.itemId, r.value.conversionPath[0])
      && r.value.conversionFactor == r.value.conversionPath[0].factor
    ensures !MissingConvertParameters(req) && !HasCandidate(t, Direct(req.fromUnitId.value, req.toUnitId.value), req.itemId) ==>
      && (r.Success? <==>
            HasCandidate(t, FromToBase(req.fromUnitId.value, bases), req.itemId) &&
            HasCandidate(t, BaseToTo(req.toUnitId.value, bases), req.itemId))
      && (r.Success? ==>
            && |r.value.conversionPath| == 2
            && Preferred(t, FromToBase(req.fromUnitId.value, bases), req.itemId, r.value.conversionPath[0])
            && Preferred(t, BaseToTo(req.toUnitId.value, bases), req.itemId, r.value.conversionPath[1])
            && r.value.conversionPath[1].factor != 0.0
            && r.value.conversionFactor == r.value.conversionPath[0].factor / r.value.conversionPath[1].factor)
      && (r.Failure? ==> r.error == NoConversionPath)
  {
    if MissingConvertParameters(req) then Failure(MissingParameters)
    else
      var from, to, value := req.fromUnitId.value, req.toUnitId.value, req.value.value;
      match Lookup(t, Direct(from, to), req.itemId)
      case Some(c) => Success(ConvertResponse(value, value * c.factor, c.factor, [c]))
      case None =>
        match (Lookup(t, FromToBase(from, bases), req.itemId), Lookup(t, BaseToTo(to, bases), req.itemId))
        case (Some(fromBase), Some(toBase)) =>
          assert toBase.factor != 0.0;
          var factor := fromBase.factor / toBase.factor;
          Success(ConvertResponse(value, value * factor, factor, [fromBase, toBase]))
        case _ => Failure(NoConversionPath)
  }

  /** A one-row answer is a chain from the source to the target unit, and its factor is the path's. */
  lemma DirectAnswerComposes(t: Table, bases: set<int>, req: ConvertRequest)
    requires BaseRowsNonZero(t, bases)
    requires ConvertUnits(t, bases, req).Success?
    requires |ConvertUnits(t, bases, req).value.conversionPath| == 1
    ensures var r := ConvertUnits(t, bases, req).value;
      && IsChain(r.conversionPath, req.fromUnitId.value, req.toUnitId.value)
      && r.conversionFactor == PathFactor(r.conversionPath)
      && r.convertedValue == ApplyPath(req.value.value, r.conversionPath)
  {
    var r := ConvertUnits(t, bases, req).value;
    assert !HasCandidate(t, Direct(req.fromUnitId.value, req.toUnitId.value), req.itemId) ==> |r.conversionPath| == 2;
    assert PathFactor(r.conversionPath[1..]) == 1.0;
    ApplyPathIsProduct(req.value.value, r.conversionPath);
  }

  /** Example of an item-specific row overriding a general one: with a general row of factor 2
      and a row of factor 3 for item 7 between the same units, item 7 converts by 3 and a request
      without an item by 2. */
  lemma ItemSpecificOverridesGeneral(bases: set<int>)
    ensures var t := [Conversion(1, 10, 20, 2.0, false, None), Conversion(2, 10, 20, 3.0, true, Some(7))];
      && ConvertUnits(t, bases, ConvertRequest(Some(10), Some(20), Some(1.0), Some(7))) ==
           Success(ConvertResponse(1.0, 3.0, 3.0, [t[1]]))
      && ConvertUnits(t, bases, ConvertRequest(Some(10), Some(20), Some(1.0), None)) ==
           Success(ConvertResponse(1.0, 2.0, 2.0, [t[0]]))
  {
    var t := [Conversion(1, 10, 20, 2.0, false, None), Conversion(2, 10, 20, 3.0, true, Some(7))];
    assert Candidate(t[1], Direct(10, 20), Some(7)) && t[1].itemSpecific;
    assert Candidate(t[0], Direct(10, 20), None);
  }

  /** After a successful create, both directions between its units convert for every item the
      new rows are eligible for. */
  lemma {:induction false} CreatedConversionConverts(t: Table, bases: set<int>, req: CreateRequest, id: int, value: real, itemId: Option<int>)
    requires NonZeroFactors(t)
    requires req.conversionFactor != 0.0 && req.fromUnitId != 0 && req.toUnitId != 0
    requires Eligible(ForwardRow(req, id), itemId)
    ensures NonZeroFactors(AfterCreate(t, req, id))
    ensures HasCandidate(AfterCreate(t, req, id), Direct(req.fromUnitId, req.toUnitId), itemId)
    ensures HasCandidate(AfterCreate(t, req, id), Direct(req.toUnitId, req.fromUnitId), itemId)
    ensures ConvertUnits(AfterCreate(t, req, id), bases, ConvertRequest(Some(req.fromUnitId), Some(req.toUnitId), Some(value), itemId)).Success?
    ensures ConvertUnits(AfterCreate(t, req, id), bases, ConvertRequest(Some(req.toUnitId), Some(req.fromUnitId), Some(value), itemId)).Success?
  {
    var t' := AfterCreate(t, req, id);
    assert Candidate(t'[|t|], Direct(req.fromUnitId, req.toUnitId), itemId);
    assert Candidate(t'[|t| + 1], Direct(req.toUnitId, req.fromUnitId), itemId);
  }

  /** When no row between the two units was eligible before, the rows just created are the only
      possible answers of the direct lookups in each direction, whatever order the database uses. */
  lemma {:induction false} CreatedRowsAreTheOnlyAnswers(t: Table, req: CreateRequest, id: int, itemId: Option<int>)
    requires req.conversionFactor != 0.0 && req.fromUnitId != req.toUnitId
    requires !HasCandidate(t, Direct(req.fromUnitId, req.toUnitId), itemId)
    requires !HasCandidate(t, Direct(req.toUnitId, req.fromUnitId), itemId)
    ensures forall c :: Preferred(AfterCreate(t, req, id), Direct(req.fromUnitId, req.toUnitId), itemId, c) ==> c == ForwardRow(req, id)
    ensures forall c :: Preferred(AfterCreate(t, req, id), Direct(req.toUnitId, req.fromUnitId), itemId, c) ==> c == ReverseRow(req, id + 1)
  {
    var t' := AfterCreate(t, req, id);
    forall c | Preferred(t', Direct(req.fromUnitId, req.toUnitId), itemId, c)
      ensures c == ForwardRow(req, id)
    {
      assert forall j :: 0 <= j < |t| ==> t'[j] == t[j] && !Candidate(t[j], Direct(req.fromUnitId, req.toUnitId), itemId);
    }
    forall c | Preferred(t', Direct(req.toUnitId, req.fromUnitId), itemId, c)
      ensures c == ReverseRow(req, id + 1)
    {
      assert forall j :: 0 <= j < |t| ==> t'[j] == t[j] && !Candidate(t[j], Direct(req.toUnitId, req.fromUnitId), itemId);
    }
  }

  /** Round trip through a newly created pair: converting a value forward by the requested factor
      and the result back by the automatic reverse row returns the value. */
  lemma {:induction false} CreatedPairRoundTrip(t: Table, bases: set<int>, req: CreateRequest, id: int, value: real, itemId: Option<int>)
    requires NonZeroFactors(t)
    requires req.conversionFactor != 0.0 && req.fromUnitId != 0 && req.toUnitId != 0 && req.fromUnitId != req.toUnitId
    requires Eligible(ForwardRow(req, id), itemId)
    requires !HasCandidate(t, Direct(req.fromUnitId, req.toUnitId), itemId)
    requires !HasCandidate(t, Direct(req.toUnitId, req.fromUnitId), itemId)
    ensures NonZeroFactors(AfterCreate(t, req, id))
    ensures var there := ConvertUnits(AfterCreate(t, req, id), bases, ConvertRequest(Some(req.fromUnitId), Some(req.toUnitId), Some(value), itemId));
      && there.Success?
      && there.value.conversionFactor == req.conversionFactor
      && var back := ConvertUnits(AfterCreate(t, req, id), bases, ConvertRequest(Some(req.toUnitId), Some(req.fromUnitId), Some(there.value.convertedValue), itemId));
         back.Success? && back.value.convertedValue == value
  {
    var t' := AfterCreate(t, req, id);
    CreatedConversionConverts(t, bases, req, id, value, itemId);
    CreatedRowsAreTheOnlyAnswers(t, req, id, itemId);
    var there := ConvertUnits(t', bases, ConvertRequest(Some(req.fromUnitId), Some(req.toUnitId), Some(value), itemId));
    assert there.value.conversionPath[0] == ForwardRow(req, id);
    var v := there.value.convertedValue;
    CreatedConversionConverts(t, bases, req, id, v, itemId);
    var back := ConvertUnits(t', bases, ConvertRequest(Some(req.toUnitId), Some(req.fromUnitId), Some(v), itemId));
    assert back.value.conversionPath[0] == ReverseRow(req, id + 1);
    var f := req.conversionFactor;
    calc {
      back.value.convertedValue;
      v * (1.0 / f);
      (value * f) * (1.0 / f);
      value * (f * (1.0 / f));
      value;
    }
  }

  /** A client of the store: after a successful create between two units that no eligible row
      joined before, converting a value there and back over the store's own table returns it. */
  method CreateThenConvertBack(store: ConversionStore, req: CreateRequest, value: real, itemId: Option<int>)
    returns (created: Result<Conversion, ConversionError>, back: Result<ConvertResponse, ConversionError>)
    requires store.Valid()
    requires req.conversionFactor != 0.0 && req.fromUnitId != 0 && req.toUnitId != 0 && req.fromUnitId != req.toUnitId
    requires Eligible(ForwardRow(req, store.nextId), itemId)
    requires !HasCandidate(store.conversions, Direct(req.fromUnitId, req.toUnitId), itemId)
    requires !HasCandidate(store.conversions, Direct(req.toUnitId, req.fromUnitId), itemId)
    modifies store
    ensures store.Valid()
    ensures created == Success(ForwardRow(req, old(store.nextId)))
    ensures store.conversions == AfterCreate(old(store.conversions), req, old(store.nextId))
    ensures back.Success? && back.value.convertedValue == value
  {
    ghost var before, id := store.conversions, store.nextId;
    if IsDuplicate(before, req) {
      var i :| 0 <= i < |before| && SameKey(before[i], req);
      assert Candidate(before[i], Direct(req.fromUnitId, req.toUnitId), itemId);
    }
    created := store.CreateConversion(req);
    CreatedPairRoundTrip(before, store.baseUnits, req, id, value, itemId);
    var there := ConvertUnits(store.conversions, store.baseUnits, ConvertRequest(Some(req.fromUnitId), Some(req.toUnitId), Some(value), itemId));
    back := ConvertUnits(store.conversions, store.baseUnits, ConvertRequest(Some(req.toUnitId), Some(req.fromUnitId), Some(there.value.convertedValue), itemId));
  }

  // ---------------------------------------------------------------------------
  // The base-unit fallback of convertUnits, and the path it evidently intends
  // ---------------------------------------------------------------------------

  /** As written, the fallback divides the source-to-base factor by the factor of a
      base-to-target row: with rows 1 -> 3 (factor 2) and 3 -> 4 (factor 4) and base unit 3, the
      path is a chain whose step-by-step conversion multiplies by 8, but the answer is 0.5. */
  lemma BaseFallbackDividesFactors()
    ensures var t := [Conversion(1, 1, 3, 2.0, false, None), Conversion(2, 3, 4, 4.0, false, None)];
      var r := ConvertUnits(t, {3}, ConvertRequest(Some(1), Some(4), Some(1.0), None));
      && r.Success?
      && IsChain(r.value.conversionPath, 1, 4)
      && ApplyPath(1.0, r.value.conversionPath) == 8.0
      && r.value.convertedValue == 0.5
  {
    var t := [Conversion(1, 1, 3, 2.0, false, None), Conversion(2, 3, 4, 4.0, false, None)];
    assert Candidate(t[0], FromToBase(1, {3}), None);
    assert Candidate(t[1], BaseToTo(4, {3}), None);
    var r := ConvertUnits(t, {3}, ConvertRequest(Some(1), Some(4), Some(1.0), None));
    assert r.value.conversionPath == t;
  }

  /** As written, the two base rows are looked up independently, so they may meet different base
      units: with rows 1 -> 3 and 5 -> 4 and base units 3 and 5, the answer's path is no chain. */
  lemma BaseFallbackMixesBaseUnits()
    ensures var t := [Conversion(1, 1, 3, 2.0, false, None), Conversion(2, 5, 4, 4.0, false, None)];
      var r := ConvertUnits(t, {3, 5}, ConvertRequest(Some(1), Some(4), Some(1.0), None));
      r.Success? && !IsChain(r.value.conversionPath, 1, 4)
  {
    var t := [Conversion(1, 1, 3, 2.0, false, None), Conversion(2, 5, 4, 4.0, false, None)];
    assert Candidate(t[0], FromToBase(1, {3, 5}), None);
    assert Candidate(t[1], BaseToTo(4, {3, 5}), None);
    var r := ConvertUnits(t, {3, 5}, ConvertRequest(Some(1), Some(4), Some(1.0), None));
    assert r.value.conversionPath == t;
  }

  /** `convertUnits` as evidently intended: a preferred direct row, otherwise a preferred row from
      the source unit to a base unit followed by a preferred row from that same base unit to the
      target unit, composed by multiplying their factors. */
  function ConvertViaCommonBase(t: Table, bases: set<int>, req: ConvertRequest): (r: Result<ConvertResponse, ConversionError>)
    ensures r == Failure(MissingParameters) <==> MissingConvertParameters(req)
    ensures r.Success? ==>
      && IsChain(r.value.conversionPath, req.fromUnitId.value, req.toUnitId.value)
      && r.value.originalValue == req.value.value
      && r.value.conversionFactor == PathFactor(r.value.conversionPath)
      && r.value.convertedValue == ApplyPath(req.value.value, r.value.conversionPath)
    ensures !MissingConvertParameters(req) && HasCandidate(t, Direct(req.fromUnitId.value, req.toUnitId.value), req.itemId) ==>
      && r.Success?
      && |r.value.conversionPath| == 1
      && Preferred(t, Direct(req.fromUnitId.value, req.toUnitId.value), req.itemId, r.value.conversionPath[0])
    ensures !MissingConvertParameters(req) && !HasCandidate(t, Direct(req.fromUnitId.value, req.toUnitId.value), req.itemId) && r.Success? ==>
      && |r.value.conversionPath| == 2
      && Preferred(t, FromToBase(req.fromUnitId.value, bases), req.itemId, r.value.conversionPath[0])
      && r.value.conversionPath[0].toUnit in bases
      && Preferred(t, Direct(r.value.conversionPath[0].toUnit, req.toUnitId.value), req.itemId, r.value.conversionPath[1])
    ensures !MissingConvertParameters(req) && HasCandidate(t, FromToBase(req.fromUnitId.value, bases), req.itemId) &&
            (forall c :: Preferred(t, FromToBase(req.fromUnitId.value, bases), req.itemId, c) ==>
                           HasCandidate(t, Direct(c.toUnit, req.toUnitId.value), req.itemId)) ==>
      r.Success?
    ensures r.Failure? && !MissingConvertParameters(req) ==> r.error == NoConversionPath
  {
    if MissingConvertParameters(req) then Failure(MissingParameters)
    else
      var from, to, value := req.fromUnitId.value, req.toUnitId.value, req.value.value;
      match Lookup(t, Direct(from, to), req.itemId)
      case Some(c) =>
        var path := [c];
        assert PathFactor(path[1..]) == 1.0;
        ApplyPathIsProduct(value, path);
        Success(ConvertResponse(value, value * c.factor, c.factor, path))
      case None =>
        match Lookup(t, FromToBase(from, bases), req.itemId)
        case None => Failure(NoConversionPath)
        case Some(fromBase) =>
          match Lookup(t, Direct(fromBase.toUnit, to), req.itemId)
          case None => Failure(NoConversionPath)
          case Some(baseTo) =>
            var path := [fromBase, baseTo];
            assert path[1..] == [baseTo] && PathFactor(path[1..][1..]) == 1.0;
            ApplyPathIsProduct(value, path);
            var factor := fromBase.factor * baseTo.factor;
            Success(ConvertResponse(value, value * factor, factor, path))
  }

  /** The corrected fallback only changes answers that go through base units: with a direct row
      both versions give the same response. */
  lemma CorrectedAgreesOnDirectRows(t: Table, bases: set<int>, req: ConvertRequest)
    requires BaseRowsNonZero(t, bases)
    requires !MissingConvertParameters(req)
    requires HasCandidate(t, Direct(req.fromUnitId.value, req.toUnitId.value), req.itemId)
    ensures ConvertViaCommonBase(t, bases, req) == ConvertUnits(t, bases, req)
  {
  }

  // ---------------------------------------------------------------------------
  // complexConversion
  // ---------------------------------------------------------------------------

  /** The body of a `complexConversion` request. */
  datatype ComplexRequest = ComplexRequest(
    itemId: Option<int>,
    fromUnitId: Option<int>,
    toUnitId: Option<int>,
    value: Option<real>,
    includeYield: bool,
    yieldType: string)

  datatype ComplexResponse = ComplexResponse(
    originalValue: real,
    convertedValue: real,
    conversionFactor: real,
    yieldFactor: real,
    yieldFactorApplied: bool)

  /** `!itemId || !fromUnitId || !toUnitId || value === undefined` */
  predicate MissingComplexParameters(req: ComplexRequest) {
    !Truthy(req.itemId) || !Truthy(req.fromUnitId) || !Truthy(req.toUnitId) || req.value.None?
  }

  predicate HasYield(ys: seq<YieldFactor>, itemId: int, processType: string) {
    exists i :: 0 <= i < |ys| && ys[i].itemId == itemId && ys[i].processType == processType
  }

  /** `SELECT * FROM yield_factors WHERE item_id = $1 AND process_type = $2 LIMIT 1` */
  function FindYield(ys: seq<YieldFactor>, itemId: int, processType: string): (r: Option<YieldFactor>)
    ensures r.Some? <==> HasYield(ys, itemId, processType)
    ensures r.Some? ==> r.value in ys && r.value.itemId == itemId && r.value.processType == processType
  {
    if ys == [] then None
    else if ys[0].itemId == itemId && ys[0].processType == processType then Some(ys[0])
    else
      var r := FindYield(ys[1..], itemId, processType);
      assert forall i :: 1 <= i < |ys| ==> ys[i] == ys[1..][i - 1];
      r
  }

  /** `complexConversion`: a preferred direct row for the item (no base-unit fallback), then the
      yield percentage over 100 when a yield is requested and recorded for the item. */
  function ComplexConversion(t: Table, ys: seq<YieldFactor>, req: ComplexRequest): (r: Result<ComplexResponse, ConversionError>)
    ensures r == Failure(MissingParameters) <==> MissingComplexParameters(req)
    ensures !MissingComplexParameters(req) ==>
      (r.Success? <==> HasCandidate(t, Direct(req.fromUnitId.value, req.toUnitId.value), req.itemId))
    ensures r.Failure? && !MissingComplexParameters(req) ==> r.error == NoConversionPath
    ensures r.Success? ==>
      && r.value.originalValue == req.value.value
      && r.value.convertedValue == req.value.value * r.value.conversionFactor * r.value.yieldFactor
      && (exists c :: Preferred(t, Direct(req.fromUnitId.value, req.toUnitId.value), req.itemId, c) &&
                      r.value.conversionFactor == c.factor)
      && (r.value.yieldFactorApplied <==>
            req.includeYield && req.yieldType != "" && HasYield(ys, req.itemId.value, req.yieldType))
      && (!r.value.yieldFactorApplied ==> r.value.yieldFactor == 1.0)
      && (r.value.yieldFactorApplied ==>
            exists i :: 0 <= i < |ys| && ys[i].itemId == req.itemId.value && ys[i].processType == req.yieldType &&
                        r.value.yieldFactor == ys[i].yieldPercentage / 100.0)
  {
    if MissingComplexParameters(req) then Failure(MissingParameters)
    else
      var item, value := req.itemId.value, req.value.value;
      match Lookup(t, Direct(req.fromUnitId.value, req.toUnitId.value), req.itemId)
      case None => Failure(NoConversionPath)
      case Some(c) =>
        var found := if req.includeYield && req.yieldType != "" then FindYield(ys, item, req.yieldType) else None;
        var yieldFactor := if found.Some? then found.value.yieldPercentage / 100.0 else 1.0;
        Success(ComplexResponse(value, value * c.factor * yieldFactor, c.factor, yieldFactor, found.Some?))
  }

  /** Without a yield, `complexConversion` answers as `convertUnits` does through a direct row. */
  lemma ComplexWithoutYieldIsDirectConversion(t: Table, bases: set<int>, ys: seq<YieldFactor>, req: ComplexRequest)
    requires BaseRowsNonZero(t, bases)
    requires ComplexConversion(t, ys, req).Success?
    requires !req.includeYield || req.yieldType == ""
    ensures var plain := ConvertUnits(t, bases, ConvertRequest(req.fromUnitId, req.toUnitId, req.value, req.itemId));
      && plain.Success?
      && |plain.value.conversionPath| == 1
      && plain.value.conversionFactor == ComplexConversion(t, ys, req).value.conversionFactor
      && plain.value.convertedValue == ComplexConversion(t, ys, req).value.convertedValue
  {
  }

  /** Requesting a yield only scales the answer: the converted value with the yield is the value
      without it times the yield factor. */
  lemma YieldScalesConvertedValue(t: Table, ys: seq<YieldFactor>, req: ComplexRequest)
    requires ComplexConversion(t, ys, req).Success?
    ensures var withYield := ComplexConversion(t, ys, req).value;
      var plain := ComplexConversion(t, ys, req.(includeYield := false));
      && plain.Success?
      && !plain.value.yieldFactorApplied
      && plain.value.conversionFactor == withYield.conversionFactor
      && withYield.convertedValue == plain.value.convertedValue * withYield.yieldFactor
  {
  }

  /** A trim yield of 80% applied to 10 units over a row of factor 2 gives 16. */
  lemma TrimYieldExample()
    ensures ComplexConversion(
              [Conversion(1, 10, 20, 2.0, false, None)],
              [YieldFactor(7, "trim", 80.0)],
              ComplexRequest(Some(7), Some(10), Some(20), Some(10.0), true, "trim"))
            == Success(ComplexResponse(10.0, 16.0, 2.0, 0.8, true))
  {
    var t := [Conversion(1, 10, 20, 2.0, false, None)];
    var ys := [YieldFactor(7, "trim", 80.0)];
    assert Candidate(t[0], Direct(10, 20), Some(7));
    assert ys[0].itemId == 7 && ys[0].processType == "trim";
  }
}
