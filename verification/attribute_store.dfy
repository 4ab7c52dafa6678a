/** Eatery attribute records: the range check applied on load and save, the
    field-by-field merge of `update_eatery`, and `remove_eatery`. */
module AttributeStore {
  import opened Values

  type EateryId = string
  type Record = map<string, Value>
  type Attributes = map<EateryId, Record>

  const AmenityFlags: set<string> := {"power_outlet", "halal_certified", "wifi", "aircon"}

  /** The strings that an amenity flag reads as 1 once lower-cased. No
      character outside ASCII lower-cases into one of them, so ASCII
      lower-casing decides membership exactly as `str.lower` does. */
  const TruthyWords: set<string> := {"true", "yes", "1", "y", "t"}

  datatype AttrError =
    | NotADictionary
    | InvalidRating
    | RatingOutOfRange
    | InvalidPrice
    | NegativePrice
    | EateryMissing(id: EateryId)

  datatype Outcome = Updated | Removed | Failed(error: AttrError)

  /** The first problem `validate_attributes` reports, or `Fine`. */
  datatype Violation =
    | Fine
    | BadRating(id: EateryId)
    | RatingRange(id: EateryId)
    | BadPrice(id: EateryId)
    | PriceRange(id: EateryId)

  predicate RatingOk(rec: Record)
  {
    "rating" in rec ==> ToFloat(rec["rating"]).Some? && 0.0 <= ToFloat(rec["rating"]).value <= 5.0
  }

  predicate PriceOk(rec: Record)
  {
    "price" in rec ==> ToInt(rec["price"]).Some? && ToInt(rec["price"]).value >= 0
  }

  /** What `validate_attributes` accepts: a rating, where present, reads as a
      number in [0, 5]; a price level, where present, as a non-negative integer. */
  predicate ValidAttributes(attrs: Attributes)
  {
    forall id :: id in attrs ==> RatingOk(attrs[id]) && PriceOk(attrs[id])
  }

  /** `validate_attributes`: per record the rating is checked before the price. */
  method ValidateAttributes(attrs: Attributes) returns (v: Violation)
    ensures v.Fine? <==> ValidAttributes(attrs)
    ensures v.BadRating? ==> v.id in attrs && "rating" in attrs[v.id] && ToFloat(attrs[v.id]["rating"]).None?
    ensures v.RatingRange? ==>
      v.id in attrs && "rating" in attrs[v.id] && ToFloat(attrs[v.id]["rating"]).Some?
      && !(0.0 <= ToFloat(attrs[v.id]["rating"]).value <= 5.0)
    ensures v.BadPrice? ==>
      v.id in attrs && RatingOk(attrs[v.id]) && "price" in attrs[v.id] && ToInt(attrs[v.id]["price"]).None?
    ensures v.PriceRange? ==>
      v.id in attrs && RatingOk(attrs[v.id]) && "price" in attrs[v.id] && ToInt(attrs[v.id]["price"]).Some?
      && ToInt(attrs[v.id]["price"]).value < 0
  {
    var todo := attrs.Keys;
    while todo != {}
      invariant todo <= attrs.Keys
      invariant forall id :: id in attrs && id !in todo ==> RatingOk(attrs[id]) && PriceOk(attrs[id])
      decreases todo
    {
      var id :| id in todo;
      var rec := attrs[id];
      if "rating" in rec {
        var rating := ToFloat(rec["rating"]);
        if rating.None? {
          return BadRating(id);
        }
        if !(0.0 <= rating.value <= 5.0) {
          return RatingRange(id);
        }
      }
      if "price" in rec {
        var price := ToInt(rec["price"]);
        if price.None? {
          return BadPrice(id);
        }
        if price.value < 0 {
          return PriceRange(id);
        }
      }
      todo := todo - {id};
    }
    return Fine;
  }

  /** The 0/1 coercion of an amenity flag: booleans and integers by truth
      value, strings by the truthy-word list ignoring case, anything else
      (a float included) as 0. */
  function AmenityFlag(v: Value): (r: int)
    ensures r == 0 || r == 1
    ensures v.Bool? ==> (r == 1 <==> v.b)
    ensures v.Int? ==> (r == 1 <==> v.i != 0)
    ensures v.Str? ==> (r == 1 <==> Lower(v.s) in TruthyWords)
    ensures v.Real? || v.Null? ==> r == 0
  {
    match v
    case Bool(b) => if b then 1 else 0
    case Int(i) => if i != 0 then 1 else 0
    case Str(s) => if Lower(s) in TruthyWords then 1 else 0
    case _ => 0
  }

  /** What a single `key: value` pair of an update stores, or why it is refused. */
  datatype Coerced = Store(value: Value) | Refuse(error: AttrError)

  function CoerceField(key: string, v: Value): (r: Coerced)
    ensures key == "rating" ==>
      (r.Store? <==> ToFloat(v).Some? && 0.0 <= ToFloat(v).value <= 5.0)
    ensures key == "rating" && r.Store? ==> r.value == Real(ToFloat(v).value)
    ensures key == "price" ==> (r.Store? <==> ToInt(v).Some? && ToInt(v).value >= 0)
    ensures key == "price" && r.Store? ==> r.value == Int(ToInt(v).value)
    ensures key in AmenityFlags ==> r == Store(Int(AmenityFlag(v)))
    ensures key != "rating" && key != "price" && key !in AmenityFlags ==> r == Store(v)
  {
    if key == "rating" then
      match ToFloat(v)
      case None => Refuse(InvalidRating)
      case Some(x) => if 0.0 <= x <= 5.0 then Store(Real(x)) else Refuse(RatingOutOfRange)
    else if key == "price" then
      match ToInt(v)
      case None => Refuse(InvalidPrice)
      case Some(n) => if n >= 0 then Store(Int(n)) else Refuse(NegativePrice)
    else if key in AmenityFlags then Store(Int(AmenityFlag(v)))
    else Store(v)
  }

  /** The keys of a Python dict are distinct. */
  predicate DistinctKeys(fields: seq<(string, Value)>)
  {
    forall i, j :: 0 <= i < j < |fields| ==> fields[i].0 != fields[j].0
  }

  /** `r` is what writing `fields` into `rec` in order, stopping at the
      first refused one, leaves: the record, how many fields were written,
      and the refusal. */
  ghost predicate Applied(rec: Record, fields: seq<(string, Value)>, r: (Record, nat, Option<AttrError>))
  {
    Stopped(fields, r) && Wrote(rec, fields, r)
  }

  /** All fields were written, or the one after the written ones is refused. */
  predicate Stopped(fields: seq<(string, Value)>, r: (Record, nat, Option<AttrError>))
  {
    && r.1 <= |fields|
    && (r.2.None? <==> r.1 == |fields|)
    && (r.2.Some? ==> Refused(fields, r.1, r.2.value))
  }

  /** Every written field holds its coerced value, and keys no written field
      names keep their old state. */
  ghost predicate Wrote(rec: Record, fields: seq<(string, Value)>, r: (Record, nat, Option<AttrError>))
  {
    && r.1 <= |fields|
    && (forall i :: 0 <= i < r.1 ==>
          fields[i].0 in r.0 && CoerceField(fields[i].0, fields[i].1) == Store(r.0[fields[i].0]))
    && (forall k :: (forall i :: 0 <= i < r.1 ==> fields[i].0 != k) ==>
          (k in r.0 <==> k in rec) && (k in rec ==> r.0[k] == rec[k]))
  }

  /** The loop of `update_eatery` over the payload's fields. */
  function ApplyFields(rec: Record, fields: seq<(string, Value)>): (r: (Record, nat, Option<AttrError>))
    requires DistinctKeys(fields)
    ensures Applied(rec, fields, r)
    decreases |fields|
  {
    if |fields| == 0 then (rec, 0, None)
    else
      match CoerceField(fields[0].0, fields[0].1)
      case Refuse(e) => (rec, 0, Some(e))
      case Store(v) =>
        var rest := ApplyFields(rec[fields[0].0 := v], fields[1..]);
        StoppedStep(fields, rest);
        WroteStep(rec, fields, v, rest);
        (rest.0, rest.1 + 1, rest.2)
  }

  lemma StoppedStep(fields: seq<(string, Value)>, rest: (Record, nat, Option<AttrError>))
    requires |fields| > 0 && Stopped(fields[1..], rest)
    ensures Stopped(fields, (rest.0, rest.1 + 1, rest.2))
  {
    if rest.2.Some? {
      RefusedShift(fields, rest.1, rest.2.value);
    }
  }

  lemma RefusedShift(fields: seq<(string, Value)>, j: nat, e: AttrError)
    requires |fields| > 0 && Refused(fields[1..], j, e)
    ensures Refused(fields, j + 1, e)
  {
    assert fields[1..][j] == fields[j + 1];
  }

  lemma WroteStep(rec: Record, fields: seq<(string, Value)>, v: Value, rest: (Record, nat, Option<AttrError>))
    requires DistinctKeys(fields) && |fields| > 0 && CoerceField(fields[0].0, fields[0].1) == Store(v)
    requires Wrote(rec[fields[0].0 := v], fields[1..], rest)
    ensures Wrote(rec, fields, (rest.0, rest.1 + 1, rest.2))
  {
    var k0 := fields[0].0;
    assert k0 in rest.0 && rest.0[k0] == v by {
      assert forall i :: 0 <= i < rest.1 ==> fields[1..][i].0 != k0;
    }
    WrittenShift(fields, rest.0, rest.1, v);
    UntouchedShift(rec, fields, v, rest.0, rest.1);
  }

  lemma WrittenShift(fields: seq<(string, Value)>, out: Record, m: nat, v: Value)
    requires m < |fields| && CoerceField(fields[0].0, fields[0].1) == Store(v)
    requires fields[0].0 in out && out[fields[0].0] == v
    requires forall i :: 0 <= i < m ==>
      fields[1..][i].0 in out && CoerceField(fields[1..][i].0, fields[1..][i].1) == Store(out[fields[1..][i].0])
    ensures forall i :: 0 <= i < m + 1 ==>
      fields[i].0 in out && CoerceField(fields[i].0, fields[i].1) == Store(out[fields[i].0])
  {
    forall i | 0 < i < m + 1
      ensures fields[i].0 in out && CoerceField(fields[i].0, fields[i].1) == Store(out[fields[i].0])
    {
      assert fields[i] == fields[1..][i - 1];
    }
  }

  lemma UntouchedShift(rec: Record, fields: seq<(string, Value)>, v: Value, out: Record, m: nat)
    requires m < |fields|
    requires forall k :: (forall i :: 0 <= i < m ==> fields[1..][i].0 != k) ==>
      (k in out <==> k in rec[fields[0].0 := v]) && (k in rec[fields[0].0 := v] ==> out[k] == rec[fields[0].0 := v][k])
    ensures forall k :: (forall i :: 0 <= i < m + 1 ==> fields[i].0 != k) ==>
      (k in out <==> k in rec) && (k in rec ==> out[k] == rec[k])
  {
    forall k | forall i :: 0 <= i < m + 1 ==> fields[i].0 != k
      ensures (k in out <==> k in rec) && (k in rec ==> out[k] == rec[k])
    {
      assert k != fields[0].0;
      forall i | 0 <= i < m ensures fields[1..][i].0 != k {
        assert fields[1..][i] == fields[i + 1];
      }
    }
  }

  /** Field `j` is the one refused, with `e`. */
  predicate Refused(fields: seq<(string, Value)>, j: nat, e: AttrError)
  {
    j < |fields| && CoerceField(fields[j].0, fields[j].1) == Refuse(e)
  }

  /** The first `n` fields are written into `rec` as coerced. */
  predicate Written(fields: seq<(string, Value)>, n: nat, rec: Record)
  {
    n <= |fields| &&
    forall i :: 0 <= i < n ==> fields[i].0 in rec && CoerceField(fields[i].0, fields[i].1) == Store(rec[fields[i].0])
  }

  /** `update_eatery`: `fields` is `None` when the payload is not a
      dictionary. The record is created if absent; the other records stay
      as they were. */
  function UpdateEatery(attrs: Attributes, id: EateryId, fields: Option<seq<(string, Value)>>)
    : (r: (Attributes, Outcome))
    requires fields.Some? ==> DistinctKeys(fields.value)
    ensures fields.None? ==> r == (attrs, Failed(NotADictionary))
    ensures fields.Some? ==> id in r.0 && r.0 - {id} == attrs - {id}
  {
    match fields
    case None => (attrs, Failed(NotADictionary))
    case Some(fs) =>
      var applied := ApplyFields(RecordOf(attrs, id), fs);
      (attrs[id := applied.0], if applied.2.None? then Updated else Failed(applied.2.value))
  }

  /** `attributes.get(id, {})`. */
  function RecordOf(attrs: Attributes, id: EateryId): Record
  {
    if id in attrs then attrs[id] else map[]
  }

  /** An update succeeds exactly when every field is accepted, and then all
      are written; a refused update names the first refused field, and
      every field before it stays written. */
  lemma UpdateReports(attrs: Attributes, id: EateryId, fs: seq<(string, Value)>)
    requires DistinctKeys(fs)
    ensures var r := UpdateEatery(attrs, id, Some(fs));
      && (r.1 == Updated <==> forall i :: 0 <= i < |fs| ==> CoerceField(fs[i].0, fs[i].1).Store?)
      && (r.1.Updated? ==> Written(fs, |fs|, r.0[id]))
      && (r.1.Failed? ==> exists j :: 0 <= j < |fs| && Refused(fs, j, r.1.error) && Written(fs, j, r.0[id]))
  {
    var applied := ApplyFields(RecordOf(attrs, id), fs);
    ApplyOutcome(RecordOf(attrs, id), fs);
    assert UpdateEatery(attrs, id, Some(fs)).0[id] == applied.0;
  }

  /** An update never lets an out-of-range rating or price in. */
  lemma UpdateKeepsValid(attrs: Attributes, id: EateryId, fields: Option<seq<(string, Value)>>)
    requires fields.Some? ==> DistinctKeys(fields.value)
    requires ValidAttributes(attrs)
    ensures ValidAttributes(UpdateEatery(attrs, id, fields).0)
  {
    if fields.Some? {
      RecordStaysValid(RecordOf(attrs, id), fields.value);
    }
  }

  /** The fields written, and the refusal, in the terms `update_eatery`
      reports them. */
  lemma ApplyOutcome(rec: Record, fs: seq<(string, Value)>)
    requires DistinctKeys(fs)
    ensures var applied := ApplyFields(rec, fs);
      && Written(fs, applied.1, applied.0)
      && (applied.2.Some? ==> Refused(fs, applied.1, applied.2.value))
      && (applied.2.None? <==> forall i :: 0 <= i < |fs| ==> CoerceField(fs[i].0, fs[i].1).Store?)
  {
  }

  /** Only range-checked ratings and prices are ever written. */
  lemma {:induction false} RecordStaysValid(rec: Record, fields: seq<(string, Value)>)
    requires DistinctKeys(fields)
    ensures RatingOk(rec) && PriceOk(rec) ==>
      RatingOk(ApplyFields(rec, fields).0) && PriceOk(ApplyFields(rec, fields).0)
    decreases |fields|
  {
    if |fields| > 0 {
      match CoerceField(fields[0].0, fields[0].1)
      case Refuse(e) =>
      case Store(v) =>
        var rec' := rec[fields[0].0 := v];
        assert RatingOk(rec) && PriceOk(rec) ==> RatingOk(rec') && PriceOk(rec');
        RecordStaysValid(rec', fields[1..]);
    }
  }

  /** `remove_eatery`: rejects an unknown id, otherwise deletes the record. */
  function RemoveEatery(attrs: Attributes, id: EateryId): (r: (Attributes, Outcome))
    ensures r.1 == Removed <==> id in attrs
    ensures r.1.Failed? ==> r == (attrs, Failed(EateryMissing(id)))
    ensures r.1.Removed? ==> r.0.Keys == attrs.Keys - {id} && forall k :: k in r.0 ==> r.0[k] == attrs[k]
    ensures ValidAttributes(attrs) ==> ValidAttributes(r.0)
  {
    if id !in attrs then (attrs, Failed(EateryMissing(id))) else (attrs - {id}, Removed)
  }

  /** Updating an eatery that did not exist and then removing it restores the
      attributes, whether or not the update was refused part-way. */
  lemma UpdateThenRemove(attrs: Attributes, id: EateryId, fields: seq<(string, Value)>)
    requires id !in attrs && DistinctKeys(fields)
    ensures RemoveEatery(UpdateEatery(attrs, id, Some(fields)).0, id) == (attrs, Removed)
  {
    var a := UpdateEatery(attrs, id, Some(fields)).0;
    assert a - {id} == attrs;
  }
}
