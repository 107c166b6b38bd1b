/**
 The timestamp normalisation the collection wrapper applies to every update
 document before handing it to the Mongo driver (internal/mongo/collection.go,
 `UpdateOne`, `UpdateMany`, `UpdateById`).

 The driver call, its context and its result are not part of this model: an
 update is modelled as the request the wrapper sends. The clock is the parameter
 `now`.
 */
module Collection {

  /** The BSON values the wrapper itself writes or reads; anything else a caller
      puts in a document is an opaque `OtherValue`. */
  datatype Value = TimeValue(instant: int) | ObjectId(hex: string) | OtherValue(text: string)

  /** A `bson.M` document. */
  type Fields = map<string, Value>

  /** `UpdateDocument`: operator name to the fields it applies to. */
  type UpdateDocument = map<string, Fields>

  const SetOperator: string := "$set"
  const SetOnInsertOperator: string := "$setOnInsert"
  const UpdatedAt: string := "updatedAt"
  const CreatedAt: string := "createdAt"
  const IdField: string := "_id"

  /** `fields` with `key` added as `value` when it is missing. */
  function WithDefault(fields: Fields, key: string, value: Value): (r: Fields)
    ensures r.Keys == fields.Keys + {key}
    ensures forall k :: k in fields ==> r[k] == fields[k]
    ensures key !in fields ==> r[key] == value
  {
    if key in fields then fields else fields[key := value]
  }

  /** The three-way branch at the top of `UpdateOne` and `UpdateMany`: stamp
      `updatedAt` into `$set`; failing that, stamp `createdAt` and `updatedAt`
      into `$setOnInsert`; failing that, add `$set` holding only `updatedAt`. */
  function Normalize(update: UpdateDocument, now: int): (r: UpdateDocument)
    ensures r.Keys == update.Keys + {if SetOnInsertOperator in update then SetOnInsertOperator else SetOperator}
    ensures SetOperator in update ==>
      && r[SetOperator].Keys == update[SetOperator].Keys + {UpdatedAt}
      && (UpdatedAt !in update[SetOperator] ==> r[SetOperator][UpdatedAt] == TimeValue(now))
    ensures SetOperator !in update && SetOnInsertOperator in update ==>
      && SetOperator !in r
      && r[SetOnInsertOperator].Keys == update[SetOnInsertOperator].Keys + {CreatedAt, UpdatedAt}
      && (CreatedAt !in update[SetOnInsertOperator] ==> r[SetOnInsertOperator][CreatedAt] == TimeValue(now))
      && (UpdatedAt !in update[SetOnInsertOperator] ==> r[SetOnInsertOperator][UpdatedAt] == TimeValue(now))
    ensures SetOperator !in update && SetOnInsertOperator !in update ==>
      r[SetOperator] == map[UpdatedAt := TimeValue(now)]
    ensures forall op, k :: op in update && k in update[op] ==> op in r && k in r[op] && r[op][k] == update[op][k]
    ensures forall op :: op in update && op != SetOperator && op != SetOnInsertOperator ==> r[op] == update[op]
    ensures SetOperator in update && SetOnInsertOperator in update ==> r[SetOnInsertOperator] == update[SetOnInsertOperator]
  {
    if SetOperator in update then
      update[SetOperator := WithDefault(update[SetOperator], UpdatedAt, TimeValue(now))]
    else if SetOnInsertOperator in update then
      var stamped := WithDefault(WithDefault(update[SetOnInsertOperator], CreatedAt, TimeValue(now)), UpdatedAt, TimeValue(now));
      update[SetOnInsertOperator := stamped]
    else
      update[SetOperator := map[UpdatedAt := TimeValue(now)]]
  }

  /** The shape `Normalize` establishes: the operator it would stamp already holds
      the timestamps it would add. */
  predicate Normalized(update: UpdateDocument) {
    if SetOperator in update then UpdatedAt in update[SetOperator]
    else SetOnInsertOperator in update && CreatedAt in update[SetOnInsertOperator] && UpdatedAt in update[SetOnInsertOperator]
  }

  /** `Normalize` changes exactly the documents that are not yet normalised: its
      fixed points are the normalised documents, whatever the clock says. */
  lemma NormalizeFixedPoints(update: UpdateDocument, now: int)
    ensures Normalize(update, now) == update <==> Normalized(update)
  {
    if Normalized(update) {
      if SetOperator in update {
        assert WithDefault(update[SetOperator], UpdatedAt, TimeValue(now)) == update[SetOperator];
        assert update[SetOperator := update[SetOperator]] == update;
      } else {
        var s := update[SetOnInsertOperator];
        assert WithDefault(WithDefault(s, CreatedAt, TimeValue(now)), UpdatedAt, TimeValue(now)) == s;
        assert update[SetOnInsertOperator := s] == update;
      }
    } else if SetOperator !in update && SetOnInsertOperator !in update {
      assert SetOperator in Normalize(update, now);
    } else if SetOperator in update {
      assert UpdatedAt in Normalize(update, now)[SetOperator];
    } else {
      assert CreatedAt in Normalize(update, now)[SetOnInsertOperator];
      assert UpdatedAt in Normalize(update, now)[SetOnInsertOperator];
    }
  }

  /** Normalising any document yields a normalised one. */
  lemma NormalizeNormalizes(update: UpdateDocument, now: int)
    ensures Normalized(Normalize(update, now))
  {
  }

  /** A second normalisation, even at a later time, changes nothing: no stamp is
      ever overwritten. */
  lemma NormalizeIdempotent(update: UpdateDocument, now: int, later: int)
    ensures Normalize(Normalize(update, now), later) == Normalize(update, now)
  {
    NormalizeNormalizes(update, now);
    NormalizeFixedPoints(Normalize(update, now), later);
  }

  datatype UpdateKind = One | Many

  /** One `*options.UpdateOptions` (upsert, collation, hint, ...) as a document of
      settings. The wrapper never reads them; it forwards them to the driver. */
  datatype UpdateOptions = UpdateOptions(settings: Fields)

  /** The call the wrapper makes on the driver. */
  datatype UpdateRequest = UpdateRequest(kind: UpdateKind, filter: Fields, update: UpdateDocument, opts: seq<UpdateOptions>)

  /** `update` extends `original`: every field of every operator is still there,
      with its value. */
  predicate Extends(update: UpdateDocument, original: UpdateDocument) {
    forall op, k :: op in original && k in original[op] ==> op in update && k in update[op] && update[op][k] == original[op][k]
  }

  /** `UpdateOne(filter, update, opts...)`: the driver receives the filter and the
      options as given and the normalised document. */
  function UpdateOne(filter: Fields, update: UpdateDocument, opts: seq<UpdateOptions>, now: int): (req: UpdateRequest)
    ensures req.kind == One && req.filter == filter && req.opts == opts
    ensures req.update == Normalize(update, now)
    ensures Normalized(req.update) && Extends(req.update, update)
  {
    UpdateRequest(One, filter, Normalize(update, now), opts)
  }

  /** `UpdateMany(filter, update, opts...)`: the same normalisation as `UpdateOne`. */
  function UpdateMany(filter: Fields, update: UpdateDocument, opts: seq<UpdateOptions>, now: int): (req: UpdateRequest)
    ensures req.kind == Many && req.filter == filter && req.opts == opts
    ensures req.update == UpdateOne(filter, update, opts, now).update
  {
    UpdateRequest(Many, filter, Normalize(update, now), opts)
  }

  /** `UpdateById(id, update, opts...)`: `UpdateOne` with the filter `{_id: id}`. */
  function UpdateById(id: string, update: UpdateDocument, opts: seq<UpdateOptions>, now: int): (req: UpdateRequest)
    ensures req == UpdateOne(map[IdField := ObjectId(id)], update, opts, now)
    ensures req.filter.Keys == {IdField} && req.filter[IdField] == ObjectId(id)
  {
    UpdateOne(map[IdField := ObjectId(id)], update, opts, now)
  }
}
