/**
 * A recipe document as the application holds it in memory, and the
 * coercion `save_recipe_to_db` applies to it in place before insertion.
 */
module Recipes {
  import opened Values

  /** The fields that are forced to be lists before a save. */
  predicate IsListField(k: string) {
    k == "ingredients" || k == "instructions" || k == "keywords"
  }

  /** The keys a saved document always has. */
  const SaveKeys: set<string> := {"added_on", "ingredients", "instructions", "keywords"}

  /** `isinstance(recipe_data[field], list)`, for a present field. */
  predicate HoldsList(r: Record, field: string) {
    field in r && r[field].Arr?
  }

  /**
   * One coercion step: a field that is missing or not a list becomes the
   * empty list; a list is kept as it is; nothing else is touched.
   */
  function EnsureList(r: Record, field: string): (r': Record)
    ensures HoldsList(r', field)
    ensures HoldsList(r, field) ==> r'[field] == r[field]
    ensures !HoldsList(r, field) ==> r'[field] == Arr([])
    ensures r'.Keys == r.Keys + {field}
    ensures forall k :: k in r && k != field ==> r'[k] == r[k]
  {
    if HoldsList(r, field) then r else r[field := Arr([])]
  }

  /** The value of field `k` after a save at time `now`. */
  function FieldAfterSave(r: Record, k: string, now: int): Value
    requires k in r || k in SaveKeys
  {
    if k == "added_on" then Time(now)
    else if IsListField(k) then (if HoldsList(r, k) then r[k] else Arr([]))
    else r[k]
  }

  /** The document as `save_recipe_to_db` leaves it, given the clock reading `now`. */
  function SaveCoerced(r: Record, now: int): Record {
    map k | k in r.Keys + SaveKeys :: FieldAfterSave(r, k, now)
  }

  /**
   * After a save the three list fields hold lists, a field that already
   * held a list keeps it, `added_on` is the save time, and every other
   * field is exactly as before.
   */
  lemma SaveCoercedSpec(r: Record, now: int)
    ensures var r' := SaveCoerced(r, now);
      && r'.Keys == r.Keys + SaveKeys
      && r'["added_on"] == Time(now)
      && (forall k :: IsListField(k) ==> HoldsList(r', k))
      && (forall k :: IsListField(k) && HoldsList(r, k) ==> r'[k] == r[k])
      && (forall k :: IsListField(k) && !HoldsList(r, k) ==> r'[k] == Arr([]))
      && (forall k :: k in r && k != "added_on" && !IsListField(k) ==> r'[k] == r[k])
  {
  }

  /** The time stamp and the three coercion steps of `save_recipe_to_db`, in order. */
  function StampSteps(r: Record, now: int): Record {
    EnsureList(EnsureList(EnsureList(r["added_on" := Time(now)], "ingredients"), "instructions"), "keywords")
  }

  lemma StampStepsAt(r: Record, now: int, k: string)
    requires k in r.Keys + SaveKeys
    ensures k in StampSteps(r, now) && StampSteps(r, now)[k] == FieldAfterSave(r, k, now)
  {
    var r0 := r["added_on" := Time(now)];
    var r1 := EnsureList(r0, "ingredients");
    var r2 := EnsureList(r1, "instructions");
    if k == "added_on" {
      assert r0[k] == Time(now);
    } else if k == "ingredients" {
      assert !HoldsList(r0, k) || r0[k] == FieldAfterSave(r, k, now);
    } else if k == "instructions" {
      assert !HoldsList(r1, k) || r1[k] == FieldAfterSave(r, k, now);
    } else if k == "keywords" {
      assert !HoldsList(r2, k) || r2[k] == FieldAfterSave(r, k, now);
    } else {
      assert r2[k] == r[k];
    }
  }

  /** The steps give `SaveCoerced`. */
  lemma CoercionSteps(r: Record, now: int)
    ensures StampSteps(r, now) == SaveCoerced(r, now)
  {
    var r3, want := StampSteps(r, now), SaveCoerced(r, now);
    assert r3.Keys == want.Keys;
    forall k | k in r3
      ensures r3[k] == want[k]
    {
      StampStepsAt(r, now, k);
    }
  }

  /**
   * Saving twice (a retry after a failed insert keeps the first coercion in
   * the shared document) gives the same document as saving once.
   */
  lemma SaveCoercedIdempotent(r: Record, t1: int, t2: int)
    ensures SaveCoerced(SaveCoerced(r, t1), t2) == SaveCoerced(r, t2)
  {
    var a := SaveCoerced(r, t1);
    assert a.Keys + SaveKeys == r.Keys + SaveKeys;
    forall k | k in r.Keys + SaveKeys
      ensures FieldAfterSave(a, k, t2) == FieldAfterSave(r, k, t2)
    {
    }
  }

  /**
   * A dictionary shared between the session (the extracted recipe) and the
   * save routine; the save routine changes it in place.
   */
  class RecipeDoc {
    var fields: Record

    constructor (r: Record)
      ensures fields == r
    {
      fields := r;
    }

    /** The coercion block of `save_recipe_to_db`, step by step. */
    method StampForSave(now: int)
      modifies this
      ensures fields == SaveCoerced(old(fields), now)
    {
      ghost var r := fields;
      fields := fields["added_on" := Time(now)];
      ghost var r0 := fields;
      if "ingredients" !in fields || !fields["ingredients"].Arr? {
        fields := fields["ingredients" := Arr([])];
      }
      assert fields == EnsureList(r0, "ingredients");
      ghost var r1 := fields;
      if "instructions" !in fields || !fields["instructions"].Arr? {
        fields := fields["instructions" := Arr([])];
      }
      assert fields == EnsureList(r1, "instructions");
      ghost var r2 := fields;
      if "keywords" !in fields || !fields["keywords"].Arr? {
        fields := fields["keywords" := Arr([])];
      }
      assert fields == EnsureList(r2, "keywords") == StampSteps(r, now);
      CoercionSteps(r, now);
    }
  }

  /**
   * `save_recipe_to_db`: coerce the shared document, then hand it to the
   * database. `insert` stands for `insert_one`; `None` is a database error,
   * reported as no id. The coercion stays in the document either way.
   */
  method SaveRecipeToDb(doc: RecipeDoc, now: int, insert: Record -> Option<string>) returns (id: Option<string>)
    modifies doc
    ensures doc.fields == SaveCoerced(old(doc.fields), now)
    ensures id == insert(doc.fields)
  {
    doc.StampForSave(now);
    id := insert(doc.fields);
  }
}
