/**
 * The filters of the "my recipes" tab: the cuisine and meal-type options
 * offered to the reader, built from the loaded records, and the filtering
 * of the records by the chosen options.
 */
module Browse {
  import opened Values
  import opened Text

  /** The two filtered fields. */
  const CuisineField := "cuisine"
  const MealTypeField := "meal_type"

  /**
   * The option a record offers for `field`: its value with surrounding
   * white space removed, if the value is a string that is not blank.
   */
  function OptionOf(r: Record, field: string): (o: Option<string>)
    ensures o.Some? ==> Get(r, field).Str? && o.value == Strip(Get(r, field).s) && o.value != ""
    ensures o.None? ==> !Get(r, field).Str? || Strip(Get(r, field).s) == ""
  {
    var v := Get(r, field);
    if Truthy(v) && v.Str? then
      var stripped := Strip(v.s);
      if stripped != "" then Some(stripped) else None
    else None
  }

  /** The option as a set of at most one element. */
  function AsSet(o: Option<string>): set<string> {
    match o
    case Some(t) => {t}
    case None => {}
  }

  /** The options the records `rs` offer for `field`, record by record. */
  function Offered(rs: seq<Record>, field: string): set<string> {
    if rs == [] then {}
    else Offered(rs[..|rs| - 1], field) + AsSet(OptionOf(rs[|rs| - 1], field))
  }

  lemma OfferedStep(rs: seq<Record>, i: nat, field: string)
    requires i < |rs|
    ensures Offered(rs[..i + 1], field) == Offered(rs[..i], field) + AsSet(OptionOf(rs[i], field))
  {
    assert rs[..i + 1][..i] == rs[..i];
  }

  /** An option is offered exactly when some record offers it. */
  lemma OfferedExactly(rs: seq<Record>, field: string)
    ensures forall x :: x in Offered(rs, field) <==> exists i :: 0 <= i < |rs| && OptionOf(rs[i], field) == Some(x)
  {
    forall x | x in Offered(rs, field)
      ensures exists i :: 0 <= i < |rs| && OptionOf(rs[i], field) == Some(x)
    {
      var i := OfferedWitness(rs, field, x);
    }
    forall i | 0 <= i < |rs| && OptionOf(rs[i], field).Some?
      ensures OptionOf(rs[i], field).value in Offered(rs, field)
    {
      OfferedAt(rs, field, i);
    }
  }

  lemma {:induction false} OfferedWitness(rs: seq<Record>, field: string, x: string) returns (i: nat)
    requires x in Offered(rs, field)
    ensures i < |rs| && OptionOf(rs[i], field) == Some(x)
  {
    var init := rs[..|rs| - 1];
    if x in Offered(init, field) {
      i := OfferedWitness(init, field, x);
      assert rs[i] == init[i];
    } else {
      i := |rs| - 1;
    }
  }

  lemma {:induction false} OfferedAt(rs: seq<Record>, field: string, i: nat)
    requires i < |rs| && OptionOf(rs[i], field).Some?
    ensures OptionOf(rs[i], field).value in Offered(rs, field)
  {
    var init := rs[..|rs| - 1];
    if i < |init| {
      assert init[i] == rs[i];
      OfferedAt(init, field, i);
    }
  }

  /** `m` comes first among the strings of `s`. */
  predicate Smallest(m: string, s: set<string>) {
    m in s && forall y :: y in s && y != m ==> LexLess(m, y)
  }

  lemma {:induction false} SmallestExists(s: set<string>)
    requires s != {}
    ensures exists m :: Smallest(m, s)
    decreases |s|
  {
    var x :| x in s;
    if s - {x} == {} {
      assert s == {x};
      assert Smallest(x, s);
    } else {
      SmallestExists(s - {x});
      var m :| Smallest(m, s - {x});
      if LexLess(x, m) {
        forall y | y in s && y != x
          ensures LexLess(x, y)
        {
          if y != m {
            LexTransitive(x, m, y);
          }
        }
        assert Smallest(x, s);
      } else {
        LexTotal(x, m);
        assert Smallest(m, s);
      }
    }
  }

  lemma SmallestUnique(s: set<string>)
    ensures forall a, b :: Smallest(a, s) && Smallest(b, s) ==> a == b
  {
    forall a, b | Smallest(a, s) && Smallest(b, s)
      ensures a == b
    {
      if a != b {
        LexAsymmetric(a, b);
      }
    }
  }

  /** `sorted(list(s))`: the strings of `s` in increasing order. */
  function SortedOf(s: set<string>): (xs: seq<string>)
    ensures StrictlySorted(xs)
    ensures forall x :: x in xs <==> x in s
    decreases |s|
  {
    if s == {} then []
    else
      SmallestExists(s);
      SmallestUnique(s);
      var m :| Smallest(m, s);
      var rest := SortedOf(s - {m});
      assert forall j :: 0 <= j < |rest| ==> rest[j] in rest;
      assert forall j :: 0 <= j < |rest| ==> rest[j] in s - {m};
      assert forall j :: 0 <= j < |rest| ==> LexLess(m, rest[j]);
      [m] + rest
  }

  /** A strictly sorted list repeats no option. */
  lemma StrictlySortedDistinct(xs: seq<string>)
    requires StrictlySorted(xs)
    ensures forall i, j :: 0 <= i < j < |xs| ==> xs[i] != xs[j]
  {
    forall i, j | 0 <= i < j < |xs|
      ensures xs[i] != xs[j]
    {
      if xs[i] == xs[j] {
        LexIrreflexive(xs[i]);
      }
    }
  }

  /**
   * The loop that collects `cuisines_set` and `meal_types_set`, followed by
   * the sorting of both sets. Each list holds exactly the options the
   * records offer, each once, in increasing order.
   */
  method CollectFilterOptions(recipes: seq<Record>) returns (cuisines: seq<string>, mealTypes: seq<string>)
    ensures cuisines == SortedOf(Offered(recipes, CuisineField))
    ensures mealTypes == SortedOf(Offered(recipes, MealTypeField))
    ensures StrictlySorted(cuisines) && StrictlySorted(mealTypes)
    ensures forall x :: x in cuisines <==> exists i :: 0 <= i < |recipes| && OptionOf(recipes[i], CuisineField) == Some(x)
    ensures forall x :: x in mealTypes <==> exists i :: 0 <= i < |recipes| && OptionOf(recipes[i], MealTypeField) == Some(x)
  {
    var cuisinesSet: set<string> := {};
    var mealTypesSet: set<string> := {};
    for i := 0 to |recipes|
      invariant cuisinesSet == Offered(recipes[..i], CuisineField)
      invariant mealTypesSet == Offered(recipes[..i], MealTypeField)
    {
      OfferedStep(recipes, i, CuisineField);
      OfferedStep(recipes, i, MealTypeField);
      var r := recipes[i];
      var cuisineVal := Get(r, CuisineField);
      if Truthy(cuisineVal) && cuisineVal.Str? {
        var strippedCuisine := Strip(cuisineVal.s);
        if strippedCuisine != "" {
          cuisinesSet := cuisinesSet + {strippedCuisine};
        }
      }
      assert cuisinesSet == Offered(recipes[..i], CuisineField) + AsSet(OptionOf(r, CuisineField));
      var mealTypeVal := Get(r, MealTypeField);
      if Truthy(mealTypeVal) && mealTypeVal.Str? {
        var strippedMealType := Strip(mealTypeVal.s);
        if strippedMealType != "" {
          mealTypesSet := mealTypesSet + {strippedMealType};
        }
      }
    }
    assert recipes[..|recipes|] == recipes;
    cuisines := SortedOf(cuisinesSet);
    mealTypes := SortedOf(mealTypesSet);
    OfferedExactly(recipes, CuisineField);
    OfferedExactly(recipes, MealTypeField);
  }

  /** `[r for r in rs if r.get(field) == selected]`: the raw value must equal the option. */
  function KeepRaw(rs: seq<Record>, field: string, selected: string): seq<Record> {
    if rs == [] then []
    else (if Get(rs[0], field) == Str(selected) then [rs[0]] else []) + KeepRaw(rs[1..], field, selected)
  }

  /**
   * The records kept are those of `rs`, in order, and each record is kept
   * as often as it occurs when its raw value equals the option, otherwise
   * never.
   */
  lemma {:induction false} KeepRawSpec(rs: seq<Record>, field: string, selected: string)
    ensures IsSubsequence(KeepRaw(rs, field, selected), rs)
    ensures forall r :: Occurrences(KeepRaw(rs, field, selected), r)
                        == if Get(r, field) == Str(selected) then Occurrences(rs, r) else 0
  {
    if rs != [] {
      var rest := KeepRaw(rs[1..], field, selected);
      KeepRawSpec(rs[1..], field, selected);
      assert rs == [rs[0]] + rs[1..];
      if Get(rs[0], field) == Str(selected) {
        SubsequenceCons(rs[0], rest, rs[1..]);
        forall r
          ensures Occurrences(KeepRaw(rs, field, selected), r) == if Get(r, field) == Str(selected) then Occurrences(rs, r) else 0
        {
          OccurrencesAppend([rs[0]], rest, r);
        }
      } else {
        assert KeepRaw(rs, field, selected) == rest;
        SubsequenceSkip(rs[0], rest, rs[1..]);
      }
    }
  }

  /** One filter of the tab as written: the "all" label keeps every record, any other option keeps raw matches. */
  function FilterAsWritten(rs: seq<Record>, field: string, selected: string, allLabel: string): seq<Record> {
    if selected != allLabel then KeepRaw(rs, field, selected) else rs
  }

  /** Choosing "all" leaves the records as they are. */
  lemma FilterAllIsIdentity(rs: seq<Record>, field: string, allLabel: string)
    ensures FilterAsWritten(rs, field, allLabel, allLabel) == rs
    ensures Filter(rs, field, allLabel, allLabel) == rs
  {
  }

  /**
   * An option offered for a record whose value carries white space after
   * it selects nothing: the option is the stripped value, the filter
   * compares the raw one.
   */
  lemma PaddedOptionSelectsNothing(t: string, allLabel: string)
    requires Trimmed(t) && t != "" && t != allLabel
    ensures var rs := [map[CuisineField := Str(t + " ")]];
      && Offered(rs, CuisineField) == {t}
      && FilterAsWritten(rs, CuisineField, t, allLabel) == []
  {
    var rs := [map[CuisineField := Str(t + " ")]];
    StripPadded(t, " ");
    assert rs[..0] == [] && rs[1..] == [];
    assert Get(rs[0], CuisineField) == Str(t + " ") != Str(t);
    assert KeepRaw(rs, CuisineField, t) == [] + KeepRaw([], CuisineField, t);
  }

  /** The record `{"cuisine": "Italian "}` offers "Italian", and choosing it shows no recipe. */
  lemma OfferedOptionSelectsNothing()
    ensures var rs := [map[CuisineField := Str("Italian ")]];
      && Offered(rs, CuisineField) == {"Italian"}
      && FilterAsWritten(rs, CuisineField, "Italian", "all") == []
  {
    PaddedOptionSelectsNothing("Italian", "all");
    assert "Italian" + " " == "Italian ";
  }

  /** The option a record offers equals `selected`: the comparison the option list calls for. */
  function KeepMatching(rs: seq<Record>, field: string, selected: string): seq<Record> {
    if rs == [] then []
    else (if OptionOf(rs[0], field) == Some(selected) then [rs[0]] else []) + KeepMatching(rs[1..], field, selected)
  }

  /** The records kept are, in order and with their multiplicity, those that offer the chosen option. */
  lemma {:induction false} KeepMatchingSpec(rs: seq<Record>, field: string, selected: string)
    ensures IsSubsequence(KeepMatching(rs, field, selected), rs)
    ensures forall r :: Occurrences(KeepMatching(rs, field, selected), r)
                        == if OptionOf(r, field) == Some(selected) then Occurrences(rs, r) else 0
  {
    if rs != [] {
      var rest := KeepMatching(rs[1..], field, selected);
      KeepMatchingSpec(rs[1..], field, selected);
      assert rs == [rs[0]] + rs[1..];
      if OptionOf(rs[0], field) == Some(selected) {
        SubsequenceCons(rs[0], rest, rs[1..]);
        forall r
          ensures Occurrences(KeepMatching(rs, field, selected), r) == if OptionOf(r, field) == Some(selected) then Occurrences(rs, r) else 0
        {
          OccurrencesAppend([rs[0]], rest, r);
        }
      } else {
        assert KeepMatching(rs, field, selected) == rest;
        SubsequenceSkip(rs[0], rest, rs[1..]);
      }
    }
  }

  /** One filter of the tab, comparing options: "all" keeps every record. */
  function Filter(rs: seq<Record>, field: string, selected: string, allLabel: string): seq<Record> {
    if selected != allLabel then KeepMatching(rs, field, selected) else rs
  }

  /** A record that offers the option is kept. */
  lemma {:induction false} KeepMatchingKeeps(rs: seq<Record>, field: string, selected: string, i: nat)
    requires i < |rs| && OptionOf(rs[i], field) == Some(selected)
    ensures rs[i] in KeepMatching(rs, field, selected)
  {
    if i > 0 {
      KeepMatchingKeeps(rs[1..], field, selected, i - 1);
    }
  }

  /** Every option the list offers selects at least one record. */
  lemma OfferedOptionSelects(rs: seq<Record>, field: string, selected: string, allLabel: string)
    requires selected in Offered(rs, field)
    ensures Filter(rs, field, selected, allLabel) != []
  {
    OfferedExactly(rs, field);
    var i :| 0 <= i < |rs| && OptionOf(rs[i], field) == Some(selected);
    KeepMatchingKeeps(rs, field, selected, i);
  }

  /** The tab's two filters as written, cuisine first, each comparing the raw value. */
  function ApplyFiltersAsWritten(rs: seq<Record>, cuisine: string, mealType: string, allLabel: string): seq<Record> {
    FilterAsWritten(FilterAsWritten(rs, CuisineField, cuisine, allLabel), MealTypeField, mealType, allLabel)
  }

  /** As written, a record survives both filters exactly when its raw values equal each option that is not "all". */
  lemma ApplyFiltersAsWrittenSpec(rs: seq<Record>, cuisine: string, mealType: string, allLabel: string)
    ensures IsSubsequence(ApplyFiltersAsWritten(rs, cuisine, mealType, allLabel), rs)
    ensures forall r :: r in ApplyFiltersAsWritten(rs, cuisine, mealType, allLabel) <==>
      && r in rs
      && (cuisine == allLabel || Get(r, CuisineField) == Str(cuisine))
      && (mealType == allLabel || Get(r, MealTypeField) == Str(mealType))
  {
    var mid := FilterAsWritten(rs, CuisineField, cuisine, allLabel);
    var out := FilterAsWritten(mid, MealTypeField, mealType, allLabel);
    if cuisine != allLabel {
      KeepRawSpec(rs, CuisineField, cuisine);
    } else {
      SubsequenceRefl(rs);
    }
    if mealType != allLabel {
      KeepRawSpec(mid, MealTypeField, mealType);
    } else {
      SubsequenceRefl(mid);
    }
    SubsequenceTransitive(out, mid, rs);
    forall r
      ensures r in out <==> r in mid && (mealType == allLabel || Get(r, MealTypeField) == Str(mealType))
    {
      OccurrencesIn(out, r);
      OccurrencesIn(mid, r);
    }
    forall r
      ensures r in mid <==> r in rs && (cuisine == allLabel || Get(r, CuisineField) == Str(cuisine))
    {
      OccurrencesIn(mid, r);
      OccurrencesIn(rs, r);
    }
  }

  /** Both corrected filters in turn, cuisine first. */
  function ApplyFilters(rs: seq<Record>, cuisine: string, mealType: string, allLabel: string): seq<Record> {
    Filter(Filter(rs, CuisineField, cuisine, allLabel), MealTypeField, mealType, allLabel)
  }

  /** With the corrected filters, a record survives both exactly when it offers each option that is not "all". */
  lemma ApplyFiltersSpec(rs: seq<Record>, cuisine: string, mealType: string, allLabel: string)
    ensures IsSubsequence(ApplyFilters(rs, cuisine, mealType, allLabel), rs)
    ensures forall r :: r in ApplyFilters(rs, cuisine, mealType, allLabel) <==>
      && r in rs
      && (cuisine == allLabel || OptionOf(r, CuisineField) == Some(cuisine))
      && (mealType == allLabel || OptionOf(r, MealTypeField) == Some(mealType))
  {
    var mid := Filter(rs, CuisineField, cuisine, allLabel);
    var out := Filter(mid, MealTypeField, mealType, allLabel);
    if cuisine != allLabel {
      KeepMatchingSpec(rs, CuisineField, cuisine);
    } else {
      SubsequenceRefl(rs);
    }
    if mealType != allLabel {
      KeepMatchingSpec(mid, MealTypeField, mealType);
    } else {
      SubsequenceRefl(mid);
    }
    SubsequenceTransitive(out, mid, rs);
    forall r
      ensures r in out <==> r in mid && (mealType == allLabel || OptionOf(r, MealTypeField) == Some(mealType))
    {
      OccurrencesIn(out, r);
      OccurrencesIn(mid, r);
    }
    forall r
      ensures r in mid <==> r in rs && (cuisine == allLabel || OptionOf(r, CuisineField) == Some(cuisine))
    {
      OccurrencesIn(mid, r);
      OccurrencesIn(rs, r);
    }
  }

  lemma {:induction false} OccurrencesIn<T>(s: seq<T>, x: T)
    ensures x in s <==> Occurrences(s, x) > 0
  {
    if s != [] {
      OccurrencesIn(s[1..], x);
      assert s == [s[0]] + s[1..];
    }
  }

  lemma {:induction false} SubsequenceTransitive<T>(a: seq<T>, b: seq<T>, c: seq<T>)
    requires IsSubsequence(a, b) && IsSubsequence(b, c)
    ensures IsSubsequence(a, c)
    decreases |c|
  {
    if a != [] && b != [] && c != [] {
      if b[0] == c[0] {
        if a[0] == b[0] {
          SubsequenceTransitive(a[1..], b[1..], c[1..]);
        } else {
          SubsequenceTransitive(a, b[1..], c[1..]);
        }
      } else {
        SubsequenceTransitive(a, b, c[1..]);
        if a[0] == c[0] {
          SubsequenceDropHead(a, c[1..]);
        }
      }
    }
  }
}
