/**
 * The metadata block of `render_recipe_card`: the present metadata fields
 * become lines in a fixed order, and the lines are split over three
 * columns of at most `ceil(n / 3)` lines each.
 */
module CardLayout {
  import opened Values
  import opened Text
  import Translations

  /** A metadata field: its icon, the document key, and the interface label's key. */
  datatype MetaField = MetaField(icon: string, field: string, labelKey: string)

  /** The six fields, in the order the card shows them. */
  const PrepTime := MetaField("⏱️", "prep_time", "prep_time")
  const CookTime := MetaField("🔥", "cook_time", "cook_time")
  const TotalTime := MetaField("⌛", "total_time", "total_time")
  const Servings := MetaField("👥", "servings", "serves")
  const Cuisine := MetaField("🌍", "cuisine", "cuisine")
  const MealType := MetaField("🍽️", "meal_type", "meal_type")

  const MetaFields: seq<MetaField> := [PrepTime, CookTime, TotalTime, Servings, Cuisine, MealType]

  /** The number of columns, `len(st.columns(3))`. */
  const ColumnCount := 3

  /** One line: icon, translated label and the value as `str()` shows it (`show`). */
  function ItemText(f: MetaField, r: Record, show: Value -> string): string {
    f.icon + " " + Translations.Lookup(f.labelKey) + ": " + show(Get(r, f.field))
  }

  /** The fields of `fs` whose value is truthy in `r`, in order. */
  function PresentFields(fs: seq<MetaField>, r: Record): seq<MetaField> {
    if fs == [] then []
    else (if Present(r, fs[0].field) then [fs[0]] else []) + PresentFields(fs[1..], r)
  }

  /** Exactly the present fields are kept, in their order. */
  lemma {:induction false} PresentFieldsSpec(fs: seq<MetaField>, r: Record)
    ensures IsSubsequence(PresentFields(fs, r), fs)
    ensures forall f :: f in PresentFields(fs, r) <==> f in fs && Present(r, f.field)
  {
    if fs != [] {
      PresentFieldsSpec(fs[1..], r);
      assert fs == [fs[0]] + fs[1..];
      if Present(r, fs[0].field) {
        SubsequenceCons(fs[0], PresentFields(fs[1..], r), fs[1..]);
      } else {
        assert PresentFields(fs, r) == PresentFields(fs[1..], r);
        SubsequenceSkip(fs[0], PresentFields(fs[1..], r), fs[1..]);
      }
    }
  }

  function Lines(fs: seq<MetaField>, r: Record, show: Value -> string): (lines: seq<string>)
    ensures |lines| == |fs|
    ensures forall i :: 0 <= i < |fs| ==> lines[i] == ItemText(fs[i], r, show)
  {
    if fs == [] then [] else [ItemText(fs[0], r, show)] + Lines(fs[1..], r, show)
  }

  /** The line a single field contributes: one when its value is truthy, none otherwise. */
  function Step(f: MetaField, r: Record, show: Value -> string): seq<string> {
    if Present(r, f.field) then [ItemText(f, r, show)] else []
  }

  /** The card's metadata lines for the fields `fs`: each field's contribution, in order. */
  function MetadataLines(fs: seq<MetaField>, r: Record, show: Value -> string): seq<string> {
    if fs == [] then [] else Step(fs[0], r, show) + MetadataLines(fs[1..], r, show)
  }

  /** The lines are exactly those of the present fields, in order. */
  lemma {:induction false} MetadataLinesPresent(fs: seq<MetaField>, r: Record, show: Value -> string)
    ensures MetadataLines(fs, r, show) == Lines(PresentFields(fs, r), r, show)
  {
    if fs != [] {
      MetadataLinesPresent(fs[1..], r, show);
      var head := if Present(r, fs[0].field) then [fs[0]] else [];
      LinesAppend(head, PresentFields(fs[1..], r), r, show);
    }
  }

  lemma {:induction false} LinesAppend(a: seq<MetaField>, b: seq<MetaField>, r: Record, show: Value -> string)
    ensures Lines(a + b, r, show) == Lines(a, r, show) + Lines(b, r, show)
  {
    if a == [] {
      assert a + b == b;
    } else {
      assert (a + b)[1..] == a[1..] + b;
      LinesAppend(a[1..], b, r, show);
      Assoc([ItemText(a[0], r, show)], Lines(a[1..], r, show), Lines(b, r, show));
    }
  }

  /** One append of `metadata_items`: the lines of the remaining fields lose their first field. */
  lemma AppendStep(items: seq<string>, fs: seq<MetaField>, r: Record, show: Value -> string)
    requires fs != []
    ensures items + MetadataLines(fs, r, show) == (items + Step(fs[0], r, show)) + MetadataLines(fs[1..], r, show)
  {
    var s, m := Step(fs[0], r, show), MetadataLines(fs[1..], r, show);
    assert MetadataLines(fs, r, show) == s + m;
    Assoc(items, s, m);
  }

  lemma Assoc<T>(a: seq<T>, b: seq<T>, c: seq<T>)
    ensures a + (b + c) == (a + b) + c
  {
  }

  /** One `if recipe.get(field): metadata_items.append(...)` test. */
  method AppendIfPresent(items: seq<string>, f: MetaField, recipe: Record, show: Value -> string)
    returns (items': seq<string>)
    ensures items' == items + Step(f, recipe, show)
  {
    items' := items;
    if Present(recipe, f.field) {
      items' := items' + [ItemText(f, recipe, show)];
    }
  }

  /**
   * The `metadata_items` list, built by the six tests in order: after the
   * `k`-th test, `items` followed by the lines of the fields still to test
   * is the card's whole list.
   */
  method MetadataItems(recipe: Record, show: Value -> string) returns (items: seq<string>)
    ensures items == MetadataLines(MetaFields, recipe, show)
  {
    items := [];
    AppendStep(items, MetaFields[0..], recipe, show);
    assert MetaFields[0..][0] == PrepTime && MetaFields[0..][1..] == MetaFields[1..];
    items := AppendIfPresent(items, PrepTime, recipe, show);
    AppendStep(items, MetaFields[1..], recipe, show);
    assert MetaFields[1..][0] == CookTime && MetaFields[1..][1..] == MetaFields[2..];
    items := AppendIfPresent(items, CookTime, recipe, show);
    AppendStep(items, MetaFields[2..], recipe, show);
    assert MetaFields[2..][0] == TotalTime && MetaFields[2..][1..] == MetaFields[3..];
    items := AppendIfPresent(items, TotalTime, recipe, show);
    AppendStep(items, MetaFields[3..], recipe, show);
    assert MetaFields[3..][0] == Servings && MetaFields[3..][1..] == MetaFields[4..];
    items := AppendIfPresent(items, Servings, recipe, show);
    AppendStep(items, MetaFields[4..], recipe, show);
    assert MetaFields[4..][0] == Cuisine && MetaFields[4..][1..] == MetaFields[5..];
    items := AppendIfPresent(items, Cuisine, recipe, show);
    AppendStep(items, MetaFields[5..], recipe, show);
    assert MetaFields[5..][0] == MealType && MetaFields[5..][1..] == MetaFields[6..];
    items := AppendIfPresent(items, MealType, recipe, show);
    assert items + MetadataLines(MetaFields[6..], recipe, show) == items;
  }

  /** `items_per_col`: ceiling division by the column count, and zero for no items. */
  function ItemsPerColumn(n: nat): (k: nat)
    ensures n == 0 ==> k == 0
    ensures n > 0 ==> k * ColumnCount >= n && (k - 1) * ColumnCount < n
  {
    if n > 0 then (n + ColumnCount - 1) / ColumnCount else 0
  }

  /** Python's `s[lo:hi]` for non-negative bounds: clamped to the sequence, empty when `lo >= hi`. */
  function PySlice<T>(s: seq<T>, lo: nat, hi: nat): seq<T> {
    var h := if hi <= |s| then hi else |s|;
    if lo >= h then [] else s[lo..h]
  }

  function Min(a: nat, b: nat): nat {
    if a <= b then a else b
  }

  /** Column `i`: `items[i*k : min((i+1)*k, n)]`. */
  function Column<T>(items: seq<T>, i: nat): seq<T> {
    var k := ItemsPerColumn(|items|);
    PySlice(items, i * k, Min((i + 1) * k, |items|))
  }

  /**
   * Column `i` is the index range `[min(i*k, n), min((i+1)*k, n))`; the
   * three ranges follow one another, so the columns are disjoint, hold at
   * most `k` items each, and together hold every item in order.
   */
  lemma ColumnsSpec<T>(items: seq<T>)
    ensures var n, k := |items|, ItemsPerColumn(|items|);
      forall i: nat :: i < ColumnCount ==> Column(items, i) == items[Min(i * k, n)..Min((i + 1) * k, n)]
    ensures forall i: nat :: i < ColumnCount ==> |Column(items, i)| <= ItemsPerColumn(|items|)
    ensures Column(items, 0) + Column(items, 1) + Column(items, 2) == items
    ensures items == [] ==> forall i: nat :: i < ColumnCount ==> Column(items, i) == []
  {
    var n, k := |items|, ItemsPerColumn(|items|);
    assert Min(3 * k, n) == n;
    assert items[0..Min(k, n)] + items[Min(k, n)..Min(2 * k, n)] == items[0..Min(2 * k, n)];
    assert items[0..Min(2 * k, n)] + items[Min(2 * k, n)..n] == items[0..n];
  }

  /** The loop over the three columns, collecting the lines each one shows. */
  method DistributeColumns<T>(items: seq<T>) returns (cols: seq<seq<T>>)
    ensures |cols| == ColumnCount
    ensures forall i :: 0 <= i < ColumnCount ==> cols[i] == Column(items, i)
    ensures cols[0] + cols[1] + cols[2] == items
    ensures forall i :: 0 <= i < ColumnCount ==> |cols[i]| <= ItemsPerColumn(|items|)
  {
    var k := if |items| > 0 then (|items| + ColumnCount - 1) / ColumnCount else 0;
    cols := [];
    for i := 0 to ColumnCount
      invariant |cols| == i
      invariant forall j :: 0 <= j < i ==> cols[j] == Column(items, j)
    {
      var hi := Min((i + 1) * k, |items|);
      cols := cols + [PySlice(items, i * k, hi)];
    }
    ColumnsSpec(items);
  }
}
