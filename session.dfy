/**
 * The session state the application keeps between reruns: the extracted
 * recipe shown for preview, the "saved" flag, the per-card delete
 * confirmation flags, and the cached recipe lists of the browse tab.
 */
module Session {
  import opened Values
  import opened Recipes

  /** The sort keys the browse tab offers: `sort_options_map`'s values. */
  const SortKeys: set<string> := {"newest", "oldest", "title"}

  /** The session key of the list cached for a sort key: `f"recipes_{sort_key}"`. */
  function ListKey(sortKey: string): string {
    "recipes_" + sortKey
  }

  /** The session keys of the three cached lists. */
  const ListKeys: set<string> := {"recipes_newest", "recipes_oldest", "recipes_title"}

  lemma ListKeysAreListKey()
    ensures forall s :: s in SortKeys ==> ListKey(s) in ListKeys
  {
    assert ListKey("newest") == "recipes_newest";
    assert ListKey("oldest") == "recipes_oldest";
    assert ListKey("title") == "recipes_title";
  }

  /** The key the save, delete and refresh handlers remove from the session. */
  const StaleKey := "recipes_cache"

  type Lists = map<string, seq<Record>>

  /**
   * Loading the list for a sort key: a cached list is shown again;
   * otherwise the list `get_all_recipes` returns (`fetched`) is cached
   * and shown. The result is the new cache and the shown list.
   */
  function LoadList(lists: Lists, sortKey: string, fetched: seq<Record>): (r: (Lists, seq<Record>))
    ensures ListKey(sortKey) in r.0 && r.0[ListKey(sortKey)] == r.1
    ensures ListKey(sortKey) in lists ==> r == (lists, lists[ListKey(sortKey)])
    ensures ListKey(sortKey) !in lists ==> r == (lists[ListKey(sortKey) := fetched], fetched)
  {
    var key := ListKey(sortKey);
    if key in lists then (lists, lists[key]) else (lists[key := fetched], fetched)
  }

  /** Once a list is cached, later loads show it whatever the database would now return. */
  lemma LoadListSticks(lists: Lists, sortKey: string, fetched1: seq<Record>, fetched2: seq<Record>)
    ensures var (after, shown) := LoadList(lists, sortKey, fetched1);
      LoadList(after, sortKey, fetched2) == (after, shown)
  {
  }

  /** Invalidation as the handlers write it: `recipes_cache` is removed when present. */
  function InvalidateAsWritten(lists: Lists): (r: Lists)
    ensures StaleKey !in r
    ensures forall k :: k in r <==> k in lists && k != StaleKey
  {
    if StaleKey in lists then lists - {StaleKey} else lists
  }

  /** No cached list is ever stored under `recipes_cache`, so the invalidation as written changes nothing. */
  lemma InvalidateAsWrittenKeepsLists(lists: Lists)
    requires lists.Keys <= ListKeys
    ensures InvalidateAsWritten(lists) == lists
  {
    assert StaleKey !in ListKeys;
  }

  /**
   * After a save, the list that was cached before it is shown again: a
   * cached empty list stays empty although the database now holds a
   * recipe.
   */
  lemma StaleListAfterSave(saved: Record)
    ensures var lists := map[ListKey("newest") := []];
      LoadList(InvalidateAsWritten(lists), "newest", [saved]).1 == []
  {
    var lists: Lists := map[ListKey("newest") := []];
    assert ListKey("newest") == "recipes_newest";
    InvalidateAsWrittenKeepsLists(lists);
  }

  /** Invalidation that drops the cached lists, as the handlers' comments intend. */
  function Invalidate(lists: Lists): (r: Lists)
    ensures forall k :: k in r <==> k in lists && k !in ListKeys
    ensures forall k :: k in r ==> r[k] == lists[k]
  {
    lists - ListKeys
  }

  /** After invalidation every sort order is loaded afresh from the database. */
  lemma InvalidateRefetches(lists: Lists, sortKey: string, fetched: seq<Record>)
    requires sortKey in SortKeys
    ensures LoadList(Invalidate(lists), sortKey, fetched).1 == fetched
  {
    ListKeysAreListKey();
  }

  /** A click on a card's delete controls (at most one per rerun). */
  datatype Click = NoClick | PressDelete | PressConfirm | PressCancel

  /**
   * One rerun of a card's delete controls, from the confirmation flag:
   * the new flag and whether `delete_recipe_from_db` is called. The
   * confirm and cancel buttons exist only while the flag is set, the
   * delete button only while it is not.
   */
  function DeleteStep(confirming: bool, click: Click): (r: (bool, bool))
    ensures r.1 <==> confirming && click == PressConfirm
    ensures r.0 <==> (confirming && click != PressConfirm && click != PressCancel) || (!confirming && click == PressDelete)
  {
    if confirming then
      match click
      case PressConfirm => (false, true)
      case PressCancel => (false, false)
      case _ => (true, false)
    else if click == PressDelete then (true, false)
    else (false, false)
  }

  /** The flag after a sequence of reruns, starting from the initial `False`. */
  function FlagAfter(clicks: seq<Click>): bool {
    if clicks == [] then false else DeleteStep(FlagAfter(clicks[..|clicks| - 1]), clicks[|clicks| - 1]).0
  }

  /** A delete press at `j` that no later confirm or cancel has answered. */
  predicate PendingFrom(clicks: seq<Click>, j: nat) {
    j < |clicks| && clicks[j] == PressDelete
    && forall k :: j < k < |clicks| ==> clicks[k] != PressConfirm && clicks[k] != PressCancel
  }

  /** The flag is set exactly when a delete press is still unanswered. */
  lemma {:induction false} FlagMeansPending(clicks: seq<Click>)
    ensures FlagAfter(clicks) <==> exists j: nat :: PendingFrom(clicks, j)
  {
    if clicks != [] {
      var init, last := clicks[..|clicks| - 1], clicks[|clicks| - 1];
      FlagMeansPending(init);
      if FlagAfter(clicks) {
        if last == PressDelete {
          assert PendingFrom(clicks, |clicks| - 1);
        } else {
          var j: nat :| PendingFrom(init, j);
          assert PendingFrom(clicks, j);
        }
      }
      if exists j: nat :: PendingFrom(clicks, j) {
        var j: nat :| PendingFrom(clicks, j);
        if j < |init| {
          assert PendingFrom(init, j);
        }
      }
    }
  }

  /** A deletion is attempted only on a confirm press that answers an earlier delete press. */
  lemma DeletionNeedsTwoPresses(clicks: seq<Click>, i: nat)
    requires i < |clicks| && DeleteStep(FlagAfter(clicks[..i]), clicks[i]).1
    ensures clicks[i] == PressConfirm
    ensures exists j :: 0 <= j < i && clicks[j] == PressDelete
  {
    FlagMeansPending(clicks[..i]);
    var j: nat :| PendingFrom(clicks[..i], j);
    assert clicks[j] == clicks[..i][j];
  }

  /** The confirmation key of a card: `f"confirm_delete_{card_key}"`. */
  function ConfirmKey(cardKey: string): string {
    "confirm_delete_" + cardKey
  }

  /** The flag of a card, `False` before it is first stored. */
  function FlagOf(confirm: map<string, bool>, cardKey: string): bool {
    if ConfirmKey(cardKey) in confirm then confirm[ConfirmKey(cardKey)] else false
  }

  /**
   * `add_manual_image_upload`: when the recipe has no image link, an
   * uploaded picture (already base64-encoded) is stored in the recipe.
   */
  function WithUpload(r: Record, upload: Option<string>): (r': Record)
    ensures !Present(r, "image_url") && upload.Some? ==> r' == r["image_data_b64" := Str(upload.value)]
    ensures Present(r, "image_url") || upload.None? ==> r' == r
  {
    if !Present(r, "image_url") then
      match upload
      case Some(b64) => r["image_data_b64" := Str(b64)]
      case None => r
    else r
  }

  class SessionState {
    /** `extracted_recipe`; `null` is `None`. */
    var preview: RecipeDoc?
    /** `recipe_saved_flag` */
    var saved: bool
    /** The `confirm_delete_<card>` flags. */
    var confirm: map<string, bool>
    /** The `recipes_<sort>` lists. */
    var lists: Lists

    /** The saved flag is set only while there is no preview, and only list keys hold lists. */
    predicate Valid()
      reads this
    {
      (saved ==> preview == null) && lists.Keys <= ListKeys
    }

    /** The session state initialisation of `main`. */
    constructor ()
      ensures Valid()
      ensures preview == null && !saved && confirm == map[] && lists == map[]
    {
      preview := null;
      saved := false;
      confirm := map[];
      lists := map[];
    }

    /**
     * The "saved" notice is inside the preview branch, which requires a
     * preview; the saved flag is set only when the preview is cleared, so
     * the notice is never shown.
     */
    function SavedNoticeShown(): (shown: bool)
      reads this
      ensures Valid() ==> !shown
    {
      preview != null && saved
    }

    /**
     * Submitting the URL form. An empty URL only warns. A non-empty
     * extraction becomes the new preview, with a manual upload attached
     * when it has no image link, and resets the saved flag; a failed one
     * clears the preview.
     */
    method SubmitUrl(url: string, extracted: Option<Record>, upload: Option<string>)
      requires Valid()
      modifies this
      ensures Valid()
      ensures url == "" ==> preview == old(preview) && saved == old(saved)
      ensures url != "" && extracted.Some? && extracted.value != map[] ==>
        fresh(preview) && preview.fields == WithUpload(extracted.value, upload) && !saved
      ensures url != "" && (extracted.None? || extracted.value == map[]) ==> preview == null && saved == old(saved)
      ensures confirm == old(confirm) && lists == old(lists)
    {
      if url != "" {
        if extracted.Some? && extracted.value != map[] {
          var doc := new RecipeDoc(extracted.value);
          preview := doc;
          saved := false;
          if !Present(doc.fields, "image_url") && upload.Some? {
            doc.fields := doc.fields["image_data_b64" := Str(upload.value)];
          }
        } else {
          preview := null;
        }
      }
    }

    /** Extracting from an uploaded picture: as for a URL, without the manual upload. */
    method SubmitImage(extracted: Option<Record>)
      requires Valid()
      modifies this
      ensures Valid()
      ensures extracted.Some? && extracted.value != map[] ==> fresh(preview) && preview.fields == extracted.value && !saved
      ensures extracted.None? || extracted.value == map[] ==> preview == null && saved == old(saved)
      ensures confirm == old(confirm) && lists == old(lists)
    {
      if extracted.Some? && extracted.value != map[] {
        preview := new RecipeDoc(extracted.value);
        saved := false;
      } else {
        preview := null;
      }
    }

    /**
     * The save button under the preview. The document is coerced in place
     * whether or not the insert succeeds; on success the preview is
     * cleared, the saved flag set and `recipes_cache` removed, which
     * leaves every cached list in place.
     */
    method PressSave(now: int, insert: Record -> Option<string>) returns (id: Option<string>)
      requires Valid()
      modifies this, preview
      ensures Valid()
      ensures old(preview) == null ==> id.None? && preview == null && saved == old(saved) && lists == old(lists)
      ensures old(preview) != null ==>
        old(preview).fields == SaveCoerced(old(preview.fields), now) && id == insert(old(preview).fields)
      ensures old(preview) != null && id.Some? ==> preview == null && saved && lists == InvalidateAsWritten(old(lists))
      ensures lists == old(lists)
      ensures old(preview) != null && id.None? ==> preview == old(preview) && saved == old(saved) && lists == old(lists)
      ensures confirm == old(confirm)
    {
      id := None;
      if preview != null && !saved {
        id := SaveRecipeToDb(preview, now, insert);
        if id.Some? {
          saved := true;
          preview := null;
          InvalidateAsWrittenKeepsLists(lists);
          lists := InvalidateAsWritten(lists);
        }
      }
    }

    /** The refresh button: it removes `recipes_cache`, so the cached lists stay. */
    method Refresh()
      requires Valid()
      modifies this
      ensures Valid()
      ensures lists == InvalidateAsWritten(old(lists)) && lists == old(lists)
      ensures preview == old(preview) && saved == old(saved) && confirm == old(confirm)
    {
      InvalidateAsWrittenKeepsLists(lists);
      lists := InvalidateAsWritten(lists);
    }

    /** Fetching the list for the chosen sort order, through the cache. */
    method LoadRecipes(sortKey: string, fetched: seq<Record>) returns (recipes: seq<Record>)
      requires Valid() && sortKey in SortKeys
      modifies this
      ensures Valid()
      ensures (lists, recipes) == LoadList(old(lists), sortKey, fetched)
      ensures preview == old(preview) && saved == old(saved) && confirm == old(confirm)
    {
      ListKeysAreListKey();
      var cacheKey := ListKey(sortKey);
      if cacheKey !in lists {
        lists := lists[cacheKey := fetched];
      }
      recipes := lists[cacheKey];
    }

    /**
     * The delete controls of a card, shown when deleting is enabled and
     * the recipe has an `_id`. `deleteOk` is what `delete_recipe_from_db`
     * returns when it is called; a successful delete removes
     * `recipes_cache`, which leaves the cached lists in place.
     */
    method DeleteControl(recipe: Record, cardKey: string, showDelete: bool, click: Click, deleteOk: bool)
      returns (attempted: bool)
      requires Valid()
      modifies this
      ensures Valid()
      ensures !(showDelete && "_id" in recipe) ==> !attempted && confirm == old(confirm)
      ensures showDelete && "_id" in recipe ==>
        var (flag, attempt) := DeleteStep(FlagOf(old(confirm), cardKey), click);
        confirm == old(confirm)[ConfirmKey(cardKey) := flag] && attempted == attempt
      ensures attempted && deleteOk ==> lists == InvalidateAsWritten(old(lists))
      ensures lists == old(lists)
      ensures preview == old(preview) && saved == old(saved)
    {
      attempted := false;
      if showDelete && "_id" in recipe {
        var confirmKey := ConfirmKey(cardKey);
        if confirmKey !in confirm {
          confirm := confirm[confirmKey := false];
        }
        if confirm[confirmKey] {
          if click == PressConfirm {
            attempted := true;
            if deleteOk {
              confirm := confirm[confirmKey := false];
              InvalidateAsWrittenKeepsLists(lists);
              lists := InvalidateAsWritten(lists);
            } else {
              confirm := confirm[confirmKey := false];
            }
          }
          if click == PressCancel {
            confirm := confirm[confirmKey := false];
          }
        } else {
          if click == PressDelete {
            confirm := confirm[confirmKey := true];
          }
        }
      }
    }
  }
}
