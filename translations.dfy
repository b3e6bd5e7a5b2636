/**
 * The Hebrew interface strings and `get_translation`: look a key up in the
 * table, fall back to the key itself, and fill in named placeholders when
 * arguments are given.
 */
module Translations {
  import opened Values

  /** `TRANSLATIONS`: interface key to Hebrew text. */
  const Table: map<string, string> := map[
    "app_title" := "המתכונים של ערגה",
    "add_recipe" := "הוספת מתכון",
    "my_recipes" := "המתכונים שלי",
    "search_recipes" := "חיפוש מתכונים",
    "add_from_url" := "מקישור אינטרנט",
    "add_from_image" := "מתמונה",
    "enter_url" := "הכניסי קישור (URL) למתכון:",
    "extract_recipe" := "🔎 חלצי מתכון",
    "upload_image" := "📷 העלי תמונת מתכון:",
    "extract_from_image" := "🖼️ חלצי מתכון מתמונה",
    "recipe_preview" := "תצוגה מקדימה של המתכון:",
    "save_recipe" := "💾 שמרי מתכון",
    "recipe_saved" := "✅ המתכון נשמר בהצלחה!",
    "extraction_failed" := "⚠️ חילוץ המתכון נכשל. בדקי את המקור או נסי שוב.",
    "recipe_collection" := "📖 אוסף המתכונים שלי",
    "refresh_recipes" := "🔄 רענני רשימה",
    "no_recipes" := "עדיין לא שמרת מתכונים.",
    "you_have" := "יש לך",
    "saved_recipes" := "מתכונים שמורים.",
    "filter_recipes" := "סינון מתכונים",
    "cuisine" := "מטבח",
    "meal_type" := "סוג ארוחה",
    "all" := "הכל",
    "search_placeholder" := "הקלידי מילות חיפוש (למשל: 'עוגת שוקולד קלה')...",
    "searching" := "🔍 מחפשת...",
    "found" := "נמצאו",
    "matching_recipes" := "מתכונים תואמים.",
    "no_matches" := "לא נמצאו מתכונים תואמים לשאילתה שלך.",
    "ingredients" := "מצרכים",
    "instructions" := "הוראות הכנה",
    "tags" := "תגיות",
    "prep_time" := "זמן הכנה",
    "cook_time" := "זמן בישול",
    "total_time" := "זמן כולל",
    "serves" := "מספר מנות",
    "view_original" := "🔗 צפי במתכון המקורי",
    "processing" := "⏳ מעבדת...",
    "recipe_extracted" := "👍 המתכון חולץ בהצלחה! בדקי את התצוגה המקדימה ולחצי 'שמרי'.",
    "error_extract_url" := "❌ שגיאה בחילוץ המתכון מהקישור",
    "error_extract_image" := "❌ שגיאה בחילוץ המתכון מהתמונה",
    "error_save" := "❌ שגיאה בשמירת המתכון",
    "error_search" := "❌ שגיאה בחיפוש",
    "error_fetch" := "❌ שגיאה בטעינת המתכונים",
    "delete_recipe" := "🗑️ מחקי מתכון",
    "confirm_delete" := "האם את בטוחה שברצונך למחוק את המתכון '{title}'?",
    "recipe_deleted" := "🗑️ המתכון '{title}' נמחק בהצלחה!",
    "error_delete" := "❌ שגיאה במחיקת המתכון",
    "sort_by" := "מייני לפי",
    "newest_first" := "החדש ביותר",
    "oldest_first" := "הישן ביותר",
    "title_az" := "שם (א-ת)",
    "enter_url_warning" := "אנא הכניסי קישור למתכון.",
    "img_upload_error" := "שגיאה בעיבוד התמונה:",
    "search_prompt" := "הקלידי מונח חיפוש כדי למצוא מתכונים.",
    "filter_no_results" := "לא נמצאו מתכונים התואמים לסינון.",
    "manual_img_upload" := "לא הצלחנו למצוא תמונה למתכון זה באופן אוטומטי. האם תרצי להוסיף תמונה בעצמך?",
    "upload_img_recipe" := "העלאת תמונה למתכון",
    "img_upload_success" := "התמונה הועלתה בהצלחה!",
    "yes_delete" := "כן, מחקי",
    "cancel" := "ביטול"
  ]

  /** `TRANSLATIONS.get(key, key)`. */
  function Lookup(key: string): (t: string)
    ensures key in Table ==> t == Table[key]
    ensures key !in Table ==> t == key
  {
    if key in Table then Table[key] else key
  }

  /**
   * `get_translation(key, **kwargs)`. `format` stands for `str.format` with
   * named arguments; `None` is its `KeyError` (a placeholder with no matching
   * argument), which leaves the text as it was looked up.
   */
  function Translate(key: string, kwargs: map<string, string>,
                     format: (string, map<string, string>) -> Option<string>): (t: string)
    ensures kwargs == map[] ==> t == Lookup(key)
    ensures kwargs != map[] && format(Lookup(key), kwargs).Some? ==> t == format(Lookup(key), kwargs).value
    ensures kwargs != map[] && format(Lookup(key), kwargs).None? ==> t == Lookup(key)
  {
    var text := Lookup(key);
    if kwargs == map[] then text
    else
      match format(text, kwargs)
      case Some(formatted) => formatted
      case None => text
  }

  /** Keys the application asks for; every one of them is in the table. */
  const UsedKeys: seq<string> := ["all", "prep_time", "cook_time", "total_time", "serves",
                                  "cuisine", "meal_type", "confirm_delete", "recipe_deleted"]

  lemma UsedKeysTranslated()
    ensures forall i :: 0 <= i < |UsedKeys| ==> UsedKeys[i] in Table
  {
  }

  /** A key without an entry is shown as itself, whatever the arguments. */
  lemma MissingKeyShownAsItself(key: string, format: (string, map<string, string>) -> Option<string>)
    requires key !in Table
    ensures Translate(key, map[], format) == key
    ensures forall kwargs :: format(key, kwargs).None? ==> Translate(key, kwargs, format) == key
  {
  }
}
