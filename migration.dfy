/**
 * The configuration migration from schema version 7 to version 8
 * (`migration-scripts/v007-to-v008.ts`): it builds a new configuration object
 * by object spread and sets `translate.prompts` to the list holding only the
 * default translation prompt.
 */
module Migration {
  import opened Wrappers

  /** A stored configuration value. */
  datatype Json =
    | JNull
    | JBool(b: bool)
    | JNum(n: int)
    | JStr(s: string)
    | JArr(items: seq<Json>)
    | JObj(fields: map<string, Json>)

  /** The decimal digits of `n`, as JavaScript names array and string indices. */
  function Decimal(n: nat): (r: string)
    ensures |r| >= 1
  {
    var d := ['0', '1', '2', '3', '4', '5', '6', '7', '8', '9'][n % 10];
    if n < 10 then [d] else Decimal(n / 10) + [d]
  }

  /** Distinct indices have distinct names. */
  lemma DecimalInjective()
    ensures forall a: nat, b: nat :: Decimal(a) == Decimal(b) ==> a == b
  {
    forall a: nat, b: nat | Decimal(a) == Decimal(b) ensures a == b {
      DecimalInjectiveAt(a, b);
    }
  }

  lemma {:induction false} DecimalInjectiveAt(a: nat, b: nat)
    requires Decimal(a) == Decimal(b)
    ensures a == b
  {
    var da, db := Decimal(a), Decimal(b);
    assert da[|da| - 1] == db[|db| - 1];
    assert a % 10 == b % 10;
    if a >= 10 && b >= 10 {
      assert Decimal(a / 10) == da[..|da| - 1] == db[..|db| - 1] == Decimal(b / 10);
      DecimalInjectiveAt(a / 10, b / 10);
    } else if a >= 10 || b >= 10 {
      assert false;
    }
  }

  /** Property `key` of a value; `None` stands for `undefined`. */
  function Get(v: Json, key: string): Option<Json>
  {
    match v
    case JObj(fields) => if key in fields then Some(fields[key]) else None
    case _ => None
  }

  /**
   * The own enumerable properties that `{...v}` copies: an object's fields,
   * the indexed elements of an array or the characters of a string, and
   * nothing for `null`, booleans and numbers.
   */
  function Spread(v: Option<Json>): (r: map<string, Json>)
    ensures v.Some? && v.value.JObj? ==> r == v.value.fields
    ensures v.None? || v.value.JNull? || v.value.JBool? || v.value.JNum? ==> r == map[]
  {
    match v
    case None => map[]
    case Some(JObj(fields)) => fields
    case Some(JArr(items)) => DecimalInjective(); map i | 0 <= i < |items| :: Decimal(i) := items[i]
    case Some(JStr(s)) => DecimalInjective(); map i | 0 <= i < |s| :: Decimal(i) := JStr([s[i]])
    case Some(_) => map[]
  }

  /**
   * The identifier of the default prompt, prefixed with the application's
   * name (constants/app.ts is not part of this model, so the name is a
   * parameter).
   */
  function DefaultPromptId(appName: string): string
  {
    appName + ": TRANSLATE_DEFAULT_PROMPT"
  }

  /** The default one-line translation prompt, with its two placeholders. */
  const DefaultTranslateLinePrompt: string :=
    "Treat input as plain text input and translate it into {{targetLang}}, output translation ONLY. "
    + "If translation is unnecessary (e.g. proper nouns, codes, etc.), return the original text. "
    + "NO explanations. NO notes.\nInput:\n{{input}}\n"

  /** `DEFAULT_TRANSLATE_PROMPT`: its id and its name are the same identifier. */
  function DefaultTranslatePrompt(appName: string): (r: Json)
    ensures r.JObj? && r.fields.Keys == {"id", "name", "prompt"}
    ensures r.fields["id"] == r.fields["name"] == JStr(DefaultPromptId(appName))
    ensures r.fields["prompt"] == JStr(DefaultTranslateLinePrompt)
  {
    JObj(map["id" := JStr(DefaultPromptId(appName)), "name" := JStr(DefaultPromptId(appName)),
      "prompt" := JStr(DefaultTranslateLinePrompt)])
  }

  /**
   * `migrate`: reading `translate` off `null` throws, so a null configuration
   * is an error; anything else gives a new object.
   */
  function Migrate(oldConfig: Json, appName: string): (r: Result<Json>)
    ensures r.Err? <==> oldConfig.JNull?
    ensures r.Ok? ==>
      && r.value.JObj? && "translate" in r.value.fields
      && r.value.fields["translate"].JObj?
      && Get(r.value.fields["translate"], "prompts") == Some(JArr([DefaultTranslatePrompt(appName)]))
    // every other top-level property is copied unchanged, and only `translate` is added
    ensures r.Ok? ==> r.value.fields.Keys == Spread(Some(oldConfig)).Keys + {"translate"}
    ensures r.Ok? ==> forall key | key in Spread(Some(oldConfig)) && key != "translate" ::
      r.value.fields[key] == Spread(Some(oldConfig))[key]
    // every other property of the old `translate` is copied unchanged; an old `prompts` is overwritten
    ensures r.Ok? ==> r.value.fields["translate"].fields.Keys == Spread(Get(oldConfig, "translate")).Keys + {"prompts"}
    ensures r.Ok? ==> forall key | key in Spread(Get(oldConfig, "translate")) && key != "prompts" ::
      r.value.fields["translate"].fields[key] == Spread(Get(oldConfig, "translate"))[key]
  {
    if oldConfig.JNull? then Err("Cannot read properties of null (reading 'translate')")
    else
      var translate := Spread(Get(oldConfig, "translate"))["prompts" := JArr([DefaultTranslatePrompt(appName)])];
      Ok(JObj(Spread(Some(oldConfig))["translate" := JObj(translate)]))
  }

  /** Migrating a migrated configuration changes nothing. */
  lemma MigrateIdempotent(oldConfig: Json, appName: string)
    requires Migrate(oldConfig, appName).Ok?
    ensures Migrate(Migrate(oldConfig, appName).value, appName) == Migrate(oldConfig, appName)
  {
    var once := Migrate(oldConfig, appName).value;
    var translate := once.fields["translate"];
    var prompts := JArr([DefaultTranslatePrompt(appName)]);
    assert translate.fields["prompts" := prompts] == translate.fields;
    assert once.fields["translate" := JObj(translate.fields)] == once.fields;
  }
}
