/**
 * `PropField` (src/components/libs/internal/prop-field.tsx): which form
 * control a component prop is edited with, chosen from the name of its
 * type, and the options of a literal-union select.
 */
module PropField {
  import opened Wrappers
  import opened Text
  import opened Seqs

  /** A prop's default value as the docgen metadata gives it. */
  datatype Value = Str(s: string) | Flag(b: bool) | Other(json: string)

  /** The docgen type of a prop: its name and, for unions, the union's source text. */
  datatype PropType = PropType(name: string, raw: Option<string>)

  /** The metadata `PropField` reads; a missing or `null` default is `None`. */
  datatype PropMeta = PropMeta(name: string, propType: PropType, defaultValue: Option<Value>, required: bool)

  /** The control rendered. A select's default is `None` when it would be `undefined`. */
  datatype Control =
    | Input(name: string, inputType: string, defaultValue: Value, required: bool)
    | Checkbox(name: string, defaultValue: Value)
    | Select(name: string, options: seq<string>, selectDefault: Option<Value>, required: bool)
    | JsonTextarea(name: string, defaultValue: Value)

  /** `def ?? fallback`. */
  function OrElse(def: Option<Value>, fallback: Value): (r: Value)
    ensures def.Some? ==> r == def.value
    ensures def.None? ==> r == fallback
  {
    if def.Some? then def.value else fallback
  }

  /** One union member as an option: trimmed, with every `"` removed. */
  function CleanOption(part: string): (r: string)
    ensures '"' !in r
    ensures |r| <= |part|
  {
    RemoveAll(Trim(part), '"')
  }

  /** Every member of a split union, cleaned, in order. */
  function CleanAll(parts: seq<string>): (r: seq<string>)
    ensures |r| == |parts|
    ensures forall k :: 0 <= k < |parts| ==> r[k] == CleanOption(parts[k])
  {
    seq(|parts|, k requires 0 <= k < |parts| => CleanOption(parts[k]))
  }

  /** The filter that drops the `undefined` member of an optional union. */
  function NotUndefined(): string -> bool {
    (o: string) => o != "undefined"
  }

  /** The options made of the `|`-separated members: cleaned, without `undefined`. */
  function Options(parts: seq<string>): (r: seq<string>)
    ensures forall o :: o in r ==> o != "undefined" && '"' !in o
  {
    Filter(CleanAll(parts), NotUndefined())
  }

  /** The select's options: `raw.split('|')`, cleaned, without `undefined`. */
  function EnumOptions(raw: string): seq<string> {
    Options(Split(raw, '|'))
  }

  /** The options are exactly the cleaned members other than `undefined`. */
  lemma OptionsMembers(parts: seq<string>)
    ensures forall o :: o in Options(parts) <==>
      exists k :: 0 <= k < |parts| && o == CleanOption(parts[k]) && o != "undefined"
  {
    forall o | o in Options(parts)
      ensures exists k :: 0 <= k < |parts| && o == CleanOption(parts[k]) && o != "undefined"
    {
      KeptIsCleanedPart(parts, o);
    }
    forall o | exists k :: 0 <= k < |parts| && o == CleanOption(parts[k]) && o != "undefined"
      ensures o in Options(parts)
    {
      var k :| 0 <= k < |parts| && o == CleanOption(parts[k]) && o != "undefined";
      CleanedPartIsKept(parts, k);
    }
  }

  /** A kept option is a cleaned part. */
  lemma KeptIsCleanedPart(parts: seq<string>, o: string)
    requires o in Options(parts)
    ensures exists k :: 0 <= k < |parts| && o == CleanOption(parts[k]) && o != "undefined"
  {
    var cleaned := CleanAll(parts);
    assert o in cleaned && NotUndefined()(o);
    var k :| 0 <= k < |cleaned| && cleaned[k] == o;
    assert o == CleanOption(parts[k]);
  }

  /** A cleaned part other than `undefined` is kept. */
  lemma CleanedPartIsKept(parts: seq<string>, k: int)
    requires 0 <= k < |parts| && CleanOption(parts[k]) != "undefined"
    ensures CleanOption(parts[k]) in Options(parts)
  {
    var cleaned := CleanAll(parts);
    assert cleaned[k] == CleanOption(parts[k]);
    assert cleaned[k] in cleaned;
  }

  /** The options keep the order of the members they come from. */
  lemma OptionsOrder(parts: seq<string>)
    ensures IsSubsequence(Options(parts), CleanAll(parts))
  {
    FilterIsSubsequence(CleanAll(parts), NotUndefined());
  }

  /** There are no more options than `|`-separated members. */
  lemma EnumOptionsCount(raw: string)
    ensures |EnumOptions(raw)| <= Count(raw, '|') + 1
  {
    SplitJoin(raw, '|');
  }

  /** The control `PropField` renders; a union without `raw` makes the `!` access throw. */
  function Field(meta: PropMeta): (r: Result<Control>)
    ensures r.Failure? <==> meta.propType.name == "enum" && meta.propType.raw.None?
  {
    var def := meta.defaultValue;
    var typeName := meta.propType.name;
    if typeName == "string" || typeName == "number" then
      Success(Input(meta.name, if typeName == "number" then "number" else "text", OrElse(def, Str("")), meta.required))
    else if typeName == "boolean" then
      Success(Checkbox(meta.name, OrElse(def, Flag(false))))
    else if typeName == "enum" then
      match meta.propType.raw
      case None => Failure("TypeError")
      case Some(raw) =>
        var options := EnumOptions(raw);
        Success(Select(meta.name, options, if def.Some? then def else if |options| > 0 then Some(Str(options[0])) else None, meta.required))
    else
      Success(JsonTextarea(meta.name, OrElse(def, Str(""))))
  }

  /**
   * The control follows the type name: a text or number input for
   * `string` and `number` (a number input only for `number`), a checkbox
   * for `boolean`, a select for `enum`, and a JSON text area otherwise; the
   * control always edits the prop of the same name.
   */
  lemma FieldDispatch(meta: PropMeta)
    requires Field(meta).Success?
    ensures var c := Field(meta).value;
      && c.name == meta.name
      && (c.Input? <==> meta.propType.name == "string" || meta.propType.name == "number")
      && (c.Input? ==> (c.inputType == "number" <==> meta.propType.name == "number"))
      && (c.Checkbox? <==> meta.propType.name == "boolean")
      && (c.Select? <==> meta.propType.name == "enum")
      && (c.JsonTextarea? <==> !(meta.propType.name in {"string", "number", "boolean", "enum"}))
  {
  }

  /**
   * Defaults: inputs and text areas fall back to the empty string, the
   * checkbox to `false`, and the select to its first option; a given
   * default always wins. Only inputs and selects carry the `required` rule.
   */
  lemma FieldDefaults(meta: PropMeta)
    requires Field(meta).Success?
    ensures var c := Field(meta).value;
      && ((c.Input? || c.JsonTextarea?) ==> c.defaultValue == OrElse(meta.defaultValue, Str("")))
      && (c.Checkbox? ==> c.defaultValue == OrElse(meta.defaultValue, Flag(false)))
      && (c.Select? ==>
            (c.selectDefault ==
              (if meta.defaultValue.Some? then meta.defaultValue
               else if |c.options| > 0 then Some(Str(c.options[0])) else None)))
      && ((c.Input? || c.Select?) ==> c.required == meta.required)
  {
  }
}
