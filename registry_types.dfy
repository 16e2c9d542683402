/**
 * The registry schemas of `types.ts`, as validators from a parsed JSON value
 * to a typed record or a list of issues. Each issue carries the path of the
 * offending field. Object validation collects the issues of every field in
 * declaration order and drops unknown keys; the `target` refinement of a
 * file runs only once its fields have passed.
 */
module RegistryTypes {
  import opened Wrappers

  /** A parsed JSON value. */
  datatype Json =
    | JNull
    | JBool(b: bool)
    | JNumber(n: int)
    | JString(s: string)
    | JArray(elems: seq<Json>)
    | JObject(fields: map<string, Json>)

  /** One step of an issue path: an object key or an array index. */
  datatype PathKey = Key(name: string) | Index(i: nat)

  datatype Issue = Issue(path: seq<PathKey>, message: string)

  /** The outcome of `safeParse`. */
  datatype Parsed<+T> = Parsed(value: T) | Rejected(issues: seq<Issue>)

  /** The issues of an outcome; none when it parsed. */
  function IssuesOf<T>(p: Parsed<T>): seq<Issue> {
    if p.Parsed? then [] else p.issues
  }

  /** The same issues one level deeper, under `key`. */
  function Under(key: PathKey, issues: seq<Issue>): (r: seq<Issue>)
    ensures |r| == |issues|
    ensures forall i :: 0 <= i < |issues| ==> r[i].path == [key] + issues[i].path && r[i].message == issues[i].message
  {
    seq(|issues|, i requires 0 <= i < |issues| => Issue([key] + issues[i].path, issues[i].message))
  }

  /* Enumerations */

  /** The eight file tags of `FileTypeEnum`. */
  datatype FileType = Lib | Block | Component | Ui | Hook | Theme | Page | File

  /** The tags of `ItemTypeEnum`: every file tag, and `registry:style`. */
  datatype ItemType = FileItem(fileType: FileType) | Style

  const FileTags: seq<string> := [
    "registry:lib", "registry:block", "registry:component", "registry:ui",
    "registry:hook", "registry:theme", "registry:page", "registry:file"]

  const StyleTag: string := "registry:style"

  function FileTypeTag(t: FileType): string {
    match t
    case Lib => FileTags[0]
    case Block => FileTags[1]
    case Component => FileTags[2]
    case Ui => FileTags[3]
    case Hook => FileTags[4]
    case Theme => FileTags[5]
    case Page => FileTags[6]
    case File => FileTags[7]
  }

  /** `FileTypeEnum.safeParse` on a string. */
  function ParseFileType(s: string): Option<FileType> {
    if s == FileTags[0] then Some(Lib)
    else if s == FileTags[1] then Some(Block)
    else if s == FileTags[2] then Some(Component)
    else if s == FileTags[3] then Some(Ui)
    else if s == FileTags[4] then Some(Hook)
    else if s == FileTags[5] then Some(Theme)
    else if s == FileTags[6] then Some(Page)
    else if s == FileTags[7] then Some(File)
    else None
  }

  /**
   * There are exactly eight distinct file tags; parsing accepts exactly them
   * and is the inverse of writing a tag.
   */
  lemma FileTypeTags(s: string, t: FileType)
    ensures |FileTags| == 8 && forall i, j :: 0 <= i < j < 8 ==> FileTags[i] != FileTags[j]
    ensures ParseFileType(s).Some? <==> s in FileTags
    ensures ParseFileType(FileTypeTag(t)) == Some(t)
    ensures ParseFileType(s) == Some(t) ==> FileTypeTag(t) == s
  {
  }

  /** A file's type can never be `registry:style`. */
  lemma StyleIsNoFileType()
    ensures ParseFileType(StyleTag).None?
  {
    assert StyleTag !in FileTags by {
      forall i | 0 <= i < |FileTags| ensures FileTags[i] != StyleTag {
        assert |FileTags[i]| != |StyleTag| || FileTags[i][9] != StyleTag[9];
      }
    }
    FileTypeTags(StyleTag, Lib);
  }

  function ItemTypeTag(t: ItemType): string {
    match t
    case FileItem(f) => FileTypeTag(f)
    case Style => StyleTag
  }

  /** `ItemTypeEnum.safeParse` on a string: a file tag or `registry:style`. */
  function ParseItemType(s: string): Option<ItemType> {
    if s == StyleTag then Some(Style)
    else match ParseFileType(s)
      case Some(f) => Some(FileItem(f))
      case None => None
  }

  /** The item tags are the file tags plus `registry:style`, and parsing inverts writing them. */
  lemma ItemTypeTags(s: string, t: ItemType)
    ensures ParseItemType(s).Some? <==> s in FileTags || s == StyleTag
    ensures ParseItemType(ItemTypeTag(t)) == Some(t)
    ensures ParseItemType(s) == Some(t) ==> ItemTypeTag(t) == s
  {
    StyleIsNoFileType();
    FileTypeTags(s, Lib);
    if t.FileItem? {
      FileTypeTags(FileTypeTag(t.fileType), t.fileType);
    }
  }

  /* Field validators */

  /** `z.string()` on a value. */
  function ParseString(v: Json): (r: Parsed<string>)
    ensures r.Parsed? <==> v.JString?
  {
    if v.JString? then Parsed(v.s) else Rejected([Issue([], "expected string")])
  }

  /** A required field: a missing key is a value of the wrong type. */
  function Required<T>(o: map<string, Json>, key: string, parse: Json -> Parsed<T>): (r: Parsed<T>)
    ensures r.Parsed? <==> key in o && parse(o[key]).Parsed?
  {
    if key !in o then Rejected([Issue([Key(key)], "required")])
    else match parse(o[key])
      case Parsed(x) => Parsed(x)
      case Rejected(issues) => Rejected(Under(Key(key), issues))
  }

  /** An `.optional()` field: a missing key is `undefined`. */
  function Optional<T>(o: map<string, Json>, key: string, parse: Json -> Parsed<T>): (r: Parsed<Option<T>>)
    ensures r.Parsed? <==> key !in o || parse(o[key]).Parsed?
    ensures r.Parsed? && key !in o ==> r.value == None
  {
    if key !in o then Parsed(None)
    else match parse(o[key])
      case Parsed(x) => Parsed(Some(x))
      case Rejected(issues) => Rejected(Under(Key(key), issues))
  }

  /** The elements parsed one by one; issues carry the index of their element. */
  function ParseElems<T>(elems: seq<Json>, parse: Json -> Parsed<T>): (r: Parsed<seq<T>>)
    ensures r.Parsed? ==> |r.value| == |elems|
    ensures r.Rejected? ==> r.issues != [] || exists i :: 0 <= i < |elems| && parse(elems[i]).Rejected?
    decreases |elems|
  {
    if elems == [] then Parsed([])
    else
      var init := ParseElems(elems[..|elems| - 1], parse);
      var last := parse(elems[|elems| - 1]);
      if init.Parsed? && last.Parsed? then Parsed(init.value + [last.value])
      else Rejected(IssuesOf(init) + Under(Index(|elems| - 1), IssuesOf(last)))
  }

  /** An array is valid exactly when every element is, and the values are the elements' values in order. */
  lemma {:induction false} ParseElemsSpec<T>(elems: seq<Json>, parse: Json -> Parsed<T>)
    ensures var r := ParseElems(elems, parse);
      && (r.Parsed? <==> forall i :: 0 <= i < |elems| ==> parse(elems[i]).Parsed?)
      && (r.Parsed? ==> forall i :: 0 <= i < |elems| ==> r.value[i] == parse(elems[i]).value)
    decreases |elems|
  {
    if elems != [] {
      var init := elems[..|elems| - 1];
      ParseElemsSpec(init, parse);
      assert forall i :: 0 <= i < |init| ==> elems[i] == init[i];
    }
  }

  /** `z.array(element)` */
  function ParseArray<T>(v: Json, parse: Json -> Parsed<T>): (r: Parsed<seq<T>>)
    ensures r.Parsed? ==> v.JArray?
  {
    if v.JArray? then ParseElems(v.elems, parse) else Rejected([Issue([], "expected array")])
  }

  /** `z.record(z.string(), z.string())` */
  function ParseStringRecord(v: Json): (r: Parsed<map<string, string>>)
    ensures r.Parsed? <==> v.JObject? && forall k :: k in v.fields ==> v.fields[k].JString?
    ensures r.Parsed? ==> r.value.Keys == v.fields.Keys && forall k :: k in r.value ==> v.fields[k] == JString(r.value[k])
  {
    if v.JObject? && forall k :: k in v.fields ==> v.fields[k].JString? then
      Parsed(map k | k in v.fields :: v.fields[k].s)
    else if v.JObject? then Rejected([Issue([], "expected string values")])
    else Rejected([Issue([], "expected object")])
  }

  function ParseStrings(v: Json): Parsed<seq<string>> {
    ParseArray(v, ParseString)
  }

  /* Files */

  datatype RegistryFile = RegistryFile(path: string, content: string, fileType: FileType, target: Option<string>)

  /** `FileTypeEnum` on a value. */
  function ParseFileTypeValue(v: Json): (r: Parsed<FileType>)
    ensures r.Parsed? <==> v.JString? && ParseFileType(v.s).Some?
  {
    if v.JString? && ParseFileType(v.s).Some? then Parsed(ParseFileType(v.s).value)
    else Rejected([Issue([], "invalid file type")])
  }

  const TargetRequired: string := "`target` is required when file.type is 'registry:page' or 'registry:file'"

  /** `FileBaseSchema`: the four fields, without the refinement. */
  function ParseFileBase(v: Json): (r: Parsed<RegistryFile>)
    ensures r.Parsed? ==> v.JObject?
  {
    match v
    case JObject(o) =>
      var path := Required(o, "path", ParseString);
      var content := Required(o, "content", ParseString);
      var fileType := Required(o, "type", ParseFileTypeValue);
      var target := Optional(o, "target", ParseString);
      if path.Parsed? && content.Parsed? && fileType.Parsed? && target.Parsed? then
        Parsed(RegistryFile(path.value, content.value, fileType.value, target.value))
      else Rejected(IssuesOf(path) + IssuesOf(content) + IssuesOf(fileType) + IssuesOf(target))
    case _ => Rejected([Issue([], "expected object")])
  }

  /** A page or a plain file must name a non-empty target. */
  predicate NeedsTarget(f: RegistryFile) {
    (f.fileType == Page || f.fileType == File) && (f.target.None? || f.target.value == "")
  }

  /** `FileSchema`: the base fields, then the `target` refinement. */
  function ParseRegistryFile(v: Json): Parsed<RegistryFile> {
    match ParseFileBase(v)
    case Rejected(issues) => Rejected(issues)
    case Parsed(f) => if NeedsTarget(f) then Rejected([Issue([Key("target")], TargetRequired)]) else Parsed(f)
  }

  /**
   * A well-formed page or file entry with a missing or empty `target` is
   * rejected with exactly one issue, at `["target"]`; any other well-formed
   * entry is accepted unchanged, whatever its target.
   */
  lemma TargetRefinement(v: Json)
    requires ParseFileBase(v).Parsed?
    ensures var f := ParseFileBase(v).value;
      && ((f.fileType == Page || f.fileType == File) && (f.target.None? || f.target.value == "") ==>
            ParseRegistryFile(v) == Rejected([Issue([Key("target")], TargetRequired)]))
      && (f.fileType != Page && f.fileType != File ==> ParseRegistryFile(v) == Parsed(f))
      && (ParseRegistryFile(v).Parsed? <==> !NeedsTarget(f))
  {
  }

  /** A file parses only when its four fields do, and then keeps them as given. */
  lemma FileFields(o: map<string, Json>)
    requires ParseRegistryFile(JObject(o)).Parsed?
    ensures var f := ParseRegistryFile(JObject(o)).value;
      && "path" in o && o["path"] == JString(f.path)
      && "content" in o && o["content"] == JString(f.content)
      && "type" in o && o["type"] == JString(FileTypeTag(f.fileType))
      && ("target" in o <==> f.target.Some?)
      && ("target" in o ==> o["target"] == JString(f.target.value))
  {
    var f := ParseRegistryFile(JObject(o)).value;
    FileTypeTags(o["type"].s, f.fileType);
  }

  /* Items */

  datatype CssVars = CssVars(
    theme: Option<map<string, string>>,
    light: Option<map<string, string>>,
    dark: Option<map<string, string>>)

  datatype RegistryItem = RegistryItem(
    name: string,
    itemType: ItemType,
    description: Option<string>,
    title: Option<string>,
    author: Option<string>,
    dependencies: Option<seq<string>>,
    devDependencies: Option<seq<string>>,
    registryDependencies: Option<seq<string>>,
    files: Option<seq<RegistryFile>>,
    cssVars: Option<CssVars>,
    css: Option<map<string, string>>,
    meta: Option<map<string, string>>,
    docs: Option<string>,
    categories: Option<seq<string>>,
    extendsStyle: Option<string>)

  /** The `cssVars` object: three optional string records. */
  function ParseCssVars(v: Json): Parsed<CssVars> {
    match v
    case JObject(o) =>
      var theme := Optional(o, "theme", ParseStringRecord);
      var light := Optional(o, "light", ParseStringRecord);
      var dark := Optional(o, "dark", ParseStringRecord);
      if theme.Parsed? && light.Parsed? && dark.Parsed? then Parsed(CssVars(theme.value, light.value, dark.value))
      else Rejected(IssuesOf(theme) + IssuesOf(light) + IssuesOf(dark))
    case _ => Rejected([Issue([], "expected object")])
  }

  function ParseFiles(v: Json): Parsed<seq<RegistryFile>> {
    ParseArray(v, ParseRegistryFile)
  }

  /** The fields of `BaseItemSchema` other than `type`, in declaration order. */
  datatype BaseFields = BaseFields(
    name: Parsed<string>,
    description: Parsed<Option<string>>,
    title: Parsed<Option<string>>,
    author: Parsed<Option<string>>,
    dependencies: Parsed<Option<seq<string>>>,
    devDependencies: Parsed<Option<seq<string>>>,
    registryDependencies: Parsed<Option<seq<string>>>,
    files: Parsed<Option<seq<RegistryFile>>>,
    cssVars: Parsed<Option<CssVars>>,
    css: Parsed<Option<map<string, string>>>,
    meta: Parsed<Option<map<string, string>>>,
    docs: Parsed<Option<string>>,
    categories: Parsed<Option<seq<string>>>)
  {
    predicate Ok() {
      name.Parsed? && description.Parsed? && title.Parsed? && author.Parsed? && dependencies.Parsed?
      && devDependencies.Parsed? && registryDependencies.Parsed? && files.Parsed? && cssVars.Parsed?
      && css.Parsed? && meta.Parsed? && docs.Parsed? && categories.Parsed?
    }

    function Issues(): seq<Issue> {
      IssuesOf(name) + IssuesOf(description) + IssuesOf(title) + IssuesOf(author) + IssuesOf(dependencies)
      + IssuesOf(devDependencies) + IssuesOf(registryDependencies) + IssuesOf(files) + IssuesOf(cssVars)
      + IssuesOf(css) + IssuesOf(meta) + IssuesOf(docs) + IssuesOf(categories)
    }
  }

  /** Every shared field of an item object validated on its own. */
  function ParseBaseFields(o: map<string, Json>): BaseFields {
    BaseFields(
      Required(o, "name", ParseString),
      Optional(o, "description", ParseString),
      Optional(o, "title", ParseString),
      Optional(o, "author", ParseString),
      Optional(o, "dependencies", ParseStrings),
      Optional(o, "devDependencies", ParseStrings),
      Optional(o, "registryDependencies", ParseStrings),
      Optional(o, "files", ParseFiles),
      Optional(o, "cssVars", ParseCssVars),
      Optional(o, "css", ParseStringRecord),
      Optional(o, "meta", ParseStringRecord),
      Optional(o, "docs", ParseString),
      Optional(o, "categories", ParseStrings))
  }

  const InvalidDiscriminator: string := "invalid discriminator value"

  /**
   * `RegistryItemSchema`: the `type` tag selects the variant, whose fields
   * are then validated; only the `registry:style` variant reads `extends`.
   */
  function ParseItem(v: Json): (r: Parsed<RegistryItem>)
    ensures r.Parsed? ==> v.JObject? && "type" in v.fields && v.fields["type"] == JString(ItemTypeTag(r.value.itemType))
    ensures r.Parsed? && r.value.extendsStyle.Some? ==> r.value.itemType == Style
  {
    match v
    case JObject(o) =>
      if "type" !in o || !o["type"].JString? || ParseItemType(o["type"].s).None? then
        Rejected([Issue([Key("type")], InvalidDiscriminator)])
      else
        var itemType := ParseItemType(o["type"].s).value;
        ItemTypeTags(o["type"].s, itemType);
        var base := ParseBaseFields(o);
        var extendsField := if itemType == Style then Optional(o, "extends", ParseString) else Parsed(None);
        if base.Ok() && extendsField.Parsed? then
          Parsed(RegistryItem(base.name.value, itemType, base.description.value, base.title.value,
            base.author.value, base.dependencies.value, base.devDependencies.value,
            base.registryDependencies.value, base.files.value, base.cssVars.value, base.css.value,
            base.meta.value, base.docs.value, base.categories.value, extendsField.value))
        else Rejected(base.Issues() + IssuesOf(extendsField))
    case _ => Rejected([Issue([], "expected object")])
  }

  /** Only `name` and `type` are required: an object with just those two is an item, whatever its tag. */
  lemma MinimalItem(name: string, t: ItemType)
    ensures var r := ParseItem(JObject(map["name" := JString(name), "type" := JString(ItemTypeTag(t))]));
      r.Parsed? && r.value.name == name && r.value.itemType == t && r.value.files.None? && r.value.extendsStyle.None?
  {
    ItemTypeTags(ItemTypeTag(t), t);
  }

  /** An item without `name`, or with an unknown `type`, is rejected. */
  lemma ItemNeedsNameAndTag(o: map<string, Json>)
    requires "name" !in o || "type" !in o || !o["type"].JString? || ParseItemType(o["type"].s).None?
    ensures ParseItem(JObject(o)).Rejected?
  {
  }

  /**
   * Outside the style variant `extends` is an unknown key and is dropped
   * whatever it holds; in the style variant a non-string `extends` rejects
   * the item.
   */
  lemma ExtendsOnlyForStyle(o: map<string, Json>, x: Json)
    requires "type" in o && o["type"].JString? && ParseItemType(o["type"].s).Some?
    ensures ParseItemType(o["type"].s) != Some(Style) ==>
      ParseItem(JObject(o["extends" := x])) == ParseItem(JObject(o))
    ensures ParseItemType(o["type"].s) == Some(Style) && !x.JString? ==>
      ParseItem(JObject(o["extends" := x])).Rejected?
  {
    var o' := o["extends" := x];
    assert forall k :: k != "extends" ==> (k in o' <==> k in o) && (k in o ==> o'[k] == o[k]);
    assert ParseBaseFields(o') == ParseBaseFields(o);
  }

  /** An item's dependency lists, when present, are exactly the strings of the arrays given. */
  lemma DependencyListsAreStrings(o: map<string, Json>)
    requires ParseItem(JObject(o)).Parsed? && ParseItem(JObject(o)).value.dependencies.Some?
    ensures "dependencies" in o && o["dependencies"].JArray?
    ensures var deps := ParseItem(JObject(o)).value.dependencies.value;
      && |deps| == |o["dependencies"].elems|
      && forall i :: 0 <= i < |deps| ==> o["dependencies"].elems[i] == JString(deps[i])
  {
    ParseElemsSpec(o["dependencies"].elems, ParseString);
  }

  /* Registry */

  datatype Registry = Registry(name: string, homepage: string, items: seq<RegistryItem>)

  /** `z.url()` as a string predicate. */
  function ParseUrl(isUrl: string -> bool): Json -> Parsed<string> {
    (v: Json) => if v.JString? && isUrl(v.s) then Parsed(v.s) else Rejected([Issue([], "invalid url")])
  }

  /** `RegistrySchema`, with URL validity given as `isUrl`. */
  function ParseRegistry(v: Json, isUrl: string -> bool): Parsed<Registry> {
    match v
    case JObject(o) =>
      var name := Required(o, "name", ParseString);
      var homepage := Required(o, "homepage", ParseUrl(isUrl));
      var items := Required(o, "items", (v: Json) => ParseArray(v, ParseItem));
      if name.Parsed? && homepage.Parsed? && items.Parsed? then
        Parsed(Registry(name.value, homepage.value, items.value))
      else Rejected(IssuesOf(name) + IssuesOf(homepage) + IssuesOf(items))
    case _ => Rejected([Issue([], "expected object")])
  }

  /** A registry is valid exactly when it has a string name, a URL homepage and an array of valid items. */
  lemma RegistryValid(v: Json, isUrl: string -> bool)
    ensures ParseRegistry(v, isUrl).Parsed? <==>
      && v.JObject?
      && "name" in v.fields && v.fields["name"].JString?
      && "homepage" in v.fields && v.fields["homepage"].JString? && isUrl(v.fields["homepage"].s)
      && "items" in v.fields && v.fields["items"].JArray?
      && forall i :: 0 <= i < |v.fields["items"].elems| ==> ParseItem(v.fields["items"].elems[i]).Parsed?
  {
    if v.JObject? && "items" in v.fields && v.fields["items"].JArray? {
      ParseElemsSpec(v.fields["items"].elems, ParseItem);
    }
  }
}
