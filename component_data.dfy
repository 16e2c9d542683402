/**
 * `component-data.ts`: the prop descriptions the docgen parser yields,
 * normalised to the eight prop-type tags, and collected per file and per
 * library directory. The parser and the directory listing are inputs.
 */
module ComponentData {
  import opened Wrappers

  /** The tags of `propTypeSchema`. */
  datatype PropType = String | Number | Boolean | Object | Array | Date | Enum | Other

  const PropTypeNames: seq<string> := ["string", "number", "boolean", "object", "array", "date", "enum", "other"]

  function PropTypeName(t: PropType): string {
    match t
    case String => PropTypeNames[0]
    case Number => PropTypeNames[1]
    case Boolean => PropTypeNames[2]
    case Object => PropTypeNames[3]
    case Array => PropTypeNames[4]
    case Date => PropTypeNames[5]
    case Enum => PropTypeNames[6]
    case Other => PropTypeNames[7]
  }

  /** `toPropType`: the docgen type name when it is one of the tags, otherwise `other`. */
  function ToPropType(typeName: string): (r: PropType)
    ensures typeName in PropTypeNames ==> PropTypeName(r) == typeName
    ensures typeName !in PropTypeNames ==> r == Other
  {
    if typeName == PropTypeNames[0] then String
    else if typeName == PropTypeNames[1] then Number
    else if typeName == PropTypeNames[2] then Boolean
    else if typeName == PropTypeNames[3] then Object
    else if typeName == PropTypeNames[4] then Array
    else if typeName == PropTypeNames[5] then Date
    else if typeName == PropTypeNames[6] then Enum
    else Other
  }

  /** Every tag's name is read back as that tag, so normalising a result again changes nothing. */
  lemma ToPropTypeIdempotent(typeName: string, t: PropType)
    ensures ToPropType(PropTypeName(t)) == t
    ensures ToPropType(PropTypeName(ToPropType(typeName))) == ToPropType(typeName)
  {
  }

  /** A prop as the docgen parser describes it; `defaultValue` is the default's text, if any. */
  datatype PropItem = PropItem(name: string, typeName: string, description: string,
                               defaultValue: Option<string>, required: bool)

  datatype PropData = PropData(name: string, propType: PropType, description: string,
                               defaultValue: Option<string>, required: bool)

  /** `toPropData`: the prop with its type normalised. */
  function ToPropData(prop: PropItem): (r: PropData)
    ensures r.name == prop.name && r.description == prop.description
    ensures r.defaultValue == prop.defaultValue && r.required == prop.required
    ensures prop.typeName in PropTypeNames ==> PropTypeName(r.propType) == prop.typeName
    ensures prop.typeName !in PropTypeNames ==> r.propType == Other
  {
    PropData(prop.name, ToPropType(prop.typeName), prop.description, prop.defaultValue, prop.required)
  }

  /** A component as the docgen parser describes it, its props in property order. */
  datatype ComponentDoc = ComponentDoc(displayName: string, description: string, props: seq<PropItem>)

  datatype Component = Component(filePath: string, displayName: string, description: string, props: seq<PropData>)

  datatype LibraryData = LibraryData(filePath: string, components: seq<Component>)

  /** The record `getComponentData` pushes for one parsed component. */
  function ComponentOf(filePath: string, doc: ComponentDoc): (r: Component)
    ensures r.filePath == filePath && r.displayName == doc.displayName && r.description == doc.description
    ensures |r.props| == |doc.props| && forall i :: 0 <= i < |doc.props| ==> r.props[i] == ToPropData(doc.props[i])
  {
    Component(filePath, doc.displayName, doc.description,
      seq(|doc.props|, i requires 0 <= i < |doc.props| => ToPropData(doc.props[i])))
  }

  /**
   * `getComponentData(filePath)`: one record per component the parser finds
   * in the file, in parser order, each carrying `filePath`.
   */
  method GetComponentData(filePath: string, parse: string -> seq<ComponentDoc>) returns (components: seq<Component>)
    ensures |components| == |parse(filePath)|
    ensures forall i :: 0 <= i < |components| ==> components[i] == ComponentOf(filePath, parse(filePath)[i])
  {
    var data := parse(filePath);
    components := [];
    for i := 0 to |data|
      invariant |components| == i
      invariant forall k :: 0 <= k < i ==> components[k] == ComponentOf(filePath, data[k])
    {
      components := components + [ComponentOf(filePath, data[i])];
    }
  }

  /** The components of the files, each file's in parser order, concatenated in file order. */
  function ComponentsOfFiles(files: seq<string>, parse: string -> seq<ComponentDoc>): seq<Component>
    decreases |files|
  {
    if files == [] then []
    else
      var init := files[..|files| - 1];
      var file := files[|files| - 1];
      ComponentsOfFiles(init, parse) + seq(|parse(file)|, i requires 0 <= i < |parse(file)| => ComponentOf(file, parse(file)[i]))
  }

  /**
   * Every collected component is recorded under the bare name of the
   * listing entry it came from, and there are as many as the parser finds
   * across all entries.
   */
  lemma {:induction false} ComponentsOfFilesSpec(files: seq<string>, parse: string -> seq<ComponentDoc>)
    ensures forall c :: c in ComponentsOfFiles(files, parse) ==> c.filePath in files
    ensures |ComponentsOfFiles(files, parse)| == TotalComponents(files, parse)
    decreases |files|
  {
    if files != [] {
      var init := files[..|files| - 1];
      ComponentsOfFilesSpec(init, parse);
      assert forall f :: f in init ==> f in files;
    }
  }

  /** How many components the parser finds across the files. */
  function TotalComponents(files: seq<string>, parse: string -> seq<ComponentDoc>): nat
    decreases |files|
  {
    if files == [] then 0 else TotalComponents(files[..|files| - 1], parse) + |parse(files[|files| - 1])|
  }

  /**
   * `getLibraryData(dir)`: the listing of `dir` (a failed `readdir` is
   * passed on), each entry analysed by its bare name, the components
   * appended in listing order, and `dir` as the library's `filePath`.
   */
  method GetLibraryData(filePath: string, listing: Result<seq<string>>, parse: string -> seq<ComponentDoc>)
    returns (r: Result<LibraryData>)
    ensures listing.Failure? ==> r == Failure(listing.error)
    ensures listing.Success? ==> r == Success(LibraryData(filePath, ComponentsOfFiles(listing.value, parse)))
  {
    if listing.Failure? {
      return Failure(listing.error);
    }
    var files := listing.value;
    var components: seq<Component> := [];
    for i := 0 to |files|
      invariant components == ComponentsOfFiles(files[..i], parse)
    {
      var componentData := GetComponentData(files[i], parse);
      assert files[..i + 1][..i] == files[..i];
      components := components + componentData;
    }
    assert files[..|files|] == files;
    r := Success(LibraryData(filePath, components));
  }
}
