/**
 * `getLibs` of `libs.ts`: one registry per library folder, in sorted folder
 * order, listing the folder's script files as `registry:lib` items. The
 * directory listings are inputs: folder names as the glob gives them (with
 * a trailing `/`), and each folder's files relative to it.
 */
module Libs {
  import opened Wrappers
  import StringOrder
  import RegistryTypes
  import Text

  const HomepagePrefix: string := "http://localhost:3000/libs/"

  /** `lib.slice(0, -1)`: the folder name without its last character. */
  function LibName(lib: string): (r: string)
    ensures lib != [] ==> r + [lib[|lib| - 1]] == lib
    ensures lib == [] ==> r == []
  {
    if lib == [] then [] else lib[..|lib| - 1]
  }

  /** An item named by its path with only `name` and `type: 'registry:lib'` set. */
  function LibItem(path: string): RegistryTypes.RegistryItem {
    RegistryTypes.RegistryItem(path, RegistryTypes.FileItem(RegistryTypes.Lib),
      None, None, None, None, None, None, None, None, None, None, None, None, None)
  }

  /** The files the glob finds under a folder; a folder not listed has none. */
  function FilesOf(files: map<string, seq<string>>, lib: string): seq<string> {
    if lib in files then files[lib] else []
  }

  /** The registry entry of one library folder. */
  function LibEntry(lib: string, libItems: seq<string>): RegistryTypes.Registry {
    var sorted := StringOrder.Sort(libItems);
    RegistryTypes.Registry(LibName(lib), HomepagePrefix + lib,
      seq(|sorted|, i requires 0 <= i < |sorted| => LibItem(sorted[i])))
  }

  /**
   * A library's entry is named by the folder minus its last character, has
   * the homepage prefix followed by the raw folder name, and lists one
   * `registry:lib` item per file, named by its path, in sorted order and
   * none lost or added.
   */
  lemma LibEntrySpec(lib: string, libItems: seq<string>)
    ensures var e := LibEntry(lib, libItems);
      && (lib != [] ==> e.name + [lib[|lib| - 1]] == lib)
      && Text.StartsWith(e.homepage, HomepagePrefix) && e.homepage[|HomepagePrefix|..] == lib
      && |e.items| == |libItems|
      && StringOrder.Sorted(seq(|e.items|, i requires 0 <= i < |e.items| => e.items[i].name))
      && multiset(seq(|e.items|, i requires 0 <= i < |e.items| => e.items[i].name)) == multiset(libItems)
      && forall i :: 0 <= i < |e.items| ==> e.items[i] == LibItem(e.items[i].name)
  {
    var e := LibEntry(lib, libItems);
    var names := seq(|e.items|, i requires 0 <= i < |e.items| => e.items[i].name);
    var sorted := StringOrder.Sort(libItems);
    assert names == sorted;
    assert (HomepagePrefix + lib)[..|HomepagePrefix|] == HomepagePrefix;
  }

  /** Every assembled item is accepted by the item schema, as its type tag is `registry:lib`. */
  lemma LibItemValid(path: string)
    ensures RegistryTypes.ParseItem(RegistryTypes.Json.JObject(map[
      "name" := RegistryTypes.Json.JString(path),
      "type" := RegistryTypes.Json.JString(RegistryTypes.ItemTypeTag(RegistryTypes.FileItem(RegistryTypes.Lib)))]))
      == RegistryTypes.Parsed(LibItem(path))
  {
    RegistryTypes.MinimalItem(path, RegistryTypes.FileItem(RegistryTypes.Lib));
  }

  /**
   * `getLibs`: sort the folder names, then push one registry entry per
   * folder, an empty folder included.
   */
  method GetLibs(folders: seq<string>, files: map<string, seq<string>>) returns (registry: seq<RegistryTypes.Registry>)
    ensures var libs := StringOrder.Sort(folders);
      && |registry| == |folders|
      && forall i :: 0 <= i < |libs| ==> registry[i] == LibEntry(libs[i], FilesOf(files, libs[i]))
  {
    var libs := StringOrder.Sort(folders);
    registry := [];
    for i := 0 to |libs|
      invariant |registry| == i
      invariant forall k :: 0 <= k < i ==> registry[k] == LibEntry(libs[k], FilesOf(files, libs[k]))
    {
      var lib := libs[i];
      var libItems := FilesOf(files, lib);
      registry := registry + [LibEntry(lib, libItems)];
    }
  }

  /**
   * The registries come out in sorted folder order: the raw folder names
   * their homepages end with are sorted, and are the folders given.
   */
  lemma RegistriesInFolderOrder(folders: seq<string>, files: map<string, seq<string>>, registry: seq<RegistryTypes.Registry>)
    requires var libs := StringOrder.Sort(folders);
      |registry| == |libs| && forall i :: 0 <= i < |libs| ==> registry[i] == LibEntry(libs[i], FilesOf(files, libs[i]))
    ensures var raw := seq(|registry|, i requires 0 <= i < |registry| => registry[i].homepage[|HomepagePrefix|..]);
      StringOrder.Sorted(raw) && multiset(raw) == multiset(folders)
  {
    var libs := StringOrder.Sort(folders);
    var raw := seq(|registry|, i requires 0 <= i < |registry| => registry[i].homepage[|HomepagePrefix|..]);
    forall i | 0 <= i < |registry| ensures raw[i] == libs[i] {
      LibEntrySpec(libs[i], FilesOf(files, libs[i]));
    }
    assert raw == libs;
  }
}
