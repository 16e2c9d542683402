/** What the two sidebars share: case-insensitive substring matching. */
module SidebarFilter {
  import opened Text

  /** `name.toLowerCase().includes(lowerFilter)`. */
  predicate Matches(name: string, lowerFilter: string) {
    Contains(ToLower(name), lowerFilter)
  }
}

/**
 * The library sidebar's search box (src/libs/internal/ui/sidebar.tsx): with
 * a non-empty filter, each library shows only the items whose names contain
 * it, and a library stays listed when some item matches or its own name does.
 */
module LibSidebar {
  import opened Text
  import opened SidebarFilter
  import opened Seqs

  datatype Item = Item(name: string, compType: string)
  datatype Lib = Lib(name: string, items: seq<Item>)

  /** The item test, the filter already lower-cased. */
  function ItemTest(lowerFilter: string): Item -> bool {
    (item: Item) => Matches(item.name, lowerFilter)
  }

  /** The library with only its matching items. */
  function Narrow(lib: Lib, lowerFilter: string): (r: Lib)
    ensures r.name == lib.name
    ensures forall item :: item in r.items <==> item in lib.items && Matches(item.name, lowerFilter)
    ensures IsSubsequence(r.items, lib.items)
  {
    FilterIsSubsequence(lib.items, ItemTest(lowerFilter));
    lib.(items := Filter(lib.items, ItemTest(lowerFilter)))
  }

  /** Narrowing an already narrowed library changes nothing. */
  lemma NarrowIdempotent(lib: Lib, lowerFilter: string)
    ensures Narrow(Narrow(lib, lowerFilter), lowerFilter) == Narrow(lib, lowerFilter)
  {
    FilterIdempotent(lib.items, ItemTest(lowerFilter));
  }

  /** A narrowed library stays listed when it has items left or its name matches. */
  function LibTest(lowerFilter: string): Lib -> bool {
    (lib: Lib) => |lib.items| > 0 || Matches(lib.name, lowerFilter)
  }

  /** Every library narrowed, in order. */
  function NarrowAll(libs: seq<Lib>, lowerFilter: string): (r: seq<Lib>)
    ensures |r| == |libs|
    ensures forall i :: 0 <= i < |libs| ==> r[i] == Narrow(libs[i], lowerFilter)
  {
    seq(|libs|, i requires 0 <= i < |libs| => Narrow(libs[i], lowerFilter))
  }

  /** The list the sidebar shows for the debounced filter text. */
  function FilterLibs(libs: seq<Lib>, filter: string): seq<Lib> {
    if filter == "" then libs
    else
      var lowerFilter := ToLower(filter);
      Filter(NarrowAll(libs, lowerFilter), LibTest(lowerFilter))
  }

  /** An empty filter shows the libraries exactly as given. */
  lemma EmptyFilterShowsAll(libs: seq<Lib>)
    ensures FilterLibs(libs, "") == libs
  {
  }

  /**
   * With a filter, a library appears, narrowed, exactly when one of its
   * items matches or its name matches; nothing else appears.
   */
  lemma FilterLibsSpec(libs: seq<Lib>, filter: string)
    requires filter != ""
    ensures var f := ToLower(filter);
      && (forall lib :: lib in libs ==>
            (Narrow(lib, f) in FilterLibs(libs, filter) <==>
              (exists item :: item in lib.items && Matches(item.name, f)) || Matches(lib.name, f)))
      && (forall l :: l in FilterLibs(libs, filter) ==>
            exists i :: 0 <= i < |libs| && l == Narrow(libs[i], f))
  {
    var f := ToLower(filter);
    var all := NarrowAll(libs, f);
    forall lib | lib in libs
      ensures Narrow(lib, f) in all
    {
      var i :| 0 <= i < |libs| && libs[i] == lib;
      assert all[i] == Narrow(lib, f);
    }
    forall lib | lib in libs
      ensures |Narrow(lib, f).items| > 0 <==> exists item :: item in lib.items && Matches(item.name, f)
    {
      var n := Narrow(lib, f);
      if |n.items| > 0 {
        assert n.items[0] in n.items;
      }
    }
    forall l | l in FilterLibs(libs, filter)
      ensures exists i :: 0 <= i < |libs| && l == Narrow(libs[i], f)
    {
      var i :| 0 <= i < |all| && all[i] == l;
    }
  }

  /** A library matched by name alone is listed with no items left. */
  lemma NameOnlyMatchListsEmpty(libs: seq<Lib>, filter: string, lib: Lib)
    requires filter != "" && lib in libs
    requires Matches(lib.name, ToLower(filter))
    requires forall item :: item in lib.items ==> !Matches(item.name, ToLower(filter))
    ensures lib.(items := []) in FilterLibs(libs, filter)
  {
    var f := ToLower(filter);
    FilterLibsSpec(libs, filter);
    var n := Narrow(lib, f);
    assert n == lib.(items := []);
  }

  /** The libraries shown keep the order they were given in. */
  lemma FilterLibsOrder(libs: seq<Lib>, filter: string)
    requires filter != ""
    ensures IsSubsequence(FilterLibs(libs, filter), NarrowAll(libs, ToLower(filter)))
  {
    var f := ToLower(filter);
    FilterIsSubsequence(NarrowAll(libs, f), LibTest(f));
  }

  /** Typing the same filter again over the shown list changes nothing. */
  lemma FilterLibsIdempotent(libs: seq<Lib>, filter: string)
    ensures FilterLibs(FilterLibs(libs, filter), filter) == FilterLibs(libs, filter)
  {
    if filter != "" {
      var f := ToLower(filter);
      var all := NarrowAll(libs, f);
      var shown := Filter(all, LibTest(f));
      forall i | 0 <= i < |all|
        ensures Narrow(all[i], f) == all[i]
      {
        NarrowIdempotent(libs[i], f);
      }
      assert NarrowAll(shown, f) == shown by {
        forall i | 0 <= i < |shown|
          ensures Narrow(shown[i], f) == shown[i]
        {
          assert shown[i] in all;
        }
      }
      FilterIdempotent(all, LibTest(f));
    }
  }
}

/**
 * The component sidebar's search box (src/components/libs/internal/sidebar.tsx):
 * the same narrowing over libraries that list their items by name only.
 */
module ComponentSidebar {
  import opened Text
  import opened SidebarFilter
  import opened Seqs

  datatype Lib = Lib(name: string, itemNames: seq<string>)

  /** The item-name test, the filter already lower-cased. */
  function NameTest(lowerFilter: string): string -> bool {
    (name: string) => Matches(name, lowerFilter)
  }

  /** The library with only its matching item names. */
  function Narrow(lib: Lib, lowerFilter: string): (r: Lib)
    ensures r.name == lib.name
    ensures forall n :: n in r.itemNames <==> n in lib.itemNames && Matches(n, lowerFilter)
    ensures IsSubsequence(r.itemNames, lib.itemNames)
  {
    FilterIsSubsequence(lib.itemNames, NameTest(lowerFilter));
    lib.(itemNames := Filter(lib.itemNames, NameTest(lowerFilter)))
  }

  /** A narrowed library stays listed when it has names left or its own name matches. */
  function LibTest(lowerFilter: string): Lib -> bool {
    (lib: Lib) => |lib.itemNames| > 0 || Matches(lib.name, lowerFilter)
  }

  /** Every library narrowed, in order. */
  function NarrowAll(libs: seq<Lib>, lowerFilter: string): (r: seq<Lib>)
    ensures |r| == |libs|
    ensures forall i :: 0 <= i < |libs| ==> r[i] == Narrow(libs[i], lowerFilter)
  {
    seq(|libs|, i requires 0 <= i < |libs| => Narrow(libs[i], lowerFilter))
  }

  /** The list the sidebar shows for the debounced filter text. */
  function FilterLibs(libs: seq<Lib>, filter: string): seq<Lib> {
    if filter == "" then libs
    else
      var lowerFilter := ToLower(filter);
      Filter(NarrowAll(libs, lowerFilter), LibTest(lowerFilter))
  }

  /** An empty filter shows the libraries exactly as given. */
  lemma EmptyFilterShowsAll(libs: seq<Lib>)
    ensures FilterLibs(libs, "") == libs
  {
  }

  /**
   * With a filter, a library appears, narrowed, exactly when one of its
   * item names matches or its own name matches, and in its original order.
   */
  lemma FilterLibsSpec(libs: seq<Lib>, filter: string)
    requires filter != ""
    ensures var f := ToLower(filter);
      && (forall lib :: lib in libs ==>
            (Narrow(lib, f) in FilterLibs(libs, filter) <==>
              (exists n :: n in lib.itemNames && Matches(n, f)) || Matches(lib.name, f)))
      && (forall l :: l in FilterLibs(libs, filter) ==>
            exists i :: 0 <= i < |libs| && l == Narrow(libs[i], f))
      && IsSubsequence(FilterLibs(libs, filter), NarrowAll(libs, f))
  {
    var f := ToLower(filter);
    var all := NarrowAll(libs, f);
    forall lib | lib in libs
      ensures Narrow(lib, f) in all
    {
      var i :| 0 <= i < |libs| && libs[i] == lib;
      assert all[i] == Narrow(lib, f);
    }
    forall lib | lib in libs
      ensures |Narrow(lib, f).itemNames| > 0 <==> exists n :: n in lib.itemNames && Matches(n, f)
    {
      var n := Narrow(lib, f);
      if |n.itemNames| > 0 {
        assert n.itemNames[0] in n.itemNames;
      }
    }
    forall l | l in FilterLibs(libs, filter)
      ensures exists i :: 0 <= i < |libs| && l == Narrow(libs[i], f)
    {
      var i :| 0 <= i < |all| && all[i] == l;
    }
    FilterIsSubsequence(all, LibTest(f));
  }
}
