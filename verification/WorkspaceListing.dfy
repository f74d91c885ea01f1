/** The bounded listing of a directory on Linux, for a tree that nobody changes. */
module WorkspaceListing {
  import opened RecordBytes
  import opened RelativePaths
  import opened Volumes

  const MAX_ENTRIES := 500

  /** A regular file with one link, a directory on the same device, or anything else. The
      children are in the order the system reports them. */
  datatype Entry = Plain | Folder(children: seq<Child>) | Other
  datatype Child = Child(name: Text, entry: Entry)

  datatype Error = TooManyEntries | UnsafeChild

  datatype Item = Item(path: seq<Text>, directory: bool)

  predicate Shown(name: Text) {
    name != [] && name[0] != DOT
  }

  /** Names in a directory are never empty and never twice. */
  predicate Proper(entry: Entry) {
    entry.Folder? ==>
      && (forall i | 0 <= i < |entry.children| :: entry.children[i].name != [] && Proper(entry.children[i].entry))
      && (forall i, j | 0 <= i < j < |entry.children| :: entry.children[i].name != entry.children[j].name)
  }

  // ---------------------------------------------------------------- orders

  /** The order of std::string. */
  predicate TextLess(a: Text, b: Text) {
    if a == [] then b != []
    else b != [] && (a[0] < b[0] || (a[0] == b[0] && TextLess(a[1..], b[1..])))
  }

  lemma {:induction false} TextLessIsTotal(a: Text, b: Text)
    ensures a == b || TextLess(a, b) || TextLess(b, a)
    ensures !(TextLess(a, b) && (a == b || TextLess(b, a)))
  {
    if a != [] && b != [] && a[0] == b[0] {
      TextLessIsTotal(a[1..], b[1..]);
      if a[1..] == b[1..] {
        assert a == [a[0]] + a[1..] && b == [b[0]] + b[1..];
      }
    }
  }

  lemma {:induction false} TextLessIsTransitive(a: Text, b: Text, c: Text)
    requires TextLess(a, b) && TextLess(b, c)
    ensures TextLess(a, c)
  {
    if a != [] && a[0] == b[0] == c[0] {
      TextLessIsTransitive(a[1..], b[1..], c[1..]);
    }
  }

  /** Paths in preorder with sorted siblings: name by name, a directory before what is in
      it. */
  predicate PathLess(a: seq<Text>, b: seq<Text>) {
    if a == [] then b != []
    else b != [] && (TextLess(a[0], b[0]) || (a[0] == b[0] && PathLess(a[1..], b[1..])))
  }

  predicate Ascending(items: seq<Item>) {
    forall i, j | 0 <= i < j < |items| :: PathLess(items[i].path, items[j].path)
  }

  // ---------------------------------------------------------------- sorting

  predicate Sorted(names: seq<Text>) {
    forall i, j | 0 <= i < j < |names| :: TextLess(names[i], names[j])
  }

  function Insert(name: Text, names: seq<Text>): (r: seq<Text>)
    ensures multiset(r) == multiset(names) + multiset{name}
  {
    if names == [] then [name]
    else if TextLess(name, names[0]) then [name] + names
    else
      assert names == [names[0]] + names[1..];
      [names[0]] + Insert(name, names[1..])
  }

  /** std::sort. */
  function Sort(names: seq<Text>): (r: seq<Text>)
    ensures multiset(r) == multiset(names)
  {
    if names == [] then []
    else
      assert names == [names[0]] + names[1..];
      Insert(names[0], Sort(names[1..]))
  }

  predicate Distinct(names: seq<Text>) {
    forall i, j | 0 <= i < j < |names| :: names[i] != names[j]
  }

  lemma {:induction false} InsertIsSorted(name: Text, names: seq<Text>)
    requires Sorted(names) && name !in names
    ensures Sorted(Insert(name, names))
  {
    if names != [] {
      TextLessIsTotal(name, names[0]);
      if TextLess(name, names[0]) {
        forall k | 0 < k < |names| ensures TextLess(name, names[k]) {
          TextLessIsTransitive(name, names[0], names[k]);
        }
      } else {
        InsertIsSorted(name, names[1..]);
        var others := Insert(name, names[1..]);
        forall other | other in others ensures TextLess(names[0], other) {
          assert other in multiset(others);
          assert other == name || other in names[1..];
        }
      }
    }
  }

  lemma {:induction false} SortIsSorted(names: seq<Text>)
    requires Distinct(names)
    ensures Sorted(Sort(names))
    ensures forall name :: name in Sort(names) <==> name in names
  {
    if names != [] {
      SortIsSorted(names[1..]);
      InsertIsSorted(names[0], Sort(names[1..]));
    }
    forall name ensures name in Sort(names) <==> name in names {
      assert name in Sort(names) <==> name in multiset(Sort(names));
      assert name in names <==> name in multiset(names);
    }
  }

  // ---------------------------------------------------------------- the whole listing

  /** The names shown among the first `count` children, as they are reported. */
  function ShownAmong(children: seq<Child>, count: nat): (names: seq<Text>)
    requires count <= |children|
    ensures |names| <= count
    ensures forall name :: name in names <==> Shown(name) && exists i :: 0 <= i < count && children[i].name == name
  {
    if count == 0 then []
    else ShownAmong(children, count - 1)
         + if Shown(children[count - 1].name) then [children[count - 1].name] else []
  }

  function ShownNames(children: seq<Child>): seq<Text> {
    ShownAmong(children, |children|)
  }

  predicate Has(children: seq<Child>, name: Text) {
    exists i :: 0 <= i < |children| && children[i].name == name
  }

  function Index(children: seq<Child>, name: Text): (i: nat)
    requires Has(children, name)
    ensures i < |children| && children[i].name == name
  {
    if children[0].name == name then 0 else
    assert Has(children[1..], name) by {
      var i :| 0 <= i < |children| && children[i].name == name;
      assert children[1..][i - 1] == children[i];
    }
    1 + Index(children[1..], name)
  }

  function Names(folder: Entry): seq<Text>
    requires folder.Folder?
  {
    Sort(ShownNames(folder.children))
  }

  predicate AllThere(folder: Entry, names: seq<Text>)
    requires folder.Folder?
  {
    forall i | 0 <= i < |names| :: Has(folder.children, names[i])
  }

  lemma NamesAreThere(folder: Entry)
    requires folder.Folder?
    ensures AllThere(folder, Names(folder))
  {
    var names := Names(folder);
    forall i | 0 <= i < |names| ensures Has(folder.children, names[i]) {
      assert names[i] in multiset(names);
      assert names[i] in ShownNames(folder.children);
    }
  }

  /** Items one directory further down. */
  function Under(name: Text, items: seq<Item>): (r: seq<Item>)
    ensures |r| == |items|
  {
    seq(|items|, i requires 0 <= i < |items| => Item([name] + items[i].path, items[i].directory))
  }

  function Listing(folder: Entry, recursive: bool): seq<Item>
    requires folder.Folder?
    decreases folder, 1, 0
  {
    NamesAreThere(folder);
    ListNames(folder, recursive, Names(folder))
  }

  function ListNames(folder: Entry, recursive: bool, names: seq<Text>): seq<Item>
    requires folder.Folder? && AllThere(folder, names)
    decreases folder, 0, |names|
  {
    if names == [] then [] else
    var entry := folder.children[Index(folder.children, names[0])].entry;
    assert AllThere(folder, names[1..]);
    [Item([names[0]], entry.Folder?)]
    + (if recursive && entry.Folder? then Under(names[0], Listing(entry, true)) else [])
    + ListNames(folder, recursive, names[1..])
  }

  // ---------------------------------------------------------------- what the listing contains

  /** A path of names that do not start with a dot leads to this entry. */
  predicate Reaches(entry: Entry, path: seq<Text>, directory: bool)
    decreases |path|
  {
    if path == [] then directory == entry.Folder?
    else
      && entry.Folder? && path[0] != [] && path[0][0] != '.' as int && Has(entry.children, path[0])
      && Reaches(entry.children[Index(entry.children, path[0])].entry, path[1..], directory)
  }

  /** What lies behind one name of a directory. */
  predicate Behind(entry: Entry, recursive: bool, rest: seq<Text>, directory: bool) {
    if rest == [] then directory == entry.Folder?
    else recursive && entry.Folder? && Item(rest, directory) in Listing(entry, true)
  }

  lemma InUnder(name: Text, items: seq<Item>, path: seq<Text>, directory: bool)
    ensures Item(path, directory) in Under(name, items) <==>
              path != [] && path[0] == name && Item(path[1..], directory) in items
  {
    var under := Under(name, items);
    if Item(path, directory) in under {
      var i :| 0 <= i < |under| && under[i] == Item(path, directory);
      assert path[1..] == items[i].path;
    }
    if path != [] && path[0] == name && Item(path[1..], directory) in items {
      var i :| 0 <= i < |items| && items[i] == Item(path[1..], directory);
      assert [name] + path[1..] == path;
      assert under[i] == Item(path, directory);
    }
  }

  lemma {:induction false} InListNames(
      folder: Entry, recursive: bool, names: seq<Text>, path: seq<Text>, directory: bool)
    requires folder.Folder? && AllThere(folder, names)
    ensures Item(path, directory) in ListNames(folder, recursive, names) <==>
              && path != [] && path[0] in names && Has(folder.children, path[0])
              && Behind(folder.children[Index(folder.children, path[0])].entry, recursive, path[1..], directory)
    decreases |names|
  {
    if names != [] {
      var entry := folder.children[Index(folder.children, names[0])].entry;
      var head := Item([names[0]], entry.Folder?);
      var below := if recursive && entry.Folder? then Under(names[0], Listing(entry, true)) else [];
      InListNames(folder, recursive, names[1..], path, directory);
      assert ListNames(folder, recursive, names) == [head] + below + ListNames(folder, recursive, names[1..]);
      if recursive && entry.Folder? {
        InUnder(names[0], Listing(entry, true), path, directory);
        ListedPathsAreNotEmpty(entry, true);
      }
      assert path == [names[0]] <==> path != [] && path[0] == names[0] && path[1..] == [];
    }
  }

  lemma ListedPathsAreNotEmpty(folder: Entry, recursive: bool)
    requires folder.Folder?
    ensures forall item <- Listing(folder, recursive) :: item.path != []
  {
    NamesAreThere(folder);
    NamedPathsAreNotEmpty(folder, recursive, Names(folder));
  }

  lemma {:induction false} NamedPathsAreNotEmpty(folder: Entry, recursive: bool, names: seq<Text>)
    requires folder.Folder? && AllThere(folder, names)
    ensures forall item <- ListNames(folder, recursive, names) :: item.path != []
    decreases |names|
  {
    if names != [] {
      NamedPathsAreNotEmpty(folder, recursive, names[1..]);
    }
  }

  /** The recursive listing has an item exactly for every path of shown names that leads
      somewhere; nothing else is listed. */
  lemma {:induction false} ListedExactlyWhenReached(folder: Entry, path: seq<Text>, directory: bool)
    requires folder.Folder?
    ensures Item(path, directory) in Listing(folder, true) <==> path != [] && Reaches(folder, path, directory)
    decreases |path|
  {
    NamesAreThere(folder);
    InListNames(folder, true, Names(folder), path, directory);
    if path != [] {
      assert path[0] in Names(folder) <==> path[0] in multiset(Names(folder));
      assert path[0] in Names(folder) <==> Shown(path[0]) && Has(folder.children, path[0]);
      if path[0] in Names(folder) && |path| > 1 {
        var entry := folder.children[Index(folder.children, path[0])].entry;
        if entry.Folder? {
          ListedExactlyWhenReached(entry, path[1..], directory);
        }
      }
    }
  }

  /** Without going into directories those of a single name are listed. */
  lemma DirectlyListedExactlyWhen(folder: Entry, path: seq<Text>, directory: bool)
    requires folder.Folder?
    ensures Item(path, directory) in Listing(folder, false) <==> |path| == 1 && Reaches(folder, path, directory)
  {
    NamesAreThere(folder);
    InListNames(folder, false, Names(folder), path, directory);
    if path != [] {
      assert path[0] in Names(folder) <==> path[0] in multiset(Names(folder));
      assert path[0] in Names(folder) <==> Shown(path[0]) && Has(folder.children, path[0]);
    }
  }

  lemma {:induction false} ShownAreDistinct(children: seq<Child>, count: nat)
    requires count <= |children|
    requires forall i, j | 0 <= i < j < |children| :: children[i].name != children[j].name
    ensures Distinct(ShownAmong(children, count))
  {
    if count > 0 {
      ShownAreDistinct(children, count - 1);
    }
  }

  lemma {:induction false} NamedIsAscending(folder: Entry, recursive: bool, names: seq<Text>)
    requires folder.Folder? && Proper(folder) && AllThere(folder, names) && Sorted(names)
    ensures Ascending(ListNames(folder, recursive, names))
    ensures forall item <- ListNames(folder, recursive, names) :: item.path != [] && item.path[0] in names
    decreases folder, 0, |names|
  {
    if names != [] {
      var entry := folder.children[Index(folder.children, names[0])].entry;
      assert Proper(entry);
      NamedIsAscending(folder, recursive, names[1..]);
      var head := Item([names[0]], entry.Folder?);
      var rest := ListNames(folder, recursive, names[1..]);
      if recursive && entry.Folder? {
        ListingIsAscending(entry, true);
        ListedPathsAreNotEmpty(entry, true);
        UnderIsAscending(names[0], head, Listing(entry, true), rest);
      } else {
        UnderIsAscending(names[0], head, [], rest);
      }
    }
  }

  lemma UnderIsAscending(name: Text, head: Item, items: seq<Item>, rest: seq<Item>)
    requires Ascending(items) && Ascending(rest) && head.path == [name]
    requires forall item <- items :: item.path != []
    requires forall item <- rest :: item.path != [] && TextLess(name, item.path[0])
    ensures Ascending([head] + Under(name, items) + rest)
  {
    var under := Under(name, items);
    var all := [head] + under + rest;
    forall i, j | 0 <= i < j < |all| ensures PathLess(all[i].path, all[j].path) {
      TextLessIsTotal(name, name);
      if j <= |items| {
        assert under[j - 1].path[1..] == items[j - 1].path;
        if i > 0 {
          assert under[i - 1].path[1..] == items[i - 1].path;
        }
      } else if i > |items| {
        assert all[i] == rest[i - 1 - |items|] && all[j] == rest[j - 1 - |items|];
      } else {
        assert all[j] == rest[j - 1 - |items|];
        assert all[i].path[0] == name;
      }
    }
  }

  /** The listing is in preorder with sorted siblings, and so lists nothing twice. */
  lemma {:induction false} ListingIsAscending(folder: Entry, recursive: bool)
    requires folder.Folder? && Proper(folder)
    ensures Ascending(Listing(folder, recursive))
    decreases folder, 1, 0
  {
    NamesAreThere(folder);
    ShownAreDistinct(folder.children, |folder.children|);
    SortIsSorted(ShownNames(folder.children));
    NamedIsAscending(folder, recursive, Names(folder));
  }

  lemma {:induction false} PathLessIsStrict(a: seq<Text>, b: seq<Text>)
    requires PathLess(a, b)
    ensures a != b
  {
    if a != [] {
      TextLessIsTotal(a[0], b[0]);
      if a[0] == b[0] {
        PathLessIsStrict(a[1..], b[1..]);
      }
    }
  }

  lemma NothingTwice(folder: Entry, recursive: bool)
    requires folder.Folder? && Proper(folder)
    ensures forall i, j | 0 <= i < j < |Listing(folder, recursive)| ::
              Listing(folder, recursive)[i].path != Listing(folder, recursive)[j].path
  {
    var items := Listing(folder, recursive);
    ListingIsAscending(folder, recursive);
    forall i, j | 0 <= i < j < |items| ensures items[i].path != items[j].path {
      PathLessIsStrict(items[i].path, items[j].path);
    }
  }

  // ---------------------------------------------------------------- ListInto

  /** Every name shown is safe and belongs to a file or a directory, all the way down. */
  predicate Acceptable(folder: Entry, recursive: bool)
    requires folder.Folder?
  {
    forall i | 0 <= i < |folder.children| && Shown(folder.children[i].name) ::
      && SafePart(folder.children[i].name) && !folder.children[i].entry.Other?
      && (recursive && folder.children[i].entry.Folder? ==> Acceptable(folder.children[i].entry, true))
  }

  /** The entry at the end of a path of names that do not start with a dot. */
  function EntryAt(entry: Entry, path: seq<Text>): Option<Entry>
    decreases |path|
  {
    if path == [] then Some(entry)
    else if entry.Folder? && path[0] != [] && path[0][0] != '.' as int && Has(entry.children, path[0]) then
      EntryAt(entry.children[Index(entry.children, path[0])].entry, path[1..])
    else None
  }

  /** An entry that may be listed under this path. */
  predicate Listable(folder: Entry, path: seq<Text>) {
    path != [] && EntryAt(folder, path).Some? ==>
      SafePart(path[|path| - 1]) && !EntryAt(folder, path).value.Other?
  }

  lemma {:induction false} AcceptableIsListable(folder: Entry, path: seq<Text>)
    requires folder.Folder? && Acceptable(folder, true)
    ensures Listable(folder, path)
    decreases |path|
  {
    if path != [] && EntryAt(folder, path).Some? {
      var i := Index(folder.children, path[0]);
      var child := folder.children[i];
      assert Shown(child.name);
      if |path| > 1 {
        assert path[1..] != [] && EntryAt(child.entry, path[1..]).Some?;
        AcceptableIsListable(child.entry, path[1..]);
        assert Listable(child.entry, path[1..]);
      }
    }
  }

  lemma ListableBelow(folder: Entry, i: nat, path: seq<Text>)
    requires folder.Folder? && Proper(folder) && i < |folder.children| && Shown(folder.children[i].name)
    requires Listable(folder, [folder.children[i].name] + path)
    ensures Listable(folder.children[i].entry, path)
    ensures path == [] ==> SafePart(folder.children[i].name) && !folder.children[i].entry.Other?
  {
    var name := folder.children[i].name;
    assert Has(folder.children, name) && Index(folder.children, name) == i;
    var longer := [name] + path;
    assert longer[1..] == path && longer[0] == name;
    assert EntryAt(folder, longer) == EntryAt(folder.children[i].entry, path);
    assert path != [] ==> longer[|longer| - 1] == path[|path| - 1];
  }

  lemma {:induction false} ListableIsAcceptable(folder: Entry)
    requires folder.Folder? && Proper(folder) && forall path :: Listable(folder, path)
    ensures Acceptable(folder, true)
  {
    forall i | 0 <= i < |folder.children| && Shown(folder.children[i].name)
      ensures SafePart(folder.children[i].name) && EntryAcceptable(folder.children[i].entry, true)
    {
      var child := folder.children[i];
      assert Listable(folder, [child.name] + []);
      ListableBelow(folder, i, []);
      forall path ensures Listable(child.entry, path) {
        assert Listable(folder, [child.name] + path);
        ListableBelow(folder, i, path);
      }
      if child.entry.Folder? {
        ListableIsAcceptable(child.entry);
      }
    }
  }

  /** A tree may be listed exactly when every path of shown names ends in a safe name of a
      file or a directory; without going into directories the names in it decide. */
  lemma AcceptableExactlyWhen(folder: Entry)
    requires folder.Folder? && Proper(folder)
    ensures Acceptable(folder, true) <==> forall path :: Listable(folder, path)
    ensures Acceptable(folder, false) <==>
              forall i | 0 <= i < |folder.children| && folder.children[i].name[0] != '.' as int ::
                SafePart(folder.children[i].name) && !folder.children[i].entry.Other?
  {
    if Acceptable(folder, true) {
      forall path ensures Listable(folder, path) {
        AcceptableIsListable(folder, path);
      }
    }
    if forall path :: Listable(folder, path) {
      ListableIsAcceptable(folder);
    }
  }

  /** A name is a path of one part exactly when it is a safe part. */
  lemma SinglePart(name: Text)
    requires name != []
    ensures PartsOf(name, false).Some? && |PartsOf(name, false).value| == 1 <==> SafePart(name)
  {
    PartsExactlyWhen(name, false, [name]);
    if PartsOf(name, false).Some? && |PartsOf(name, false).value| == 1 {
      var parts := PartsOf(name, false).value;
      PartsExactlyWhen(name, false, parts);
      assert SafePart(parts[0]);
    }
    if SafePart(name) {
      assert AllSafe([name]);
    }
  }

  function Prefixed(prefix: seq<Text>, items: seq<Item>): (r: seq<Item>)
    ensures |r| == |items|
  {
    seq(|items|, i requires 0 <= i < |items| => Item(prefix + items[i].path, items[i].directory))
  }

  lemma PrefixedUnder(prefix: seq<Text>, name: Text, items: seq<Item>)
    ensures Prefixed(prefix, Under(name, items)) == Prefixed(prefix + [name], items)
  {
    forall i | 0 <= i < |items| ensures prefix + ([name] + items[i].path) == (prefix + [name]) + items[i].path {
    }
  }

  lemma PrefixedThree(prefix: seq<Text>, head: Item, below: seq<Item>, rest: seq<Item>)
    ensures Prefixed(prefix, [head] + below + rest) ==
              [Item(prefix + head.path, head.directory)] + Prefixed(prefix, below) + Prefixed(prefix, rest)
  {
  }

  lemma {:induction false} ListsEveryName(folder: Entry, recursive: bool, names: seq<Text>)
    requires folder.Folder? && AllThere(folder, names)
    ensures |names| <= |ListNames(folder, recursive, names)|
    decreases |names|
  {
    if names != [] {
      ListsEveryName(folder, recursive, names[1..]);
    }
  }

  lemma EveryNameIsListed(folder: Entry, recursive: bool)
    requires folder.Folder?
    ensures |ShownNames(folder.children)| <= |Listing(folder, recursive)|
  {
    NamesAreThere(folder);
    ListsEveryName(folder, recursive, Names(folder));
    assert |Names(folder)| == |multiset(Names(folder))| == |multiset(ShownNames(folder.children))|;
  }

  lemma {:induction false} ShownGrows(children: seq<Child>, i: nat, count: nat)
    requires i <= count <= |children|
    ensures |ShownAmong(children, i)| <= |ShownAmong(children, count)|
  {
    if i < count {
      ShownGrows(children, i, count - 1);
    }
  }

  /** A shown name may join those that were read before it. */
  method CheckName(name: Text, count: nat) returns (error: Option<Error>)
    requires Shown(name)
    ensures error.None? <==> count != MAX_ENTRIES && SafePart(name)
    ensures error == Some(TooManyEntries) <==> count == MAX_ENTRIES
  {
    if count == MAX_ENTRIES {
      return Some(TooManyEntries);
    }
    SinglePart(name);
    var ok, parts := ParseRelative(name, false);
    error := if ok && |parts| == 1 then None else Some(UnsafeChild);
  }

  lemma UnsafeNameSpoils(folder: Entry, recursive: bool, i: nat)
    requires folder.Folder? && i < |folder.children| && Shown(folder.children[i].name)
    ensures !SafePart(folder.children[i].name) ==> !Acceptable(folder, recursive)
  {
  }

  /** The first pass: the names, checked one by one, at most 500 of them. */
  method ReadNames(folder: Entry, recursive: bool) returns (error: Option<Error>, names: seq<Text>)
    requires folder.Folder?
    ensures error.None? ==> names == ShownNames(folder.children) && |names| <= MAX_ENTRIES && AllSafe(names)
    ensures error.Some? ==> !Acceptable(folder, recursive) || |ShownNames(folder.children)| > MAX_ENTRIES
  {
    names := [];
    error := None;
    var children, i := folder.children, 0;
    while i < |children|
      invariant 0 <= i <= |children| && error.None?
      invariant names == ShownAmong(children, i) && |names| <= MAX_ENTRIES && AllSafe(names)
    {
      if Shown(children[i].name) {
        error := CheckName(children[i].name, |names|);
        if error.Some? {
          ShownGrows(children, i + 1, |children|);
          UnsafeNameSpoils(folder, recursive, i);
          return;
        }
        names := names + [children[i].name];
      }
      i := i + 1;
    }
  }

  /** On a tree that stays as it is, the listing succeeds exactly when every name shown is
      safe, everything is a file or a directory, and there are at most 500 items; it then
      is the whole listing. */
  method ListInto(folder: Entry, prefix: seq<Text>, recursive: bool, out: seq<Item>)
    returns (error: Option<Error>, items: seq<Item>)
    requires folder.Folder? && Proper(folder) && |out| <= MAX_ENTRIES
    ensures error.None? <==> Acceptable(folder, recursive) && |out| + |Listing(folder, recursive)| <= 500
    ensures error.None? ==> items == out + Prefixed(prefix, Listing(folder, recursive))
    decreases folder, 1, 0
  {
    items := out;
    EveryNameIsListed(folder, recursive);
    NamesAreThere(folder);
    var unsorted;
    error, unsorted := ReadNames(folder, recursive);
    if error.Some? {
      return;
    }
    error, items := ListSorted(folder, prefix, recursive, Names(folder), out);
    SafeNames(folder, recursive, unsorted);
  }

  /** The names being safe, the directory is acceptable if what they stand for is. */
  predicate EntriesAcceptable(folder: Entry, recursive: bool, names: seq<Text>)
    requires folder.Folder? && AllThere(folder, names)
  {
    forall i | 0 <= i < |names| ::
      EntryAcceptable(folder.children[Index(folder.children, names[i])].entry, recursive)
  }

  lemma SafeNames(folder: Entry, recursive: bool, names: seq<Text>)
    requires folder.Folder? && Proper(folder)
    requires names == ShownNames(folder.children) && AllSafe(names)
    ensures AllThere(folder, Names(folder))
    ensures EntriesAcceptable(folder, recursive, Names(folder)) <==> Acceptable(folder, recursive)
  {
    NamesAreThere(folder);
    if EntriesAcceptable(folder, recursive, Names(folder)) {
      EntriesSuffice(folder, recursive, names);
    }
    if Acceptable(folder, recursive) {
      EntriesFollow(folder, recursive);
    }
  }

  lemma EntriesSuffice(folder: Entry, recursive: bool, names: seq<Text>)
    requires folder.Folder? && Proper(folder) && AllThere(folder, Names(folder))
    requires names == ShownNames(folder.children) && AllSafe(names)
    requires EntriesAcceptable(folder, recursive, Names(folder))
    ensures Acceptable(folder, recursive)
  {
    var sorted := Names(folder);
    forall i | 0 <= i < |folder.children| && Shown(folder.children[i].name)
      ensures SafePart(folder.children[i].name) && EntryAcceptable(folder.children[i].entry, recursive)
    {
      var name := folder.children[i].name;
      assert name in names && name in multiset(names) && name in multiset(sorted);
      assert SafePart(name);
      var k :| 0 <= k < |sorted| && sorted[k] == name;
      assert Index(folder.children, name) == i;
    }
  }

  lemma EntriesFollow(folder: Entry, recursive: bool)
    requires folder.Folder? && AllThere(folder, Names(folder)) && Acceptable(folder, recursive)
    ensures EntriesAcceptable(folder, recursive, Names(folder))
  {
    var sorted := Names(folder);
    forall k | 0 <= k < |sorted|
      ensures EntryAcceptable(folder.children[Index(folder.children, sorted[k])].entry, recursive)
    {
      assert sorted[k] in multiset(sorted) && sorted[k] in ShownNames(folder.children);
    }
  }

  predicate EntryAcceptable(entry: Entry, recursive: bool) {
    !entry.Other? && (recursive && entry.Folder? ==> Acceptable(entry, true))
  }

  /** One name and what is below it. */
  function Block(entry: Entry, prefix: seq<Text>, recursive: bool, name: Text): seq<Item> {
    [Item(prefix + [name], entry.Folder?)]
    + if recursive && entry.Folder? then Prefixed(prefix + [name], Listing(entry, true)) else []
  }

  lemma NextName(folder: Entry, prefix: seq<Text>, recursive: bool, names: seq<Text>)
    requires folder.Folder? && Proper(folder) && names != [] && AllThere(folder, names)
    ensures AllThere(folder, names[1..])
    ensures var entry := folder.children[Index(folder.children, names[0])].entry;
            && entry < folder && Proper(entry)
            && Prefixed(prefix, ListNames(folder, recursive, names)) ==
                 Block(entry, prefix, recursive, names[0]) + Prefixed(prefix, ListNames(folder, recursive, names[1..]))
            && (EntriesAcceptable(folder, recursive, names) <==>
                  EntryAcceptable(entry, recursive) && EntriesAcceptable(folder, recursive, names[1..]))
  {
    var entry := folder.children[Index(folder.children, names[0])].entry;
    var below := if recursive && entry.Folder? then Under(names[0], Listing(entry, true)) else [];
    PrefixedThree(prefix, Item([names[0]], entry.Folder?), below, ListNames(folder, recursive, names[1..]));
    if recursive && entry.Folder? {
      PrefixedUnder(prefix, names[0], Listing(entry, true));
    }
    assert EntriesAcceptable(folder, recursive, names) ==> EntryAcceptable(entry, recursive);
    assert forall i | 0 <= i < |names| - 1 :: names[1..][i] == names[i + 1];
  }

  /** One entry: its own item, and a directory's listing if that is asked for. */
  method ListOne(entry: Entry, prefix: seq<Text>, recursive: bool, name: Text, out: seq<Item>)
    returns (error: Option<Error>, items: seq<Item>)
    requires Proper(entry) && |out| <= MAX_ENTRIES
    ensures error.None? <==>
              EntryAcceptable(entry, recursive) && |out| + |Block(entry, prefix, recursive, name)| <= MAX_ENTRIES
    ensures error.None? ==> items == out + Block(entry, prefix, recursive, name)
    decreases entry, 2, 0
  {
    items := out;
    if |items| >= MAX_ENTRIES {
      return Some(TooManyEntries), items;
    }
    if entry.Other? {
      return Some(UnsafeChild), items;
    }
    items := items + [Item(prefix + [name], entry.Folder?)];
    error := None;
    if recursive && entry.Folder? {
      JoinItems(out, items[|out|..], Prefixed(prefix + [name], Listing(entry, true)));
      error, items := ListInto(entry, prefix + [name], true, items);
    }
  }

  lemma JoinItems(a: seq<Item>, b: seq<Item>, c: seq<Item>)
    ensures (a + b) + c == a + (b + c) && |a + (b + c)| == |a| + |b| + |c|
  {
  }

  method ListSorted(folder: Entry, prefix: seq<Text>, recursive: bool, names: seq<Text>, out: seq<Item>)
    returns (error: Option<Error>, items: seq<Item>)
    requires folder.Folder? && Proper(folder) && AllThere(folder, names) && |out| <= MAX_ENTRIES
    ensures error.None? <==> EntriesAcceptable(folder, recursive, names)
                             && |out| + |ListNames(folder, recursive, names)| <= MAX_ENTRIES
    ensures error.None? ==> items == out + Prefixed(prefix, ListNames(folder, recursive, names))
    decreases folder, 0, |names|
  {
    items := out;
    var rest := names;
    ghost var all := out + Prefixed(prefix, ListNames(folder, recursive, names));
    ghost var acceptable := EntriesAcceptable(folder, recursive, names);
    while rest != []
      invariant |items| <= MAX_ENTRIES && AllThere(folder, rest)
      invariant Pending(folder, prefix, recursive, rest, items, all, acceptable)
      decreases |rest|
    {
      var name := rest[0];
      var entry := folder.children[Index(folder.children, name)].entry;
      PendingStep(folder, prefix, recursive, rest, items, all, acceptable);
      error, items := ListOne(entry, prefix, recursive, name, items);
      if error.Some? {
        return;
      }
      rest := rest[1..];
    }
    assert items + [] == items;
    error := None;
  }

  /** What `all` is to become, and whether it may, depends on the rest only. */
  predicate Pending(folder: Entry, prefix: seq<Text>, recursive: bool, rest: seq<Text>, items: seq<Item>,
                    all: seq<Item>, acceptable: bool)
    requires folder.Folder? && AllThere(folder, rest)
  {
    && all == items + Prefixed(prefix, ListNames(folder, recursive, rest))
    && acceptable == EntriesAcceptable(folder, recursive, rest)
  }

  lemma PendingStep(folder: Entry, prefix: seq<Text>, recursive: bool, rest: seq<Text>, items: seq<Item>,
                    all: seq<Item>, acceptable: bool)
    requires folder.Folder? && Proper(folder) && rest != [] && AllThere(folder, rest)
    requires Pending(folder, prefix, recursive, rest, items, all, acceptable)
    ensures AllThere(folder, rest[1..])
    ensures var entry := folder.children[Index(folder.children, rest[0])].entry;
            var block := Block(entry, prefix, recursive, rest[0]);
            && entry < folder && Proper(entry)
            && |items| + |block| <= |all| && (acceptable ==> EntryAcceptable(entry, recursive))
            && (EntryAcceptable(entry, recursive) ==>
                  Pending(folder, prefix, recursive, rest[1..], items + block, all, acceptable))
  {
    NextName(folder, prefix, recursive, rest);
    var entry := folder.children[Index(folder.children, rest[0])].entry;
    var block := Block(entry, prefix, recursive, rest[0]);
    var left := Prefixed(prefix, ListNames(folder, recursive, rest[1..]));
    assert items + (block + left) == (items + block) + left;
  }
}
