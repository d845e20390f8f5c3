/** The destination folders offered to the user: `_list_available_folders`
    (the combobox values), the folder choices of the "Shuffle Selected"
    window, and the autocomplete filter `on_folder_typed`. */
module Folders {
  import opened Strings
  import opened Sorting
  import opened MediaFiles

  /** `name.startswith(".")`. */
  predicate Hidden(name: string)
  {
    |name| > 0 && name[0] == '.'
  }

  /** The folder the "Delete" action moves files to; the shuffle choices
      leave it out. */
  const DeleteFolder: string := "Delete"

  /** The names of the listed sub-folders that are not hidden and not in
      `excluded`, in listing order. */
  function Subfolders(entries: seq<Entry>, excluded: set<string>): seq<string>
  {
    if |entries| == 0 then []
    else
      var e := entries[|entries| - 1];
      Subfolders(entries[..|entries| - 1], excluded)
      + (if e.kind == Folder && !Hidden(e.name) && e.name !in excluded then [e.name] else [])
  }

  /** The folders offered for moving: what `_list_available_folders` returns. */
  function AvailableFolders(dir: Directory): seq<string>
  {
    match dir
    case Missing => []
    case Listing(es) => SortBy(Subfolders(es, {}), Lower)
  }

  /** The folders the "Shuffle Selected" window offers, in the order it lays
      them out. */
  function ShuffleFolders(dir: Directory): seq<string>
  {
    match dir
    case Missing => []
    case Listing(es) => SortBy(Subfolders(es, {DeleteFolder}), Lower)
  }

  /** The scanning loop shared by both folder lists. */
  method ScanFolders(es: seq<Entry>, excluded: set<string>) returns (folders: seq<string>)
    ensures folders == Subfolders(es, excluded)
  {
    folders := [];
    for i := 0 to |es|
      invariant folders == Subfolders(es[..i], excluded)
    {
      assert es[..i + 1][..i] == es[..i];
      var e := es[i];
      if e.kind == Folder && !Hidden(e.name) && e.name !in excluded {
        folders := folders + [e.name];
      }
    }
    assert es[..|es|] == es;
  }

  /** `_list_available_folders`. */
  method ListAvailableFolders(dir: Directory) returns (folders: seq<string>)
    ensures folders == AvailableFolders(dir)
    ensures SortedBy(folders, Lower)
  {
    folders := [];
    if dir.Listing? {
      folders := ScanFolders(dir.entries, {});
      folders := SortBy(folders, Lower);
    }
  }

  /** The folder list built by `open_shuffle_selected_config`. */
  method ListShuffleFolders(dir: Directory) returns (folders: seq<string>)
    ensures folders == ShuffleFolders(dir)
    ensures SortedBy(folders, Lower)
  {
    folders := [];
    if dir.Listing? {
      folders := ScanFolders(dir.entries, {DeleteFolder});
      folders := SortBy(folders, Lower);
    }
  }

  /** The names of `names` that the lower-cased `text` starts, keeping their
      order. */
  function StartingWith(names: seq<string>, text: string): seq<string>
  {
    if |names| == 0 then []
    else (if text <= Lower(names[0]) then [names[0]] else []) + StartingWith(names[1..], text)
  }

  /** The combobox values after `on_folder_typed` with `typed` in the entry:
      every folder when the stripped text is empty, otherwise those whose
      lower-cased name starts with the stripped, lower-cased text. */
  function Suggestions(typed: string, dir: Directory): seq<string>
  {
    var text := Lower(Strip(typed));
    var all := AvailableFolders(dir);
    if |text| == 0 then all else StartingWith(all, text)
  }

  // ------------------------------------------------------------ properties

  /** Membership in a folder scan. */
  lemma {:induction false} SubfolderMember(entries: seq<Entry>, excluded: set<string>, x: string)
    ensures x in Subfolders(entries, excluded)
        <==> Entry(x, Folder) in entries && !Hidden(x) && x !in excluded
  {
    if |entries| > 0 {
      var n := |entries| - 1;
      var e := entries[n];
      SubfolderMember(entries[..n], excluded, x);
      assert entries == entries[..n] + [e];
      var tail := if e.kind == Folder && !Hidden(e.name) && e.name !in excluded then [e.name] else [];
      assert Subfolders(entries, excluded) == Subfolders(entries[..n], excluded) + tail;
      assert x in Subfolders(entries, excluded) <==> x in Subfolders(entries[..n], excluded) || x in tail;
      assert Entry(x, Folder) in entries <==> Entry(x, Folder) in entries[..n] || Entry(x, Folder) == e;
    }
  }

  /** A name is offered exactly when it is a listed, non-hidden sub-folder. */
  lemma AvailableMember(es: seq<Entry>, x: string)
    ensures x in AvailableFolders(Listing(es)) <==> Entry(x, Folder) in es && !Hidden(x)
  {
    SubfolderMember(es, {}, x);
    var s := Subfolders(es, {});
    assert x in SortBy(s, Lower) <==> x in multiset(SortBy(s, Lower));
    assert x in s <==> x in multiset(s);
  }

  /** The shuffle choices are the offered folders without "Delete". */
  lemma ShuffleMember(es: seq<Entry>, x: string)
    ensures x in ShuffleFolders(Listing(es)) <==> x in AvailableFolders(Listing(es)) && x != DeleteFolder
  {
    SubfolderMember(es, {DeleteFolder}, x);
    AvailableMember(es, x);
    var s := Subfolders(es, {DeleteFolder});
    assert x in SortBy(s, Lower) <==> x in multiset(SortBy(s, Lower));
    assert x in s <==> x in multiset(s);
  }

  /** The filter keeps exactly the names the text starts. */
  lemma {:induction false} StartingWithMember(names: seq<string>, text: string, x: string)
    ensures x in StartingWith(names, text) <==> x in names && text <= Lower(x)
  {
    if |names| > 0 {
      StartingWithMember(names[1..], text, x);
      assert names == [names[0]] + names[1..];
    }
  }

  /** The filter keeps the order of what it keeps, so a sorted list stays
      sorted. */
  lemma {:induction false} StartingWithSorted(names: seq<string>, text: string)
    requires SortedBy(names, Lower)
    ensures SortedBy(StartingWith(names, text), Lower)
  {
    if |names| > 0 {
      SortedByTail(names, Lower);
      StartingWithSorted(names[1..], text);
      var rest := StartingWith(names[1..], text);
      if text <= Lower(names[0]) {
        forall j | 0 <= j < |rest| ensures LessEq(Lower(names[0]), Lower(rest[j])) {
          assert rest[j] in rest;
          StartingWithMember(names[1..], text, rest[j]);
          var p :| 0 <= p < |names[1..]| && names[1..][p] == rest[j];
          assert names[p + 1] == rest[j];
        }
        ConsSorted(names[0], rest, Lower);
      }
    }
  }

  /** A suggestion is an offered folder whose lower-cased name starts with
      the typed text once stripped and lower-cased; with nothing typed, every
      offered folder is suggested.  The suggestions keep name order. */
  lemma SuggestionsSpec(typed: string, dir: Directory, x: string)
    ensures var text := Lower(Strip(typed));
            x in Suggestions(typed, dir) <==> x in AvailableFolders(dir) && text <= Lower(x)
    ensures SortedBy(Suggestions(typed, dir), Lower)
  {
    var text := Lower(Strip(typed));
    StartingWithMember(AvailableFolders(dir), text, x);
    StartingWithSorted(AvailableFolders(dir), text);
  }
}
