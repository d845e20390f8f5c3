/** The main window of the sorter: it walks the fixed file list one file at a
    time, moves the shown file into a sub-folder of the source folder on
    request, skips it, or undoes the last move.  The file system is a set of
    paths (files directly in the source folder or in one of its
    sub-folders) and a set of sub-folder names; `shutil.move` and
    `mkdir(exist_ok=True)` act on them. */
module Sorter {
  import opened Options
  import opened Strings
  import opened Similarity
  import opened MediaFiles
  import opened Folders

  /** Where a file lives: the source folder itself or one of its sub-folders. */
  datatype Place = Root | Sub(folder: string)

  datatype FsPath = FsPath(place: Place, name: string)

  /** One entry of `actions`: the moved file's name and where it went. */
  datatype MoveRecord = MoveRecord(name: string, dest: FsPath)

  /** What `update_status` shows, or the "Finished." of the last file. */
  datatype Status = Finished | Progress(position: nat, total: nat, remaining: nat)

  datatype MoveOutcome = NoFile | MissingName | Declined | MoveFailed | Moved(folder: string)

  datatype UndoOutcome = NothingToUndo | FileMissing(at: FsPath) | Restored(name: string)

  const MiscFolder: string := "Misc"

  /** `shutil.move(src, dst)` for a file: it fails when `src` is missing;
      otherwise the file leaves `src` and replaces whatever was at `dst`. */
  function MoveFile(disk: set<FsPath>, src: FsPath, dst: FsPath): (r: Option<set<FsPath>>)
    ensures r.None? <==> src !in disk
    ensures r.Some? ==> dst in r.value && (src != dst ==> src !in r.value)
    ensures r.Some? ==> forall p :: p != src && p != dst ==> (p in r.value <==> p in disk)
  {
    if src in disk then Some(disk - {src} + {dst}) else None
  }

  /** The file shown at position `index`, none past the end. */
  function Shown(files: seq<string>, index: nat): Option<string>
  {
    if index < |files| then Some(files[index]) else None
  }

  /** The file system as the listing of the source folder shows it: its
      regular files are the files at the top level, its folder entries the
      existing sub-folders, and every file below the top level lies in one of
      them.  A missing source folder holds nothing. */
  ghost predicate Mirrors(listing: Directory, disk: set<FsPath>, folders: set<string>)
  {
    match listing
    case Missing => disk == {} && folders == {}
    case Listing(es) =>
      && (forall name :: FsPath(Root, name) in disk <==> Entry(name, RegularFile) in es)
      && (forall f :: f in folders <==> Entry(f, Folder) in es)
      && (forall p :: p in disk && p.place.Sub? ==> p.place.folder in folders)
  }

  class SorterApp {
    const files: seq<string>
    var index: nat
    var currentPath: Option<string>
    var actions: seq<MoveRecord>
    var lastFolderName: Option<string>
    /** The text of the folder entry (`folder_var`). */
    var folderText: string
    var disk: set<FsPath>
    var folders: set<string>

    /** The position never passes the end of the list; every recorded move
        advanced it by one; the shown file is the one at the position.  Every
        file below the top level lies in an existing sub-folder, and every
        record points into an existing sub-folder under the moved file's
        own name. */
    ghost predicate Valid()
      reads this
    {
      && index <= |files|
      && |actions| <= index
      && currentPath == Shown(files, index)
      && (forall p :: p in disk && p.place.Sub? ==> p.place.folder in folders)
      && (forall k :: 0 <= k < |actions| ==>
            && actions[k].dest.place.Sub? && actions[k].dest.name == actions[k].name
            && actions[k].dest.place.folder in folders)
    }

    /** `_move_to(folder)` succeeds: a file is shown and still in the source
        folder, and no file of the folder's name keeps `mkdir` from making
        the folder. */
    ghost predicate MoveSucceeds(folder: string)
      reads this
    {
      && currentPath.Some?
      && FsPath(Root, currentPath.value) in disk
      && (folder in folders || FsPath(Root, folder) !in disk)
    }

    /** The sub-folders after `mkdir(exist_ok=True)`: it adds the folder
        unless a file of that name is in its way. */
    ghost function AfterMkdir(folder: string): set<string>
      reads this
    {
      if folder in folders || FsPath(Root, folder) !in disk then folders + {folder} else folders
    }

    /** The state a successful `_move_to(folder)` leaves: the folder exists,
        the shown file has moved into it, the move is recorded, the folder is
        remembered and the next file is shown. */
    twostate predicate MovedTo(folder: string)
      reads this
    {
      && old(currentPath).Some?
      && var name := old(currentPath).value;
         && folders == old(folders) + {folder}
         && MoveFile(old(disk), FsPath(Root, name), FsPath(Sub(folder), name)) == Some(disk)
         && actions == old(actions) + [MoveRecord(name, FsPath(Sub(folder), name))]
         && lastFolderName == Some(folder)
         && index == old(index) + 1
         && folderText == (if index < |files| then "" else old(folderText))
    }

    /** Nothing but possibly the set of sub-folders has changed. */
    twostate predicate Kept()
      reads this
    {
      && index == old(index) && currentPath == old(currentPath)
      && actions == old(actions) && lastFolderName == old(lastFolderName)
      && folderText == old(folderText) && disk == old(disk)
    }

    /** `__init__`: builds the file list from the listing of the source
        folder and shows the first file.  Every listed file starts out in the
        source folder. */
    constructor (listing: Directory, signature: string -> Option<Signature>,
                 disk0: set<FsPath>, folders0: set<string>)
      requires Mirrors(listing, disk0, folders0)
      ensures Valid()
      ensures files == MediaOrder(listing, signature)
      ensures index == 0 && actions == [] && lastFolderName == None && folderText == ""
      ensures disk == disk0 && folders == folders0
      ensures forall i :: 0 <= i < |files| ==> FsPath(Root, files[i]) in disk
    {
      var fs := GetFiles(listing, signature);
      files := fs;
      index := 0;
      currentPath := None;
      actions := [];
      lastFolderName := None;
      folderText := "";
      disk := disk0;
      folders := folders0;
      new;
      LoadNextFile();
      if listing.Listing? {
        ListedOnDisk(listing.entries, signature, disk0, folders0);
      }
    }

    /** `update_status`, and the "Finished." shown past the last file. */
    function Status(): (s: Status)
      reads this
      ensures s.Finished? <==> index >= |files|
      ensures s.Progress? ==> && 1 <= s.position <= s.total == |files|
                              && s.position + s.remaining == s.total + 1
    {
      if index >= |files| then Finished else Progress(index + 1, |files|, |files| - index)
    }

    /** `load_next_file`: shows the file at the position, or nothing past the
        end; showing a file clears the folder entry. */
    method LoadNextFile()
      requires index <= |files| && |actions| <= index
      requires forall p :: p in disk && p.place.Sub? ==> p.place.folder in folders
      requires forall k :: 0 <= k < |actions| ==>
                 && actions[k].dest.place.Sub? && actions[k].dest.name == actions[k].name
                 && actions[k].dest.place.folder in folders
      modifies this
      ensures Valid()
      ensures currentPath == Shown(files, index)
      ensures folderText == (if index < |files| then "" else old(folderText))
      ensures index == old(index) && actions == old(actions) && lastFolderName == old(lastFolderName)
      ensures disk == old(disk) && folders == old(folders)
    {
      if index >= |files| {
        currentPath := None;
        return;
      }
      currentPath := Some(files[index]);
      folderText := "";
    }

    /** The user edits the folder entry. */
    method TypeFolder(text: string)
      modifies this
      ensures folderText == text
      ensures index == old(index) && currentPath == old(currentPath) && actions == old(actions)
      ensures lastFolderName == old(lastFolderName) && disk == old(disk) && folders == old(folders)
    {
      folderText := text;
    }

    /** `_move_to(folder)`: creates the sub-folder if needed, moves the shown
        file into it, records the move and shows the next file.  Creating
        the folder fails when a file of that name is in its way; the move
        fails when the shown file is no longer there.  A failed move keeps a
        folder it created. */
    method MoveTo(folder: string) returns (moved: bool)
      requires Valid() && currentPath.Some? && folder != ""
      modifies this
      ensures Valid()
      ensures moved <==> old(MoveSucceeds(folder))
      ensures folders == old(AfterMkdir(folder))
      ensures moved ==> MovedTo(folder)
      ensures !moved ==> Kept()
    {
      if folder !in folders && FsPath(Root, folder) in disk {
        return false;
      }
      folders := folders + {folder};
      var name := currentPath.value;
      var src := FsPath(Root, name);
      var dst := FsPath(Sub(folder), name);
      var after := MoveFile(disk, src, dst);
      if after.None? {
        return false;
      }
      disk := after.value;
      actions := actions + [MoveRecord(name, dst)];
      lastFolderName := Some(folder);
      index := index + 1;
      LoadNextFile();
      moved := true;
    }

    /** `move_current_file`: moves the shown file to the folder named in the
        entry, once stripped; a folder that does not exist yet is created
        only when the user confirms it. */
    method MoveCurrentFile(confirmCreate: bool) returns (outcome: MoveOutcome)
      requires Valid()
      modifies this
      ensures Valid()
      ensures var folder := Strip(old(folderText));
              var present := folder in old(folders) || FsPath(Root, folder) in old(disk);
              && (outcome == NoFile <==> old(currentPath).None?)
              && (outcome == MissingName <==> old(currentPath).Some? && folder == [])
              && (outcome == Declined <==> old(currentPath).Some? && folder != [] && !present && !confirmCreate)
              && (outcome.Moved? <==> folder != [] && (present || confirmCreate) && old(MoveSucceeds(folder)))
              && (outcome.Moved? ==> outcome == Moved(folder) && MovedTo(folder))
              && (!outcome.Moved? ==> Kept())
              && folders == (if outcome in {NoFile, MissingName, Declined} then old(folders)
                             else old(AfterMkdir(folder)))
    {
      if currentPath.None? {
        return NoFile;
      }
      var folder := Strip(folderText);
      if folder == [] {
        return MissingName;
      }
      var present := folder in folders || FsPath(Root, folder) in disk;
      if !present && !confirmCreate {
        return Declined;
      }
      var moved := MoveTo(folder);
      outcome := if moved then Moved(folder) else MoveFailed;
    }

    /** `add_to_previous_folder`: repeats the last destination, if any. */
    method AddToPreviousFolder() returns (outcome: MoveOutcome)
      requires Valid()
      modifies this
      ensures Valid()
      ensures var prev := old(lastFolderName);
              var named := prev.Some? && prev.value != "";
              && (outcome == NoFile <==> old(currentPath).None?)
              && (outcome == MissingName <==> old(currentPath).Some? && !named)
              && outcome != Declined
              && (outcome.Moved? <==> named && old(MoveSucceeds(prev.value)))
              && (outcome.Moved? ==> outcome == Moved(prev.value) && MovedTo(prev.value))
              && (!outcome.Moved? ==> Kept())
              && folders == (if old(currentPath).Some? && named then old(AfterMkdir(prev.value)) else old(folders))
    {
      if currentPath.None? {
        return NoFile;
      }
      if lastFolderName.None? || lastFolderName.value == "" {
        return MissingName;
      }
      var folder := lastFolderName.value;
      var moved := MoveTo(folder);
      outcome := if moved then Moved(folder) else MoveFailed;
    }

    /** `send_to_delete` and `send_to_misc`: a move to a fixed folder. */
    method SendTo(folder: string) returns (outcome: MoveOutcome)
      requires Valid() && folder in {DeleteFolder, MiscFolder}
      modifies this
      ensures Valid()
      ensures outcome in {NoFile, MoveFailed, Moved(folder)}
      ensures outcome == NoFile <==> old(currentPath).None?
      ensures outcome.Moved? <==> old(MoveSucceeds(folder))
      ensures outcome.Moved? ==> MovedTo(folder)
      ensures !outcome.Moved? ==> Kept()
      ensures folders == (if old(currentPath).Some? then old(AfterMkdir(folder)) else old(folders))
    {
      if currentPath.None? {
        return NoFile;
      }
      var moved := MoveTo(folder);
      outcome := if moved then Moved(folder) else MoveFailed;
    }

    /** `skip_file`: shows the next file without moving this one. */
    method SkipFile()
      requires Valid()
      modifies this
      ensures Valid()
      ensures old(currentPath).Some? ==>
                && index == old(index) + 1
                && folderText == (if index < |files| then "" else old(folderText))
      ensures old(currentPath).None? ==> index == old(index) && folderText == old(folderText)
      ensures actions == old(actions) && lastFolderName == old(lastFolderName)
      ensures disk == old(disk) && folders == old(folders)
    {
      if currentPath.Some? {
        index := index + 1;
        LoadNextFile();
      }
    }

    /** `undo_last_action`: takes the last record off `actions` and, if the
        moved file is still where it went, moves it back into the source
        folder, steps the position back by one and shows the file there.  A
        record whose file has gone is dropped all the same. */
    method UndoLastAction() returns (outcome: UndoOutcome)
      requires Valid()
      modifies this
      ensures Valid()
      ensures |old(actions)| == 0 ==> outcome == NothingToUndo && actions == old(actions)
      ensures |old(actions)| > 0 ==>
                var last := old(actions)[|old(actions)| - 1];
                && actions == old(actions)[..|old(actions)| - 1]
                && (outcome == FileMissing(last.dest) <==> last.dest !in old(disk))
                && (outcome == Restored(last.name) <==> last.dest in old(disk))
      ensures outcome.Restored? ==>
                var last := old(actions)[|old(actions)| - 1];
                && old(index) > 0 && index == old(index) - 1
                && disk == MoveFile(old(disk), last.dest, FsPath(Root, last.name)).value
                && folderText == ""
      ensures !outcome.Restored? ==> index == old(index) && disk == old(disk) && folderText == old(folderText)
      ensures lastFolderName == old(lastFolderName) && folders == old(folders)
    {
      if |actions| == 0 {
        return NothingToUndo;
      }
      var last := actions[|actions| - 1];
      actions := actions[..|actions| - 1];
      var src := last.dest;
      var dest := FsPath(Root, last.name);
      if src !in disk {
        return FileMissing(src);
      }
      disk := MoveFile(disk, src, dest).value;
      if index > 0 {
        index := index - 1;
      }
      LoadNextFile();
      outcome := Restored(last.name);
    }

    /** `on_keypress`: '§' sends the shown file to "Delete", '=' to the
        previous folder and '-' to "Misc"; every other key does nothing. */
    method OnKeypress(c: char) returns (outcome: Option<MoveOutcome>)
      requires Valid()
      modifies this
      ensures Valid()
      ensures outcome.Some? <==> c in {'§', '=', '-'}
      ensures outcome.None? ==> Kept() && folders == old(folders)
      ensures outcome.Some? && !outcome.value.Moved? ==> Kept()
      ensures c == '§' ==> && outcome.Some?
                           && outcome.value in {NoFile, MoveFailed, Moved(DeleteFolder)}
                           && (outcome.value == NoFile <==> old(currentPath).None?)
                           && folders == (if old(currentPath).Some? then old(AfterMkdir(DeleteFolder)) else old(folders))
                           && (outcome.value.Moved? <==> old(MoveSucceeds(DeleteFolder)))
                           && (outcome.value.Moved? ==> outcome.value == Moved(DeleteFolder) && MovedTo(DeleteFolder))
      ensures c == '-' ==> && outcome.Some?
                           && outcome.value in {NoFile, MoveFailed, Moved(MiscFolder)}
                           && (outcome.value == NoFile <==> old(currentPath).None?)
                           && folders == (if old(currentPath).Some? then old(AfterMkdir(MiscFolder)) else old(folders))
                           && (outcome.value.Moved? <==> old(MoveSucceeds(MiscFolder)))
                           && (outcome.value.Moved? ==> outcome.value == Moved(MiscFolder) && MovedTo(MiscFolder))
      ensures c == '=' ==> var prev := old(lastFolderName);
                           var named := prev.Some? && prev.value != "";
                           && outcome.Some?
                           && outcome.value != Declined
                           && (outcome.value == NoFile <==> old(currentPath).None?)
                           && (outcome.value == MissingName <==> old(currentPath).Some? && !named)
                           && folders == (if old(currentPath).Some? && named then old(AfterMkdir(prev.value)) else old(folders))
                           && (outcome.value.Moved? <==> named && old(MoveSucceeds(prev.value)))
                           && (outcome.value.Moved? ==> outcome.value == Moved(prev.value) && MovedTo(prev.value))
    {
      if c == '§' {
        var o := SendTo(DeleteFolder);
        outcome := Some(o);
      } else if c == '=' {
        var o := AddToPreviousFolder();
        outcome := Some(o);
      } else if c == '-' {
        var o := SendTo(MiscFolder);
        outcome := Some(o);
      } else {
        outcome := None;
      }
    }
  }

  // ------------------------------------------------------------ properties

  /** Every file of the list is a file at the top level of a file system
      that matches the listing. */
  lemma ListedOnDisk(es: seq<Entry>, signature: string -> Option<Signature>,
                     disk: set<FsPath>, folders: set<string>)
    requires Mirrors(Listing(es), disk, folders)
    ensures var files := MediaOrder(Listing(es), signature);
            forall i :: 0 <= i < |files| ==> FsPath(Root, files[i]) in disk
  {
    var files := MediaOrder(Listing(es), signature);
    forall i | 0 <= i < |files| ensures FsPath(Root, files[i]) in disk {
      MediaMembers(es, signature, files[i]);
    }
  }

  /** Moving a file and moving it back gives the old disk exactly when the
      move overwrote nothing. */
  lemma MoveBackRestores(disk: set<FsPath>, src: FsPath, dst: FsPath)
    requires src in disk
    ensures MoveFile(disk, src, dst).Some?
    ensures MoveFile(MoveFile(disk, src, dst).value, dst, src) == Some(disk)
        <==> dst !in disk || dst == src
  {
    var mid := MoveFile(disk, src, dst).value;
    if dst in disk && dst != src {
      assert dst !in MoveFile(mid, dst, src).value;
    } else if dst != src {
      assert mid - {dst} + {src} == disk;
    } else {
      assert mid == disk;
    }
  }

  /** Undo reverts a move: state before a successful move and after undoing
      it agree on the position, the shown file, the records and the disk,
      provided nothing was at the destination. */
  method MoveThenUndo(app: SorterApp, folder: string) returns (moved: bool, outcome: UndoOutcome)
    requires app.Valid() && app.currentPath.Some? && folder != ""
    requires FsPath(Sub(folder), app.currentPath.value) !in app.disk
    modifies app
    ensures app.Valid()
    ensures moved ==> && outcome == Restored(old(app.currentPath).value)
                      && app.index == old(app.index)
                      && app.currentPath == old(app.currentPath)
                      && app.actions == old(app.actions)
                      && app.disk == old(app.disk)
  {
    outcome := NothingToUndo;
    ghost var disk0 := app.disk;
    ghost var name := app.currentPath.value;
    moved := app.MoveTo(folder);
    if moved {
      outcome := app.UndoLastAction();
      MoveBackRestores(disk0, FsPath(Root, name), FsPath(Sub(folder), name));
    }
  }

  /** Moving one file, skipping the next and undoing shows the skipped file
      again, not the restored one: the restored file is back in the source
      folder but the position has passed it. */
  method UndoAfterSkip(app: SorterApp, folder: string) returns (outcome: UndoOutcome)
    requires app.Valid() && app.index + 1 < |app.files| && folder != ""
    requires FsPath(Root, app.files[app.index]) in app.disk
    requires folder in app.folders
    modifies app
    ensures app.Valid()
    ensures outcome == Restored(old(app.files[app.index]))
    ensures app.index == old(app.index) + 1
    ensures app.currentPath == Some(app.files[old(app.index) + 1])
    ensures FsPath(Root, old(app.files[app.index])) in app.disk
  {
    var moved := app.MoveTo(folder);
    assert moved;
    app.SkipFile();
    outcome := app.UndoLastAction();
  }
}
