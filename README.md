# Image sorter — a verified model of its core

The image sorter is a small desktop tool for triaging a folder of photos and
videos. This project models its core in Dafny and proves properties of that
model. The core has four parts:

* **The file list.** The sorter takes the regular files directly inside the
  source folder whose lower-cased suffix is an image extension (`.jpg`,
  `.jpeg`, `.png`, `.webp`) or a video extension (`.mp4`, `.mpeg4`). It puts
  the videos first, in path order. The images follow in *similarity order*:
  - Each image gets a signature (a normalised colour histogram), or none when
    it cannot be decoded.
  - The signed images are sorted by lower-cased name. The first of them starts
    a greedy nearest-neighbour chain, which uses the sum of squared
    differences as its distance.
  - The unsigned images follow, by name.
  - Above 250 images the chaining is skipped and all images are sorted by name.
* **The main window's state machine** over that fixed list:
  - the position `index`;
  - the shown file `current_path`;
  - the undo stack `actions`;
  - the last destination `last_folder_name`;
  - the folder entry's text;
  - the file system, seen as a set of paths plus a set of sub-folders.

  The operations are move, move to the previous folder, send to "Delete" or
  "Misc", skip, undo, the status line and the three shortcut keys.
* **Destination folders**:
  - the non-hidden sub-folders, by lower-cased name;
  - the same list without "Delete" for the "Shuffle Selected" window;
  - the autocomplete filter applied to the typed text.
* **The shuffle window's navigation**: a random permutation of the
  candidates, "next" and "previous" modulo the number of candidates, and the
  preview sizes of both windows.

The modules follow that structure:

- `strings.dfy`: `Options` and `Strings`, which hold ASCII lower-casing,
  `str.strip`, `rfind` and the code-point order of Python strings.
- `sorting.dfy`: `Sorting`, a stable key sort standing for Python's `sorted`
  and `list.sort` with a key.
- `similarity.dfy`: `Similarity`.
- `mediafiles.dfy`: `MediaFiles`.
- `folders.dfy`: `Folders`.
- `sorter.dfy`: `Sorter`, the `SorterApp` class.
- `shuffle.dfy`: `Shuffle`, the `ShuffleView` class.

Some inputs that the program reads from its environment are parameters of the
model:

- **The source folder** is a `Directory`: missing, or a listing of named entries
  in the order `iterdir` yields them.
- **The image signature** is a total function from file name to an optional
  sequence of reals.
- **The confirmation dialog's answer** is a boolean argument.
- **The shuffled order** is any permutation of `0..n-1`.
- **Window and label sizes** are integers.

Paths are file names. Every file the sorter handles lies directly in the
source folder or in one of its direct sub-folders, so a name and its place
identify a path.

### How the code behaves where one might expect otherwise

- **Loading is synchronous.** Building the file list, including every
  signature, happens inside the constructor before the first file is shown.
  No background loader or dispatcher is involved, and the model follows this.
- **Undo after a skip.** Undo moves the last recorded file back and steps the
  position back by one. After "move A, skip B, undo", A is back in the source
  folder but the window shows B again (`Sorter.UndoAfterSkip`). A is not
  shown again unless a further undo steps the position back past it.
- **Undo when the file has gone.** Undo takes the record off the stack before
  it checks that the file is still there. A record whose file has vanished is
  dropped, and neither the position nor the disk changes.
- **A file in the folder's way.** A file with the target folder's name makes
  `exists()` true, so the user is not asked whether to create the folder.
  `mkdir(exist_ok=True)` then fails, and the state stays as it was.
- **The `index > 0` guard in undo never matters.** Every record on the stack
  came from a move that advanced the position, so `|actions| <= index` always
  holds (`SorterApp.Valid`).
- **Three shortcut keys.** '§', '=' and '-' act exactly like "Delete", "Add
  to previous" and "Misc", and every other key does nothing.

## Model

| member | source | states |
|---|---|---|
| `Strings.Lower` | image_sorter.py:173 | lower-casing keeps the length and leaves no ASCII capital, and it keeps every other character |
| `Strings.Strip` | image_sorter.py:663 | the result is a slice of the input, only whitespace is cut from either end, and the result neither starts nor ends with whitespace |
| `Strings.LastIndexOf` | image_sorter.py:173 | the index of the last occurrence of the character, or -1 when it does not occur |
| `Strings.LessEq` | image_sorter.py:204 | Python's string order: code point by code point, a proper prefix first (defined here; its properties are the three lemmas below) |
| `Strings.LessEqTotal` | image_sorter.py:204 | the string order used by every sort is total |
| `Strings.LessEqTransitive` | image_sorter.py:204 | the string order is transitive |
| `Strings.LessEqAntisymmetric` | image_sorter.py:204 | the string order is antisymmetric |
| `Sorting.SortBy` | image_sorter.py:204 | a key sort returns a permutation of its input that is ordered by key |
| `Sorting.Insert` | image_sorter.py:204 | inserting into a sorted list keeps it sorted and adds exactly one element |
| `Sorting.SortByStable` | image_sorter.py:218 | the sort is stable: the elements sharing a key keep their relative order |
| `Sorting.SortByHeadIndex` | image_sorter.py:218-219 | the head of a key sort is the first input element with its key |
| `Sorting.SortByHeadMin` | image_sorter.py:218-219 | the head of a key sort has the smallest key |
| `Similarity.Dist` | image_sorter.py:194-195 | the distance, a sum of squares over the zipped pairs, is never negative |
| `Similarity.DistSymmetric` | image_sorter.py:194-195 | the distance is symmetric |
| `Similarity.DistSelfZero` | image_sorter.py:194-195 | a signature is at distance zero from itself |
| `Similarity.ArgMin` | image_sorter.py:223-226 | `min` over `enumerate` picks a feature of least distance that strictly beats every earlier one |
| `Similarity.Remove` | image_sorter.py:219 | `pop(i)` shifts the later elements down by one and removes exactly that element |
| `Similarity.Chain` | image_sorter.py:222-229 | the greedy chain: the nearest remaining feature (first of equals), then the chain from its signature over the rest (its properties are `ChainPermutation` and `ChainIsGreedy`) |
| `Similarity.SimilarityOrder` | image_sorter.py:197-232 | the image order as a function of the images and their signatures (its properties are the lemmas from `OrderIsPermutation` to `LargeSetSortedByName`) |
| `Similarity.OrderImagesBySimilarity` | image_sorter.py:197-232 | the method returns the similarity order: empty for no images, by lower-cased name for more than 250 images |
| `Similarity.SplitBySignature` | image_sorter.py:209-215 | the scan splits the images into the signed ones (with their signature) and the fallbacks, each part in scan order |
| `Similarity.GreedyChain` | image_sorter.py:220-229 | the `while features` loop appends the seed and then the greedy chain from its signature |
| `Similarity.SignedMembers` | image_sorter.py:209-215 | a feature is signed exactly when its image is listed with that signature, and an image is a fallback exactly when it has none |
| `Similarity.OrderIsPermutation` | image_sorter.py:197-232 | the order holds every image exactly as often as it was given |
| `Similarity.ChainPermutation` | image_sorter.py:222-229 | the greedy chain visits every remaining feature exactly once |
| `Similarity.SeedIsFirstSmallestSigned` | image_sorter.py:217-220 | with at most 250 images and at least one signed image, the order starts with a signed image of smallest lower-cased name |
| `Similarity.ArgMinIsGreedy` | image_sorter.py:223-226 | the chosen feature is no farther than any other, and a tie goes to the name-smaller one |
| `Similarity.ChainIsGreedy` | image_sorter.py:222-229 | every step of the chain picks a feature that beats every feature visited after it |
| `Similarity.SignedChainIsGreedy` | image_sorter.py:217-229 | each image of the signed part is, among those not yet visited, nearest to its predecessor, with ties going to the smaller name |
| `Similarity.FallbacksLast` | image_sorter.py:209-212 | with 1..250 images, the signed images come first and the fallbacks follow, sorted by name and each exactly once |
| `Similarity.LargeSetSortedByName` | image_sorter.py:201-204 | above 250 images the order is a stable name sort that ignores the signatures |
| `MediaFiles.Suffix` | image_sorter.py:173 | `PurePath.suffix` of a name (its contract is `SuffixSpec`) |
| `MediaFiles.KindOf` | image_sorter.py:173-177 | image if the lower-cased suffix is an image extension, else video if it is a video extension, else unsupported (see `KindOfIgnoresCase`, `ExtensionsDisjoint`) |
| `MediaFiles.MediaOrder` | image_sorter.py:167-180 | the file list as a function of the listing and the signatures (its properties are `MediaOrderPermutation`, `MediaMembers` and `VideosFirst`) |
| `MediaFiles.GetFiles` | image_sorter.py:167-180 | returns the media order: empty for a missing folder, otherwise the videos sorted followed by the similarity order of the images |
| `MediaFiles.ScanMedia` | image_sorter.py:170-178 | the `iterdir` loop collects the image files and the video files, each in listing order |
| `MediaFiles.SuffixSpec` | image_sorter.py:173 | the suffix is empty or runs from the last dot, which is neither the name's first nor its last character |
| `MediaFiles.KindOfIgnoresCase` | image_sorter.py:173-177 | classification by extension ignores letter case |
| `MediaFiles.ExtensionsDisjoint` | image_sorter.py:16-17 | no extension is both an image and a video extension |
| `MediaFiles.ScanMember` | image_sorter.py:170-178 | a name is scanned as a kind exactly when a regular file of that name is listed and has that kind |
| `MediaFiles.MediaOrderPermutation` | image_sorter.py:179-180 | the list holds the scanned videos and images, each as often as it was listed |
| `MediaFiles.MediaMembers` | image_sorter.py:167-180 | a name is listed exactly when it is a regular file of the folder with an image or video extension |
| `MediaFiles.VideosFirst` | image_sorter.py:180 | the videos come first, in path order, and everything after them is an image |
| `Folders.ScanFolders` | image_sorter.py:711-715 | the scan keeps the non-hidden sub-folders outside the excluded names, in listing order |
| `Folders.ListAvailableFolders` | image_sorter.py:710-717 | returns the offered folders, sorted by lower-cased name |
| `Folders.ListShuffleFolders` | image_sorter.py:259-280 | returns the shuffle choices, sorted by lower-cased name |
| `Folders.SubfolderMember` | image_sorter.py:711-715 | a name is scanned exactly when it is a listed sub-folder that is neither hidden nor excluded |
| `Folders.AvailableMember` | image_sorter.py:710-717 | a name is offered exactly when it is a non-hidden sub-folder |
| `Folders.ShuffleMember` | image_sorter.py:259-263 | the shuffle choices are the offered folders other than "Delete" |
| `Folders.StartingWithMember` | image_sorter.py:729 | the filter keeps exactly the names whose lower-cased form starts with the text |
| `Folders.StartingWithSorted` | image_sorter.py:729 | the filter keeps the order of what it keeps |
| `Folders.Suggestions` | image_sorter.py:722-734 | the combobox values after typing (its contract is `SuggestionsSpec`) |
| `Folders.SuggestionsSpec` | image_sorter.py:722-734 | a suggestion is an offered folder whose lower-cased name starts with the stripped, lower-cased text; with no text every folder is suggested; suggestions stay sorted |
| `Sorter.MoveFile` | image_sorter.py:651 | a move fails exactly when the source is missing; on success the destination exists, the source is gone and no other path changes |
| `Sorter.MoveBackRestores` | image_sorter.py:767 | moving a file and moving it back restores the disk exactly when the first move overwrote nothing |
| `Sorter.SorterApp.constructor` | image_sorter.py:27-48 | the file list is the media order of the listing, the position is 0, the undo stack is empty, the first file is shown and every listed file starts out in the source folder, given a file system that matches the listing |
| `Sorter.ListedOnDisk` | image_sorter.py:167-180 | every file of the list lies at the top level of a file system that matches the listing |
| `Sorter.SorterApp.Status` | image_sorter.py:773-777 | shows the 1-based position, the total and the number remaining, or "Finished" past the end |
| `Sorter.SorterApp.LoadNextFile` | image_sorter.py:595-609 | shows the file at the position, or nothing past the end; showing a file clears the folder entry |
| `Sorter.SorterApp.TypeFolder` | image_sorter.py:95-98 | the user's edit of the entry bound to `folder_var` changes only its text |
| `Sorter.SorterApp.MoveTo` | image_sorter.py:644-658 | creates the folder unless a file is in its way, moves the shown file, pushes the record, remembers the folder and shows the next file; succeeds exactly when the file is still in the source folder and no file blocks the folder; a failure changes nothing but the folder set, which keeps a folder `mkdir` made |
| `Sorter.SorterApp.MoveCurrentFile` | image_sorter.py:660-671 | no file shown, no name typed and a declined creation each happen exactly in their case and change nothing; the file moves to the stripped folder name exactly when the folder exists or creation is confirmed and the move can succeed, with the full new state |
| `Sorter.SorterApp.AddToPreviousFolder` | image_sorter.py:736-738 | moves the shown file to the last folder exactly when there is a non-empty one and the move can succeed, pushing one record; it does nothing when there is none or it is empty |
| `Sorter.SorterApp.SendTo` | image_sorter.py:740-746 | moves the shown file to "Delete" or "Misc" exactly when a file is shown and the move can succeed, with the full new state; otherwise nothing but a created folder changes |
| `Sorter.SorterApp.SkipFile` | image_sorter.py:748-751 | advances past the shown file, clearing the entry when a next file is shown; the records, folders and disk are unchanged |
| `Sorter.SorterApp.UndoLastAction` | image_sorter.py:753-771 | pops the last record; if its file is still there, moves it back, steps the position back and shows the file there with the entry cleared; otherwise nothing else changes |
| `Sorter.SorterApp.OnKeypress` | image_sorter.py:156-162 | only '§', '=' and '-' act; each gives the outcome, the folder set and the new state that `SendTo("Delete")`, `AddToPreviousFolder` and `SendTo("Misc")` give |
| `Sorter.MoveThenUndo` | image_sorter.py:644-771 | a move followed by undo restores the position, the shown file, the undo stack and the disk |
| `Sorter.UndoAfterSkip` | image_sorter.py:748-771 | after move, skip and undo, the moved file is back in the source folder but the skipped file is shown |
| `Shuffle.Range` | image_sorter.py:357 | `list(range(n))` holds 0..n-1 in order |
| `Shuffle.NextIndex` | image_sorter.py:439-443 | "next" steps forward and wraps from the last candidate to the first |
| `Shuffle.PrevIndex` | image_sorter.py:445-449 | "previous" steps back and wraps from the first candidate to the last (floored remainder) |
| `Shuffle.ShuffleView.constructor` | image_sorter.py:48-55 | no window, no candidates, an empty order and position 0 |
| `Shuffle.ShuffleView.OpenWindow` | image_sorter.py:352-359 | the candidates, their shuffled order and position 0 are installed |
| `Shuffle.ShuffleView.CloseWindow` | image_sorter.py:392-400 | closing keeps the candidates, order and position |
| `Shuffle.ShuffleView.NextImage` | image_sorter.py:439-443 | no-op without candidates, else the position moves to the next index |
| `Shuffle.ShuffleView.PrevImage` | image_sorter.py:445-449 | no-op without candidates, else the position moves to the previous index |
| `Shuffle.ShuffleView.Current` | image_sorter.py:402-405 | a candidate is shown exactly when there are candidates and a window, and it is one of the candidates |
| `Shuffle.PermutationBounded` | image_sorter.py:403-404 | every entry of the shuffled order indexes a candidate |
| `Shuffle.PermutationCovers` | image_sorter.py:357-358 | every candidate has a place in the shuffled order |
| `Shuffle.PrevNextInverse` | image_sorter.py:439-449 | "previous" undoes "next" and vice versa |
| `Shuffle.NextTimesIsAdd` | image_sorter.py:439-443 | fewer than n presses of "next" advance by their number, wrapping once |
| `Shuffle.NextCycle` | image_sorter.py:439-443 | n presses of "next" come back to the start |
| `Shuffle.EveryCandidateShown` | image_sorter.py:357-358 | from any position, every candidate is shown within n presses of "next" |
| `Shuffle.ShufflePreviewSize` | image_sorter.py:451-458 | 800×600 without a window; otherwise the window less 40 across and 120 down, but at least 100 each way |
| `Shuffle.MainPreviewSize` | image_sorter.py:520-525 | the label width and frame height once both exceed one pixel, else 800×600 |

## Left out

- Rendering, the Tk window layout, video playback, rotation and the open-in-player button: they are user interface and do not affect the state modelled here.
- The image signature (decoding, thumbnailing, histogramming): it depends on the image library, so it is a parameter of the model.
- The signature's floating-point weights are modelled as exact reals. Ties between distances can therefore differ from the program's rounding.
- Letter case: `str.lower` is modelled for ASCII letters only.
- File and folder names compare case-sensitively, as on a case-sensitive volume. On a case-insensitive volume, a typed "misc" finds an existing "Misc" through `exists()` and `mkdir(exist_ok=True)` reuses it, whereas the model treats "misc" as a new folder to confirm and create.
- `Similarity.Dist`: zero distance between distinct signatures is not characterised, and nor is the triangle inequality. Only non-negativity, symmetry and self-distance are stated.
- Paths are modelled by file name and by the folder they sit in. Folder names `.` and `..`, names that contain `/`, and absolute folder names are not modelled: in the program `.` names the source folder itself, so a move there is a rename onto itself, whereas the model treats it as a new sub-folder.
- `shutil.move` onto an existing directory, and moves across file systems, are not modelled. Every path is a file in the source folder or in one of its direct sub-folders.
- Exceptions from opening an image while it is shown are not modelled.
- Exceptions other than the two the model names are not modelled: a failing `mkdir` and a move whose source is missing.
- `Sorter.SorterApp.MoveTo`: requires a non-empty folder name. Every caller passes one: a stripped non-empty entry, a non-empty previous folder, or "Delete" or "Misc".
- The shortcut keys also fire while the user types in the folder entry, because the binding is global. The model treats a key press as a separate event.
- Candidate collection for the shuffle window is not modelled: `open_shuffle_sorted` and `start_shuffle_selected` (lines 236-251 and 319-349). The view takes its candidates as given.
- `Sorter.SorterApp.constructor`: requires the file system to match the listing (`Mirrors`); the program reads both from the same disk, which the model keeps as two inputs.
- `random.shuffle` is an arbitrary permutation: no distribution is modelled.
- The config window's select-all and deselect-all check boxes and its grid layout are not modelled, because they are user interface.
- `update_previous_button` and the message boxes are not modelled; they only change labels.
