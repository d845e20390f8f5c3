/** The file list of the sorter, `_get_files`: the direct children of the
    source folder that are regular files with an image or video extension,
    videos first in path order, then the images in similarity order.  The
    folder listing (`iterdir`, in whatever order the file system gives it) is
    a parameter of the model. */
module MediaFiles {
  import opened Options
  import opened Strings
  import opened Sorting
  import opened Similarity

  /** What `is_file()` sees: a regular file, a folder, or anything else. */
  datatype EntryKind = RegularFile | Folder | OtherEntry

  /** One child of a folder: its name and its kind. */
  datatype Entry = Entry(name: string, kind: EntryKind)

  /** A folder that does not exist, or the listing of one that does. */
  datatype Directory = Missing | Listing(entries: seq<Entry>)

  datatype MediaKind = Image | Video | Unsupported

  const ImageExts: set<string> := {".jpg", ".jpeg", ".png", ".webp"}
  const VideoExts: set<string> := {".mp4", ".mpeg4"}

  /** `PurePath.suffix`: from the last dot on, provided that dot is neither
      the first nor the last character of the name; otherwise empty. */
  function Suffix(name: string): string
  {
    var i := LastIndexOf(name, '.');
    if 0 < i < |name| - 1 then name[i..] else []
  }

  /** The media kind `_get_files` gives a name by its lower-cased suffix,
      images tested first. */
  function KindOf(name: string): MediaKind
  {
    var ext := Lower(Suffix(name));
    if ext in ImageExts then Image else if ext in VideoExts then Video else Unsupported
  }

  /** The names of the regular files of kind `kind` in `entries`, in listing
      order. */
  function Scan(entries: seq<Entry>, kind: MediaKind): seq<string>
  {
    if |entries| == 0 then []
    else
      var e := entries[|entries| - 1];
      Scan(entries[..|entries| - 1], kind)
      + (if e.kind == RegularFile && KindOf(e.name) == kind then [e.name] else [])
  }

  /** The sort key of `sorted(videos)`: paths of one folder compare by their
      names, code point by code point, so the key is the name itself (the
      key sort needs a key function, and this one names that choice). */
  function PathKey(name: string): string
  {
    name
  }

  /** What `_get_files` returns. */
  function MediaOrder(dir: Directory, signature: string -> Option<Signature>): seq<string>
  {
    match dir
    case Missing => []
    case Listing(es) => SortBy(Scan(es, Video), PathKey) + SimilarityOrder(Scan(es, Image), signature)
  }

  /** `_get_files`, with its scanning loop. */
  method GetFiles(dir: Directory, signature: string -> Option<Signature>) returns (files: seq<string>)
    ensures files == MediaOrder(dir, signature)
    ensures dir.Missing? ==> files == []
  {
    var images: seq<string> := [];
    var videos: seq<string> := [];
    if dir.Listing? {
      images, videos := ScanMedia(dir.entries);
    }
    var orderedImages := OrderImagesBySimilarity(images, signature);
    files := SortBy(videos, PathKey) + orderedImages;
  }

  /** The `for p in iterdir()` loop of `_get_files`. */
  method ScanMedia(es: seq<Entry>) returns (images: seq<string>, videos: seq<string>)
    ensures images == Scan(es, Image)
    ensures videos == Scan(es, Video)
  {
    images := [];
    videos := [];
    for i := 0 to |es|
      invariant images == Scan(es[..i], Image)
      invariant videos == Scan(es[..i], Video)
    {
      ScanStep(es, i, Image);
      ScanStep(es, i, Video);
      var e := es[i];
      if e.kind == RegularFile {
        var kind := KindOf(e.name);
        if kind == Image {
          images := images + [e.name];
        } else if kind == Video {
          videos := videos + [e.name];
        }
      }
    }
    assert es[..|es|] == es;
  }

  // ------------------------------------------------------------ properties

  /** One more entry extends each scan by at most its own name. */
  lemma ScanStep(es: seq<Entry>, i: nat, kind: MediaKind)
    requires i < |es|
    ensures Scan(es[..i + 1], kind)
         == Scan(es[..i], kind) + (if es[i].kind == RegularFile && KindOf(es[i].name) == kind then [es[i].name] else [])
  {
    assert es[..i + 1][..i] == es[..i];
  }

  /** The suffix starts at the last dot, which is neither the first nor the
      last character; it is empty exactly when the name ends in a dot or has
      no dot after its first character. */
  lemma SuffixSpec(name: string)
    ensures var r := Suffix(name);
            && (r != [] ==> 2 <= |r| < |name| && r == name[|name| - |r|..] && r[0] == '.')
            && (forall k :: 0 < k < |r| ==> r[k] != '.')
            && (r == [] <==> (|name| > 0 && name[|name| - 1] == '.')
                             || (forall i :: 0 < i < |name| ==> name[i] != '.'))
  {
  }

  /** Extensions match regardless of case: renaming `A.JPG` to `a.jpg` does
      not change how the file is classified. */
  lemma KindOfIgnoresCase(name: string)
    ensures KindOf(Lower(name)) == KindOf(name)
  {
    var low := Lower(name);
    LowerKeepsDots(name);
    var i := LastIndexOf(name, '.');
    if 0 < i < |name| - 1 {
      assert Lower(name[i..]) == low[i..];
      assert Lower(low[i..]) == Lower(name[i..]);
    }
  }

  /** Lower-casing leaves every dot where it was, and only there. */
  lemma {:induction false} LowerKeepsDots(s: string)
    ensures LastIndexOf(Lower(s), '.') == LastIndexOf(s, '.')
  {
    if |s| > 0 {
      var n := |s| - 1;
      LowerKeepsDots(s[..n]);
      assert Lower(s)[..n] == Lower(s[..n]);
    }
  }

  /** The kinds are told apart by disjoint extension sets. */
  lemma ExtensionsDisjoint()
    ensures ImageExts * VideoExts == {}
  {
    assert ".jpg" != ".mp4" && ".jpeg" != ".mp4" && ".png" != ".mp4" && ".webp" != ".mp4";
    assert ".jpg" != ".mpeg4" && ".jpeg" != ".mpeg4" && ".png" != ".mpeg4" && ".webp" != ".mpeg4";
  }

  /** A name is scanned as `kind` exactly when a regular file of that name
      is listed and the name has that kind. */
  lemma {:induction false} ScanMember(entries: seq<Entry>, kind: MediaKind, x: string)
    ensures x in Scan(entries, kind) <==> Entry(x, RegularFile) in entries && KindOf(x) == kind
  {
    if |entries| > 0 {
      var n := |entries| - 1;
      var e := entries[n];
      ScanMember(entries[..n], kind, x);
      assert entries == entries[..n] + [e];
      var tail := if e.kind == RegularFile && KindOf(e.name) == kind then [e.name] else [];
      assert Scan(entries, kind) == Scan(entries[..n], kind) + tail;
      assert x in Scan(entries, kind) <==> x in Scan(entries[..n], kind) || x in tail;
      assert Entry(x, RegularFile) in entries <==> Entry(x, RegularFile) in entries[..n] || Entry(x, RegularFile) == e;
    }
  }

  /** The list holds each scanned video and image exactly as often as it
      was listed, and nothing else. */
  lemma MediaOrderPermutation(es: seq<Entry>, signature: string -> Option<Signature>)
    ensures multiset(MediaOrder(Listing(es), signature))
         == multiset(Scan(es, Video)) + multiset(Scan(es, Image))
  {
    OrderIsPermutation(Scan(es, Image), signature);
  }

  /** A name is in the list exactly when the folder lists a regular file of
      that name with an image or video extension. */
  lemma MediaMembers(es: seq<Entry>, signature: string -> Option<Signature>, x: string)
    ensures x in MediaOrder(Listing(es), signature) <==>
              KindOf(x) != Unsupported && Entry(x, RegularFile) in es
  {
    MediaOrderPermutation(es, signature);
    ScanMember(es, Video, x);
    ScanMember(es, Image, x);
    assert x in MediaOrder(Listing(es), signature) <==> x in multiset(MediaOrder(Listing(es), signature));
  }

  /** Videos come first, in path order, and every name after them is a
      scanned image: a listed regular file whose kind is `Image`. */
  lemma VideosFirst(es: seq<Entry>, signature: string -> Option<Signature>)
    ensures var r := MediaOrder(Listing(es), signature);
            var m := |Scan(es, Video)|;
            && m <= |r|
            && SortedBy(r[..m], PathKey)
            && (forall k :: 0 <= k < m ==> r[k] in Scan(es, Video))
            && (forall k :: m <= k < |r| ==> r[k] in Scan(es, Image))
  {
    var videos := Scan(es, Video);
    var images := Scan(es, Image);
    var v := SortBy(videos, PathKey);
    var o := SimilarityOrder(images, signature);
    assert MediaOrder(Listing(es), signature) == v + o;
    SortedFrom(videos, PathKey);
    OrderedFrom(images, signature);
    SplitAt(MediaOrder(Listing(es), signature), v, o, x => x in videos, x => x in images);
  }

  /** Every element of a sorted list comes from the input. */
  lemma SortedFrom(s: seq<string>, key: string -> string)
    ensures forall k :: 0 <= k < |SortBy(s, key)| ==> SortBy(s, key)[k] in s
  {
    var r := SortBy(s, key);
    forall k | 0 <= k < |r| ensures r[k] in s {
      assert r[k] in multiset(r);
    }
  }

  /** Every element of the similarity order is one of its images. */
  lemma OrderedFrom(images: seq<string>, signature: string -> Option<Signature>)
    ensures forall k :: 0 <= k < |SimilarityOrder(images, signature)| ==> SimilarityOrder(images, signature)[k] in images
  {
    var o := SimilarityOrder(images, signature);
    OrderIsPermutation(images, signature);
    forall k | 0 <= k < |o| ensures o[k] in images {
      assert o[k] in multiset(o);
    }
  }
}
