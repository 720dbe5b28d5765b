/**
 * The pieces of src/main.rs that are not GUI: an earlier `ImageManager`
 * (whole directory, no extension filter, no move), the seed corpus of
 * `TextSuggester::new`, and the suggestion label built in `update`.
 */
module MainApp {
  import opened Wrappers
  import opened Cursor
  import opened FileList

  /** The directory this revision hard-codes: "/home/luctins/tmp/meme". */
  const ImageDir: Path := ["/", "home", "luctins", "tmp", "meme"]

  /**
   * The listing of this revision: every regular file, in enumeration order.
   * Entries the iterator fails to produce are skipped; a failing
   * `file_type()` is unwrapped and panics (`None`).
   */
  function ListRegularFiles(entries: seq<DirEntry>): (r: Option<seq<string>>)
    ensures r.None? <==> exists j :: 0 <= j < |entries| && entries[j].Entry? && entries[j].kind == KindUnavailable
    ensures r.Some? ==> |r.value| <= |entries|
  {
    if entries == [] then Some([])
    else
      assert forall j :: 1 <= j < |entries| ==> entries[j] == entries[1..][j - 1];
      Prepend(entries[0], ListRegularFiles(entries[1..]))
  }

  /** One step of the listing: what the first entry adds to the listing of the rest. */
  function Prepend(e: DirEntry, rest: Option<seq<string>>): Option<seq<string>>
  {
    match e
    case UnreadableEntry => rest
    case Entry(name, kind) =>
      if kind == KindUnavailable || rest.None? then None
      else Some((if kind == RegularFile then [name] else []) + rest.value)
  }

  /** Entry `j` of the listing is a regular file called `name`. */
  predicate RegularAt(entries: seq<DirEntry>, j: int, name: string) {
    0 <= j < |entries| && entries[j] == Entry(name, RegularFile)
  }

  /** Listing a concatenation lists each part, in order; it panics when either part does. */
  lemma {:induction false} ListRegularFilesAppend(a: seq<DirEntry>, b: seq<DirEntry>)
    ensures ListRegularFiles(a + b) ==
      if ListRegularFiles(a).Some? && ListRegularFiles(b).Some?
      then Some(ListRegularFiles(a).value + ListRegularFiles(b).value)
      else None
  {
    if a == [] {
      assert a + b == b;
      assert ListRegularFiles(a) == Some([]);
      if ListRegularFiles(b).Some? {
        assert [] + ListRegularFiles(b).value == ListRegularFiles(b).value;
      }
    } else {
      assert (a + b)[0] == a[0];
      assert (a + b)[1..] == a[1..] + b;
      ListRegularFilesAppend(a[1..], b);
      assert ListRegularFiles(a + b) == Prepend(a[0], ListRegularFiles(a[1..] + b));
      assert ListRegularFiles(a) == Prepend(a[0], ListRegularFiles(a[1..]));
      match a[0]
      case UnreadableEntry =>
        assert ListRegularFiles(a) == ListRegularFiles(a[1..]);
        assert ListRegularFiles(a + b) == ListRegularFiles(a[1..] + b);
      case Entry(name, kind) =>
        var head: seq<string> := if kind == RegularFile then [name] else [];
        if ListRegularFiles(a[1..]).Some? && ListRegularFiles(b).Some? {
          var x, y := ListRegularFiles(a[1..]).value, ListRegularFiles(b).value;
          assert head + (x + y) == (head + x) + y;
        }
    }
  }

  /** Where the listing succeeds, it holds a name exactly when some entry is a regular file of that name. */
  lemma {:induction false} ListRegularFilesMembership(entries: seq<DirEntry>, name: string)
    requires ListRegularFiles(entries).Some?
    ensures name in ListRegularFiles(entries).value <==> exists j :: RegularAt(entries, j, name)
  {
    if entries != [] {
      var rest := entries[1..];
      ListRegularFilesMembership(rest, name);
      var all := ListRegularFiles(entries).value;
      var tail := ListRegularFiles(rest).value;
      assert all == Prepend(entries[0], ListRegularFiles(rest)).value;
      assert name in all <==> name in tail || RegularAt(entries, 0, name);
      if name in tail {
        var j :| RegularAt(rest, j, name);
        assert RegularAt(entries, j + 1, name);
      }
      if exists j :: RegularAt(entries, j, name) {
        var j :| RegularAt(entries, j, name);
        if j > 0 {
          assert RegularAt(rest, j - 1, name);
        } else {
          assert all == [name] + tail;
        }
      }
    }
  }

  /** The extension filter of src/image_manager.rs, applied to a list of names. */
  function KeepImages(names: seq<string>): (kept: seq<string>)
    ensures |kept| <= |names|
    ensures forall n :: n in kept <==> n in names && Extension(n) in AllowedFileTypes
  {
    if names == [] then []
    else (if Extension(names[0]) in AllowedFileTypes then [names[0]] else []) + KeepImages(names[1..])
  }

  /**
   * Where this revision's listing succeeds, the later `get_file_list` is
   * that listing with the extension filter applied.
   */
  lemma {:induction false} FileListRefinesRegularFiles(entries: seq<DirEntry>)
    requires ListRegularFiles(entries).Some?
    ensures GetFileList(entries) == KeepImages(ListRegularFiles(entries).value)
  {
    if entries != [] {
      FileListRefinesRegularFiles(entries[1..]);
      var all := ListRegularFiles(entries).value;
      var rest := ListRegularFiles(entries[1..]).value;
      match entries[0]
      case UnreadableEntry =>
      case Entry(name, kind) =>
        if kind == RegularFile {
          assert all == [name] + rest;
          assert all[1..] == rest;
        } else {
          assert all == rest;
        }
    }
  }

  /** `ImageManager` of src/main.rs; `current_image.1` is `currentIndex`, the texture is left out. */
  class ImageManager {
    var totalFiles: nat
    const dir: Path
    var images: seq<string>
    var newName: string
    var currentIndex: nat

    /** Every state the program survives in; this revision never removes an image. */
    ghost predicate Valid()
      reads this
    {
      0 < |images| && currentIndex < |images| && totalFiles == |images|
    }

    constructor (images: seq<string>)
      requires |images| > 0
      ensures Valid() && dir == ImageDir
      ensures this.images == images && currentIndex == 0 && newName == "" && totalFiles == |images|
    {
      this.totalFiles := |images|;
      this.currentIndex := 0;
      this.newName := "";
      this.dir := ImageDir;
      this.images := images;
    }

    /**
     * `ImageManager::new`: lists the fixed directory. It panics (`null`) when
     * a file type cannot be read, when no file is found (`images[0]`), or
     * when the first file cannot be loaded as a texture: this revision
     * unwraps that load and has no extension filter, so a first file such as
     * "notes.txt" ends the program. Whether the load succeeds is the input
     * `firstImageLoads`.
     */
    static method New(entries: seq<DirEntry>, firstImageLoads: bool) returns (m: ImageManager?)
      ensures m == null <==>
        ListRegularFiles(entries) == None || ListRegularFiles(entries) == Some([]) || !firstImageLoads
      ensures m != null ==> fresh(m) && m.Valid() && m.dir == ImageDir
      ensures m != null ==> m.images == ListRegularFiles(entries).value
      ensures m != null ==> m.currentIndex == 0 && m.newName == "" && m.totalFiles == |m.images|
    {
      var listed := ListRegularFiles(entries);
      if listed.None? || |listed.value| == 0 || !firstImageLoads {
        return null;
      }
      m := new ImageManager(listed.value);
    }

    /** `reload_image`: the path of the image to load (the placeholder fallback is left out). */
    method ReloadImage() returns (path: Path)
      requires Valid()
      ensures path == JoinPath(dir, images[currentIndex])
    {
      path := JoinPath(dir, images[currentIndex]);
    }

    method NextImage()
      requires Valid()
      modifies this
      ensures images == old(images) && totalFiles == old(totalFiles) && newName == old(newName)
      ensures Valid()
      ensures currentIndex == NextIndex(old(currentIndex), |images|)
    {
      var max := |images| - 1;
      currentIndex := currentIndex + if currentIndex >= max then 0 else 1;
      var _ := ReloadImage();
    }

    method PrevImage()
      requires Valid()
      modifies this
      ensures images == old(images) && totalFiles == old(totalFiles) && newName == old(newName)
      ensures Valid()
      ensures currentIndex == PrevIndex(old(currentIndex))
    {
      currentIndex := currentIndex - if currentIndex == 0 then 0 else 1;
      var _ := ReloadImage();
    }

    /**
     * `seek_to_image`: nothing happens when `pos` is the current position;
     * otherwise an out-of-range `pos` is reported, the position is clamped
     * and the image reloaded. Either way the cursor ends where the later
     * revision's unconditional clamp puts it.
     */
    method SeekToImage(pos: nat) returns (warned: bool, reloaded: bool)
      requires Valid()
      modifies this
      ensures images == old(images) && totalFiles == old(totalFiles) && newName == old(newName)
      ensures Valid()
      ensures currentIndex == SeekIndex(pos, |images|)
      ensures reloaded <==> pos != old(currentIndex)
      ensures warned <==> pos != old(currentIndex) && pos > |images| - 1
    {
      var max := |images| - 1;
      warned, reloaded := false, false;
      if currentIndex != pos {
        if pos > max {
          warned := true;
        }
        currentIndex := if pos >= max then max else pos;
        var _ := ReloadImage();
        reloaded := true;
      }
    }
  }

  // ---------------------------------------------------------------------------
  // TextSuggester::new
  // ---------------------------------------------------------------------------

  datatype TextSuggester = TextSuggester(categories: set<string>)

  /** The seed list of `TextSuggester::new`, in source order. */
  const SeedCategories: seq<string> := ["programming", "warframe", "linux"]

  /** `TextSuggester::new`: the seed list collected into a set; no seed is lost. */
  function NewTextSuggester(): (t: TextSuggester)
    ensures t.categories == {"programming", "warframe", "linux"}
    ensures |t.categories| == |SeedCategories|
  {
    TextSuggester(set c | c in SeedCategories)
  }

  // ---------------------------------------------------------------------------
  // The suggestion label of `update`
  // ---------------------------------------------------------------------------

  /**
   * The `fold` of `update`: each further suggestion is appended after ", ".
   * The accumulator is kept as a prefix, and each item adds its own length
   * plus two.
   */
  function FoldLabel(acc: string, items: seq<string>): (text: string)
    decreases |items|
    ensures |text| == |acc| + TotalLength(items) + 2 * |items|
    ensures text[..|acc|] == acc
  {
    if items == [] then acc
    else
      var next := acc + ", " + items[0];
      var text := FoldLabel(next, items[1..]);
      assert text[..|acc|] == text[..|next|][..|acc|];
      text
  }

  /** The first suggestion (or " " when there is none) folded with the rest: the suggestions joined by ", ". */
  function SuggestionLabel(suggestions: seq<string>): (text: string)
    ensures suggestions == [] ==> text == " "
    ensures suggestions != [] ==> text == JoinComma(suggestions)
  {
    if suggestions == [] then " "
    else if |suggestions| == 1 then FoldLabel(suggestions[0], [])
    else
      FoldLabelAppendsJoin(suggestions[0], suggestions[1..]);
      FoldLabel(suggestions[0], suggestions[1..])
  }

  /** The text of the label widget. */
  function SuggestionsLine(suggestions: seq<string>): (line: string)
    ensures line == "Suggestions: " + (if suggestions == [] then " " else JoinComma(suggestions)) + " (TAB to cycle)"
  {
    "Suggestions: " + SuggestionLabel(suggestions) + " (TAB to cycle)"
  }

  /** Reference definition: the items separated by ", ". */
  function JoinComma(items: seq<string>): string
  {
    if |items| == 0 then ""
    else if |items| == 1 then items[0]
    else items[0] + ", " + JoinComma(items[1..])
  }

  function TotalLength(items: seq<string>): nat
  {
    if items == [] then 0 else |items[0]| + TotalLength(items[1..])
  }

  /** Folding from an accumulator appends the ", "-joined items to it. */
  lemma {:induction false} FoldLabelAppendsJoin(acc: string, items: seq<string>)
    requires items != []
    ensures FoldLabel(acc, items) == acc + ", " + JoinComma(items)
    decreases |items|
  {
    if |items| > 1 {
      FoldLabelAppendsJoin(acc + ", " + items[0], items[1..]);
      assert JoinComma(items) == items[0] + ", " + JoinComma(items[1..]);
    }
  }

  /** The joined text is the suggestions' own characters plus two per separator. */
  lemma {:induction false} JoinCommaLength(items: seq<string>)
    requires items != []
    ensures |JoinComma(items)| == TotalLength(items) + 2 * (|items| - 1)
  {
    if |items| > 1 {
      JoinCommaLength(items[1..]);
    }
  }

  lemma NoSuggestionsLine()
    ensures SuggestionsLine([]) == "Suggestions:   (TAB to cycle)"
  {
  }

  lemma TwoSuggestionsLine()
    ensures SuggestionsLine(["linux", "warframe"]) == "Suggestions: linux, warframe (TAB to cycle)"
  {
    assert ["linux", "warframe"][1..] == ["warframe"];
    assert JoinComma(["linux", "warframe"]) == "linux" + ", " + "warframe";
  }
}
