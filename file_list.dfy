/**
 * Directory listing and the image-file filter of src/image_manager.rs
 * (`ALLOWED_FILE_TYPES` and `get_file_list`).
 *
 * The listing returned by `read_dir` is an input: a sequence of entries in
 * enumeration order. An entry the iterator fails to produce is
 * `UnreadableEntry`; a produced entry carries its name and what `file_type()`
 * answered.
 */
module FileList {
  import opened Cursor

  /** A path as its components: `dir.join(c)` is `JoinPath(dir, c)`, that is `dir + [c]`. */
  type Path = seq<string>

  function JoinPath(dir: Path, component: string): (p: Path)
    ensures |p| == |dir| + 1 && p[..|dir|] == dir && p[|dir|] == component
  {
    dir + [component]
  }

  datatype FileKind =
    | RegularFile     // file_type() succeeded and is_file() holds
    | NotAFile        // a directory, a symbolic link, ...
    | KindUnavailable // file_type() returned an error

  datatype DirEntry =
    | UnreadableEntry
    | Entry(name: string, kind: FileKind)

  /** `ALLOWED_FILE_TYPES`: compared case-sensitively. */
  const AllowedFileTypes: set<string> := {"png", "jpg", "jpeg", "webp"}

  /**
   * `filename.split('.').last()`: the text after the last '.', or the whole
   * name when it has no '.'. It is the longest dot-free suffix of the name.
   */
  function Extension(name: string): (ext: string)
    ensures '.' !in ext && |ext| <= |name|
  {
    if name == [] then []
    else if name[|name| - 1] == '.' then []
    else Extension(name[..|name| - 1]) + [name[|name| - 1]]
  }

  /**
   * The extension is a suffix of the name, and what precedes it (if anything)
   * is a '.': with `'.' !in ext` this makes it the longest dot-free suffix.
   */
  lemma {:induction false} ExtensionIsLastDotFreeSuffix(name: string)
    ensures var ext := Extension(name);
      && ext == name[|name| - |ext|..]
      && (|ext| < |name| ==> name[|name| - |ext| - 1] == '.')
  {
    if name != [] && name[|name| - 1] != '.' {
      var init := name[..|name| - 1];
      ExtensionIsLastDotFreeSuffix(init);
      var ext := Extension(init);
      assert name == init + [name[|name| - 1]];
      assert name[|name| - |ext| - 1..] == init[|init| - |ext|..] + [name[|name| - 1]];
    }
  }

  /** Whatever precedes a final dot-free part ending at a '.', the extension is that part. */
  lemma {:induction false} ExtensionAfterDot(prefix: string, ext: string)
    requires '.' !in ext
    requires prefix == [] || prefix[|prefix| - 1] == '.'
    ensures Extension(prefix + ext) == ext
  {
    if ext != [] {
      var init := ext[..|ext| - 1];
      ExtensionAfterDot(prefix, init);
      assert (prefix + ext)[..|prefix + ext| - 1] == prefix + init;
      assert ext == init + [ext[|ext| - 1]];
    } else {
      assert prefix + ext == prefix;
    }
  }

  /** An entry that `get_file_list` keeps. */
  predicate IsManagedImage(e: DirEntry) {
    e.Entry? && e.kind == RegularFile && Extension(e.name) in AllowedFileTypes
  }

  /** `get_file_list`: the names of the managed images, in enumeration order. */
  function GetFileList(entries: seq<DirEntry>): (names: seq<string>)
    ensures |names| <= |entries|
    ensures forall n :: n in names ==> Extension(n) in AllowedFileTypes
  {
    if entries == [] then []
    else Keep(entries[0]) + GetFileList(entries[1..])
  }

  /** What one entry contributes to the file list: its own name, or nothing. */
  function Keep(e: DirEntry): (kept: seq<string>)
    ensures |kept| <= 1 && (kept != [] <==> IsManagedImage(e))
    ensures forall n :: n in kept ==> e.Entry? && n == e.name
  {
    if IsManagedImage(e) then [e.name] else []
  }

  /** Names of the listing's produced entries have no duplicates (a directory holds each name once). */
  predicate DistinctNames(entries: seq<DirEntry>) {
    forall j, k :: 0 <= j < k < |entries| && entries[j].Entry? && entries[k].Entry? ==>
      entries[j].name != entries[k].name
  }

  // ---------------------------------------------------------------------------
  // Laws
  // ---------------------------------------------------------------------------

  /** Filtering a concatenated listing is filtering each part. */
  lemma {:induction false} GetFileListAppend(a: seq<DirEntry>, b: seq<DirEntry>)
    ensures GetFileList(a + b) == GetFileList(a) + GetFileList(b)
  {
    if a == [] {
      assert a + b == b;
    } else {
      assert (a + b)[0] == a[0];
      assert (a + b)[1..] == a[1..] + b;
      GetFileListAppend(a[1..], b);
    }
  }

  /** The entries of the listing that `get_file_list` keeps under the given name. */
  predicate ListedAt(entries: seq<DirEntry>, j: int, name: string) {
    0 <= j < |entries| && IsManagedImage(entries[j]) && entries[j].name == name
  }

  /** A name is listed exactly when some entry is a regular file of that name with an allowed extension. */
  lemma {:induction false} GetFileListMembership(entries: seq<DirEntry>, name: string)
    ensures name in GetFileList(entries) <==> exists j :: ListedAt(entries, j, name)
  {
    if entries != [] {
      var rest := entries[1..];
      GetFileListMembership(rest, name);
      assert GetFileList(entries) == Keep(entries[0]) + GetFileList(rest);
      if name in Keep(entries[0]) {
        assert ListedAt(entries, 0, name);
      }
      if name in GetFileList(rest) {
        var j :| ListedAt(rest, j, name);
        assert ListedAt(entries, j + 1, name);
      }
      if exists j :: ListedAt(entries, j, name) {
        var j :| ListedAt(entries, j, name);
        if j > 0 {
          assert ListedAt(rest, j - 1, name);
        } else {
          assert Keep(entries[0]) == [name];
        }
      }
    }
  }

  /** Distinct directory names give a list without duplicates. */
  lemma {:induction false} GetFileListDistinct(entries: seq<DirEntry>)
    requires DistinctNames(entries)
    ensures Distinct(GetFileList(entries))
  {
    if entries != [] {
      var rest := entries[1..];
      var e := entries[0];
      assert DistinctNames(rest);
      GetFileListDistinct(rest);
      var names := GetFileList(rest);
      if IsManagedImage(e) {
        forall k | 0 <= k < |names| ensures names[k] != e.name {
          assert names[k] in names;
          GetFileListMembership(rest, names[k]);
        }
      }
    }
  }

  /** The file list of a listing with one image and one text file holds only the image. */
  lemma TextFileIsInvisible()
    ensures GetFileList([Entry("a.png", RegularFile), Entry("b.txt", RegularFile)]) == ["a.png"]
  {
    var listing := [Entry("a.png", RegularFile), Entry("b.txt", RegularFile)];
    assert Keep(listing[0]) == ["a.png"] by {
      ExtensionAfterDot("a.", "png");
      assert "a." + "png" == "a.png";
    }
    assert Keep(listing[1]) == [] by {
      ExtensionAfterDot("b.", "txt");
      assert "b." + "txt" == "b.txt";
    }
    assert listing[1..][1..] == [];
    assert GetFileList([]) == [];
    assert GetFileList(listing[1..]) == [];
  }

  /** The match is case-sensitive: an upper-case extension is not kept. */
  lemma UpperCaseExtensionIsSkipped()
    ensures GetFileList([Entry("A.PNG", RegularFile)]) == []
  {
    assert Keep(Entry("A.PNG", RegularFile)) == [] by {
      ExtensionAfterDot("A.", "PNG");
      assert "A." + "PNG" == "A.PNG";
    }
    assert [Entry("A.PNG", RegularFile)][1..] == [];
    assert GetFileList([]) == [];
  }

  /** A name without a dot is its own extension, so a file named "png" is kept. */
  lemma DotlessNameIsItsOwnExtension()
    ensures GetFileList([Entry("png", RegularFile)]) == ["png"]
  {
    assert Keep(Entry("png", RegularFile)) == ["png"] by {
      ExtensionAfterDot("", "png");
      assert "" + "png" == "png";
    }
    assert [Entry("png", RegularFile)][1..] == [];
    assert GetFileList([]) == [];
  }
}
