/**
 * `ImageManager` of src/image_manager.rs: the ordered list of image names of
 * one directory and a cursor into it.
 *
 * File-system effects are abstract: the outcome of `fs::copy` and
 * `fs::remove_file` is an input, and the files present are a set of paths
 * that `move_current` returns updated. Every `expect` of the source is a
 * panic, reported as a `MoveStatus`.
 */
module ImageManagement {
  import opened Wrappers
  import opened Cursor
  import opened FileList
  import opened Destination

  /** How a call of `move_current` ends; each failure is a panic in the source. */
  datatype MoveStatus =
    | CopyPanicked    // `fs::copy` failed: nothing changed
    | RemovePanicked  // copied, but `fs::remove_file` failed: the file is in both places
    | ReloadPanicked  // list updated, but the cursor is past its end and `images[image_index]` panics
    | Moved           // list updated and the image under the cursor reloaded

  class ImageManager {
    var imageIndex: nat
    var images: seq<string>
    var totalFileCount: nat
    const dir: Path
    const defaultPath: Path

    /**
     * Every state the program survives in: a non-empty list of distinct
     * names (they come from one directory), the cursor on one of its
     * entries, and no more entries than were found at start-up.
     */
    ghost predicate Valid()
      reads this
    {
      0 < |images| <= totalFileCount && imageIndex < |images| && Distinct(images)
    }

    constructor (dir: Path, config: Config, images: seq<string>)
      requires |images| > 0 && Distinct(images)
      ensures Valid()
      ensures this.images == images && imageIndex == 0 && totalFileCount == |images|
      ensures this.dir == dir && defaultPath == [config.defaultFolder]
    {
      this.defaultPath := [config.defaultFolder];
      this.imageIndex := 0;
      this.totalFileCount := |images|;
      this.dir := dir;
      this.images := images;
    }

    /**
     * `ImageManager::new`: lists the directory; an empty list ends the process
     * (`null` here) before anything is created; otherwise the output
     * directories are created and the cursor starts on the first image.
     * A directory holds each name once (`DistinctNames`).
     */
    static method New(dir: Path, config: Config, entries: seq<DirEntry>)
      returns (m: ImageManager?, createdDirs: set<Path>)
      requires DistinctNames(entries)
      ensures m == null <==> GetFileList(entries) == []
      ensures m == null ==> createdDirs == {}
      ensures m != null ==> fresh(m) && m.Valid() && m.dir == dir
      ensures m != null ==> m.images == GetFileList(entries) && m.imageIndex == 0
      ensures m != null ==> m.totalFileCount == |m.images| && createdDirs == OutputDirs(dir, config)
    {
      var images := GetFileList(entries);
      if |images| == 0 {
        return null, {};
      }
      createdDirs := OutputDirs(dir, config);
      GetFileListDistinct(entries);
      m := new ImageManager(dir, config, images);
    }

    function GetTotalFiles(): (n: nat)
      reads this
      requires Valid()
      ensures 0 < |images| <= n
    {
      totalFileCount
    }

    function GetImagesLen(): (n: nat)
      reads this
      requires Valid()
      ensures 0 < n <= totalFileCount
    {
      |images|
    }

    function GetCurrentPos(): (pos: nat)
      reads this
      requires Valid()
      ensures pos < |images|
    {
      imageIndex
    }

    function GetCurrentFilename(): (name: string)
      reads this
      requires Valid()
      ensures name in images
    {
      images[imageIndex]
    }

    function GetCurrentPath(): (p: Path)
      reads this
      requires Valid()
      ensures |p| == |dir| + 1 && p[..|dir|] == dir && p[|dir|] in images
    {
      JoinPath(dir, GetCurrentFilename())
    }

    /**
     * `reload_image`: the path of the image to open, or `None` when
     * `images[image_index]` is out of range and panics. A missing or
     * undecodable file falls back to a placeholder, which is not modelled.
     */
    method ReloadImage() returns (loaded: Option<Path>)
      ensures imageIndex < |images| ==> loaded == Some(JoinPath(dir, images[imageIndex]))
      ensures imageIndex >= |images| ==> loaded == None
    {
      if imageIndex < |images| {
        loaded := Some(JoinPath(dir, images[imageIndex]));
      } else {
        loaded := None;
      }
    }

    method NextImage()
      requires Valid()
      modifies this
      ensures images == old(images) && totalFileCount == old(totalFileCount)
      ensures Valid()
      ensures imageIndex == NextIndex(old(imageIndex), |images|)
    {
      var max := |images| - 1;
      imageIndex := imageIndex + if imageIndex >= max then 0 else 1;
      var _ := ReloadImage();
    }

    method PrevImage()
      requires Valid()
      modifies this
      ensures images == old(images) && totalFileCount == old(totalFileCount)
      ensures Valid()
      ensures imageIndex == PrevIndex(old(imageIndex))
    {
      imageIndex := imageIndex - if imageIndex == 0 then 0 else 1;
      var _ := ReloadImage();
    }

    method SeekToImage(pos: nat)
      requires Valid()
      modifies this
      ensures images == old(images) && totalFileCount == old(totalFileCount)
      ensures Valid()
      ensures imageIndex == SeekIndex(pos, |images|)
    {
      var max := |images| - 1;
      imageIndex := if pos >= max then max else pos;
      var _ := ReloadImage();
    }

    /**
     * The copy and remove steps shared by both versions of `move_current`:
     * the list changes only once both file operations have succeeded.
     * `fs::copy` fails when its outcome says so or when the source file is
     * not among the files present.
     */
    method CopyAndRemove(category: string, newName: string, files: set<Path>, copySucceeds: bool, removeSucceeds: bool)
      returns (status: MoveStatus, source: Path, target: Path, filesAfter: set<Path>)
      requires Valid()
      modifies this
      ensures source == JoinPath(dir, old(images)[old(imageIndex)])
      ensures target == DestinationPath(dir, category, newName, old(images)[old(imageIndex)])
      ensures imageIndex == old(imageIndex) && totalFileCount == old(totalFileCount)
      ensures !copySucceeds || source !in files ==> status == CopyPanicked && images == old(images) && filesAfter == files
      ensures copySucceeds && source in files && !removeSucceeds ==>
        status == RemovePanicked && images == old(images) && filesAfter == files + {target}
      ensures copySucceeds && source in files && removeSucceeds ==>
        status == Moved && images == RemoveAt(old(images), old(imageIndex)) && filesAfter == files - {source} + {target}
      ensures status == Moved ==> old(images)[old(imageIndex)] !in images && Distinct(images)
    {
      var f := images[imageIndex];
      source := JoinPath(dir, f);
      target := DestinationPath(dir, category, newName, f);
      if !copySucceeds || source !in files {
        return CopyPanicked, source, target, files;
      }
      filesAfter := files + {target};
      if !removeSucceeds {
        return RemovePanicked, source, target, filesAfter;
      }
      assert source != target;
      filesAfter := filesAfter - {source};
      RemoveAtDistinct(images, imageIndex);
      images := RemoveAt(images, imageIndex);
      status := Moved;
    }

    /**
     * `move_current` as written: the entry under the cursor is removed and the
     * cursor is left where it was. When that entry was the last one, the
     * cursor is then past the end and the reload panics.
     */
    method MoveCurrent(category: string, newName: string, files: set<Path>, copySucceeds: bool, removeSucceeds: bool)
      returns (status: MoveStatus, source: Path, target: Path, filesAfter: set<Path>)
      requires Valid()
      modifies this
      ensures source == JoinPath(dir, old(images)[old(imageIndex)])
      ensures target == DestinationPath(dir, category, newName, old(images)[old(imageIndex)])
      ensures imageIndex == old(imageIndex) && totalFileCount == old(totalFileCount)
      ensures !copySucceeds || source !in files ==> status == CopyPanicked && images == old(images) && filesAfter == files
      ensures copySucceeds && source in files && !removeSucceeds ==>
        status == RemovePanicked && images == old(images) && filesAfter == files + {target}
      ensures copySucceeds && source in files && removeSucceeds ==>
        images == RemoveAt(old(images), old(imageIndex)) && filesAfter == files - {source} + {target}
      ensures copySucceeds && source in files && removeSucceeds ==>
        old(images)[old(imageIndex)] !in images && Distinct(images)
      ensures copySucceeds && source in files && removeSucceeds ==>
        status == if old(imageIndex) == |old(images)| - 1 then ReloadPanicked else Moved
      ensures status == Moved ==> Valid() && images[imageIndex] == old(images)[old(imageIndex) + 1]
    {
      status, source, target, filesAfter := CopyAndRemove(category, newName, files, copySucceeds, removeSucceeds);
      if status == Moved {
        var loaded := ReloadImage();
        if loaded == None {
          status := ReloadPanicked;
        }
      }
    }

    /**
     * `move_current` with the cursor clamped back into the shortened list:
     * after moving the last entry the cursor shows the new last entry, and
     * the reload fails only when no image is left at all.
     */
    method MoveCurrentReclamped(category: string, newName: string, files: set<Path>, copySucceeds: bool, removeSucceeds: bool)
      returns (status: MoveStatus, source: Path, target: Path, filesAfter: set<Path>)
      requires Valid()
      modifies this
      ensures source == JoinPath(dir, old(images)[old(imageIndex)])
      ensures target == DestinationPath(dir, category, newName, old(images)[old(imageIndex)])
      ensures totalFileCount == old(totalFileCount)
      ensures !copySucceeds || source !in files ==> status == CopyPanicked && images == old(images) && filesAfter == files
      ensures copySucceeds && source in files && !removeSucceeds ==>
        status == RemovePanicked && images == old(images) && filesAfter == files + {target}
      ensures !(copySucceeds && source in files && removeSucceeds) ==> imageIndex == old(imageIndex)
      ensures copySucceeds && source in files && removeSucceeds ==>
        images == RemoveAt(old(images), old(imageIndex)) && filesAfter == files - {source} + {target}
      ensures copySucceeds && source in files && removeSucceeds ==>
        old(images)[old(imageIndex)] !in images && Distinct(images)
      ensures copySucceeds && source in files && removeSucceeds ==>
        status == if |old(images)| == 1 then ReloadPanicked else Moved
      ensures status == Moved ==> Valid() && imageIndex == SeekIndex(old(imageIndex), |images|)
    {
      status, source, target, filesAfter := CopyAndRemove(category, newName, files, copySucceeds, removeSucceeds);
      if status == Moved {
        if |images| > 0 && imageIndex >= |images| {
          imageIndex := |images| - 1;
        }
        var loaded := ReloadImage();
        if loaded == None {
          status := ReloadPanicked;
        }
      }
    }
  }

  /**
   * Two images, the cursor on the second: moving it leaves the cursor past
   * the end of the one-entry list, and the reload panics.
   */
  method MoveLastImageAsWritten() returns (status: MoveStatus)
    ensures status == ReloadPanicked
  {
    var config := Config({}, {}, "unsorted", map[]);
    var m := new ImageManager(["pics"], config, ["a.png", "b.png"]);
    m.SeekToImage(1);
    assert JoinPath(m.dir, m.images[m.imageIndex]) == ["pics", "b.png"];
    var source, target, files;
    status, source, target, files := m.MoveCurrent("cats", "tabby", {["pics", "a.png"], ["pics", "b.png"]}, true, true);
  }

  /** The same session with the cursor re-clamped: the move completes on "a.png". */
  method MoveLastImageReclamped() returns (status: MoveStatus, current: string)
    ensures status == Moved && current == "a.png"
  {
    var config := Config({}, {}, "unsorted", map[]);
    var m := new ImageManager(["pics"], config, ["a.png", "b.png"]);
    m.SeekToImage(1);
    assert JoinPath(m.dir, m.images[m.imageIndex]) == ["pics", "b.png"];
    var source, target, files;
    status, source, target, files := m.MoveCurrentReclamped("cats", "tabby", {["pics", "a.png"], ["pics", "b.png"]}, true, true);
    current := m.GetCurrentFilename();
  }

  /**
   * With the list from a directory (distinct names), a completed move removes
   * the moved name for good, keeps the rest, and the list has no duplicates.
   */
  lemma MovedNameIsGone(images: seq<string>, i: nat)
    requires i < |images| && Distinct(images)
    ensures images[i] !in RemoveAt(images, i) && Distinct(RemoveAt(images, i))
    ensures multiset(RemoveAt(images, i)) + multiset{images[i]} == multiset(images)
  {
    RemoveAtDistinct(images, i);
    RemoveAtMultiset(images, i);
  }
}
