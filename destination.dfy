/**
 * The pure part of `ImageManager::move_current` and of `ImageManager::new`
 * in src/image_manager.rs: where a moved file goes, and which output
 * directories are created at start-up.
 */
module Destination {
  import opened TextSuggest
  import opened FileList

  /** `f.chars().map(|c| if c == ' ' { '_' } else { c })`. */
  function ReplaceSpaces(file: string): (safe: string)
    ensures |safe| == |file| && ' ' !in safe
    ensures forall i :: 0 <= i < |file| && file[i] != ' ' ==> safe[i] == file[i]
    ensures forall i :: 0 <= i < |file| && file[i] == ' ' ==> safe[i] == '_'
  {
    seq(|file|, i requires 0 <= i < |file| => if file[i] == ' ' then '_' else file[i])
  }

  predicate EndsWithSeparator(s: string) {
    |s| >= 2 && SeparatorAt(s, |s| - 2)
  }

  /**
   * `new_name.trim_end_matches("--")`: every trailing separator is removed.
   * The result no longer ends in one, and the input is the result followed by
   * a run of separators.
   */
  function TrimEndSeparators(name: string): (trimmed: string)
    decreases |name|
    ensures !EndsWithSeparator(trimmed)
    ensures |trimmed| <= |name| && (|name| - |trimmed|) % 2 == 0
    ensures name == trimmed + SeparatorRun((|name| - |trimmed|) / 2)
  {
    if EndsWithSeparator(name) then
      var front := name[..|name| - 2];
      var trimmed := TrimEndSeparators(front);
      var k := (|front| - |trimmed|) / 2;
      SeparatorRunSnoc(k);
      assert name == front + Separator;
      trimmed
    else
      assert name + SeparatorRun(0) == name;
      name
  }

  /** A run of separators can be grown at either end. */
  lemma {:induction false} SeparatorRunSnoc(n: nat)
    ensures SeparatorRun(n + 1) == SeparatorRun(n) + Separator
  {
    if n > 0 {
      SeparatorRunSnoc(n - 1);
    }
  }

  /**
   * `format!("{}__{}", new_name.trim_end_matches("--"), f_str)`: the trimmed
   * new name, "__", then the source name with every space made an
   * underscore. Its tag part no longer ends in a separator
   * (`TrimKeepsSegments` says when it keeps the tags of the new name).
   */
  function DestinationName(newName: string, file: string): (d: string)
    ensures var t := TrimEndSeparators(newName);
      && |d| == |t| + 2 + |file|
      && d[..|t|] == t && !EndsWithSeparator(d[..|t|])
      && d[|t|..|t| + 2] == "__"
      && d[|t| + 2..] == ReplaceSpaces(file)
      && ' ' !in d[|t| + 2..]
  {
    TrimEndSeparators(newName) + "__" + ReplaceSpaces(file)
  }

  /** `dir.join(category).join(DestinationName(..))`. */
  function DestinationPath(dir: Path, category: string, newName: string, file: string): (p: Path)
    ensures |p| == |dir| + 2 && p[..|dir|] == dir && p[|dir|] == category
    ensures p[|dir| + 1] == DestinationName(newName, file)
  {
    JoinPath(JoinPath(dir, category), DestinationName(newName, file))
  }

  // ---------------------------------------------------------------------------
  // Configuration and output directories
  // ---------------------------------------------------------------------------

  /** `ButtonConfig` of src/config.rs. */
  datatype ButtonConfig = ButtonConfig(longLabel: string, buttonLabel: string, path: string, shortcut: char)

  /** `Config` of src/config.rs. */
  datatype Config = Config(
    categories: set<string>,
    tags: set<string>,
    defaultFolder: string,
    buttons: map<string, ButtonConfig>)

  /**
   * The directories `new` passes to `create_dir_all`: one per button path and
   * one for the default folder, each directly under the image directory.
   */
  function OutputDirs(dir: Path, config: Config): (dirs: set<Path>)
    ensures JoinPath(dir, config.defaultFolder) in dirs
    ensures forall key :: key in config.buttons ==> JoinPath(dir, config.buttons[key].path) in dirs
    ensures forall d :: d in dirs ==> |d| == |dir| + 1 && d[..|dir|] == dir
    ensures forall d :: d in dirs ==>
      d[|dir|] == config.defaultFolder || exists key :: key in config.buttons && d[|dir|] == config.buttons[key].path
  {
    var buttonDirs := set key | key in config.buttons :: JoinPath(dir, config.buttons[key].path);
    buttonDirs + {JoinPath(dir, config.defaultFolder)}
  }

  // ---------------------------------------------------------------------------
  // Laws
  // ---------------------------------------------------------------------------

  /** Sanitising is idempotent, and a name without spaces is left as it is. */
  lemma ReplaceSpacesFixesSpaceFreeNames(file: string)
    ensures ReplaceSpaces(ReplaceSpaces(file)) == ReplaceSpaces(file)
    ensures ' ' !in file ==> ReplaceSpaces(file) == file
  {
  }

  /** Trimming removes exactly the trailing run of separators, so it is idempotent. */
  lemma {:induction false} TrimRemovesTrailingRun(stem: string, n: nat)
    requires !EndsWithSeparator(stem)
    ensures TrimEndSeparators(stem + SeparatorRun(n)) == stem
  {
    if n == 0 {
      AppendNoSeparator(stem);
    } else {
      TrimRemovesTrailingRun(stem, n - 1);
      TrimRunStep(stem, n);
    }
  }

  /** Trimming one more trailing separator ends where trimming the shorter run did. */
  lemma TrimRunStep(stem: string, n: nat)
    requires n > 0 && TrimEndSeparators(stem + SeparatorRun(n - 1)) == stem
    ensures TrimEndSeparators(stem + SeparatorRun(n)) == stem
  {
    var front := stem + SeparatorRun(n - 1);
    SeparatorRunSnoc(n - 1);
    assert stem + SeparatorRun(n) == front + Separator;
    TrimSkipsOneSeparator(front);
  }

  lemma TrimSkipsOneSeparator(front: string)
    ensures TrimEndSeparators(front + Separator) == TrimEndSeparators(front)
  {
    var s := front + Separator;
    assert SeparatorAt(s, |s| - 2);
    assert s[..|s| - 2] == front;
  }

  /**
   * Trimming does not change the tags of the name, unless what is left ends
   * in a single '-' (then leftmost matching pairs that dash differently).
   */
  lemma TrimKeepsSegments(name: string)
    requires !EndsWithDash(TrimEndSeparators(name))
    ensures Segments(TrimEndSeparators(name)) == Segments(name)
  {
    var trimmed := TrimEndSeparators(name);
    TrailingSeparatorsAddNoSegment(trimmed, (|name| - |trimmed|) / 2);
  }

  /** "a---" trims to "a-", whose single segment is not a segment of "a---". */
  lemma TrimAfterDashChangesSegments()
    ensures TrimEndSeparators("a---") == "a-"
    ensures Segments("a-") == ["a-"] && Segments("a---") == ["a", "-"]
  {
    assert !EndsWithSeparator("a-");
    TrimRemovesTrailingRun("a-", 1);
    assert "a-" + SeparatorRun(1) == "a---";
    TrailingSeparatorAfterDash();
    assert "a-" + Separator == "a---";
  }

  /** The space in "my cat.png" becomes '_', and the trailing separator of the tags is dropped. */
  lemma DestinationExample()
    ensures DestinationPath(["pics"], "cats", "funny--cat--", "my cat.png")
         == ["pics", "cats", "funny--cat__my_cat.png"]
  {
    assert TrimEndSeparators("funny--cat--") == "funny--cat" by {
      assert !EndsWithSeparator("funny--cat");
      TrimRemovesTrailingRun("funny--cat", 1);
      assert "funny--cat" + SeparatorRun(1) == "funny--cat--";
    }
    assert ReplaceSpaces("my cat.png") == "my_cat.png";
    assert "funny--cat" + "__" + "my_cat.png" == "funny--cat__my_cat.png";
  }
}
