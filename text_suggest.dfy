/**
 * Name segmentation (src/text_suggest.rs).
 *
 * A composed file name is a sequence of tag segments joined by the separator
 * "--". `Segments` is `get_segments`: the pieces of Rust's `str::split` on the
 * separator (leftmost, non-overlapping matches), with empty pieces dropped.
 */
module TextSuggest {
  import opened Wrappers

  /** The separator between tag segments of a composed name. */
  const Separator: string := "--"

  /** True when an occurrence of the separator starts at position `i` of `s`. */
  predicate SeparatorAt(s: string, i: int) {
    0 <= i && i + 1 < |s| && s[i] == Separator[0] && s[i + 1] == Separator[1]
  }

  predicate ContainsSeparator(s: string) {
    exists i :: 0 <= i < |s| && SeparatorAt(s, i)
  }

  predicate EndsWithDash(s: string) {
    |s| > 0 && s[|s| - 1] == '-'
  }

  /** The separator repeated `n` times. */
  function SeparatorRun(n: nat): (r: string)
    ensures |r| == 2 * n
  {
    if n == 0 then "" else Separator + SeparatorRun(n - 1)
  }

  /** Position of the leftmost separator of `s` that starts at or after `k`. */
  function FindSeparator(s: string, k: nat): (r: Option<nat>)
    decreases |s| - k
    ensures r.Some? ==> k <= r.value && SeparatorAt(s, r.value)
    ensures r.Some? ==> forall j :: k <= j < r.value ==> !SeparatorAt(s, j)
    ensures r.None? ==> forall j :: k <= j ==> !SeparatorAt(s, j)
    ensures k == 0 ==> (r.None? <==> !ContainsSeparator(s))
  {
    if k + 1 >= |s| then None
    else if SeparatorAt(s, k) then Some(k)
    else FindSeparator(s, k + 1)
  }

  /** Pieces joined back with the separator between consecutive pieces. */
  function Join(pieces: seq<string>): string
  {
    if |pieces| == 0 then ""
    else if |pieces| == 1 then pieces[0]
    else pieces[0] + Separator + Join(pieces[1..])
  }

  /**
   * The shape of any result of `Split`: no piece contains the separator, and
   * no piece but the last ends in '-' (else the leftmost match would have
   * started one character earlier).
   */
  predicate WellFormed(pieces: seq<string>) {
    && (forall k :: 0 <= k < |pieces| ==> !ContainsSeparator(pieces[k]))
    && (forall k :: 0 <= k < |pieces| - 1 ==> !EndsWithDash(pieces[k]))
  }

  /** Rust's `s.split("--")`: at least one piece, and joining them gives `s` back. */
  function Split(s: string): (pieces: seq<string>)
    decreases |s|
    ensures |pieces| >= 1
    ensures Join(pieces) == s
  {
    match FindSeparator(s, 0)
    case None => [s]
    case Some(i) =>
      var rest := Split(s[i + 2..]);
      assert ([s[..i]] + rest)[1..] == rest;
      assert s[..i] + Separator + s[i + 2..] == s;
      [s[..i]] + rest
  }

  /** Every result of `Split` has the shape described by `WellFormed`. */
  lemma {:induction false} SplitWellFormed(s: string)
    ensures WellFormed(Split(s))
    decreases |s|
  {
    match FindSeparator(s, 0)
    case None =>
    case Some(i) =>
      PrefixBeforeFirstSeparator(s, i);
      SplitWellFormed(s[i + 2..]);
      var rest := Split(s[i + 2..]);
      var r := [s[..i]] + rest;
      assert Split(s) == r;
      forall k | 0 <= k < |r| ensures !ContainsSeparator(r[k]) {
        if k > 0 { assert r[k] == rest[k - 1]; }
      }
      forall k | 0 <= k < |r| - 1 ensures !EndsWithDash(r[k]) {
        if k > 0 { assert r[k] == rest[k - 1]; }
      }
  }

  /** The text before the leftmost separator holds no separator and does not end in '-'. */
  lemma PrefixBeforeFirstSeparator(s: string, i: nat)
    requires FindSeparator(s, 0) == Some(i)
    ensures !ContainsSeparator(s[..i]) && !EndsWithDash(s[..i])
  {
    forall j | SeparatorAt(s[..i], j) ensures false {
      assert SeparatorAt(s, j);
    }
    if EndsWithDash(s[..i]) {
      assert SeparatorAt(s, i - 1);
    }
  }

  /** The filter of `get_segments`: keep the non-empty pieces, in order. */
  function DropEmpty(pieces: seq<string>): (r: seq<string>)
    ensures |r| <= |pieces|
    ensures forall p :: p in r ==> p in pieces
    ensures forall k :: 0 <= k < |r| ==> r[k] != ""
  {
    if pieces == [] then []
    else if pieces[0] == "" then DropEmpty(pieces[1..])
    else [pieces[0]] + DropEmpty(pieces[1..])
  }

  /** `get_segments`: the non-empty pieces of splitting on the separator. */
  function Segments(name: string): (segments: seq<string>)
    ensures forall k :: 0 <= k < |segments| ==> segments[k] != "" && !ContainsSeparator(segments[k])
  {
    SplitWellFormed(name);
    DropEmptyWellFormed(Split(name));
    DropEmpty(Split(name))
  }

  // ---------------------------------------------------------------------------
  // Laws of Split and Segments
  // ---------------------------------------------------------------------------

  /** The separator is found at position `i` when it occurs there and nowhere earlier. */
  lemma LeftmostSeparator(s: string, i: nat)
    requires SeparatorAt(s, i)
    requires forall j :: 0 <= j < i ==> !SeparatorAt(s, j)
    ensures FindSeparator(s, 0) == Some(i)
  {
    var r := FindSeparator(s, 0);
    assert r.Some? && r.value > i ==> !SeparatorAt(s, i);
  }

  /** A piece without separator splits into itself. */
  lemma SplitWithoutSeparator(s: string)
    requires !ContainsSeparator(s)
    ensures Split(s) == [s]
  {
  }

  /** With no separator in `a` and no '-' at its end, the first match in `a + "--" + b` is right after `a`. */
  lemma FirstSeparatorAfterPlain(a: string, b: string)
    requires FindSeparator(a, 0).None? && !EndsWithDash(a)
    ensures FindSeparator(a + Separator + b, 0) == Some(|a|)
  {
    var s := a + Separator + b;
    forall j | 0 <= j < |a| ensures !SeparatorAt(s, j) {
      if j + 1 < |a| {
        assert SeparatorAt(s, j) ==> SeparatorAt(a, j);
      } else {
        assert s[j] == a[|a| - 1];
      }
    }
    LeftmostSeparator(s, |a|);
  }

  /** The leftmost separator of `a` stays the leftmost one whatever follows `a`. */
  lemma FirstSeparatorKept(a: string, t: string, i: nat)
    requires FindSeparator(a, 0) == Some(i)
    ensures FindSeparator(a + t, 0) == Some(i)
  {
    var s := a + t;
    assert SeparatorAt(a, i);
    forall j | 0 <= j < i ensures !SeparatorAt(s, j) {
      assert SeparatorAt(s, j) ==> SeparatorAt(a, j);
    }
    LeftmostSeparator(s, i);
  }

  /**
   * Splitting distributes over a separator when the left part does not end in
   * '-': the separator between `a` and `b` is then exactly a match boundary.
   */
  lemma {:induction false} SplitAppend(a: string, b: string)
    requires !EndsWithDash(a)
    ensures Split(a + Separator + b) == Split(a) + Split(b)
    decreases |a|
  {
    var s := a + Separator + b;
    match FindSeparator(a, 0)
    case None =>
      FirstSeparatorAfterPlain(a, b);
      assert s[..|a|] == a;
      assert s[|a| + 2..] == b;
      assert Split(s) == [a] + Split(b);
    case Some(i) =>
      var tail := a[i + 2..];
      assert !EndsWithDash(tail) by {
        if |tail| > 0 {
          assert tail[|tail| - 1] == a[|a| - 1];
        }
      }
      SplitAppend(tail, b);
      SplitAfterFirstSeparator(a, b, i);
  }

  /** One step of `SplitAppend`: the split of `a + "--" + b` starts with the first piece of `a`. */
  lemma SplitAfterFirstSeparator(a: string, b: string, i: nat)
    requires FindSeparator(a, 0) == Some(i)
    ensures Split(a + Separator + b) == [a[..i]] + Split(a[i + 2..] + Separator + b)
  {
    var s := a + Separator + b;
    FirstSeparatorKept(a, Separator + b, i);
    assert s == a + (Separator + b);
    assert s[..i] == a[..i];
    assert s[i + 2..] == a[i + 2..] + Separator + b;
  }

  lemma {:induction false} DropEmptyAppend(x: seq<string>, y: seq<string>)
    ensures DropEmpty(x + y) == DropEmpty(x) + DropEmpty(y)
  {
    if x != [] {
      assert (x + y)[1..] == x[1..] + y;
      DropEmptyAppend(x[1..], y);
    } else {
      assert x + y == y;
    }
  }

  /** Dropping empty pieces keeps the shape of a split result. */
  lemma {:induction false} DropEmptyWellFormed(pieces: seq<string>)
    requires WellFormed(pieces)
    ensures WellFormed(DropEmpty(pieces)) && forall p :: p in DropEmpty(pieces) ==> p != ""
  {
    if pieces != [] {
      var rest := pieces[1..];
      assert WellFormed(rest) by {
        forall k | 0 <= k < |rest| ensures !ContainsSeparator(rest[k]) {
          assert rest[k] == pieces[k + 1];
        }
        forall k | 0 <= k < |rest| - 1 ensures !EndsWithDash(rest[k]) {
          assert rest[k] == pieces[k + 1];
        }
      }
      DropEmptyWellFormed(rest);
      var d := DropEmpty(rest);
      if pieces[0] != "" {
        var r := [pieces[0]] + d;
        assert d != [] ==> rest != [];
        forall k | 0 <= k < |r| ensures !ContainsSeparator(r[k]) {
          if k > 0 { assert r[k] == d[k - 1]; }
        }
        forall k | 0 <= k < |r| - 1 ensures !EndsWithDash(r[k]) {
          if k > 0 { assert r[k] == d[k - 1]; }
        }
      }
    }
  }

  /** Splitting the join of well-formed pieces gives the pieces back. */
  lemma {:induction false} SplitJoin(pieces: seq<string>)
    requires |pieces| >= 1 && WellFormed(pieces)
    ensures Split(Join(pieces)) == pieces
  {
    SplitWithoutSeparator(pieces[0]);
    if |pieces| > 1 {
      var rest := pieces[1..];
      assert WellFormed(rest) by {
        forall k | 0 <= k < |rest| ensures !ContainsSeparator(rest[k]) {
          assert rest[k] == pieces[k + 1];
        }
        forall k | 0 <= k < |rest| - 1 ensures !EndsWithDash(rest[k]) {
          assert rest[k] == pieces[k + 1];
        }
      }
      SplitAppend(pieces[0], Join(rest));
      SplitJoin(rest);
    }
  }

  /**
   * Segmentation is idempotent: joining the segments with the separator and
   * segmenting again gives the same segments.
   */
  lemma SegmentsIdempotent(name: string)
    ensures Segments(Join(Segments(name))) == Segments(name)
  {
    var segments := Segments(name);
    SplitWellFormed(name);
    DropEmptyWellFormed(Split(name));
    if segments != [] {
      SplitJoin(segments);
      DropEmptyIdentity(segments);
    }
  }

  lemma {:induction false} DropEmptyIdentity(pieces: seq<string>)
    requires forall p :: p in pieces ==> p != ""
    ensures DropEmpty(pieces) == pieces
  {
    if pieces != [] {
      assert pieces[0] in pieces;
      assert forall p :: p in pieces[1..] ==> p in pieces;
      DropEmptyIdentity(pieces[1..]);
    }
  }

  /** The empty name, and any run of separators, has no segments. */
  lemma {:induction false} OnlySeparatorsHaveNoSegments(n: nat)
    ensures Segments(SeparatorRun(n)) == []
  {
    if n > 0 {
      OnlySeparatorsHaveNoSegments(n - 1);
      SeparatorRunStep(n);
    }
  }

  /** One more separator in front of a run without segments adds none. */
  lemma SeparatorRunStep(n: nat)
    requires n > 0 && Segments(SeparatorRun(n - 1)) == []
    ensures Segments(SeparatorRun(n)) == []
  {
    assert SeparatorRun(n) == "" + Separator + SeparatorRun(n - 1);
    SplitAppend("", SeparatorRun(n - 1));
    DropEmptyAppend(Split(""), Split(SeparatorRun(n - 1)));
  }

  /** A non-empty name without separator is its own single segment. */
  lemma PlainNameIsOneSegment(name: string)
    requires name != "" && !ContainsSeparator(name)
    ensures Segments(name) == [name]
  {
    SplitWithoutSeparator(name);
  }

  /**
   * Trailing separators add no segment, provided the name does not already
   * end in '-' (see `TrailingSeparatorAfterDash` for what happens then).
   */
  lemma TrailingSeparatorsAddNoSegment(name: string, n: nat)
    requires !EndsWithDash(name)
    ensures Segments(name + SeparatorRun(n)) == Segments(name)
  {
    if n == 0 {
      AppendNoSeparator(name);
    } else {
      TrailingSeparatorsStep(name, n);
    }
  }

  /** A non-empty run of separators after the name: its first separator, then nothing segmentable. */
  lemma TrailingSeparatorsStep(name: string, n: nat)
    requires !EndsWithDash(name) && n > 0
    ensures Segments(name + SeparatorRun(n)) == Segments(name)
  {
    var rest := SeparatorRun(n - 1);
    AppendSeparatorRun(name, n - 1);
    OnlySeparatorsHaveNoSegments(n - 1);
    SegmentsAppend(name, rest);
    AppendNothing(Segments(name), Segments(rest));
  }

  lemma AppendNothing(front: seq<string>, back: seq<string>)
    requires back == []
    ensures front + back == front
  {
  }

  lemma AppendNoSeparator(name: string)
    ensures name + SeparatorRun(0) == name
  {
  }

  /** Appending one more separator to a run, seen from the left. */
  lemma AppendSeparatorRun(name: string, n: nat)
    ensures name + SeparatorRun(n + 1) == name + Separator + SeparatorRun(n)
  {
    assert SeparatorRun(n + 1) == Separator + SeparatorRun(n);
  }

  /** Leftmost matching: "a-" followed by "--" splits as "a" and "-". */
  lemma TrailingSeparatorAfterDash()
    ensures Segments("a-") == ["a-"]
    ensures Segments("a-" + Separator) == ["a", "-"]
  {
    PlainNameIsOneSegment("a-");
    var s := "a-" + Separator;
    assert !SeparatorAt(s, 0);
    assert SeparatorAt(s, 1);
    LeftmostSeparator(s, 1);
    assert s[..1] == "a";
    assert s[1 + 2..] == "-";
    SplitWithoutSeparator("-");
    assert Split(s) == ["a", "-"];
    DropEmptyIdentity(["a", "-"]);
  }

  /** Segments of two names joined by a separator are the segments of each, in order. */
  lemma SegmentsAppend(a: string, b: string)
    requires !EndsWithDash(a)
    ensures Segments(a + Separator + b) == Segments(a) + Segments(b)
  {
    SplitAppend(a, b);
    DropEmptyAppend(Split(a), Split(b));
  }
}
