/**
 * Cursor arithmetic over the image list, shared by both revisions of
 * `ImageManager` (src/image_manager.rs and the older one in src/main.rs),
 * and `Vec::remove` as a function on sequences.
 *
 * Indices are `usize` in the source; here they are naturals. Every call is
 * made with a cursor inside a non-empty list, so `len - 1` never underflows.
 */
module Cursor {

  /** `next_image`: one step forward, saturating at the last position. */
  function NextIndex(i: nat, len: nat): (r: nat)
    requires i < len
    ensures i <= r <= i + 1 && r < len
    ensures r == i <==> i == len - 1
  {
    var max := len - 1;
    i + if i >= max then 0 else 1
  }

  /** `prev_image`: one step back, saturating at 0. */
  function PrevIndex(i: nat): (r: nat)
    ensures r <= i && i <= r + 1
    ensures r == i <==> i == 0
  {
    i - if i == 0 then 0 else 1
  }

  /** `seek_to_image`: the requested position clamped to the last one. */
  function SeekIndex(pos: nat, len: nat): (r: nat)
    requires len > 0
    ensures r < len && r <= pos
    ensures pos < len ==> r == pos
    ensures pos >= len ==> r == len - 1
  {
    var max := len - 1;
    if pos >= max then max else pos
  }

  /** `k` presses of "next". */
  function NextTimes(i: nat, len: nat, k: nat): (r: nat)
    requires i < len
    ensures r < len
    decreases k
  {
    if k == 0 then i else NextTimes(NextIndex(i, len), len, k - 1)
  }

  /** `k` presses of "previous". */
  function PrevTimes(i: nat, k: nat): nat
    decreases k
  {
    if k == 0 then i else PrevTimes(PrevIndex(i), k - 1)
  }

  /** `Vec::remove(i)`: the element at `i` is taken out, the rest keep their order. */
  function RemoveAt<T>(s: seq<T>, i: nat): (r: seq<T>)
    requires i < |s|
    ensures |r| == |s| - 1
    ensures forall j :: 0 <= j < i ==> r[j] == s[j]
    ensures forall j :: i <= j < |r| ==> r[j] == s[j + 1]
  {
    s[..i] + s[i + 1..]
  }

  predicate Distinct<T(==)>(s: seq<T>) {
    forall j, k :: 0 <= j < k < |s| ==> s[j] != s[k]
  }

  // ---------------------------------------------------------------------------
  // Laws
  // ---------------------------------------------------------------------------

  /** "Next" then "previous" returns to the start, except at the last position. */
  lemma NextThenPrev(i: nat, len: nat)
    requires i < len - 1
    ensures PrevIndex(NextIndex(i, len)) == i
  {
  }

  /** "Previous" then "next" returns to the start, except at position 0. */
  lemma PrevThenNext(i: nat, len: nat)
    requires 0 < i < len
    ensures NextIndex(PrevIndex(i), len) == i
  {
  }

  /** Pressing "next" `k` times is a seek to `i + k`. */
  lemma {:induction false} NextTimesIsSeek(i: nat, len: nat, k: nat)
    requires i < len
    ensures NextTimes(i, len, k) == SeekIndex(i + k, len)
    decreases k
  {
    if k > 0 {
      NextTimesIsSeek(NextIndex(i, len), len, k - 1);
    }
  }

  /** Pressing "previous" `k` times lands on `max(i - k, 0)`. */
  lemma {:induction false} PrevTimesIsSaturatingSubtraction(i: nat, k: nat)
    ensures PrevTimes(i, k) == if k <= i then i - k else 0
  {
    if k > 0 {
      PrevTimesIsSaturatingSubtraction(PrevIndex(i), k - 1);
    }
  }

  /** Seeking to the current position leaves the cursor where it is. */
  lemma SeekToCurrent(i: nat, len: nat)
    requires i < len
    ensures SeekIndex(i, len) == i
  {
  }

  /** Removal takes out exactly one occurrence of the removed element. */
  lemma RemoveAtMultiset<T>(s: seq<T>, i: nat)
    requires i < |s|
    ensures multiset(RemoveAt(s, i)) + multiset{s[i]} == multiset(s)
  {
    assert s == s[..i] + [s[i]] + s[i + 1..];
  }

  /** In a list without duplicates the removed element is gone afterwards, and no duplicate appears. */
  lemma RemoveAtDistinct<T>(s: seq<T>, i: nat)
    requires i < |s| && Distinct(s)
    ensures s[i] !in RemoveAt(s, i)
    ensures Distinct(RemoveAt(s, i))
  {
    var r := RemoveAt(s, i);
    forall j | 0 <= j < |r| ensures r[j] != s[i] {
      if j < i { assert r[j] == s[j]; } else { assert r[j] == s[j + 1]; }
    }
  }
}
