/** Start-of-packet detection of day-06/src/main.rs: the first window of `size`
    characters that are pairwise distinct, found by comparing the size of the
    window's character set with `size`. */
module TuningTrouble {

  /** The characters of `w` (`HashSet::from_iter` over the window). */
  function CharSet(w: seq<char>): set<char> {
    if w == [] then {} else CharSet(w[..|w| - 1]) + {w[|w| - 1]}
  }

  /** No character repeats in `w`. */
  predicate AllDistinct(w: seq<char>) {
    forall i, j :: 0 <= i < j < |w| ==> w[i] != w[j]
  }

  lemma {:induction false} CharSetMembers(w: seq<char>)
    ensures forall c :: c in CharSet(w) <==> exists i :: 0 <= i < |w| && w[i] == c
  {
    if w != [] {
      CharSetMembers(w[..|w| - 1]);
    }
  }

  /** Appending a character the window already holds leaves the set as it is and
      makes the window repeat. */
  lemma SnocSeen(w: seq<char>)
    requires w != [] && w[|w| - 1] in CharSet(w[..|w| - 1])
    ensures CharSet(w) == CharSet(w[..|w| - 1]) && !AllDistinct(w)
  {
    var init := w[..|w| - 1];
    CharSetMembers(init);
    var i :| 0 <= i < |init| && init[i] == w[|w| - 1];
    assert w[i] == w[|w| - 1];
  }

  /** Appending a character the window does not hold adds one to the set and keeps
      the window exactly as distinct as it was. */
  lemma SnocNew(w: seq<char>)
    requires w != [] && w[|w| - 1] !in CharSet(w[..|w| - 1])
    ensures |CharSet(w)| == |CharSet(w[..|w| - 1])| + 1
    ensures AllDistinct(w) <==> AllDistinct(w[..|w| - 1])
  {
    var init := w[..|w| - 1];
    CharSetMembers(init);
    if AllDistinct(init) {
      forall i, j | 0 <= i < j < |w|
        ensures w[i] != w[j]
      {
        if j < |w| - 1 {
          assert w[i] == init[i] && w[j] == init[j];
        } else {
          assert init[i] in CharSet(init);
        }
      }
    } else {
      var i, j :| 0 <= i < j < |init| && init[i] == init[j];
      assert w[i] == w[j];
    }
  }

  /** The set never has more characters than the window, and it has as many exactly
      when the window is free of repeats: the test `window.len() == size` decides
      distinctness. */
  lemma {:induction false} CharSetSize(w: seq<char>)
    ensures |CharSet(w)| <= |w|
    ensures |CharSet(w)| == |w| <==> AllDistinct(w)
  {
    if w != [] {
      CharSetSize(w[..|w| - 1]);
      if w[|w| - 1] in CharSet(w[..|w| - 1]) {
        SnocSeen(w);
      } else {
        SnocNew(w);
      }
    }
  }

  /** The number of windows `packet.windows(size)` yields. */
  function Windows(length: nat, size: nat): nat {
    if length >= size then length - size + 1 else 0
  }

  /** The window starting at `k` exists and is all distinct: its character set has
      `size` members, the test `find_start` makes. */
  predicate IsMarker(packet: seq<char>, size: nat, k: nat)
    ensures IsMarker(packet, size, k) <==> k + size <= |packet| && |CharSet(packet[k..k + size])| == size
  {
    if k + size <= |packet| then
      CharSetSize(packet[k..k + size]);
      AllDistinct(packet[k..k + size])
    else false
  }

  /** `find_start` (main.rs:13-24) without the printing: the reported position is the
      index of the first all-distinct window plus `size`; no earlier window is all
      distinct; and when none qualifies the count runs through every window.
      `windows(0)` panics, hence `size > 0`. */
  method FindStart(packet: seq<char>, size: nat) returns (cnt: nat, position: nat)
    requires size > 0
    ensures position == cnt + size
    ensures cnt <= Windows(|packet|, size)
    ensures cnt < Windows(|packet|, size) ==> IsMarker(packet, size, cnt)
    ensures forall k: nat :: k < cnt ==> !IsMarker(packet, size, k)
    ensures cnt == Windows(|packet|, size) ==> position == if |packet| >= size then |packet| + 1 else size
  {
    cnt := 0;
    var n := Windows(|packet|, size);
    while cnt < n
      invariant cnt <= n
      invariant forall k: nat :: k < cnt ==> !IsMarker(packet, size, k)
    {
      var marker := packet[cnt..cnt + size];
      var window := CharSet(marker);
      CharSetSize(marker);
      if |window| == size {
        break;
      }
      cnt := cnt + 1;
    }
    position := cnt + size;
  }
}
