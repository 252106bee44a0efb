/** Rucksack reorganisation of day-03/src/main.rs: item priorities, the item both
    compartments of a rucksack share, and the badge the three rucksacks of a group
    share, with the two sums of priorities. */
module RucksackReorganization {

  predicate IsLower(c: char) {
    'a' <= c <= 'z'
  }

  predicate IsUpper(c: char) {
    'A' <= c <= 'Z'
  }

  /** The letters `get_priority` is modelled on: ASCII `a..z` and `A..Z`. */
  predicate IsLetter(c: char) {
    IsLower(c) || IsUpper(c)
  }

  /** `get_priority` (main.rs:16-28): the code point less 96 for a lower-case letter,
      less 38 otherwise; any other character panics. */
  function Priority(c: char): (p: nat)
    requires IsLetter(c)
    ensures IsLower(c) ==> 1 <= p <= 26 && p == (c as int) - ('a' as int) + 1
    ensures IsUpper(c) ==> 27 <= p <= 52 && p == (c as int) - ('A' as int) + 27
  {
    if IsLower(c) then (c as int) - 96 else (c as int) - 38
  }

  /** Different letters have different priorities. */
  lemma PriorityInjective(c: char, d: char)
    requires IsLetter(c) && IsLetter(d)
    ensures Priority(c) == Priority(d) <==> c == d
  {
  }

  /** The characters of `s`. */
  function CharsOf(s: string): (cs: set<char>)
    ensures forall c :: c in cs <==> exists i :: 0 <= i < |s| && s[i] == c
  {
    set i | 0 <= i < |s| :: s[i]
  }

  lemma CharsOfSnoc(s: string, x: char)
    ensures CharsOf(s + [x]) == CharsOf(s) + {x}
  {
    assert (s + [x])[|s|] == x;
    forall c | c in CharsOf(s)
      ensures c in CharsOf(s + [x])
    {
      var i :| 0 <= i < |s| && s[i] == c;
      assert (s + [x])[i] == c;
    }
  }

  /** The number of bytes UTF-8 takes for `c`: Rust's `str::len` counts these. */
  function Utf8Width(c: char): (w: nat)
    ensures 1 <= w <= 4
    ensures w == 1 <==> (c as int) < 0x80
  {
    if (c as int) < 0x80 then 1
    else if (c as int) < 0x800 then 2
    else if (c as int) < 0x1_0000 then 3
    else 4
  }

  /** `backpack.len()`: the length of `s` in UTF-8 bytes. */
  function ByteLength(s: string): (n: nat)
    ensures |s| <= n <= 4 * |s|
    ensures n == |s| <==> forall i :: 0 <= i < |s| ==> (s[i] as int) < 0x80
  {
    if s == [] then 0 else ByteLength(s[..|s| - 1]) + Utf8Width(s[|s| - 1])
  }

  /** Where `solve_1` splits a rucksack: the characters whose index is below half the
      byte length go to the first compartment. On non-ASCII text that half may lie
      beyond the last character, and then every item is in the first compartment. */
  function Cut(backpack: string): (cut: nat)
    ensures cut <= |backpack|
    ensures cut < |backpack| ==> cut == ByteLength(backpack) / 2
    ensures cut == |backpack| ==> |backpack| <= ByteLength(backpack) / 2
  {
    if ByteLength(backpack) / 2 <= |backpack| then ByteLength(backpack) / 2 else |backpack|
  }

  /** On ASCII text bytes and characters coincide and the cut is at half the length. */
  lemma CutAscii(backpack: string)
    requires forall i :: 0 <= i < |backpack| ==> (backpack[i] as int) < 0x80
    ensures Cut(backpack) == |backpack| / 2
  {
  }

  /** The inner loop of `solve_1` (main.rs:42-52): an item whose character index is
      below half the byte length goes into the first compartment, any other into the
      second. */
  method Compartments(backpack: string) returns (compartment1: set<char>, compartment2: set<char>)
    ensures compartment1 == CharsOf(backpack[..Cut(backpack)])
    ensures compartment2 == CharsOf(backpack[Cut(backpack)..])
    ensures compartment1 + compartment2 == CharsOf(backpack)
  {
    var backpackSize := ByteLength(backpack);
    ghost var cut := Cut(backpack);
    compartment1, compartment2 := {}, {};
    for idx := 0 to |backpack|
      invariant compartment1 == CharsOf(backpack[..if idx < cut then idx else cut])
      invariant compartment2 == CharsOf(backpack[cut..if idx < cut then cut else idx])
    {
      var item := backpack[idx];
      if idx < backpackSize / 2 {
        assert backpack[..idx + 1] == backpack[..idx] + [item];
        CharsOfSnoc(backpack[..idx], item);
        compartment1 := compartment1 + {item};
      } else {
        assert backpack[cut..idx + 1] == backpack[cut..idx] + [item];
        CharsOfSnoc(backpack[cut..idx], item);
        compartment2 := compartment2 + {item};
      }
    }
    assert backpack[cut..|backpack|] == backpack[cut..];
    assert backpack == backpack[..cut] + backpack[cut..];
    forall c | c in CharsOf(backpack)
      ensures c in compartment1 + compartment2
    {
      var i :| 0 <= i < |backpack| && backpack[i] == c;
      if i < cut {
        assert backpack[..cut][i] == c;
      } else {
        assert backpack[cut..][i - cut] == c;
      }
    }
  }

  /** The items both compartments of `backpack` hold: those occurring both before and
      from the cut. */
  function Common(backpack: string): (items: set<char>)
    ensures forall c :: c in items <==>
      (exists i :: 0 <= i < Cut(backpack) && backpack[i] == c) &&
      (exists j :: Cut(backpack) <= j < |backpack| && backpack[j] == c)
  {
    var cut := Cut(backpack);
    assert forall j :: cut <= j < |backpack| ==> backpack[cut..][j - cut] == backpack[j];
    CharsOf(backpack[..cut]) * CharsOf(backpack[cut..])
  }

  /** A rucksack with two-byte letters: seven bytes, so the cut falls after the `b`,
      and the compartments share `b`, where a cut at half the character count would
      fall after the two `é` and leave nothing shared. */
  lemma CommonByBytes()
    ensures Cut("\U{e9}\U{e9}bab") == 3
    ensures Common("\U{e9}\U{e9}bab") == {'b'}
  {
    var s := "\U{e9}\U{e9}bab";
    assert ByteLength(s[..1]) == 2;
    assert s[..2][..1] == s[..1];
    assert ByteLength(s[..2]) == 4;
    assert s[..3][..2] == s[..2];
    assert ByteLength(s[..3]) == 5;
    assert s[..4][..3] == s[..3];
    assert ByteLength(s[..4]) == 6;
    assert s[..4] == s[..|s| - 1];
    assert ByteLength(s) == 7;
    assert s[..3] == ['\U{e9}', '\U{e9}', 'b'];
    assert s[3..] == ['a', 'b'];
  }

  /** What `solve_1` needs of a rucksack not to panic: a shared item (the `[0]`), and
      since which shared item comes first is the hash set's choice, every shared
      item a letter. */
  predicate HasDupe(backpack: string) {
    Common(backpack) != {} && forall c :: c in Common(backpack) ==> IsLetter(c)
  }

  function PrioritySum(items: seq<char>): nat
    requires forall k :: 0 <= k < |items| ==> IsLetter(items[k])
  {
    if items == [] then 0 else PrioritySum(items[..|items| - 1]) + Priority(items[|items| - 1])
  }

  /** `solve_1` (main.rs:38-63) without the file reading and printing: one shared item
      per rucksack, some element of the intersection, and the sum of their priorities. */
  method SumOfDupes(backpacks: seq<string>) returns (prioSum: nat, dupes: seq<char>)
    requires forall k :: 0 <= k < |backpacks| ==> HasDupe(backpacks[k])
    ensures |dupes| == |backpacks|
    ensures forall k :: 0 <= k < |backpacks| ==> dupes[k] in Common(backpacks[k]) && IsLetter(dupes[k])
    ensures prioSum == PrioritySum(dupes)
  {
    prioSum, dupes := 0, [];
    for k := 0 to |backpacks|
      invariant |dupes| == k
      invariant forall j :: 0 <= j < k ==> dupes[j] in Common(backpacks[j]) && IsLetter(dupes[j])
      invariant prioSum == PrioritySum(dupes)
    {
      var compartment1, compartment2 := Compartments(backpacks[k]);
      var dupe :| dupe in compartment1 * compartment2;
      assert (dupes + [dupe])[..k] == dupes;
      dupes := dupes + [dupe];
      prioSum := prioSum + Priority(dupe);
    }
  }

  /** The size of a group of elves (main.rs:10). */
  const ElfGroupSize: nat := 3

  /** The items all three rucksacks of a group hold. */
  function Shared(a: string, b: string, c: string): set<char> {
    CharsOf(a) * CharsOf(b) * CharsOf(c)
  }

  /** What `solve_2` needs of the input not to panic: complete groups of three (a short
      last chunk has fewer than two pairwise intersections to index), a shared item
      in each group, and every shared item a letter. */
  predicate HasBadges(backpacks: seq<string>) {
    |backpacks| % ElfGroupSize == 0 &&
    forall g :: 0 <= g < |backpacks| / ElfGroupSize ==>
      var s := Shared(backpacks[3 * g], backpacks[3 * g + 1], backpacks[3 * g + 2]);
      s != {} && forall c :: c in s ==> IsLetter(c)
  }

  /** Intersecting `s0 ∩ s1` with `s1 ∩ s2`, as the windows of `solve_2` do, gives the
      items of all three sets. */
  lemma WindowsIntersection(s0: set<char>, s1: set<char>, s2: set<char>)
    ensures (s0 * s1) * (s1 * s2) == s0 * s1 * s2
  {
  }

  /** `solve_2` (main.rs:65-90) without the file reading and printing: one badge per
      group of three, shared by the three rucksacks, and the sum of their priorities. */
  method SumOfBadges(backpacks: seq<string>) returns (prioSum: nat, badges: seq<char>)
    requires HasBadges(backpacks)
    ensures |badges| == |backpacks| / ElfGroupSize
    ensures forall g :: 0 <= g < |badges| ==>
      badges[g] in Shared(backpacks[3 * g], backpacks[3 * g + 1], backpacks[3 * g + 2]) && IsLetter(badges[g])
    ensures prioSum == PrioritySum(badges)
  {
    prioSum, badges := 0, [];
    var groups := |backpacks| / ElfGroupSize;
    for g := 0 to groups
      invariant |badges| == g
      invariant forall j :: 0 <= j < g ==>
        badges[j] in Shared(backpacks[3 * j], backpacks[3 * j + 1], backpacks[3 * j + 2]) && IsLetter(badges[j])
      invariant prioSum == PrioritySum(badges)
    {
      var itemSets := [CharsOf(backpacks[3 * g]), CharsOf(backpacks[3 * g + 1]), CharsOf(backpacks[3 * g + 2])];
      var intersections := [itemSets[0] * itemSets[1], itemSets[1] * itemSets[2]];
      WindowsIntersection(itemSets[0], itemSets[1], itemSets[2]);
      assert intersections[0] * intersections[1] == Shared(backpacks[3 * g], backpacks[3 * g + 1], backpacks[3 * g + 2]);
      var badge :| badge in intersections[0] * intersections[1];
      assert (badges + [badge])[..g] == badges;
      badges := badges + [badge];
      prioSum := prioSum + Priority(badge);
    }
  }
}
