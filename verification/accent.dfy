/**
 * `apply_accent_typo`: the n-th duplicate (n > 0) of a name gets one of its
 * accentable characters swapped through a fixed character map, chosen by
 * walking backwards over those characters modulo their number, plus a
 * trailing "." once n exceeds that number; a name with no accentable
 * character just gets the ".".
 */
module Accent {

  /** The script's `charmap`: a, A, à, e, E, é, è, i, I, o, O, u, U, y and their replacements. */
  const Charmap: map<char, char> := map[
    'a' := '\U{E0}', 'A' := '\U{C0}', '\U{E0}' := 'a',
    'e' := '\U{E9}', 'E' := '\U{C9}', '\U{E9}' := 'e', '\U{E8}' := 'e',
    'i' := '\U{EF}', 'I' := '\U{CF}',
    'o' := '\U{F4}', 'O' := '\U{D4}',
    'u' := '\U{F9}', 'U' := '\U{D9}',
    'y' := '\U{FF}']

  /** The map never sends a character to itself. */
  lemma CharmapMoves(c: char)
    requires c in Charmap
    ensures Charmap[c] != c
  {
  }

  /** The positions at or after `start` whose character is a key of the map, ascending. */
  function EligibleFrom(name: string, start: nat): seq<nat>
    requires start <= |name|
    decreases |name| - start
  {
    if start == |name| then []
    else if name[start] in Charmap then [start] + EligibleFrom(name, start + 1)
    else EligibleFrom(name, start + 1)
  }

  lemma {:induction false} EligibleFromFacts(name: string, start: nat)
    requires start <= |name|
    ensures forall k :: 0 <= k < |EligibleFrom(name, start)| ==>
      start <= EligibleFrom(name, start)[k] < |name| && name[EligibleFrom(name, start)[k]] in Charmap
    ensures forall k, m :: 0 <= k < m < |EligibleFrom(name, start)| ==>
      EligibleFrom(name, start)[k] < EligibleFrom(name, start)[m]
    ensures forall p :: start <= p < |name| && name[p] in Charmap ==> p in EligibleFrom(name, start)
    decreases |name| - start
  {
    if start < |name| {
      EligibleFromFacts(name, start + 1);
      var rest := EligibleFrom(name, start + 1);
      if name[start] in Charmap {
        var idx := [start] + rest;
        assert EligibleFrom(name, start) == idx;
        assert forall k :: 0 < k < |idx| ==> idx[k] == rest[k - 1];
        assert forall p :: p in rest ==> p in idx;
      }
    }
  }

  /** The positions of the characters of a name that the accent table can change, in order. */
  function Eligible(name: string): (idx: seq<nat>)
    ensures forall k :: 0 <= k < |idx| ==> idx[k] < |name| && name[idx[k]] in Charmap
    ensures forall k, m :: 0 <= k < m < |idx| ==> idx[k] < idx[m]
    ensures forall p :: 0 <= p < |name| && name[p] in Charmap ==> p in idx
  {
    EligibleFromFacts(name, 0);
    EligibleFrom(name, 0)
  }

  /** Python indexing of a sequence, where a negative index counts from the end. */
  function PyIndex<T>(s: seq<T>, j: int): T
    requires -|s| <= j < |s|
  {
    if j < 0 then s[|s| + j] else s[j]
  }

  /**
   * The position picked among the eligible ones for an occurrence index: it is always in
   * range, and it picks the eligible position `count % L` places before the
   * last one.
   */
  function Target(name: string, count: nat): (p: nat)
    requires |Eligible(name)| > 0
    ensures var idx := Eligible(name);
      p == idx[|idx| - 1 - count % |idx|] && p < |name| && name[p] in Charmap
  {
    var indices := Eligible(name);
    PyIndex(indices, -(count % |indices|) - 1)
  }

  /** The renaming of a name given its occurrence index among equal names of its store. */
  function AccentTypo(name: string, count: nat): (r: string)
    ensures count == 0 ==> r == name
    ensures count > 0 && |Eligible(name)| == 0 ==> r == name + "."
    ensures |r| == |name| + (if count > |Eligible(name)| then 1 else 0)
    ensures |r| > |name| ==> r[|name|] == '.'
    ensures count > 0 && |Eligible(name)| > 0 ==>
      var p := Target(name, count);
      r[p] == Charmap[name[p]] && r[p] != name[p] &&
      forall k :: 0 <= k < |name| && k != p ==> r[k] == name[k]
  {
    if count == 0 then name
    else
      var indices := Eligible(name);
      if |indices| == 0 then name + "."
      else
        var p := Target(name, count);
        CharmapMoves(name[p]);
        var chars := name[p := Charmap[name[p]]];
        chars + (if count > |indices| then "." else "")
  }

  /** The largest count up to which the results for one name stay pairwise distinct. */
  function Bound(eligible: nat): nat {
    if eligible == 0 then 1 else 2 * eligible
  }

  /** A duplicate (count > 0) never keeps the original name. */
  lemma DuplicateIsRenamed(name: string, count: nat)
    requires count > 0
    ensures AccentTypo(name, count) != name
  {
    var r := AccentTypo(name, count);
    if |Eligible(name)| > 0 && |r| == |name| {
      var p := Target(name, count);
      assert r[p] != name[p];
    }
  }

  lemma {:induction false} WalkPositionsDiffer(name: string, c1: nat, c2: nat)
    requires 0 < |Eligible(name)|
    requires var L := |Eligible(name)|;
      0 < c1 < c2 && ((c2 <= L) || (L < c1 && c2 <= 2 * L))
    ensures Target(name, c1) != Target(name, c2)
  {
    var idx := Eligible(name);
    var L := |idx|;
    var m1, m2 := c1 % L, c2 % L;
    if c2 <= L {
      ModUnique(c1, L, 0, c1);
      if c2 == L { ModUnique(c2, L, 1, 0); } else { ModUnique(c2, L, 0, c2); }
    } else {
      ModUnique(c1, L, 1, c1 - L);
      if c2 == 2 * L { ModUnique(c2, L, 2, 0); } else { ModUnique(c2, L, 1, c2 - L); }
    }
    assert m1 != m2;
    var i1, i2 := L - 1 - m1, L - 1 - m2;
    if i1 < i2 {
      assert idx[i1] < idx[i2];
    } else {
      assert idx[i2] < idx[i1];
    }
  }

  /**
   * For a fixed name with L accentable characters, the results for the
   * counts 0 .. Bound(L) are pairwise distinct.
   */
  lemma DistinctUpToBound(name: string, c1: nat, c2: nat)
    requires c1 < c2 <= Bound(|Eligible(name)|)
    ensures AccentTypo(name, c1) != AccentTypo(name, c2)
  {
    var L := |Eligible(name)|;
    var r1, r2 := AccentTypo(name, c1), AccentTypo(name, c2);
    if c1 == 0 {
      DuplicateIsRenamed(name, c2);
    } else if (c1 > L) == (c2 > L) {
      WalkPositionsDiffer(name, c1, c2);
      var p1, p2 := Target(name, c1), Target(name, c2);
      assert r1[p1] != name[p1] == r2[p1];
    } else {
      assert |r1| != |r2|;
    }
  }

  /** Past one full walk, a count and that count plus L give the same string. */
  lemma RepeatsAfterSecondWalk(name: string, c: nat)
    requires var L := |Eligible(name)|; L > 0 && c > L
    ensures AccentTypo(name, c) == AccentTypo(name, c + |Eligible(name)|)
  {
    var L := |Eligible(name)|;
    ModShift(c, L);
    var p := Target(name, c);
    assert p == Target(name, c + L);
    var chars := name[p := Charmap[name[p]]];
    assert AccentTypo(name, c) == chars + ".";
    assert AccentTypo(name, c + L) == chars + ".";
  }

  lemma ModShift(c: nat, L: nat)
    requires L > 0
    ensures (c + L) % L == c % L
  {
    var q, m := c / L, c % L;
    assert c + L == (q + 1) * L + m;
    ModUnique(c + L, L, q + 1, m);
  }

  /** `x % L` is the remainder of any division of `x` by `L`. */
  lemma ModUnique(x: int, L: int, q: int, r: int)
    requires L > 0 && 0 <= r < L && x == q * L + r
    ensures x % L == r
  {
    var q', r' := x / L, x % L;
    var d := q' - q;
    assert d * L == r - r';
    assert d >= 1 ==> d * L >= L;
    assert d <= -1 ==> d * L <= -L;
    assert d == 0;
  }

  /** Without an accentable character, every duplicate becomes the same `name + "."`. */
  lemma RepeatsWithoutVowel(name: string, c1: nat, c2: nat)
    requires |Eligible(name)| == 0 && 0 < c1 && 0 < c2
    ensures AccentTypo(name, c1) == AccentTypo(name, c2)
  {
  }

  /** The bound is exact: count Bound(L) + 1 repeats an earlier result. */
  lemma BoundIsExact(name: string)
    ensures var L := |Eligible(name)|;
      var earlier := if L == 0 then 1 else L + 1;
      earlier <= Bound(L) &&
      AccentTypo(name, Bound(L) + 1) == AccentTypo(name, earlier)
  {
    var L := |Eligible(name)|;
    if L == 0 {
      RepeatsWithoutVowel(name, Bound(L) + 1, 1);
    } else {
      RepeatsAfterSecondWalk(name, L + 1);
    }
  }

  /**
   * The first duplicate of a name with at least two accentable characters
   * changes the second-to-last of them, and the L-th duplicate the last one.
   */
  lemma WalkStartsBeforeLast(name: string)
    requires |Eligible(name)| >= 2
    ensures var idx := Eligible(name);
      Target(name, 1) == idx[|idx| - 2] && Target(name, |idx|) == idx[|idx| - 1]
  {
    var L := |Eligible(name)|;
    ModUnique(1, L, 0, 1);
    ModUnique(L, L, 1, 0);
  }

  /** "Orange" as first duplicate becomes "Orànge": its accentable characters are O, a, e. */
  lemma OrangeExample()
    ensures AccentTypo("Orange", 1) == "Or\U{E0}nge"
  {
    OrangeTarget();
    OrangeRenamed();
    assert "Orange"[2] == 'a' && Charmap['a'] == '\U{E0}';
  }

  /** The first duplicate of "Orange" changes the "a", the second of its three accentable characters. */
  lemma OrangeTarget()
    ensures |Eligible("Orange")| == 3 && Target("Orange", 1) == 2
  {
    OrangeEligible();
    ModUnique(1, 3, 0, 1);
  }

  lemma OrangeRenamed()
    ensures "Orange"[2 := '\U{E0}'] == "Or\U{E0}nge"
  {
  }

  lemma OrangeEligible()
    ensures Eligible("Orange") == [0, 2, 5]
  {
    var name := "Orange";
    assert name[0] in Charmap && name[2] in Charmap && name[5] in Charmap;
    assert name[1] !in Charmap && name[3] !in Charmap && name[4] !in Charmap;
    assert EligibleFrom(name, 6) == [];
    assert EligibleFrom(name, 5) == [5];
    assert EligibleFrom(name, 4) == [5];
    assert EligibleFrom(name, 3) == [5];
    assert EligibleFrom(name, 2) == [2, 5];
    assert EligibleFrom(name, 1) == [2, 5];
  }
}
