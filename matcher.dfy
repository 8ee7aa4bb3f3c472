/** The opponent matcher inside `fillResults` (content.js:218-231) and its helper
    `sliceBeforeDot` (content.js:86-89): an exact `Map` lookup first, then a scan of the keys
    in insertion order for a prefix match on the parts before the first dot. */
module Matcher {
  import opened Wrappers
  import opened Text
  import opened Standings

  /** `s.indexOf(".")`: the first position of a dot, or -1. */
  function DotIndex(s: string): (r: int)
    ensures -1 <= r < |s|
  {
    if s == [] then -1
    else if s[0] == '.' then 0
    else
      var k := DotIndex(s[1..]);
      if k < 0 then -1 else k + 1
  }

  /** `indexOf` finds the first dot, and reports -1 exactly when there is none. */
  lemma {:induction false} DotIndexSpec(s: string)
    ensures DotIndex(s) >= 0 ==> s[DotIndex(s)] == '.' && '.' !in s[..DotIndex(s)]
    ensures DotIndex(s) < 0 <==> '.' !in s
  {
    if s != [] && s[0] != '.' {
      DotIndexSpec(s[1..]);
      var k := DotIndex(s[1..]);
      assert forall j :: 1 <= j < |s| ==> s[j] == s[1..][j - 1];
      if k >= 0 {
        assert s[..k + 1] == [s[0]] + s[1..][..k];
      }
    }
  }

  /** `sliceBeforeDot(s)`: the text before the first dot, or all of `s` when it has none. */
  function SliceBeforeDot(s: string): string {
    var idx := DotIndex(s);
    if idx > -1 then s[..idx] else s
  }

  /** The truncation-aware test of content.js:223-228 for one key: the key's part before its
      first dot must be non-empty, and then either it equals the head of the opponent name of
      its own length, or the opponent's part before its first dot equals the head of the key
      of that length. */
  predicate TruncationMatch(key: string, opp: string) {
    var keyPrefix := SliceBeforeDot(key);
    var oppPrefix := SliceBeforeDot(opp);
    |keyPrefix| > 0 && (keyPrefix == Head(opp, |keyPrefix|) || oppPrefix == Head(key, |oppPrefix|))
  }

  /** The position of the first key at or after `i` that passes the truncation test. */
  function FirstTruncation(keys: seq<string>, opp: string, i: nat): (r: Option<nat>)
    requires i <= |keys|
    ensures r.Some? ==> i <= r.value < |keys| && TruncationMatch(keys[r.value], opp)
    ensures r.Some? ==> forall j :: i <= j < r.value ==> !TruncationMatch(keys[j], opp)
    ensures r.None? ==> forall j :: i <= j < |keys| ==> !TruncationMatch(keys[j], opp)
    decreases |keys| - i
  {
    if i == |keys| then None
    else if TruncationMatch(keys[i], opp) then Some(i)
    else FirstTruncation(keys, opp, i + 1)
  }

  /** The entry the matcher settles on: the exact key when the index has one, otherwise the
      first key in iteration order that passes the truncation test, otherwise none. */
  function Lookup(idx: Index, opp: string): Option<Entry>
    requires idx.Valid()
  {
    if opp in idx.entries then Some(idx.entries[opp])
    else
      match FirstTruncation(idx.keys, opp, 0)
      case None => None
      case Some(i) => Some(idx.entries[idx.keys[i]])
  }

  /** The matcher as the loop of content.js:219-231 runs it over `standingsMap.entries()`,
      leaving at the first key that passes. */
  method ResolveOpponent(idx: Index, opp: string) returns (data: Option<Entry>)
    requires idx.Valid()
    ensures data == Lookup(idx, opp)
  {
    if opp in idx.entries {
      return Some(idx.entries[opp]);
    }
    var oppPrefix := SliceBeforeDot(opp);
    var i := 0;
    while i < |idx.keys|
      invariant 0 <= i <= |idx.keys|
      invariant FirstTruncation(idx.keys, opp, i) == FirstTruncation(idx.keys, opp, 0)
    {
      var key := idx.keys[i];
      var keyPrefix := SliceBeforeDot(key);
      if |keyPrefix| > 0 {
        var oppHead := Head(opp, |keyPrefix|);
        if keyPrefix == oppHead {
          return Some(idx.entries[key]);
        }
        var keyHead := Head(key, |oppPrefix|);
        if oppPrefix == keyHead {
          return Some(idx.entries[key]);
        }
      }
      i := i + 1;
    }
    return None;
  }

  // ---------------------------------------------------------------------------------------
  // Properties

  /** The part before the first dot is a dot-free prefix, ended by the end of the text or by
      its first dot. */
  lemma SliceBeforeDotSpec(s: string)
    ensures var r := SliceBeforeDot(s);
      IsPrefix(r, s) && '.' !in r && (r == s || s[|r|] == '.')
  {
    DotIndexSpec(s);
  }

  /** The truncation test, stated with prefixes: the key's part before its first dot is
      non-empty and is a prefix of the opponent name, or the opponent's part before its first
      dot is a prefix of the key. */
  lemma TruncationMatchIff(key: string, opp: string)
    ensures TruncationMatch(key, opp) <==>
      SliceBeforeDot(key) != "" &&
      (IsPrefix(SliceBeforeDot(key), opp) || IsPrefix(SliceBeforeDot(opp), key))
  {
    var kp, op := SliceBeforeDot(key), SliceBeforeDot(opp);
    SliceBeforeDotSpec(key);
    SliceBeforeDotSpec(opp);
    if |kp| > |opp| {
      assert Head(opp, |kp|) == opp && |opp| != |kp|;
    }
    if |op| > |key| {
      assert Head(key, |op|) == key && |key| != |op|;
    }
  }

  /** An opponent name that starts with a dot has an empty part before the dot, so it passes
      the truncation test against every key whose own part before the dot is non-empty. */
  lemma LeadingDotMatches(key: string, opp: string)
    requires opp != [] && opp[0] == '.'
    ensures TruncationMatch(key, opp) <==> SliceBeforeDot(key) != ""
  {
    assert DotIndex(opp) == 0;
    assert SliceBeforeDot(opp) == "";
    assert Head(key, 0) == "";
  }

  /** A key present exactly is used, even when an earlier key would pass the truncation
      test. */
  lemma ExactHitWins(idx: Index, opp: string, i: nat)
    requires idx.Valid() && opp in idx.entries
    requires i < |idx.keys| && TruncationMatch(idx.keys[i], opp)
    ensures Lookup(idx, opp) == Some(idx.entries[opp])
  {
  }

  /** Key `i` is the first in iteration order that passes the truncation test. */
  predicate FirstPassing(keys: seq<string>, opp: string, i: nat) {
    i < |keys| && TruncationMatch(keys[i], opp) && forall j :: 0 <= j < i ==> !TruncationMatch(keys[j], opp)
  }

  lemma FirstPassingUnique(keys: seq<string>, opp: string, i: nat, k: nat)
    requires FirstPassing(keys, opp, i) && FirstPassing(keys, opp, k)
    ensures i == k
  {
  }

  /** Without an exact key, the matcher returns the entry of the first key in iteration order
      that passes the truncation test, and nothing when no key passes. */
  lemma LookupScan(idx: Index, opp: string)
    requires idx.Valid() && opp !in idx.entries
    ensures Lookup(idx, opp).None? <==> forall j :: 0 <= j < |idx.keys| ==> !TruncationMatch(idx.keys[j], opp)
    ensures forall i: nat :: FirstPassing(idx.keys, opp, i) ==> Lookup(idx, opp) == Some(idx.entries[idx.keys[i]])
  {
    match FirstTruncation(idx.keys, opp, 0)
    case None =>
    case Some(k) =>
      forall i: nat | FirstPassing(idx.keys, opp, i) ensures i == k {
        FirstPassingUnique(idx.keys, opp, i, k);
      }
  }

  /** "B." is matched to the key "BOB": the text before its dot heads the key. */
  lemma TruncatedNameExample()
    ensures TruncationMatch("BOB", "B.")
  {
    var key, opp := "BOB", "B.";
    assert DotIndex(key[2..]) == -1;
    assert DotIndex(key[1..]) == -1;
    assert DotIndex(key) == -1;
    assert DotIndex(opp[1..]) == 0;
    assert SliceBeforeDot(opp) == "B";
    assert Head(key, 1) == "B";
  }
}
