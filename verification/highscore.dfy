/** The retained high-score list of the `score` module: at most
    `NB_HIGHSCORES` entries, filled by sorting while short and by replacing
    an entry once full. The same logic serves the score list and the
    lines list. */
module HighScore {

  import opened Wrappers

  /** `NB_HIGHSCORES`. */
  const MaxEntries: nat := 5

  predicate Sorted(s: seq<nat>)
  {
    forall i, j :: 0 <= i < j < |s| ==> s[i] <= s[j]
  }

  /** Insert `v` into an ascending list, keeping it ascending. */
  function Insert(s: seq<nat>, v: nat): (r: seq<nat>)
    requires Sorted(s)
    ensures Sorted(r) && |r| == |s| + 1
    ensures multiset(r) == multiset(s) + multiset{v}
    ensures forall i :: 0 <= i < |r| ==> r[i] == v || r[i] in s
  {
    if |s| == 0 then [v]
    else if v <= s[0] then [v] + s
    else
      var rest := Insert(s[1..], v);
      assert s == [s[0]] + s[1..];
      assert forall i :: 0 <= i < |rest| ==> s[0] <= rest[i] by {
        forall i | 0 <= i < |rest| ensures s[0] <= rest[i] {
          assert rest[i] == v || rest[i] in s[1..];
        }
      }
      PrependSorted(s[0], rest);
      [s[0]] + rest
  }

  lemma PrependSorted(x: nat, s: seq<nat>)
    requires Sorted(s) && forall i :: 0 <= i < |s| ==> x <= s[i]
    ensures Sorted([x] + s)
  {
  }

  /** The ascending sort of `Vec::sort` (on numbers every correct sort gives
      this same list). */
  function SortSeq(s: seq<nat>): (r: seq<nat>)
    ensures Sorted(r) && |r| == |s| && multiset(r) == multiset(s)
  {
    if |s| == 0 then []
    else
      assert s == [s[0]] + s[1..];
      Insert(SortSeq(s[1..]), s[0])
  }

  /** The updated list and `update_vec`'s return value. */
  datatype Update = Update(entries: seq<nat>, changed: bool)

  /** The first index at or after `i` whose entry is strictly below `value`. */
  function FirstBelow(v: seq<nat>, value: nat, i: nat): (r: Option<nat>)
    requires i <= |v|
    decreases |v| - i
    ensures r.Some? ==> i <= r.value < |v| && v[r.value] < value
    ensures forall j :: i <= j < (if r.Some? then r.value else |v|) ==> v[j] >= value
  {
    if i == |v| then None
    else if value > v[i] then Some(i)
    else FirstBelow(v, value, i + 1)
  }

  /** `update_vec` as written. A short list gets the value appended and is
      sorted ascending. A full list keeps its length: the first entry
      strictly below the value is overwritten, or nothing changes and the
      result is false when no entry is below it. */
  function UpdateVec(v: seq<nat>, value: nat): (r: Update)
    ensures |v| < MaxEntries ==>
              r.changed && Sorted(r.entries) && multiset(r.entries) == multiset(v) + multiset{value}
    ensures |v| >= MaxEntries ==> |r.entries| == |v|
    ensures |v| >= MaxEntries ==> (r.changed <==> exists k :: 0 <= k < |v| && v[k] < value)
    ensures |v| >= MaxEntries && r.changed ==>
              exists k :: 0 <= k < |v| && v[k] < value && (forall j :: 0 <= j < k ==> v[j] >= value) &&
                          r.entries == v[k := value]
    ensures !r.changed ==> r.entries == v
    ensures |v| <= MaxEntries ==> |r.entries| <= MaxEntries
  {
    if |v| < MaxEntries then Update(SortSeq(v + [value]), true)
    else match FirstBelow(v, value, 0)
      case None => Update(v, false)
      case Some(k) => Update(v[k := value], true)
  }

  /** On a full ascending list the entry overwritten is the first, lowest
      one. */
  lemma SortedFullListReplacesLowest(v: seq<nat>, value: nat)
    requires Sorted(v) && |v| >= MaxEntries && v[0] < value
    ensures UpdateVec(v, value).entries == v[0 := value]
  {
  }

  /** Once a full list is no longer sorted, the first-below rule can drop an
      entry that is higher than one it keeps: from the full ascending list
      1, 2, 3, 4, 5, the scores 10, 6 and 7 leave a list that holds 3 but no
      longer holds 6. */
  lemma UpdateVecDropsHigherScore()
    ensures UpdateVec([1, 2, 3, 4, 5], 10) == Update([10, 2, 3, 4, 5], true)
    ensures UpdateVec([10, 2, 3, 4, 5], 6) == Update([10, 6, 3, 4, 5], true)
    ensures UpdateVec([10, 6, 3, 4, 5], 7) == Update([10, 7, 3, 4, 5], true)
    ensures 3 in UpdateVec([10, 6, 3, 4, 5], 7).entries && 6 !in UpdateVec([10, 6, 3, 4, 5], 7).entries
  {
    assert FirstBelow([1, 2, 3, 4, 5], 10, 0) == Some(0);
    assert [1, 2, 3, 4, 5][0 := 10] == [10, 2, 3, 4, 5];
    assert FirstBelow([10, 2, 3, 4, 5], 6, 1) == Some(1);
    assert FirstBelow([10, 2, 3, 4, 5], 6, 0) == Some(1);
    assert [10, 2, 3, 4, 5][1 := 6] == [10, 6, 3, 4, 5];
    assert FirstBelow([10, 6, 3, 4, 5], 7, 1) == Some(1);
    assert FirstBelow([10, 6, 3, 4, 5], 7, 0) == Some(1);
    assert [10, 6, 3, 4, 5][1 := 7] == [10, 7, 3, 4, 5];
  }

  /** The index of the first lowest entry at or after `i`. */
  function LowestFrom(v: seq<nat>, i: nat): (k: nat)
    requires i < |v|
    decreases |v| - i
    ensures i <= k < |v| && forall j :: i <= j < |v| ==> v[k] <= v[j]
  {
    if i == |v| - 1 then i
    else
      var k := LowestFrom(v, i + 1);
      if v[i] <= v[k] then i else k
  }

  /** `update_vec` keeping the highest entries: a full list gives up its
      lowest entry, and only for a strictly higher value, so whatever leaves
      the list is no higher than anything that stays in it. */
  function UpdateVecKeepingBest(v: seq<nat>, value: nat): (r: Update)
    ensures |v| < MaxEntries ==>
              r.changed && Sorted(r.entries) && multiset(r.entries) == multiset(v) + multiset{value}
    ensures |v| >= MaxEntries ==> |r.entries| == |v|
    ensures |v| >= MaxEntries && r.changed ==>
              exists k :: 0 <= k < |v| && v[k] < value && (forall j :: 0 <= j < |v| ==> v[k] <= v[j]) &&
                          r.entries == v[k := value]
    ensures |v| >= MaxEntries ==> (r.changed <==> exists k :: 0 <= k < |v| && v[k] < value)
    ensures !r.changed ==> r.entries == v
  {
    if |v| < MaxEntries then Update(SortSeq(v + [value]), true)
    else
      var k := LowestFrom(v, 0);
      if v[k] < value then Update(v[k := value], true) else Update(v, false)
  }

  /** With the corrected rule the same scores keep 6 and drop 3. */
  lemma KeepingBestKeepsHigherScore()
    ensures UpdateVecKeepingBest([10, 6, 3, 4, 5], 7) == Update([10, 6, 7, 4, 5], true)
  {
    assert LowestFrom([10, 6, 3, 4, 5], 0) == 2;
    assert [10, 6, 3, 4, 5][2 := 7] == [10, 6, 7, 4, 5];
  }

}
