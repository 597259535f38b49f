/** The nearest-rider rule of `get_nearest_rider`: the travel times are zipped
    with the candidates into a dict keyed by time, the times are sorted, and
    the dict is asked for the candidate stored under the smallest time. */
module Selection {
  import opened Outcomes

  ghost predicate IsSorted(s: seq<int>)
  {
    forall i, j :: 0 <= i < j < |s| ==> s[i] <= s[j]
  }

  /** Places `x` into the ascending sequence `s`. */
  function Insert(x: int, s: seq<int>): (r: seq<int>)
    requires IsSorted(s)
    ensures IsSorted(r)
    ensures multiset(r) == multiset(s) + multiset{x}
  {
    if |s| == 0 then [x]
    else if x <= s[0] then [x] + s
    else
      var tail := Insert(x, s[1..]);
      assert s == [s[0]] + s[1..];
      forall k | 0 <= k < |tail|
        ensures s[0] <= tail[k]
      {
        assert tail[k] in multiset(tail);
        if tail[k] != x {
          assert tail[k] in multiset(s[1..]);
          var j :| 0 <= j < |s[1..]| && s[1..][j] == tail[k];
          assert s[j + 1] == tail[k];
        }
      }
      [s[0]] + tail
  }

  /** `list.sort()` on integers: the ascending permutation of `s`. */
  function SortAscending(s: seq<int>): (r: seq<int>)
    ensures IsSorted(r)
    ensures multiset(r) == multiset(s)
  {
    if |s| == 0 then []
    else
      assert s == [s[0]] + s[1..];
      Insert(s[0], SortAscending(s[1..]))
  }

  /** `i` holds a smallest element of `d`. */
  ghost predicate IsMinimal(d: seq<int>, i: int)
  {
    0 <= i < |d| && forall j :: 0 <= j < |d| ==> d[i] <= d[j]
  }

  /** The head of the sorted times is a smallest time of the input. */
  lemma SortedHeadIsMinimal(s: seq<int>)
    requires |s| > 0
    ensures exists i :: IsMinimal(s, i) && s[i] == SortAscending(s)[0]
  {
    var r := SortAscending(s);
    assert r[0] in multiset(s);
    var i :| 0 <= i < |s| && s[i] == r[0];
    forall j | 0 <= j < |s|
      ensures s[i] <= s[j]
    {
      assert s[j] in multiset(r);
      var k :| 0 <= k < |r| && r[k] == s[j];
    }
    assert IsMinimal(s, i);
  }

  /** How many pairs `zip(keys, values)` yields. */
  function ZipCount<K, V>(keys: seq<K>, values: seq<V>): nat
  {
    if |keys| <= |values| then |keys| else |values|
  }

  /** No later zipped pair has the same key as pair `i`. */
  ghost predicate IsLastWrite<K>(keys: seq<K>, n: nat, i: int)
    requires n <= |keys|
  {
    0 <= i < n && forall j :: i < j < n ==> keys[j] != keys[i]
  }

  /** The dict built from the first `n` pairs, written left to right: a
      repeated key keeps the value of its last pair. */
  function DictOf<V>(keys: seq<int>, values: seq<V>, n: nat): (m: map<int, V>)
    requires n <= |keys| && n <= |values|
    ensures forall k :: k in m <==> k in keys[..n]
    ensures forall i {:trigger IsLastWrite(keys, n, i)} :: IsLastWrite(keys, n, i) ==> keys[i] in m && m[keys[i]] == values[i]
  {
    if n == 0 then map[]
    else
      assert keys[..n] == keys[..n - 1] + [keys[n - 1]];
      var earlier := DictOf(keys, values, n - 1);
      assert forall i :: 0 <= i < n - 1 && IsLastWrite(keys, n, i) ==> IsLastWrite(keys, n - 1, i);
      earlier[keys[n - 1] := values[n - 1]]
  }

  /** `dict(zip(keys, values))`: pairs beyond the shorter input are dropped. */
  function ZipDict<V>(keys: seq<int>, values: seq<V>): map<int, V>
  {
    DictOf(keys, values, ZipCount(keys, values))
  }

  /** Index of the last occurrence of `k` in the first `n` keys. */
  lemma {:induction false} LastOccurrence<K>(keys: seq<K>, n: nat, k: K)
    requires n <= |keys|
    requires k in keys[..n]
    ensures exists i :: IsLastWrite(keys, n, i) && keys[i] == k
    decreases n
  {
    if keys[n - 1] == k {
      assert IsLastWrite(keys, n, n - 1);
    } else {
      assert keys[..n] == keys[..n - 1] + [keys[n - 1]];
      LastOccurrence(keys, n - 1, k);
      var i :| IsLastWrite(keys, n - 1, i) && keys[i] == k;
      assert IsLastWrite(keys, n, i);
    }
  }

  /** The candidate at the last zipped index whose time is the overall minimum. */
  ghost predicate IsChosen(d: seq<int>, n: nat, i: int)
    requires n <= |d|
  {
    IsMinimal(d, i) && IsLastWrite(d, n, i)
  }

  /** `get_nearest_rider`'s rule on an already fetched list of candidates
      and their travel times. An empty time list fails on `rider_time[0]`;
      when no zipped pair carries the minimum time, `dict.get` gives None. */
  function NearestCandidate<T>(durations: seq<int>, candidates: seq<T>): (r: Result<Option<T>>)
    ensures r.Err? <==> |durations| == 0
    ensures r.Err? ==> r.error == IndexError
    ensures r.Ok? && r.value.Some? ==>
      exists i :: IsChosen(durations, ZipCount(durations, candidates), i) && candidates[i] == r.value.value
    ensures r == Ok(None) <==>
      |durations| > 0 && forall i :: 0 <= i < ZipCount(durations, candidates) ==> !IsMinimal(durations, i)
  {
    var timeMap := ZipDict(durations, candidates);
    if |durations| == 0 then Err(IndexError)
    else
      var least := SortAscending(durations)[0];
      var n := ZipCount(durations, candidates);
      SortedHeadIsMinimal(durations);
      if least in timeMap then
        LastOccurrence(durations, n, least);
        Ok(Some(timeMap[least]))
      else
        assert forall i :: 0 <= i < n ==> durations[i] != least;
        Ok(None)
  }

  /** At most one index is the chosen one. */
  lemma ChosenIsUnique(d: seq<int>, n: nat, i: int, j: int)
    requires n <= |d|
    requires IsChosen(d, n, i) && IsChosen(d, n, j)
    ensures i == j
  {
    assert d[i] == d[j];
  }

  /** The last zipped index holding the minimum time decides the result. */
  lemma LastMinimalWins<T>(d: seq<int>, candidates: seq<T>, j: int)
    requires j < |candidates| && j < |d|
    requires IsChosen(d, ZipCount(d, candidates), j)
    ensures NearestCandidate(d, candidates) == Ok(Some(candidates[j]))
  {
    var n := ZipCount(d, candidates);
    var r := NearestCandidate(d, candidates);
    assert r != Ok(None);
    var i :| IsChosen(d, n, i) && candidates[i] == r.value.value;
    ChosenIsUnique(d, n, i, j);
  }

  /** With one time per candidate and at least one candidate, a candidate is
      always returned and no other candidate has a smaller time. */
  lemma NearestIsMinimal<T>(d: seq<int>, candidates: seq<T>)
    requires |d| == |candidates| > 0
    ensures NearestCandidate(d, candidates).Ok?
    ensures NearestCandidate(d, candidates).value.Some?
    ensures exists i :: 0 <= i < |candidates| && candidates[i] == NearestCandidate(d, candidates).value.value
                        && forall j :: 0 <= j < |d| ==> d[i] <= d[j]
  {
    SortedHeadIsMinimal(d);
    var i :| IsMinimal(d, i);
    assert ZipCount(d, candidates) == |d|;
  }

  /** Among candidates tied at the minimum, the one at the largest index wins. */
  lemma TieGoesToLastIndex<T>(d: seq<int>, candidates: seq<T>, i: int, j: int)
    requires 0 <= i < j < |d| && j < |candidates|
    requires IsMinimal(d, i) && IsMinimal(d, j)
    ensures exists k :: j <= k < |candidates| && IsMinimal(d, k)
                        && NearestCandidate(d, candidates) == Ok(Some(candidates[k]))
  {
    var n := ZipCount(d, candidates);
    var r := NearestCandidate(d, candidates);
    assert r != Ok(None);
    var k :| IsChosen(d, n, k) && candidates[k] == r.value.value;
    assert d[j] == d[k];
  }

  /** Times [300, 150, 450]: the second candidate is returned. */
  lemma ExampleDistinctTimes<T>(a: T, b: T, c: T)
    ensures NearestCandidate([300, 150, 450], [a, b, c]) == Ok(Some(b))
  {
    assert IsChosen([300, 150, 450], 3, 1);
    LastMinimalWins([300, 150, 450], [a, b, c], 1);
  }

  /** Times [150, 150]: the dict keeps the later rider. */
  lemma ExampleTie<T>(a: T, b: T)
    ensures NearestCandidate([150, 150], [a, b]) == Ok(Some(b))
  {
    assert IsChosen([150, 150], 2, 1);
    LastMinimalWins([150, 150], [a, b], 1);
  }

  /** More times than candidates: the smallest time falls outside the zip,
      so the lookup finds nothing although a candidate exists. */
  lemma ExampleTimeBeyondCandidates<T>(a: T)
    ensures NearestCandidate([200, 100], [a]) == Ok(None)
  {
    assert !IsMinimal([200, 100], 0);
  }
}
