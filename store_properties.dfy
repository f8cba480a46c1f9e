/**
 * Consequences of the store's semantics over several operations: ids
 * assigned by adds, and what the positional update and delete then do to
 * records looked up by id.
 */
module StoreProperties {
  import opened Wrappers
  import opened Todos
  import opened StoreSpec

  /** The list after `create`/`add` of each of `ts`, in order, starting from `s`. */
  function AddAll(s: seq<Todo>, ts: seq<Todo>): (r: seq<Todo>)
    decreases |ts|
  {
    if ts == [] then s else AddAll(Appended(s, ts[0]), ts[1..])
  }

  /** Adding `ts` keeps the old records and numbers the new ones on from `|s|`. */
  lemma {:induction false} AddAllShape(s: seq<Todo>, ts: seq<Todo>)
    ensures |AddAll(s, ts)| == |s| + |ts|
    ensures AddAll(s, ts)[..|s|] == s
    ensures forall i :: 0 <= i < |ts| ==> AddAll(s, ts)[|s| + i] == ts[i].(id := |s| + i + 1)
    decreases |ts|
  {
    if ts != [] {
      var s' := Appended(s, ts[0]);
      AddAllShape(s', ts[1..]);
      var r := AddAll(s, ts);
      assert r == AddAll(s', ts[1..]);
      assert r[..|s|] == r[..|s'|][..|s|];
      forall i | 0 <= i < |ts|
        ensures r[|s| + i] == ts[i].(id := |s| + i + 1)
      {
        if i == 0 {
          assert r[|s|] == r[..|s'|][|s|];
        } else {
          assert r[|s'| + (i - 1)] == ts[1..][i - 1].(id := |s'| + (i - 1) + 1);
        }
      }
    }
  }

  /** From an empty store, N creates with no deletes give ids exactly 1..N in insertion order. */
  lemma AddsFromEmptyNumberOneToN(ts: seq<Todo>)
    ensures |AddAll([], ts)| == |ts|
    ensures forall i :: 0 <= i < |ts| ==> AddAll([], ts)[i] == ts[i].(id := i + 1)
    ensures SequentialIds(AddAll([], ts))
  {
    AddAllShape([], ts);
  }

  /** An add keeps every record one position below its id. */
  lemma AppendedKeepsSequentialIds(s: seq<Todo>, t: Todo)
    requires SequentialIds(s)
    ensures SequentialIds(Appended(s, t))
  {
  }

  /** Where records are numbered from `c + 1` by position, the record with id `k` sits at `k - c - 1`. */
  lemma {:induction false} IndexOfIdOffset(s: seq<Todo>, c: int, k: int)
    requires forall i :: 0 <= i < |s| ==> s[i].id == c + i + 1
    ensures IndexOfId(s, k) == if c < k <= c + |s| then Some(k - c - 1) else None
    decreases |s|
  {
    if s != [] && s[0].id != k {
      IndexOfIdOffset(s[1..], c + 1, k);
    }
  }

  /** After adds only, `findById(k)` finds the record at position `k - 1`, for ids 1..N, and nothing else. */
  lemma FindOnSequentialIds(s: seq<Todo>, k: int)
    requires SequentialIds(s)
    ensures IndexOfId(s, k) == if 1 <= k <= |s| then Some(k - 1) else None
  {
    IndexOfIdOffset(s, 0, k);
  }

  /** After adds only, the service update succeeds exactly for ids 1..N-1: the newest record can never be updated. */
  lemma UpdateOnSequentialIds(s: seq<Todo>, k: int, v: Todo)
    requires SequentialIds(s)
    ensures UpdateById(s, k, v).ok <==> 1 <= k < |s|
  {
    FindOnSequentialIds(s, k);
  }

  /** An update of an id at or past the end of the list fails and changes nothing, whatever the list holds. */
  lemma UpdatePastEndFails(s: seq<Todo>, k: int, v: Todo)
    requires k >= |s|
    ensures UpdateById(s, k, v) == Outcome(false, s)
  {
  }

  /** After N adds, `update(N, v)` finds the newest record but fails and leaves the store as it was. */
  lemma UpdateNewestFails(s: seq<Todo>, v: Todo)
    requires SequentialIds(s)
    ensures 0 < |s| ==> IndexOfId(s, |s|) == Some(|s| - 1)
    ensures UpdateById(s, |s|, v) == Outcome(false, s)
  {
    FindOnSequentialIds(s, |s|);
    UpdatePastEndFails(s, |s|, v);
  }

  /**
   * After adds only, a successful `update(k, v)` overwrites the record with
   * id `k + 1`: the record with id `k` is kept, two records then carry id
   * `k`, and `findById(k)` still returns the old one.
   */
  lemma UpdateOverwritesNextRecord(s: seq<Todo>, k: int, v: Todo)
    requires SequentialIds(s)
    requires 1 <= k < |s|
    ensures UpdateById(s, k, v).ok
    ensures UpdateById(s, k, v).list[k] == v.(id := k)
    ensures s[k].id == k + 1
    ensures UpdateById(s, k, v).list[k - 1] == s[k - 1]
    ensures UpdateById(s, k, v).list[k - 1].id == UpdateById(s, k, v).list[k].id == k
    ensures IndexOfId(UpdateById(s, k, v).list, k) == Some(k - 1)
  {
    UpdateOnSequentialIds(s, k, v);
    var r := UpdateById(s, k, v).list;
    assert r[k - 1].id == k;
  }

  /**
   * After adds only, `deleteById(k)` removes the record with id `k + 1`, not
   * the one with id `k`; that one is still found by id.
   */
  lemma DeleteRemovesByPosition(s: seq<Todo>, k: int)
    requires SequentialIds(s)
    requires 0 <= k < |s|
    ensures s[k].id == k + 1
    ensures forall t :: t in RemovedAt(s, k) ==> t.id != k + 1
    ensures k >= 1 ==> IndexOfId(RemovedAt(s, k), k) == Some(k - 1)
  {
    var r := RemovedAt(s, k);
    forall t | t in r
      ensures t.id != k + 1
    {
      var j :| 0 <= j < |r| && r[j] == t;
      if j >= k {
        assert t == s[j + 1];
      }
    }
    if k >= 1 {
      var prefix := r[..k];
      assert forall i :: 0 <= i < |prefix| ==> prefix[i].id == i + 1;
      FindOnSequentialIds(prefix, k);
      IndexOfIdPrefix(r, k, k);
    }
  }

  /** A match found within a prefix is the first match of the whole list. */
  lemma {:induction false} IndexOfIdPrefix(s: seq<Todo>, n: nat, id: int)
    requires n <= |s|
    requires IndexOfId(s[..n], id).Some?
    ensures IndexOfId(s, id) == IndexOfId(s[..n], id)
  {
    var i := IndexOfId(s[..n], id).value;
    assert s[i] == s[..n][i];
    forall j | 0 <= j < i
      ensures s[j].id != id
    {
      assert s[j] == s[..n][j];
    }
  }
}
