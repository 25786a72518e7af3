/**
  The "recently seen" window that publishers and queue handlers keep: a list in order of
  arrival and a set for lookup, cut back to one hundred entries.
*/
module Windows {
  const CAPACITY: nat := 100

  datatype Window = Window(list: seq<string>, members: set<string>)

  const EMPTY := Window([], {})

  function Elements(list: seq<string>): set<string> { set k | k in list }

  ghost predicate NoDuplicates(list: seq<string>) {
    forall i, j :: 0 <= i < j < |list| ==> list[i] != list[j]
  }

  /**
    `update_recently_sent`: the key goes into both, then the oldest entry goes out of both. Removing
    an entry that the set no longer holds is a KeyError, raised after the list was cut.
  */
  function Record(w: Window, key: string): (Window, bool) {
    var list, members := w.list + [key], w.members + {key};
    if |list| <= CAPACITY then (Window(list, members), false)
    else (Window(list[1..], members - {list[0]}), list[0] !in members)
  }

  /** What concurrent use preserves: the set holds only listed keys, and the list is short. */
  ghost predicate Sound(w: Window) { w.members <= Elements(w.list) && |w.list| <= CAPACITY }

  /** What one careful user preserves: set and list agree and nothing is listed twice. */
  ghost predicate Exact(w: Window) {
    w.members == Elements(w.list) && NoDuplicates(w.list) && |w.list| <= CAPACITY
  }

  lemma RecordSound(w: Window, key: string)
    requires Sound(w)
    ensures Sound(Record(w, key).0)
  {
    var list := w.list + [key];
    assert list[|list| - 1] == key;
    assert forall k :: k in list && k != list[0] ==> k in list[1..];
  }

  /** Recording a key that is not there keeps list and set in step, and evicting never fails. */
  lemma RecordExact(w: Window, key: string)
    requires Exact(w) && key !in w.members
    ensures Exact(Record(w, key).0) && !Record(w, key).1
    ensures Record(w, key).0.members == w.members + {key} - (if |w.list| == CAPACITY then {w.list[0]} else {})
  {
    var list := w.list + [key];
    assert forall k :: k in list <==> k in w.list || k == key;
    assert NoDuplicates(list);
    if |list| > CAPACITY {
      assert list == [list[0]] + list[1..];
      assert list[0] in list && list[0] !in list[1..];
      assert Elements(list[1..]) == Elements(list) - {list[0]};
    }
  }

  /** Exactly a key that is still in the set spoils the window: it is listed twice, or no longer looked up. */
  lemma RecordExactIff(w: Window, key: string)
    requires Exact(w)
    ensures Exact(Record(w, key).0) <==> key !in w.members
    ensures !Record(w, key).1
  {
    if key !in w.members {
      RecordExact(w, key);
    } else {
      var i :| 0 <= i < |w.list| && w.list[i] == key;
      var w' := Record(w, key).0;
      assert w'.list[|w'.list| - 1] == key;
      if |w.list| < CAPACITY {
        assert w'.list[i] == key;
      } else if i > 0 {
        assert w'.list[i - 1] == key;
      } else {
        assert key in Elements(w'.list) && key !in w'.members;
      }
    }
  }

  lemma {:induction false} DistinctCount(list: seq<string>)
    requires NoDuplicates(list)
    ensures |Elements(list)| == |list|
  {
    if list != [] {
      var init := list[..|list| - 1];
      DistinctCount(init);
      assert Elements(list) == Elements(init) + {list[|list| - 1]};
      assert list[|list| - 1] !in Elements(init);
    }
  }

  lemma SubsetCount<T>(a: set<T>, b: set<T>)
    requires a <= b
    ensures |a| <= |b|
  {
    assert b == a + (b - a);
  }

  /** As long as at most a hundred keys exist at all, nothing is ever evicted. */
  lemma RecordAmongFew(w: Window, key: string, universe: set<string>)
    requires Exact(w) && w.members <= universe && |universe| <= CAPACITY
    requires key in universe - w.members
    ensures Exact(Record(w, key).0) && !Record(w, key).1
    ensures Record(w, key).0.members == w.members + {key}
  {
    DistinctCount(w.list);
    SubsetCount(w.members + {key}, universe);
    RecordExact(w, key);
  }

  // ----- Against a plain history -----

  /** The last `n` entries of a history. */
  function LastOf(history: seq<string>, n: nat): seq<string> {
    if |history| <= n then history else history[|history| - n..]
  }

  /** No key comes back within one hundred entries of itself. */
  ghost predicate Spaced(history: seq<string>) {
    forall i, j :: 0 <= i < j < |history| && j - i <= CAPACITY ==> history[i] != history[j]
  }

  /** The window is the tail of the history of recorded keys. */
  ghost predicate Tracks(w: Window, history: seq<string>) {
    Spaced(history) && w.list == LastOf(history, CAPACITY) && w.members == Elements(w.list)
  }

  lemma TracksIsExact(w: Window, history: seq<string>)
    requires Tracks(w, history)
    ensures Exact(w)
  {
    var d := |history| - |w.list|;
    assert forall i :: 0 <= i < |w.list| ==> w.list[i] == history[d + i];
  }

  lemma RecordTracks(w: Window, history: seq<string>, key: string)
    requires Tracks(w, history) && key !in w.members
    ensures Tracks(Record(w, key).0, history + [key]) && !Record(w, key).1
  {
    TracksIsExact(w, history);
    RecordExact(w, key);
    var history' := history + [key];
    var d := |history| - |w.list|;
    assert forall i :: 0 <= i < |w.list| ==> w.list[i] == history[d + i];
    assert Record(w, key).0.list == LastOf(history', CAPACITY);
    forall i, j | 0 <= i < j < |history'| && j - i <= CAPACITY
      ensures history'[i] != history'[j]
    {
      if j == |history| {
        assert history[i] == w.list[i - d];
      }
    }
  }

  /** Recording stays the sliding window of the history exactly for a key that is not in it. */
  lemma RecordTracksIff(w: Window, history: seq<string>, key: string)
    requires Tracks(w, history)
    ensures Tracks(Record(w, key).0, history + [key]) <==> key !in w.members
    ensures !Record(w, key).1
  {
    if key !in w.members {
      RecordTracks(w, history, key);
    } else {
      var i :| 0 <= i < |w.list| && w.list[i] == key;
      var d := |history| - |w.list|;
      assert w.list[i] == history[d + i];
      assert (history + [key])[d + i] == (history + [key])[|history|];
      assert !Spaced(history + [key]);
      TracksIsExact(w, history);
      RecordExactIff(w, key);
    }
  }
}
