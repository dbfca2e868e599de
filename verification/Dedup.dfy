/**
 The dedup window, proved against a reference without eviction.

 Slide is one call of RecentIds.add on the keys of the ordered dictionary. Accepted is the
 reference it is compared against: it remembers every accepted id for ever and refuses an id
 exactly when it is among the last maxlen of them, with no eviction at all.
 */
module Dedup {
  import opened Wrappers

  /** The last n elements of s, or all of s when it is shorter. */
  function LastN<T>(s: seq<T>, n: nat): seq<T> {
    if |s| <= n then s else s[|s| - n..]
  }

  ghost predicate NoRepeats<T>(s: seq<T>) {
    forall i, j :: 0 <= i < j < |s| ==> s[i] != s[j]
  }

  /** What one call of add leaves in the window. */
  function Slide<T(==)>(window: seq<T>, maxlen: nat, id: T): seq<T> {
    if id in window then window
    else if |window| + 1 > maxlen then (window + [id])[1..]
    else window + [id]
  }

  /** The window after adding every id of ids, in order, to an empty window. */
  function WindowAfter<T(==)>(maxlen: nat, ids: seq<T>): seq<T> {
    if ids == [] then []
    else Slide(WindowAfter(maxlen, ids[..|ids| - 1]), maxlen, ids[|ids| - 1])
  }

  /** The ids accepted as new, by a memory that never evicts. */
  function Accepted<T(==)>(maxlen: nat, ids: seq<T>): seq<T> {
    if ids == [] then []
    else
      var before := Accepted(maxlen, ids[..|ids| - 1]);
      var id := ids[|ids| - 1];
      if id in LastN(before, maxlen) then before else before + [id]
  }

  /** Sliding the last n of a by an id outside them gives the last n of the longer sequence. */
  lemma SlideLast<T>(a: seq<T>, n: nat, id: T)
    requires n >= 1 && id !in LastN(a, n)
    ensures Slide(LastN(a, n), n, id) == LastN(a + [id], n)
  {
  }

  /** The evicting window is always the last maxlen accepted ids, in order, without repeats. */
  lemma {:induction false} WindowIsLastAccepted<T>(maxlen: nat, ids: seq<T>)
    requires maxlen >= 1
    ensures WindowAfter(maxlen, ids) == LastN(Accepted(maxlen, ids), maxlen)
    ensures NoRepeats(WindowAfter(maxlen, ids))
  {
    if ids == [] {
    } else {
      var before := ids[..|ids| - 1];
      var id := ids[|ids| - 1];
      WindowIsLastAccepted(maxlen, before);
      if id !in WindowAfter(maxlen, before) {
        SlideLast(Accepted(maxlen, before), maxlen, id);
        SlideNoRepeats(WindowAfter(maxlen, before), maxlen, id);
      }
    }
  }

  lemma SlideNoRepeats<T>(window: seq<T>, maxlen: nat, id: T)
    requires NoRepeats(window)
    ensures NoRepeats(Slide(window, maxlen, id))
  {
  }

  lemma AcceptedStep<T>(maxlen: nat, ids: seq<T>, id: T)
    ensures Accepted(maxlen, ids + [id])
         == if id in LastN(Accepted(maxlen, ids), maxlen) then Accepted(maxlen, ids)
            else Accepted(maxlen, ids) + [id]
    ensures WindowAfter(maxlen, ids + [id]) == Slide(WindowAfter(maxlen, ids), maxlen, id)
  {
    assert (ids + [id])[..|ids|] == ids;
  }

  /** The accepted ids are exactly the ids that were added: the window never invents or loses one. */
  lemma {:induction false} AcceptedSameIds<T>(maxlen: nat, ids: seq<T>)
    ensures forall id :: id in Accepted(maxlen, ids) <==> id in ids
  {
    if ids == [] {
    } else {
      AcceptedSameIds(maxlen, ids[..|ids| - 1]);
      assert ids == ids[..|ids| - 1] + [ids[|ids| - 1]];
    }
  }

  /** Every prefix of the accepted ids is what some earlier moment of the run had accepted. */
  lemma {:induction false} AcceptedPrefix<T>(maxlen: nat, ids: seq<T>, j: nat) returns (n: nat)
    requires j < |Accepted(maxlen, ids)|
    ensures n < |ids| && Accepted(maxlen, ids[..n]) == Accepted(maxlen, ids)[..j]
    ensures ids[n] == Accepted(maxlen, ids)[j]
    ensures ids[n] !in LastN(Accepted(maxlen, ids[..n]), maxlen)
  {
    var before := ids[..|ids| - 1];
    if j < |Accepted(maxlen, before)| {
      n := AcceptedPrefix(maxlen, before, j);
      assert before[..n] == ids[..n];
      assert Accepted(maxlen, ids)[..j] == Accepted(maxlen, before)[..j];
    } else {
      n := |ids| - 1;
    }
  }

  /**
   An id is accepted a second time only after at least maxlen distinct other ids have been
   accepted in between.
   */
  lemma ReacceptanceGap<T>(maxlen: nat, ids: seq<T>, i: nat, j: nat)
    requires maxlen >= 1
    requires i < j < |Accepted(maxlen, ids)|
    requires Accepted(maxlen, ids)[i] == Accepted(maxlen, ids)[j]
    ensures |(set k | i < k < j :: Accepted(maxlen, ids)[k]) - {Accepted(maxlen, ids)[j]}| >= maxlen
  {
    var a := Accepted(maxlen, ids);
    var n := AcceptedPrefix(maxlen, ids, j);
    WindowIsLastAccepted(maxlen, ids[..n]);
    GapInSequence(a, maxlen, i, j);
  }

  /** The sequence fact behind ReacceptanceGap. */
  lemma GapInSequence<T>(a: seq<T>, n: nat, i: nat, j: nat)
    requires i < j < |a| && a[i] == a[j]
    requires NoRepeats(LastN(a[..j], n)) && a[j] !in LastN(a[..j], n)
    ensures |(set k | i < k < j :: a[k]) - {a[j]}| >= n
  {
    var window := LastN(a[..j], n);
    assert forall k :: j - |window| <= k < j ==> a[k] == window[k - (j - |window|)];
    assert i < j - n;
    assert window == a[j - n..j];
    DistinctElements(window);
    var inWindow := set x | x in window;
    var between := set k | i < k < j :: a[k];
    forall x | x in inWindow
      ensures x in between - {a[j]}
    {
      var k :| 0 <= k < |window| && window[k] == x;
      assert a[j - n + k] == x;
    }
    SubsetSize(inWindow, between - {a[j]});
  }

  /** A sequence without repeats has as many elements as positions. */
  lemma {:induction false} DistinctElements<T>(s: seq<T>)
    requires NoRepeats(s)
    ensures |set x | x in s| == |s|
  {
    if s == [] {
    } else {
      var t := s[..|s| - 1];
      DistinctElements(t);
      assert (set x | x in s) == (set x | x in t) + {s[|s| - 1]};
    }
  }

  lemma {:induction false} SubsetSize<T>(a: set<T>, b: set<T>)
    requires a <= b
    ensures |a| <= |b|
  {
    if a == {} {
    } else {
      var x :| x in a;
      SubsetSize(a - {x}, b - {x});
    }
  }

  /**
   Duplicates leave no trace: feeding the window only the ids it accepted reproduces the same
   acceptances and the same window, so a re-seen id never extends the life of anything.
   */
  lemma {:induction false} DuplicatesNeverRefresh<T>(maxlen: nat, ids: seq<T>)
    requires maxlen >= 1
    ensures Accepted(maxlen, Accepted(maxlen, ids)) == Accepted(maxlen, ids)
    ensures WindowAfter(maxlen, Accepted(maxlen, ids)) == WindowAfter(maxlen, ids)
  {
    if ids == [] {
    } else {
      var before := ids[..|ids| - 1];
      var id := ids[|ids| - 1];
      DuplicatesNeverRefresh(maxlen, before);
      AcceptedStep(maxlen, Accepted(maxlen, before), id);
      WindowIsLastAccepted(maxlen, before);
    }
  }

  /** The window as the loops hold it, with the ghost history Slide and Accepted are folded over. */
  class RecentIds<T(==)> {
    const maxlen: nat
    var ids: seq<T>
    ghost var added: seq<T>

    ghost predicate Valid()
      reads this
    {
      maxlen >= 1 && ids == WindowAfter(maxlen, added)
    }

    constructor (maxlen: nat)
      requires maxlen >= 1
      ensures Valid() && this.maxlen == maxlen && ids == [] && added == []
    {
      this.maxlen := maxlen;
      ids := [];
      added := [];
    }

    /** A size below one is refused, and no window exists. */
    static method Create(maxlen: int) returns (r: Result<RecentIds<T>, string>)
      ensures r.Ok? <==> maxlen >= 1
      ensures r.Ok? ==> fresh(r.value) && r.value.Valid() && r.value.maxlen == maxlen
      ensures r.Ok? ==> r.value.ids == [] && r.value.added == []
    {
      if maxlen < 1 {
        return Err("maxlen must be >= 1");
      }
      var window := new RecentIds(maxlen);
      return Ok(window);
    }

    method Add(id: T) returns (accepted: bool)
      requires Valid()
      modifies this`ids, this`added
      ensures Valid() && added == old(added) + [id]
      ensures accepted == (id !in LastN(Accepted(maxlen, old(added)), maxlen)) == (id !in old(ids))
      ensures Accepted(maxlen, added)
           == if accepted then Accepted(maxlen, old(added)) + [id] else Accepted(maxlen, old(added))
      ensures ids == LastN(Accepted(maxlen, added), maxlen) == Slide(old(ids), maxlen, id)
      ensures NoRepeats(ids)
    {
      WindowIsLastAccepted(maxlen, added);
      AcceptedStep(maxlen, added, id);
      added := added + [id];
      WindowIsLastAccepted(maxlen, added);
      if id in ids {
        return false;
      }
      ids := ids + [id];
      if |ids| > maxlen {
        ids := ids[1..];
      }
      return true;
    }
  }
}
