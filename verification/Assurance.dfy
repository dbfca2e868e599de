/** What the crash-safe ingest and the verifier promise together. */
module Assurance {
  import opened Wrappers
  import opened Hours
  import opened Ledger
  import opened Ingest
  import opened Verify
  import opened Session
  import Lake

  lemma ReachedClaims(grace: int, run: seq<Action>, h: Hour)
    requires forall i :: 0 <= i < |run| ==> !run[i].OperatorDeletes?
    ensures var w := Exec(grace, Idle(EMPTY_WORLD), run).W();
            && (h in w.files ==> FileIsOwn(CellAt(w, h), h))
            && (IngestedAt(w.rows, h) ==> Describes(w.rows[h], CellAt(w, h).file, h))
  {
    CrashSafety(grace, run, h);
  }

  /**
   From a fresh deployment whose files nobody deletes, verify finds every claim backed at every
   moment of every run, crashes and repairs included; comparing counts too, it does exactly
   when no claimed hour is empty.
   */
  lemma VerifyPassesThroughout(grace: int, run: seq<Action>, listing: seq<Hour>)
    requires forall i :: 0 <= i < |run| ==> !run[i].OperatorDeletes?
    ensures var w := Exec(grace, Idle(EMPTY_WORLD), run).W();
            && OnlyUnbacked(FindingsOf(w.rows, w.files, false, listing)) == []
            && (OnlyUnbacked(FindingsOf(w.rows, w.files, true, listing)) == []
                <==> forall h :: IngestedAt(w.rows, h) ==> w.rows[h].events != Some(0))
  {
    var w := Exec(grace, Idle(EMPTY_WORLD), run).W();
    forall h
      ensures h in w.files ==> FileIsOwn(CellAt(w, h), h)
      ensures IngestedAt(w.rows, h) ==> Describes(w.rows[h], CellAt(w, h).file, h)
    {
      ReachedClaims(grace, run, h);
    }
    assert CorrectlyFiled(w.files) by {
      forall k | k in w.files
        ensures Lake.OnlyHolds(w.files[k].stamps, k)
      {
        assert CellAt(w, k).file == Some(w.files[k]);
      }
    }
    forall h | IngestedAt(w.rows, h)
      ensures ClaimHolds(h, w.rows[h], w.files, false)
      ensures ClaimHolds(h, w.rows[h], w.files, true) <==> w.rows[h].events != Some(0)
    {
      LakeCountOwn(w.files, h);
      assert CellAt(w, h).file == Look(w.files, h);
    }
    OkMeansEveryClaimHolds(w.rows, w.files, false, listing);
    OkMeansEveryClaimHolds(w.rows, w.files, true, listing);
  }
}
