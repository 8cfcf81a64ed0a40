/**
 * The rule both controllers use to pick a node: scan the table in insertion
 * order, skip entries that are not eligible, and keep the entry whose score is
 * strictly smaller than every score seen so far. The winner is therefore the
 * FIRST entry with the minimal score among the eligible ones.
 */
module Selection {

  /** What the scan looks at in one table entry. */
  datatype Candidate = Candidate(eligible: bool, score: real)

  predicate NoneEligible(c: seq<Candidate>) {
    forall j :: 0 <= j < |c| ==> !c[j].eligible
  }

  /** Entry `i` is the one the scan returns. */
  predicate IsBest(c: seq<Candidate>, i: int) {
    && 0 <= i < |c|
    && c[i].eligible
    && (forall j :: 0 <= j < |c| && c[j].eligible ==> c[i].score <= c[j].score)
    && (forall j :: 0 <= j < i && c[j].eligible ==> c[i].score < c[j].score)
  }

  /** At most one entry is the best one, so the scan's answer is determined. */
  lemma BestIsUnique(c: seq<Candidate>, i: int, k: int)
    requires IsBest(c, i) && IsBest(c, k)
    ensures i == k
  {
  }

  /** The best entry of a table exists exactly when some entry is eligible. */
  lemma {:induction false} BestExists(c: seq<Candidate>)
    ensures !NoneEligible(c) <==> exists i :: IsBest(c, i)
    decreases |c|
  {
    if c != [] && !NoneEligible(c) {
      var n := |c| - 1;
      var front := c[..n];
      if NoneEligible(front) {
        assert c[n].eligible;
        assert IsBest(c, n);
      } else {
        BestExists(front);
        var i :| IsBest(front, i);
        if c[n].eligible && c[n].score < c[i].score {
          assert IsBest(c, n);
        } else {
          assert IsBest(c, i);
        }
      }
    }
  }
}
