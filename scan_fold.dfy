/**
 * The shape both pursuit trackers' segment loops share: a choice that starts
 * out null and is updated once per segment. These facts are stated over the
 * sequence of choices, `scan(i)` after `i` segments, and over per-segment
 * predicates, so that they hold for either tracker.
 */
module ScanFold {
  import opened Wrappers

  /**
   * When a step leaves no choice exactly when there was none and its segment
   * offers nothing, the scan ends with no choice exactly when no segment
   * offers anything.
   */
  lemma {:induction false} NoneUntilOffered<T>(scan: nat -> Option<T>, offers: nat -> bool, k: nat)
    requires scan(0).None?
    requires forall i: nat :: i < k ==> (scan(i + 1).None? <==> scan(i).None? && !offers(i))
    ensures scan(k).None? <==> forall j: nat :: j < k ==> !offers(j)
  {
    if k > 0 {
      NoneUntilOffered(scan, offers, k - 1);
    }
  }

  /**
   * When a valid segment replaces the choice by its own non-null pick and any
   * other segment keeps it, the scan ends with no choice exactly when no
   * segment is valid, and otherwise with the pick of the last valid one.
   */
  lemma LastValidPick<T>(scan: nat -> Option<T>, valid: nat -> bool, pick: nat -> Option<T>, k: nat)
    requires scan(0).None?
    requires forall i: nat :: i < k ==> (valid(i) ==> scan(i + 1) == pick(i) && pick(i).Some?)
    requires forall i: nat :: i < k ==> (!valid(i) ==> scan(i + 1) == scan(i))
    ensures scan(k).None? <==> forall j: nat :: j < k ==> !valid(j)
    ensures scan(k).Some? ==> exists j: nat :: j < k && IsLastValid(valid, pick, scan(k), j, k)
  {
    forall i: nat | i < k
      ensures scan(i + 1).None? <==> scan(i).None? && !valid(i)
    {
    }
    NoneUntilOffered(scan, valid, k);
    LastValidPicked(scan, valid, pick, k);
  }

  /** Segment `j` is valid, `choice` is its pick, and no segment after it and before `k` is valid. */
  ghost predicate IsLastValid<T>(valid: nat -> bool, pick: nat -> Option<T>, choice: Option<T>, j: nat, k: nat)
  {
    valid(j) && choice == pick(j) && forall m: nat :: j < m < k ==> !valid(m)
  }

  lemma {:induction false} LastValidPicked<T>(scan: nat -> Option<T>, valid: nat -> bool, pick: nat -> Option<T>, k: nat)
    requires scan(0).None?
    requires forall i: nat :: i < k ==> (valid(i) ==> scan(i + 1) == pick(i) && pick(i).Some?)
    requires forall i: nat :: i < k ==> (!valid(i) ==> scan(i + 1) == scan(i))
    ensures scan(k).Some? ==> exists j: nat :: j < k && IsLastValid(valid, pick, scan(k), j, k)
  {
    if k > 0 {
      if valid(k - 1) {
        assert IsLastValid(valid, pick, scan(k), k - 1, k);
      } else {
        LastValidPicked(scan, valid, pick, k - 1);
        if scan(k - 1).Some? {
          var j: nat :| j < k - 1 && IsLastValid(valid, pick, scan(k - 1), j, k - 1);
          assert IsLastValid(valid, pick, scan(k), j, k);
        }
      }
    }
  }
}
