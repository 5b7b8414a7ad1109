/** The verdict on a recorded history. */
module Checker {
  import opened Wrappers
  import opened Histories
  import opened Certificates
  import opened Search
  import opened HistorySpec
  import opened Refinement

  /** Witness attempts from narrow to unrestricted, sharing one state budget. Only the
      unrestricted attempt may conclude that no execution exists. */
  method Check(h: History, maxStates: nat) returns (v: Verdict)
    requires WellFormed(h)
    ensures v.Valid? ==> Certified(h, v.certificate) && Explained(h)
    ensures v.Invalid? ==> !Explained(h)
  {
    CertifiedIffExplained(h);
    var attempts := [Budget(Some(0), false), Budget(None, true), Budget(None, true),
                     Budget(Some(1), false), Budget(Some(2), false), Budget(Some(4), false), Budget(None, false)];
    var used := 0;
    var n := 0;
    while true
      invariant 0 <= n < |attempts| && used <= maxStates
      decreases |attempts| - n
    {
      var b := attempts[n];
      var timeout := *;
      var left := maxStates - used;
      if timeout || left <= 0 {
        return Inconclusive;
      }
      var cap := if b.guided then (if left < 20000 then left else 20000)
                 else if b.unknownLimit.Some? then (if left < 3000 then left else 3000) else left;
      var states;
      v, states := Explore(h, cap, b);
      used := used + states;
      if v.Valid? || Unrestricted(b) {
        return v;
      }
      n := n + 1;
    }
  }
}
