/**
 * The project list: clicking a project's label opens its info box and closes
 * every other one; clicking the label of an open box closes it. Each box's
 * `active` class is one flag of an array. A label names its box by element
 * id; here a box is named by its position, and a position outside the array
 * stands for an id that matches no element.
 */
module ProjectInfo {
  import opened Flags

  /** What a click on a label leads to. */
  datatype ClickOutcome =
    | Opened         // the box became active: its typewriter animation starts
    | Closed         // the box was active and is now closed
    | MissingTarget  // the id matches no element: the handler fails after closing every box

  predicate AtMostOneOpen(flags: seq<bool>)
  {
    forall i, j :: 0 <= i < j < |flags| ==> !(flags[i] && flags[j])
  }

  /**
   * The flags after a click on the label whose box is at position `target`:
   * the clicked box is the only one that can be open afterwards, and it is
   * open exactly when it was closed before. So at most one box is open.
   */
  function AfterClick(flags: seq<bool>, target: int): (after: seq<bool>)
    ensures |after| == |flags|
    ensures ActiveSet(after) == if 0 <= target < |flags| && !flags[target] then {target as nat} else {}
    ensures AtMostOneOpen(after)
  {
    var after := seq(|flags|, j requires 0 <= j < |flags| => j == target && !flags[j]);
    assert 0 <= target < |flags| && !flags[target] ==> target as nat in ActiveSet(after) by {
      if 0 <= target < |flags| && !flags[target] {
        assert after[target];
      }
    }
    after
  }

  /** When no box other than the target is open, a second click on the same label undoes the first. */
  lemma ClickTwiceRestores(flags: seq<bool>, target: int)
    requires forall j :: 0 <= j < |flags| && j != target ==> !flags[j]
    ensures AfterClick(AfterClick(flags, target), target) == flags
  {
    var twice := AfterClick(AfterClick(flags, target), target);
    assert forall j :: 0 <= j < |flags| ==> twice[j] == flags[j];
  }

  /** A click on a second label, right after opening a first box, leaves only the second box open. */
  lemma ClickOtherSwitches(flags: seq<bool>, first: nat, second: nat)
    requires first < |flags| && second < |flags| && first != second
    requires !flags[first]
    ensures ActiveSet(AfterClick(AfterClick(flags, first), second)) == {second}
  {
    var once := AfterClick(flags, first);
    assert !once[second];
  }

  /** The info boxes of the project list, with their `active` flags. */
  class InfoBoxes {
    var active: array<bool>

    /** The boxes as the page renders them initially. */
    constructor (initial: seq<bool>)
      ensures fresh(active) && active[..] == initial
    {
      active := new bool[|initial|](j requires 0 <= j < |initial| => initial[j]);
    }

    /**
     * The click handler of a label: close every open box other than the
     * target, then toggle the target. When the target does not exist the
     * boxes are closed and the toggle fails.
     */
    method Click(target: int) returns (outcome: ClickOutcome)
      modifies active
      ensures active[..] == AfterClick(old(active[..]), target)
      ensures outcome == if !(0 <= target < active.Length) then MissingTarget
                         else if active[target] then Opened else Closed
    {
      var j := 0;
      while j < active.Length
        invariant 0 <= j <= active.Length
        invariant forall m :: 0 <= m < j ==> active[m] == (m == target && old(active[m]))
        invariant forall m :: j <= m < active.Length ==> active[m] == old(active[m])
      {
        if active[j] && j != target {
          active[j] := false;
        }
        j := j + 1;
      }
      if !(0 <= target < active.Length) {
        return MissingTarget;
      }
      active[target] := !active[target];
      outcome := if active[target] then Opened else Closed;
    }
  }
}
