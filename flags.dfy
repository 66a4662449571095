/** Per-element `active` classes, read as a row of flags. */
module Flags {

  /** The positions whose `active` flag is set. */
  function ActiveSet(flags: seq<bool>): set<nat>
  {
    set j: nat | j < |flags| && flags[j]
  }
}
