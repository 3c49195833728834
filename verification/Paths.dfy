/** Paths and their last components. */
module Paths {

  /** Where the last component of a path starts. */
  function BaseStart(path: string): (i: nat)
    ensures i <= |path| && (i > 0 ==> path[i - 1] == '/')
    ensures forall k :: i <= k < |path| ==> path[k] != '/'
  {
    if path == [] then 0
    else if path[|path| - 1] == '/' then |path|
    else BaseStart(path[..|path| - 1])
  }

  lemma BaseStartUnique(path: string, i: nat)
    requires i <= |path| && (i > 0 ==> path[i - 1] == '/')
    requires forall k :: i <= k < |path| ==> path[k] != '/'
    ensures BaseStart(path) == i
  {
  }

  /** The last component of a path. */
  function Rname(path: string): string {
    path[BaseStart(path)..]
  }
}
