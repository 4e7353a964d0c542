// Vocabulary shared by the three engines: optional request fields, request statuses, clamping.
module Common {
  datatype Option<+T> = None | Some(value: T)

  // The statuses of core/NemesisCommon.h that the modelled operations can answer with.
  datatype Status =
    | Ok
    | CommandSyntax
    | NotExist
    | SaveComplete
    | SaveError
    | Loading
    | LoadComplete
    | LoadError
    | Duplicate
    | Bounds

  function Lesser(a: nat, b: nat): nat {
    if a < b then a else b
  }

  // A range without an end reaches to the end of its container.
  function StopOf(stop: Option<nat>, size: nat): nat {
    if stop.Some? then stop.value else size
  }

  // A range parameter [start] or [start, stop] is out of order only when it has both ends.
  predicate Ordered(start: nat, stop: Option<nat>) {
    stop.Some? ==> start <= stop.value
  }
}
