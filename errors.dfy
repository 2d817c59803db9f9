/** `ToolError` (src/errors/mod.rs) and its `Display` and `Debug` text. */
module ToolErrors {

  datatype ToolError = EmptyCoordinates | Other(message: string) {

    /** `Display::fmt`: a fixed text for `EmptyCoordinates`, the message itself for `Other`. */
    function Display(): (s: string)
      ensures EmptyCoordinates? ==> s == "Empty Coordinates"
      ensures Other? ==> s == message
    {
      match this
      case EmptyCoordinates => "Empty Coordinates"
      case Other(m) => m
    }

    /** `Debug::fmt` writes `self.to_string()`, that is, the `Display` text. */
    function Debug(): (s: string)
      ensures EmptyCoordinates? ==> s == "Empty Coordinates"
      ensures Other? ==> s == message
    {
      Display()
    }
  }

  /** `Debug` and `Display` agree on every variant. */
  lemma DebugIsDisplay(e: ToolError)
    ensures e.Debug() == e.Display()
  {
  }

  /** Two `Other` errors display alike exactly when they carry the same message. */
  lemma DisplayOtherInjective(m1: string, m2: string)
    ensures Other(m1).Display() == Other(m2).Display() <==> m1 == m2
  {
  }
}
