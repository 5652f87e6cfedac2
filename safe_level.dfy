/** How much of a possibly corrupt object it is safe to dereference while
    reporting a failure. */
module SafeLevels {

  datatype SafeLevel = SafeUnknown | SafeOop | SafeOopFwd | SafeAll {

    /** Position on the ladder SafeUnknown < SafeOop < SafeOopFwd < SafeAll. */
    function Rank(): nat {
      match this
      case SafeUnknown => 0
      case SafeOop => 1
      case SafeOopFwd => 2
      case SafeAll => 3
    }

    /** The C++ comparison `level >= other` on the enum. */
    predicate AtLeast(other: SafeLevel) {
      Rank() >= other.Rank()
    }
  }
}
