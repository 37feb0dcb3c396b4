/** The dirty flag of a session and the rule that decides whether an attribute write changed it. */
module DirtyTracking {
  import opened JavaLang

  class DirtySessionTracker {
    var dirty: bool

    /** A new tracker is clean. */
    constructor()
      ensures !dirty
    {
      dirty := false;
    }

    method Reset()
      modifies this
      ensures !dirty
    {
      dirty := false;
    }

    /** Idempotent: the flag is set afterwards whatever it was before. */
    method MarkDirty()
      modifies this
      ensures dirty
    {
      dirty := true;
    }

    method IsDirty() returns (r: bool)
      ensures r == dirty
    {
      r := dirty;
    }

    /**
     * isChanged: a write of value over prevValue is a change unless both are null,
     * or prevValue is an instance of value's class and the two are equal. It reads
     * no field, so it never touches the flag.
     */
    static function IsChanged(prevValue: JavaValue, value: JavaValue): (r: bool)
      ensures r <==> prevValue != value
    {
      (value != Null || prevValue != Null) &&
      (value == Null || prevValue == Null || !InstanceOf(prevValue, ClassOf(value)) || value != prevValue)
    }
  }

  lemma NullOverNullIsNoChange()
    ensures !DirtySessionTracker.IsChanged(Null, Null)
  {
  }

  /** Setting or clearing a value is always a change. */
  lemma ExactlyOneNullIsChange(v: JavaValue)
    requires v != Null
    ensures DirtySessionTracker.IsChanged(Null, v)
    ensures DirtySessionTracker.IsChanged(v, Null)
  {
  }

  /** An equal value of the same class is no change. */
  lemma EqualValueIsNoChange(v: JavaValue)
    requires v != Null
    ensures !DirtySessionTracker.IsChanged(v, v)
    ensures InstanceOf(v, ClassOf(v))
  {
  }

  /** Two non-null values: no change exactly when prev is an instance of value's class and equal to it. */
  lemma NonNullRule(prevValue: JavaValue, value: JavaValue)
    requires prevValue != Null && value != Null
    ensures !DirtySessionTracker.IsChanged(prevValue, value) <==>
      (InstanceOf(prevValue, ClassOf(value)) && prevValue == value)
  {
  }

  /** Replacing an Integer by the equal Long is a change: the kind differs. */
  lemma KindChangeIsChange()
    ensures DirtySessionTracker.IsChanged(JInteger(1), JLong(1))
    ensures !InstanceOf(JInteger(1), ClassOf(JLong(1)))
  {
  }
}
