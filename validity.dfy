/**
  The per-field validity indicator of the converter: each editable row owns a
  `was_valid` cell that starts true and an error icon that is attached to the
  row while the last validity reported for it is false. The icon follows
  those reports, not the row's current text: a row can hold text its parser
  rejects with no icon, or a valid text under a stale icon.
*/
module Validity {

  /** The call a validity update makes on its row. */
  datatype IconCall = AddSuffix | Remove | NoCall

  class ValidSetter {
    /** The `was_valid` cell. */
    var wasValid: bool
    /** Whether the error icon is currently a suffix of the row. */
    var iconAttached: bool

    /** The icon is shown exactly while the last reported state is invalid. */
    ghost predicate Valid()
      reads this
    {
      iconAttached == !wasValid
    }

    constructor ()
      ensures Valid()
      ensures wasValid && !iconAttached
    {
      wasValid := true;
      iconAttached := false;
    }

    /** Reports the row's current validity: the icon is attached on a change from
        valid to invalid, removed on a change from invalid to valid, and left
        alone otherwise. */
    method Set(isValid: bool) returns (call: IconCall)
      requires Valid()
      modifies this
      ensures Valid()
      ensures wasValid == isValid
      ensures call == AddSuffix <==> old(wasValid) && !isValid
      ensures call == Remove <==> !old(wasValid) && isValid
      ensures iconAttached == (if call == AddSuffix then true else if call == Remove then false else old(iconAttached))
      ensures isValid == old(wasValid) ==> call == NoCall && unchanged(this)
    {
      if isValid && !wasValid {
        iconAttached := false;
        call := Remove;
      } else if !isValid && wasValid {
        iconAttached := true;
        call := AddSuffix;
      } else {
        call := NoCall;
      }
      wasValid := isValid;
    }
  }
}
