/** The part of a DOM event that the form handlers change. */
module Events {

  class Event {
    var defaultPrevented: bool
    var propagationStopped: bool

    /** A freshly dispatched event: nothing prevented, nothing stopped. */
    constructor ()
      ensures !defaultPrevented && !propagationStopped
    {
      defaultPrevented, propagationStopped := false, false;
    }

    /** `e.preventDefault()` */
    method PreventDefault()
      modifies this`defaultPrevented
      ensures defaultPrevented
    {
      defaultPrevented := true;
    }

    /** `e.stopPropagation()` */
    method StopPropagation()
      modifies this`propagationStopped
      ensures propagationStopped
    {
      propagationStopped := true;
    }
  }
}
