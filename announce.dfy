/**
 * announceToScreenReader, reduced to what the rest of the page relies on:
 * every call adds its message, in order, to what assistive technology is
 * told.  The live-region node, its styling and its removal after 1000 ms
 * are presentation and are not modelled.
 */
module Announce {

  class Announcer {
    /** Every message announced so far, oldest first. */
    var log: seq<string>

    constructor ()
      ensures log == []
    {
      log := [];
    }

    method Announce(message: string)
      modifies this
      ensures log == old(log) + [message]
    {
      log := log + [message];
    }
  }
}
