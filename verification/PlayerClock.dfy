/**
 * The player's clock: a point (a presentation time at a system time) that runs
 * on with the system clock, stands still while paused, and is void after a seek
 * until it is set under the new serial. (That need not be by a picture of the new
 * serial: see PlayerPipeline.ClockIsCurrentIff.) Every method is what its caller
 * does under the clock's lock.
 */
module PlayerClock {
  import opened Basics

  class Clock {
    var serial: nat      // the player's serial
    var valid: bool
    var setSerial: nat   // the serial the clock was set under
    var pts: int
    var at: int
    var paused: bool
    var offsetMs: int

    /** What the clock reads at a system time. */
    function Reading(now: int): Option<int>
      reads this
    {
      if valid && setSerial == serial then Some(pts + (if paused then 0 else now - at) - offsetMs * 1000) else None
    }

    constructor ()
      ensures forall t :: Reading(t) == None
      ensures serial == 0 && !paused
    {
      serial, valid, setSerial, pts, at, paused, offsetMs := 0, false, 0, 0, 0, false, 0;
    }

    /** The clock is set only under the current serial. */
    method Set(newPts: int, newAt: int, forSerial: nat)
      modifies this`valid, this`setSerial, this`pts, this`at
      ensures forSerial == serial ==> forall t ::
                Reading(t) == Some(newPts + (if paused then 0 else t - newAt) - offsetMs * 1000)
      ensures forSerial != serial ==> forall t :: Reading(t) == old(Reading(t))
    {
      if forSerial == serial {
        pts, at, valid, setSerial := newPts, newAt, true, forSerial;
      }
    }

    method Get(now: int) returns (r: Option<int>)
      ensures r == Reading(now)
    {
      var ok, v := valid && setSerial == serial, pts;
      if ok && !paused {
        v := v + (now - at);
      }
      v := v - offsetMs * 1000;
      r := if ok then Some(v) else None;
    }

    /**
     * Pausing stops the clock where it is and resuming starts it from there. The player only ever
     * tells it to change, and then the reading does not jump.
     */
    method Pause(pause: bool, now: int)
      modifies this`pts, this`at, this`paused
      ensures paused == pause
      ensures pause == !old(paused) ==> Reading(now) == old(Reading(now))
      ensures Reading(now) == old(Reading(now)) <==>
              pause || old(paused) || old(Reading(now)).None? || old(at) == now
      ensures paused ==> forall t :: Reading(t) == Reading(now)
      ensures !paused && Reading(now).Some? ==> forall t ::
                Reading(t).Some? && Reading(t).value == Reading(now).value + (t - now)
    {
      if valid && pause && !paused {
        pts := pts + (now - at);
      }
      at, paused := now, pause;
    }

    /** A seek: the clock is void, and stays so whatever is set under an older serial. */
    method NewSerial()
      modifies this`serial, this`valid
      ensures serial == old(serial) + 1 && forall t :: Reading(t) == None
    {
      serial, valid := serial + 1, false;
    }
  }
}
