/** Ticket: the token a driver must present to release a lot.  Its lot id,
    vehicle id and size are fixed at construction; the only mutable part is
    the validity flag, which can only be switched off. */
module Tickets {
  import opened Vehicles

  class Ticket {
    const lotId: int
    const vehicleId: string
    const vehicleSize: Size
    var valid: bool

    /** Construction refuses a blank vehicle id (CannotIssueTicketException
        in the source); a new ticket is valid. */
    constructor (lotId: int, vehicleId: string, vehicleSize: Size)
      requires !IsBlank(vehicleId)
      ensures this.lotId == lotId && this.vehicleId == vehicleId && this.vehicleSize == vehicleSize
      ensures valid
    {
      this.lotId := lotId;
      this.vehicleId := vehicleId;
      this.vehicleSize := vehicleSize;
      valid := true;
    }

    predicate IsValid()
      reads this
    {
      valid
    }

    /** Switches the ticket off for good and reports success. */
    method InvalidateTicket() returns (ok: bool)
      modifies this`valid
      ensures ok && !IsValid()
    {
      valid := false;
      ok := true;
    }
  }
}
