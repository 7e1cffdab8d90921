/** Lot: one parking slot with a two-state machine, AVAILABLE and OCCUPIED,
    and the vehicle parked in it while OCCUPIED. */
module Lots {
  import opened Wrappers
  import opened Vehicles
  import opened Tickets

  datatype ParkingStatus = Available | Occupied

  class Lot {
    const id: int
    const size: Size
    var vehicle: Option<Vehicle>
    var parkingStatus: ParkingStatus

    /** A vehicle is present exactly when the lot is OCCUPIED. */
    ghost predicate Valid()
      reads this
    {
      vehicle.Some? <==> parkingStatus == Occupied
    }

    /** A new lot is available and empty. */
    constructor (id: int, size: Size)
      ensures Valid()
      ensures this.id == id && this.size == size
      ensures vehicle == None && parkingStatus == Available
    {
      this.id := id;
      this.size := size;
      vehicle := None;
      parkingStatus := Available;
    }

    predicate IsAvailable()
      reads this
    {
      parkingStatus == Available
    }

    /** The occupant, present exactly when the lot is not available. */
    function GetVehicle(): (r: Option<Vehicle>)
      reads this
      requires Valid()
      ensures r.Some? <==> !IsAvailable()
    {
      vehicle
    }

    /** Parks a vehicle: refused for a missing vehicle, an occupied lot or a
        size mismatch, with nothing changed. */
    method Reserve(v: Option<Vehicle>) returns (ok: bool)
      requires Valid()
      modifies this
      ensures Valid()
      ensures ok <==> v.Some? && old(IsAvailable()) && v.value.Size() == size
      ensures ok ==> vehicle == v && !IsAvailable()
      ensures !ok ==> vehicle == old(vehicle) && parkingStatus == old(parkingStatus)
    {
      if v.None? || !IsAvailable() || size != v.value.Size() {
        return false;
      }
      vehicle := v;
      parkingStatus := Occupied;
      ok := true;
    }

    /** Frees the lot for a ticket naming this lot and its occupant.  The
        ticket's size and validity are not looked at, and the ticket is
        left as it was. */
    method Release(ticket: Option<Ticket>) returns (ok: bool)
      requires Valid()
      modifies this
      ensures Valid()
      ensures ok <==> ticket.Some? && old(parkingStatus) == Occupied && old(vehicle).Some?
                      && ticket.value.lotId == id && old(vehicle).value.id == ticket.value.vehicleId
      ensures ok ==> vehicle == None && IsAvailable()
      ensures !ok ==> vehicle == old(vehicle) && parkingStatus == old(parkingStatus)
    {
      if ticket.None? || parkingStatus == Available || GetVehicle().None?
         || ticket.value.lotId != id || GetVehicle().value.id != ticket.value.vehicleId {
        return false;
      }
      vehicle := None;
      parkingStatus := Available;
      ok := true;
    }
  }
}
