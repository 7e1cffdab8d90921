/** LotManager: one LotTracker per size, held in a map keyed by size;
    park and unPark hand the request to the tracker for the vehicle's or the
    ticket's size and leave the other trackers alone. */
module LotManagers {
  import opened Wrappers
  import opened Vehicles
  import opened Tickets
  import opened Occupancy
  import opened LotTrackers

  class LotManager {
    const lotTrackerBySize: map<Size, LotTracker>
    ghost const Repr: set<object>

    ghost predicate Valid()
      reads this, Repr
    {
      this in Repr &&
      (forall s: Size :: s in lotTrackerBySize) &&
      (forall s :: s in lotTrackerBySize ==>
         lotTrackerBySize[s] in Repr && lotTrackerBySize[s].Repr <= Repr && this !in lotTrackerBySize[s].Repr) &&
      (forall s :: s in lotTrackerBySize ==> lotTrackerBySize[s].Valid() && lotTrackerBySize[s].size == s) &&
      (forall s, t :: s in lotTrackerBySize && t in lotTrackerBySize && s != t ==>
         lotTrackerBySize[s].Repr !! lotTrackerBySize[t].Repr) &&
      (forall o: object :: o in Repr ==>
         o == this || o in lotTrackerBySize[Small].Repr || o in lotTrackerBySize[Medium].Repr ||
         o in lotTrackerBySize[Large].Repr)
    }

    /** No ticket belongs to the manager's footprint, so Park and UnPark
        leave every ticket a caller holds as it was (the one UnPark is given
        included). */
    lemma TicketsOutside(t: Ticket)
      requires Valid()
      ensures t !in Repr
    {
      lotTrackerBySize[Small].TicketsOutside(t);
      lotTrackerBySize[Medium].TicketsOutside(t);
      lotTrackerBySize[Large].TicketsOutside(t);
    }

    /** The arguments come in the order cars, bikes, trucks, and are stored
        as MEDIUM, SMALL and LARGE respectively; every pool starts empty.  A
        negative count is refused (by the LotTracker constructor). */
    constructor (noOfCarLots: int, noOfBikeLots: int, noOfTruckLots: int)
      requires noOfCarLots >= 0 && noOfBikeLots >= 0 && noOfTruckLots >= 0
      ensures Valid()
      ensures fresh(Repr)
      ensures lotTrackerBySize[Small].numberOfLots == noOfBikeLots
      ensures lotTrackerBySize[Medium].numberOfLots == noOfCarLots
      ensures lotTrackerBySize[Large].numberOfLots == noOfTruckLots
      ensures lotTrackerBySize[Small].Contents == AllFree(noOfBikeLots)
      ensures lotTrackerBySize[Medium].Contents == AllFree(noOfCarLots)
      ensures lotTrackerBySize[Large].Contents == AllFree(noOfTruckLots)
    {
      var small, medium, large := NewTrackers(noOfBikeLots, noOfCarLots, noOfTruckLots);
      ghost var pools := small.Repr + medium.Repr + large.Repr;
      assert fresh(pools);
      lotTrackerBySize := map[Small := small, Medium := medium, Large := large];
      Repr := {this} + pools;
      new;
      assert fresh(Repr);
      assert lotTrackerBySize[Small] == small && lotTrackerBySize[Medium] == medium && lotTrackerBySize[Large] == large;
      ManagerValid(this, small, medium, large);
    }

    /** Parks the vehicle in the pool of its size.  A missing vehicle gets no
        ticket; otherwise the outcome is that of the pool's ReserveLot. */
    method Park(vehicle: Option<Vehicle>) returns (ticket: Option<Ticket>)
      requires Valid()
      requires vehicle.Some? ==> vehicle.value.WellFormed()
      modifies Repr
      ensures Valid()
      ensures vehicle.None? ==> ticket.None?
      ensures forall s :: s in lotTrackerBySize && (vehicle.None? || s != vehicle.value.Size()) ==>
                lotTrackerBySize[s].Contents == old(lotTrackerBySize[s].Contents) &&
                lotTrackerBySize[s].numberOfLotsOccupied == old(lotTrackerBySize[s].numberOfLotsOccupied)
      ensures vehicle.Some? ==>
                var tracker := lotTrackerBySize[vehicle.value.Size()];
                (ticket.Some? <==> old(tracker.numberOfLotsOccupied) < tracker.numberOfLots) &&
                (ticket.None? ==>
                   tracker.Contents == old(tracker.Contents) &&
                   tracker.numberOfLotsOccupied == old(tracker.numberOfLotsOccupied))
      ensures ticket.Some? ==>
                var tracker := lotTrackerBySize[vehicle.value.Size()];
                old(FirstFree(tracker.Contents)).Some? &&
                var k := old(FirstFree(tracker.Contents)).value;
                fresh(ticket.value) && ticket.value.valid &&
                ticket.value.lotId == k && ticket.value.vehicleId == vehicle.value.id &&
                ticket.value.vehicleSize == vehicle.value.Size() &&
                tracker.Contents == old(tracker.Contents)[k := vehicle] &&
                tracker.numberOfLotsOccupied == old(tracker.numberOfLotsOccupied) + 1
    {
      if vehicle.None? {
        return None;
      }
      var size := vehicle.value.Size();
      ticket := lotTrackerBySize[size].ReserveLot(vehicle);
      forall s | s in lotTrackerBySize && s != size
        ensures lotTrackerBySize[s].Valid() && lotTrackerBySize[s].Contents == old(lotTrackerBySize[s].Contents)
        ensures lotTrackerBySize[s].numberOfLotsOccupied == old(lotTrackerBySize[s].numberOfLotsOccupied)
      {
        Untouched(lotTrackerBySize[s]);
      }
    }

    /** Releases through the pool of the ticket's size.  A missing ticket is
        refused; otherwise the outcome is that of the pool's ReleaseLot. */
    method UnPark(ticket: Option<Ticket>) returns (ok: bool)
      requires Valid()
      requires ticket.Some? ==> ticket.value.lotId >= 0
      modifies Repr
      ensures Valid()
      ensures ticket.None? ==> !ok
      ensures ticket.Some? ==> ticket.value.valid == old(ticket.value.valid)
      ensures forall s :: s in lotTrackerBySize && (ticket.None? || s != ticket.value.vehicleSize) ==>
                lotTrackerBySize[s].Contents == old(lotTrackerBySize[s].Contents) &&
                lotTrackerBySize[s].numberOfLotsOccupied == old(lotTrackerBySize[s].numberOfLotsOccupied)
      ensures ticket.Some? ==>
                var tracker := lotTrackerBySize[ticket.value.vehicleSize];
                var id := ticket.value.lotId;
                (ok <==>
                   old(tracker.numberOfLotsOccupied) > 0 && ticket.value.valid &&
                   id < tracker.numberOfLots &&
                   old(tracker.Contents)[id].Some? && old(tracker.Contents)[id].value.id == ticket.value.vehicleId) &&
                (ok ==>
                   tracker.Contents == old(tracker.Contents)[id := None] &&
                   tracker.numberOfLotsOccupied == old(tracker.numberOfLotsOccupied) - 1) &&
                (!ok ==>
                   tracker.Contents == old(tracker.Contents) &&
                   tracker.numberOfLotsOccupied == old(tracker.numberOfLotsOccupied))
    {
      if ticket.None? {
        return false;
      }
      var size := ticket.value.vehicleSize;
      ok := lotTrackerBySize[size].ReleaseLot(ticket);
      forall s | s in lotTrackerBySize && s != size
        ensures lotTrackerBySize[s].Valid() && lotTrackerBySize[s].Contents == old(lotTrackerBySize[s].Contents)
        ensures lotTrackerBySize[s].numberOfLotsOccupied == old(lotTrackerBySize[s].numberOfLotsOccupied)
      {
        Untouched(lotTrackerBySize[s]);
      }
    }
  }

  /** A pool none of whose footprint changed keeps its invariant and its
      state. */
  twostate lemma Untouched(t: LotTracker)
    requires old(t.Valid()) && unchanged(t.Repr)
    ensures t.Valid() && t.Contents == old(t.Contents) && t.numberOfLotsOccupied == old(t.numberOfLotsOccupied)
  {
  }

  /** Invalidation is one-way: once a held ticket is invalidated, parking
      another vehicle does not revive it and presenting it is refused. */
  method InvalidatedTicketStaysInvalid(m: LotManager, held: Ticket, v: Option<Vehicle>)
    returns (ticket: Option<Ticket>, ok: bool)
    requires m.Valid() && held.lotId >= 0
    requires v.Some? ==> v.value.WellFormed()
    modifies m.Repr, held`valid
    ensures m.Valid() && !held.valid && !ok
  {
    m.TicketsOutside(held);
    var invalidated := held.InvalidateTicket();
    ticket := m.Park(v);
    ok := m.UnPark(Some(held));
  }

  /** The three pools, built one after the other, each empty and valid, with
      pairwise disjoint footprints. */
  method NewTrackers(noOfBikeLots: int, noOfCarLots: int, noOfTruckLots: int)
    returns (small: LotTracker, medium: LotTracker, large: LotTracker)
    requires noOfCarLots >= 0 && noOfBikeLots >= 0 && noOfTruckLots >= 0
    ensures small.Valid() && medium.Valid() && large.Valid()
    ensures fresh(small.Repr) && fresh(medium.Repr) && fresh(large.Repr)
    ensures small.Repr !! medium.Repr && small.Repr !! large.Repr && medium.Repr !! large.Repr
    ensures small.size == Small && medium.size == Medium && large.size == Large
    ensures small.numberOfLots == noOfBikeLots && small.Contents == AllFree(noOfBikeLots)
    ensures medium.numberOfLots == noOfCarLots && medium.Contents == AllFree(noOfCarLots)
    ensures large.numberOfLots == noOfTruckLots && large.Contents == AllFree(noOfTruckLots)
  {
    small := new LotTracker(noOfBikeLots, Small);
    medium := new LotTracker(noOfCarLots, Medium);
    large := new LotTracker(noOfTruckLots, Large);
  }

  /** A manager whose map holds three valid trackers of the right sizes with
      disjoint footprints inside its own is valid. */
  lemma ManagerValid(m: LotManager, small: LotTracker, medium: LotTracker, large: LotTracker)
    requires m.lotTrackerBySize == map[Small := small, Medium := medium, Large := large]
    requires m.Repr == {m} + small.Repr + medium.Repr + large.Repr
    requires small.Valid() && medium.Valid() && large.Valid()
    requires small.size == Small && medium.size == Medium && large.size == Large
    requires m !in small.Repr && m !in medium.Repr && m !in large.Repr
    requires small.Repr !! medium.Repr && small.Repr !! large.Repr && medium.Repr !! large.Repr
    ensures m.Valid()
  {
    forall s: Size
      ensures s in m.lotTrackerBySize && m.lotTrackerBySize[s] in {small, medium, large}
    {
      match s
      case Small =>
      case Medium =>
      case Large =>
    }
  }
}
