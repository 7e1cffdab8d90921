/** LotTracker: the pool of lots of one size.  Lots are numbered 0..N-1 and
    stored at their id in an array; a counter of occupied lots is kept as a
    fast capacity check.  Single-threaded, as the source documents. */
module LotTrackers {
  import opened Wrappers
  import opened Vehicles
  import opened Tickets
  import opened Lots
  import opened Occupancy

  class LotTracker {
    const numberOfLots: int
    const size: Size
    const lots: array<Lot?>
    var numberOfLotsOccupied: int

    /** Abstract view: the occupant of each lot, indexed by lot id. */
    ghost var Contents: seq<Option<Vehicle>>
    ghost const Repr: set<object>

    /** The fixed layout: lot i sits at index i and has id i and the
        tracker's size, and the footprint holds the tracker, the array and
        lots and nothing else (so never a ticket).  Only the array is
        read, and no operation after construction writes it. */
    ghost predicate Shape()
      reads lots
    {
      lots.Length == numberOfLots &&
      (forall i :: 0 <= i < lots.Length ==>
         lots[i] != null && lots[i] in Repr && lots[i].id == i && lots[i].size == size) &&
      (forall o: object :: o in Repr ==> o == this || o == lots || o is Lot)
    }

    /** The tracker invariant: Contents holds each lot's occupant, every lot
        keeps its own invariant, and the counter equals the number of
        occupied lots. */
    ghost predicate Valid()
      reads this, Repr
    {
      this in Repr && lots in Repr && Shape() &&
      |Contents| == numberOfLots &&
      (forall i :: 0 <= i < lots.Length ==> lots[i].Valid() && lots[i].vehicle == Contents[i]) &&
      numberOfLotsOccupied == OccupiedCount(Contents)
    }

    /** Builds N available lots with ids 0..N-1 of the tracker's size; a
        negative N is refused (a RuntimeException in the source). */
    constructor (numberOfLots: int, lotSize: Size)
      requires numberOfLots >= 0
      ensures Valid() && fresh(Repr)
      ensures this.numberOfLots == numberOfLots && size == lotSize
      ensures Contents == AllFree(numberOfLots) && numberOfLotsOccupied == 0
    {
      this.numberOfLots := numberOfLots;
      size := lotSize;
      var a := new Lot?[numberOfLots];
      for i := 0 to numberOfLots
        invariant forall j :: 0 <= j < i ==> a[j] != null && fresh(a[j])
        invariant forall j :: 0 <= j < i ==>
                    a[j].id == j && a[j].size == lotSize && a[j].Valid() && a[j].vehicle == None && a[j].IsAvailable()
      {
        a[i] := new Lot(i, lotSize);
      }
      lots := a;
      numberOfLotsOccupied := 0;
      Contents := AllFree(numberOfLots);
      Repr := {this, a} + set i | 0 <= i < numberOfLots :: a[i] as object;
    }

    /** After lot k alone changed, in step with Contents[k], the invariant
        holds again. */
    lemma KeepsValid(k: int)
      requires this in Repr && lots in Repr && Shape() && |Contents| == numberOfLots
      requires 0 <= k < lots.Length && lots[k].Valid() && lots[k].vehicle == Contents[k]
      requires forall i :: 0 <= i < lots.Length && i != k ==> lots[i].Valid() && lots[i].vehicle == Contents[i]
      requires numberOfLotsOccupied == OccupiedCount(Contents)
      ensures Valid()
    {
    }

    /** No ticket belongs to the tracker's footprint, so the operations,
        which change only the footprint, leave every ticket a caller holds
        as it was. */
    lemma TicketsOutside(t: Ticket)
      requires Valid()
      ensures t !in Repr
    {
    }

    function GetNumberOfLotsOccupied(): (n: int)
      reads this, Repr
      requires Valid()
      ensures 0 <= n <= numberOfLots
      ensures n == numberOfLots <==> FirstFree(Contents).None?
    {
      FullIffNoFreeLot(Contents);
      numberOfLotsOccupied
    }

    /** The first available lot in ascending id order, if any. */
    method FindAvailableLot() returns (r: Option<Lot>)
      requires Valid()
      ensures r.None? <==> FirstFree(Contents).None?
      ensures r.Some? ==> r.value == lots[FirstFree(Contents).value]
    {
      var i := 0;
      while i < lots.Length
        invariant 0 <= i <= lots.Length
        invariant forall j :: 0 <= j < i ==> Contents[j].Some?
      {
        if lots[i].IsAvailable() {
          return Some(lots[i]);
        }
        i := i + 1;
      }
      return None;
    }

    /** The lot with the given id, or None when the id is past the end. */
    method FindLot(lotId: int) returns (r: Option<Lot>)
      requires Valid()
      requires lotId >= 0
      ensures r.Some? <==> lotId < numberOfLots
      ensures r.Some? ==> r.value == lots[lotId] && r.value.id == lotId
    {
      if lotId >= numberOfLots {
        return None;
      }
      return Some(lots[lotId]);
    }

    /** Parks a vehicle in the first free lot and issues its ticket.  Refused,
        with nothing changed, for a missing vehicle, a vehicle of another
        size, or a full pool. */
    method ReserveLot(vehicle: Option<Vehicle>) returns (ticket: Option<Ticket>)
      requires Valid()
      requires vehicle.Some? ==> vehicle.value.WellFormed()
      modifies Repr
      ensures Valid()
      ensures ticket.Some? <==>
                vehicle.Some? && vehicle.value.Size() == size && old(numberOfLotsOccupied) < numberOfLots
      ensures ticket.None? ==>
                Contents == old(Contents) && numberOfLotsOccupied == old(numberOfLotsOccupied)
      ensures ticket.Some? ==> old(FirstFree(Contents)).Some?
      ensures ticket.Some? ==>
                var k := old(FirstFree(Contents)).value;
                fresh(ticket.value) && ticket.value.valid &&
                ticket.value.lotId == k && ticket.value.vehicleId == vehicle.value.id &&
                ticket.value.vehicleSize == vehicle.value.Size() &&
                Contents == old(Contents)[k := vehicle] &&
                numberOfLotsOccupied == old(numberOfLotsOccupied) + 1
    {
      if vehicle.None? || size != vehicle.value.Size() || GetNumberOfLotsOccupied() == numberOfLots {
        return None;
      }
      var lotOptional := FindAvailableLot();
      if lotOptional.None? {
        return None;
      }
      var lot := lotOptional.value;
      ghost var k := FirstFree(Contents).value;
      var v := vehicle.value;
      var reserved := lot.Reserve(vehicle);
      if reserved {
        OccupyAddsOne(Contents, k, vehicle.value);
        numberOfLotsOccupied := numberOfLotsOccupied + 1;
        Contents := Contents[k := vehicle];
        KeepsValid(k);
        var t := new Ticket(lot.id, v.id, v.Size());
        return Some(t);
      }
      return None;
    }

    /** Frees the lot the ticket names.  Refused, with nothing changed, for a
        missing ticket, an empty pool, an invalid ticket, an id past the
        end, or a ticket whose vehicle is not the lot's occupant.  The ticket
        itself is not invalidated. */
    method ReleaseLot(ticket: Option<Ticket>) returns (ok: bool)
      requires Valid()
      requires ticket.Some? ==> ticket.value.lotId >= 0
      modifies Repr
      ensures Valid()
      ensures ok <==>
                ticket.Some? && old(numberOfLotsOccupied) > 0 && ticket.value.valid &&
                ticket.value.lotId < numberOfLots &&
                old(Contents)[ticket.value.lotId].Some? &&
                old(Contents)[ticket.value.lotId].value.id == ticket.value.vehicleId
      ensures ok ==>
                Contents == old(Contents)[ticket.value.lotId := None] &&
                numberOfLotsOccupied == old(numberOfLotsOccupied) - 1
      ensures !ok ==>
                Contents == old(Contents) && numberOfLotsOccupied == old(numberOfLotsOccupied)
      ensures ticket.Some? ==> ticket.value.valid == old(ticket.value.valid)
      ensures ticket.Some? && ticket.value.lotId < numberOfLots && old(Contents)[ticket.value.lotId].Some? ==>
                old(numberOfLotsOccupied) > 0
    {
      if ticket.Some? && ticket.value.lotId < numberOfLots && Contents[ticket.value.lotId].Some? {
        OccupiedLotCounts(Contents, ticket.value.lotId);
      }
      if ticket.None? || GetNumberOfLotsOccupied() <= 0 || !ticket.value.IsValid() {
        return false;
      }
      var lotOptional := FindLot(ticket.value.lotId);
      if lotOptional.None? {
        return false;
      }
      var lot := lotOptional.value;
      ghost var k := ticket.value.lotId;
      var released := lot.Release(ticket);
      if released {
        FreeSubtractsOne(Contents, k);
        numberOfLotsOccupied := numberOfLotsOccupied - 1;
        Contents := Contents[k := None];
        KeepsValid(k);
        return true;
      }
      return false;
    }
  }
  /** Round trip: a reserve followed by a release with the issued ticket
      succeeds and restores the pool; presenting the same ticket again fails
      because its lot is now free, not because the ticket was invalidated
      (it is still valid). */
  method ReserveThenRelease(tracker: LotTracker, v: Vehicle) returns (ticket: Ticket, first: bool, second: bool)
    requires tracker.Valid() && v.WellFormed() && v.Size() == tracker.size
    requires tracker.numberOfLotsOccupied < tracker.numberOfLots
    modifies tracker.Repr
    ensures tracker.Valid()
    ensures first && !second && ticket.valid
    ensures tracker.Contents == old(tracker.Contents)
    ensures tracker.numberOfLotsOccupied == old(tracker.numberOfLotsOccupied)
  {
    var issued := tracker.ReserveLot(Some(v));
    ticket := issued.value;
    first := tracker.ReleaseLot(issued);
    second := tracker.ReleaseLot(issued);
  }

  /** Tickets are not single-use: after a reserve and a release, the same
      vehicle parks again in the same lot under a new ticket, and the old
      ticket, still valid, releases it. */
  method StaleTicketReleasesAgain(tracker: LotTracker, v: Vehicle) returns (stale: Ticket, current: Ticket, ok: bool)
    requires tracker.Valid() && v.WellFormed() && v.Size() == tracker.size
    requires tracker.numberOfLotsOccupied < tracker.numberOfLots
    modifies tracker.Repr
    ensures tracker.Valid()
    ensures stale != current && stale.lotId == current.lotId
    ensures stale.valid && current.valid && ok
    ensures tracker.Contents == old(tracker.Contents)
    ensures tracker.numberOfLotsOccupied == old(tracker.numberOfLotsOccupied)
  {
    ghost var before := tracker.Contents;
    FullIffNoFreeLot(before);
    ghost var k := FirstFree(before).value;
    var issued := tracker.ReserveLot(Some(v));
    stale := issued.value;
    var released := tracker.ReleaseLot(issued);
    assert released && tracker.Contents == before;
    var reissued := tracker.ReserveLot(Some(v));
    current := reissued.value;
    assert stale.valid && stale.lotId == k == current.lotId;
    assert tracker.Contents[k] == Some(v);
    ok := tracker.ReleaseLot(issued);
  }

  /** Exhaustion: on an empty pool of N lots, N reserves succeed and get the
      lots 0, 1, ..., N-1 in that order; the next reserve is refused and the
      count stays N. */
  method FillThenOverflow(tracker: LotTracker, v: Vehicle) returns (lotIds: seq<int>, overflow: Option<Ticket>)
    requires tracker.Valid() && v.WellFormed() && v.Size() == tracker.size
    requires tracker.numberOfLotsOccupied == 0
    modifies tracker.Repr
    ensures tracker.Valid()
    ensures |lotIds| == tracker.numberOfLots && forall i :: 0 <= i < |lotIds| ==> lotIds[i] == i
    ensures overflow.None? && tracker.numberOfLotsOccupied == tracker.numberOfLots
  {
    var n := tracker.numberOfLots;
    OccupiedCountZero(tracker.Contents);
    lotIds := [];
    for i := 0 to n
      invariant tracker.Valid() && tracker.numberOfLots == n
      invariant tracker.numberOfLotsOccupied == i
      invariant forall j :: 0 <= j < n ==> (tracker.Contents[j].Some? <==> j < i)
      invariant |lotIds| == i && forall j :: 0 <= j < i ==> lotIds[j] == j
    {
      FirstFreeIs(tracker.Contents, i);
      var t := tracker.ReserveLot(Some(v));
      lotIds := lotIds + [t.value.lotId];
    }
    overflow := tracker.ReserveLot(Some(v));
  }
}
