# Parking lot slot pool — a Dafny model

This project models the core of a small parking-lot library. It is a
fixed-capacity pool of slots ("lots"), split by vehicle size. Parking hands
out a ticket, and that ticket is what releases the slot again.

- `Vehicles` holds the size classes `Small`, `Medium` and `Large`. It also holds
  the vehicle. `AbstractVehicle` and its subclasses `Car`, `Bike` and `Truck`
  become one datatype: an id plus a kind tag, and the tag fixes the size.
  The id check of the constructor is modelled on Java's `String.trim()`.
- `Tickets.Ticket` is a class. Its lot id, vehicle id and size are `const`.
  Its validity flag is a `var` that only `InvalidateTicket` writes, and it
  only ever writes `false`.
- `Lots.Lot` is a class with the two-state machine AVAILABLE ⇄ OCCUPIED and the
  optional occupant. `Valid()` says that an occupant is present exactly when
  the lot is OCCUPIED.
- `Occupancy` is the pure specification of one pool, seen as a sequence of
  occupants indexed by lot id. `OccupiedCount` counts the occupied lots and
  `FirstFree` finds the first-fit lot. The lemmas say how parking in a lot
  and freeing a lot change the count.
- `LotTrackers.LotTracker` keeps an `array<Lot?>` filled in by a `for` loop, the
  way `initLots` fills its Java array. It keeps a counter of occupied lots
  and a ghost `Contents` (the occupant of each lot). `Valid()` ties `Contents`
  to the lots, and requires lot `i` to have id `i` and the tracker's size.
  It also requires the counter to equal `OccupiedCount(Contents)`, so
  `0 <= counter <= N` always holds. `ReserveLot` is first-fit: it takes the
  lot that `FindAvailableLot` returns, and that method's `while` loop is
  proved to return the lot at `FirstFree(Contents)`.
- `LotManagers.LotManager` holds a `map<Size, LotTracker>`, one tracker per size,
  with pairwise disjoint footprints. `Park` and `UnPark` route by size. They
  leave the trackers of the other sizes unchanged.

Java `null` arguments (a missing vehicle or ticket) and `Optional` results
are modelled as `Option`. Construction-time exceptions are modelled as
preconditions. The one exception is the vehicle constructor, which is a pure
function that returns `None`.

Releasing a lot leaves the ticket as it was:

- `Lot.release` checks the lot id and the occupant's id, but not the ticket's
  size. Neither it nor `releaseLot` invalidates the ticket.
- After a successful release, the ticket stays valid.
  `LotTrackers.ReserveThenRelease` proves that presenting the ticket a second
  time right away is refused, because the lot is now free.
  `LotTrackers.StaleTicketReleasesAgain` proves that once the same vehicle
  parks in that lot again, the old ticket releases it: tickets are not
  single-use.

## Model

| member | source | states |
|---|---|---|
| Vehicles.SizeOf | src/main/java/org/example/parkinglot/models/vehicle/Car.java:12-15 | Car is MEDIUM, Bike is SMALL and Truck is LARGE, each in both directions. The Bike and Truck overrides sit at Bike.java:9-12 and Truck.java:9-12. |
| Vehicles.TrimStart | src/main/java/org/example/parkinglot/models/vehicle/AbstractVehicle.java:9 | The result is a suffix of the input. Only characters `<= ' '` were dropped, and the result does not start with one. |
| Vehicles.TrimEnd | src/main/java/org/example/parkinglot/models/vehicle/AbstractVehicle.java:9 | The result is a prefix of the input. Only characters `<= ' '` were dropped, and the result does not end with one. |
| Vehicles.BlankIffAllTrimmable | src/main/java/org/example/parkinglot/models/vehicle/AbstractVehicle.java:9-11 | `id.trim().isEmpty()` holds exactly when every character of the id is at most U+0020. |
| Vehicles.RejectedTestIdsAreBlank | src/test/java/org/example/parkinglot/models/vehicle/VehicleTest.java:31-38 | The ids "", " ", "   ", "\t" and "\n" are all blank. |
| Vehicles.AcceptedTestIdsAreNotBlank | src/test/java/org/example/parkinglot/models/vehicle/VehicleTest.java:64-67 | The id "1" of VehicleTest.java:66 and the id "Vehicle1" of TicketTest.java:33 and :42 are not blank. |
| Vehicles.NewVehicle | src/main/java/org/example/parkinglot/models/vehicle/AbstractVehicle.java:8-13 | Construction succeeds exactly when the id is present and not blank. A built vehicle keeps the given kind and the id unchanged, and is well formed. |
| Vehicles.Equals | src/main/java/org/example/parkinglot/models/vehicle/AbstractVehicle.java:20-26 | `equals` is true exactly when the other vehicle is present with the same kind and the same id. Equal vehicles have the same size. |
| Vehicles.EqualsReflexive | src/main/java/org/example/parkinglot/models/vehicle/AbstractVehicle.java:22 | Every vehicle equals itself. |
| Vehicles.EqualsSymmetric | src/main/java/org/example/parkinglot/models/vehicle/AbstractVehicle.java:21-26 | `equals` is symmetric. |
| Vehicles.DifferentKindsUnequal | src/main/java/org/example/parkinglot/models/vehicle/AbstractVehicle.java:23 | Vehicles of different kinds are unequal in both directions, whatever their ids. |
| Tickets.Ticket.constructor | src/main/java/org/example/parkinglot/models/lot/Ticket.java:7-10 | A blank vehicle id is refused. The lot id, vehicle id and size are stored unchanged and never change afterwards. A new ticket is valid. |
| Tickets.Ticket.InvalidateTicket | src/test/java/org/example/parkinglot/models/lot/TicketTest.java:40-46 | Returns true, and the ticket is invalid afterwards. This is the only writer of the flag, so validity never comes back. |
| Lots.Lot.constructor | src/main/java/org/example/parkinglot/models/lot/Lot.java:10-20 | A new lot keeps the given id and size, is AVAILABLE, has no vehicle and satisfies the lot invariant. |
| Lots.Lot.GetVehicle | src/main/java/org/example/parkinglot/models/lot/Lot.java:30-32 | An occupant is present exactly when the lot is not available. |
| Lots.Lot.Reserve | src/main/java/org/example/parkinglot/models/lot/Lot.java:34-41 | Succeeds exactly when the vehicle is present, the lot is available and the sizes match. On success the lot is OCCUPIED by exactly that vehicle. On failure nothing changes. The invariant is kept. |
| Lots.Lot.Release | src/main/java/org/example/parkinglot/models/lot/Lot.java:43-52 | Succeeds exactly when the ticket is present, the lot is OCCUPIED with an occupant, the ticket's lot id is this lot's id, and the occupant's id is the ticket's vehicle id. The size is not checked. On success the lot is AVAILABLE and empty. On failure nothing changes. The ticket is not modified. |
| Occupancy.OccupiedCount | src/main/java/org/example/parkinglot/LotTracker.java:24-29 | The number of occupied lots is at most the number of lots, and it is 0 when every lot is free. |
| Occupancy.FirstFree | src/main/java/org/example/parkinglot/LotTracker.java:115-117 | Returns None exactly when every lot is occupied. Otherwise it returns a free lot, and every lot with a lower id is occupied (first fit). |
| Occupancy.FullIffNoFreeLot | src/main/java/org/example/parkinglot/LotTracker.java:67-74 | The counter reaches N exactly when no lot is free. So the "no available lot" branch of `reserveLot` cannot be reached. |
| Occupancy.OccupyAddsOne | src/main/java/org/example/parkinglot/LotTracker.java:77-78 | Parking in a free lot raises the count by exactly one. |
| Occupancy.FreeSubtractsOne | src/main/java/org/example/parkinglot/LotTracker.java:103-104 | Freeing an occupied lot lowers the count by exactly one. |
| Occupancy.OccupiedLotCounts | src/main/java/org/example/parkinglot/LotTracker.java:93 | The count is positive while any lot is occupied. |
| Occupancy.OccupiedCountZero | src/main/java/org/example/parkinglot/LotTracker.java:29 | A count of zero means every lot is free. |
| Occupancy.FirstFreeIs | src/main/java/org/example/parkinglot/LotTracker.java:115-117 | A free lot with every lower lot occupied is the one `FirstFree` returns. This is the converse of the `FirstFree` contract. |
| Occupancy.AllFree | src/main/java/org/example/parkinglot/LotTracker.java:53-58 | The freshly built pool has N lots, all free, and a count of 0. |
| LotTrackers.LotTracker.constructor | src/main/java/org/example/parkinglot/LotTracker.java:41-58 | A negative count is refused. The invariant holds: the array has length N, and lot `i` has id `i`, the tracker's size and occupant `Contents[i]`. `Contents` is all free, so every lot is available, and the count is 0. |
| LotTrackers.LotTracker.GetNumberOfLotsOccupied | src/main/java/org/example/parkinglot/LotTracker.java:134-136 | The count lies between 0 and N, and it equals N exactly when no lot is free. |
| LotTrackers.LotTracker.FindAvailableLot | src/main/java/org/example/parkinglot/LotTracker.java:115-117 | The linear scan returns the lot at `FirstFree(Contents)`, or None exactly when every lot is occupied. |
| LotTrackers.LotTracker.FindLot | src/main/java/org/example/parkinglot/LotTracker.java:119-124 | Returns the lot with the given id exactly when the id is below N. |
| LotTrackers.LotTracker.ReserveLot | src/main/java/org/example/parkinglot/LotTracker.java:66-83 | Issues a ticket exactly when the vehicle is present, has the tracker's size, and the count is below N. Otherwise nothing changes. On success only the first free lot becomes occupied, by this vehicle. The count rises by one. The fresh, valid ticket carries that lot's id and the vehicle's id and size. |
| LotTrackers.LotTracker.TicketsOutside | src/main/java/org/example/parkinglot/LotTracker.java:66-109 | No ticket is in a valid tracker's footprint. So `ReserveLot` and `ReleaseLot`, which change only the footprint, leave every ticket a caller holds unchanged, including its validity flag. |
| LotTrackers.LotTracker.ReleaseLot | src/main/java/org/example/parkinglot/LotTracker.java:92-109 | Succeeds exactly when the ticket is present, the count is positive, the ticket is valid, its lot id is below N, and that lot's occupant has the ticket's vehicle id. On success only that lot is freed and the count drops by one. Otherwise nothing changes. Either way the ticket's validity flag is left as it was. When the ticket's lot exists and is occupied, the count is positive, so the count guard never decides the result. |
| LotTrackers.ReserveThenRelease | src/main/java/org/example/parkinglot/LotTracker.java:77-106 | Reserving and then releasing with the returned ticket succeeds and restores the pool and the count. Presenting the ticket again fails, and the ticket is still valid. |
| LotTrackers.StaleTicketReleasesAgain | src/main/java/org/example/parkinglot/LotTracker.java:92-109 | After a reserve and a release, the same vehicle gets the same lot under a new ticket. The old ticket is still valid and releases that lot, and the pool and the count end as they started. |
| LotTrackers.FillThenOverflow | src/test/java/org/example/parkinglot/LotTrackerTest.java:112-128 | On an empty pool of N lots, N reserves get lots 0..N-1 in order. The next reserve gets no ticket, and the count stays N. |
| LotManagers.LotManager.constructor | src/main/java/org/example/parkinglot/LotManager.java:21-25 | SMALL gets the bike count, MEDIUM the car count and LARGE the truck count. Every pool starts empty. The manager's footprint, which holds all three pools, is new, and the pools' footprints are disjoint. |
| LotManagers.NewTrackers | src/main/java/org/example/parkinglot/LotManager.java:22-24 | The three trackers are built with the bike, car and truck counts for SMALL, MEDIUM and LARGE. Each is valid and empty, and their footprints are new and pairwise disjoint. |
| LotManagers.LotManager.Park | src/main/java/org/example/parkinglot/LotManager.java:33-40 | A missing vehicle gets no ticket. Otherwise the outcome is exactly that of `ReserveLot` on the tracker for the vehicle's size. The ticket carries the vehicle's id and size. The other sizes' trackers are unchanged. |
| LotManagers.LotManager.UnPark | src/main/java/org/example/parkinglot/LotManager.java:47-52 | A missing ticket is refused. Otherwise the outcome is exactly that of `ReleaseLot` on the tracker for the ticket's size, and the ticket's validity flag is left as it was. The other sizes' trackers are unchanged. |
| LotManagers.LotManager.TicketsOutside | src/main/java/org/example/parkinglot/LotManager.java:33-52 | No ticket is in a valid manager's footprint, which is the manager plus its three pools' footprints. So `Park` and `UnPark` leave every ticket a caller holds unchanged. |
| LotManagers.InvalidatedTicketStaysInvalid | src/test/java/org/example/parkinglot/models/lot/TicketTest.java:40-46 | Once a held ticket is invalidated, a later `Park` does not make it valid again, and `UnPark` with it is refused. The manager stays valid. |

## Left out

- A null `Size` cannot be represented, because `Size` is a datatype. This covers the null-size failures of the `Lot`, `LotTracker` and `Ticket` constructors, `park` of a vehicle whose `getSize()` is null, and `unPark` of a ticket whose size is null. A null vehicle id passed to the `Ticket` constructor cannot be represented either.
- Tickets.Ticket.constructor: the three-field ticket with its validity flag is what `LotTracker` and the ticket tests use. `Ticket.java` has only a lot id and a vehicle id and no `invalidateTicket`; the model follows TicketTest.java:40-46, where `invalidateTicket` returns true and the ticket is invalid afterwards.
- Tickets.Ticket.constructor: the refusal of a blank vehicle id is assumed to use the same trim-based check as `AbstractVehicle` (`IsBlank`). `Ticket.java` has no such check; only the ids the ticket tests reject are known, and all of them are blank. `LotTrackers.LotTracker.ReserveLot` needs only a well-formed vehicle because of this assumption.
- LotTrackers.LotTracker.ReleaseLot: requires a ticket lot id `>= 0`. `findLot` guards only ids that are too large, so a negative id would throw an array-index exception in Java. The same requirement is passed on to `LotManagers.LotManager.UnPark`.
- LotTrackers.LotTracker.ReserveLot: requires a present vehicle to be well formed (a non-blank id), which every vehicle built by the `AbstractVehicle` constructor is. The tests' Mockito vehicles with a null id are not modelled. `LotManagers.LotManager.Park` has the same requirement.
- The `LotTracker.Factory` singleton and the `LotTrackerFactory` interface are replaced by plain constructors. The `LotManager` constructor therefore takes no factory argument.
- Mockito mocks and spies in the tests (for example a stubbed `getNumberOfLotsOccupied`) are not behaviour and are not modelled.
- `AbstractVehicle.hashCode` is a library hash that nothing in the core uses.
- Thread safety: the tracker is documented as single-actor, and the model is sequential.
- Integer width: the counters stay between 0 and N, and N is a Java `int`, so no 32-bit wrap-around can occur. The model uses unbounded integers.
- The `LotManager` test that parks cars until the MEDIUM pool is full is covered by the contract of `Park` together with `FillThenOverflow` at tracker level. It is not restated as a separate scenario.
- Plain getters (`getId`, `getLotId`, `getVehicleId`, `getVehicleSize`, `isValid`, `isAvailable`) are `const` fields or one-line predicates. `id()` is the datatype field `id`.
