/** Vehicles: the size classes, and AbstractVehicle with its three concrete
    kinds folded into one datatype.  A vehicle is an id plus a kind tag; the
    kind alone fixes the size (Car, Bike and Truck override getSize only). */
module Vehicles {
  import opened Wrappers

  /** The size classes of lots and vehicles. */
  datatype Size = Small | Medium | Large

  /** The concrete subclasses of AbstractVehicle. */
  datatype Kind = Car | Bike | Truck

  /** The size each concrete vehicle class reports from getSize. */
  function SizeOf(kind: Kind): (s: Size)
    ensures kind == Car <==> s == Medium
    ensures kind == Bike <==> s == Small
    ensures kind == Truck <==> s == Large
  {
    match kind
    case Car => Medium
    case Bike => Small
    case Truck => Large
  }

  datatype Vehicle = Vehicle(kind: Kind, id: string)
  {
    function Size(): Size { SizeOf(kind) }

    /** What the AbstractVehicle constructor guarantees of every vehicle it builds. */
    predicate WellFormed() { !IsBlank(id) }
  }

  // ---------------------------------------------------------------------
  // String.trim(): Java removes every leading and trailing character whose
  // code point is at most U+0020.

  predicate IsTrimmable(c: char) { c <= ' ' }

  /** Drops the leading trimmable characters. */
  function TrimStart(s: string): (r: string)
    ensures |r| <= |s| && r == s[|s| - |r|..]
    ensures forall i :: 0 <= i < |s| - |r| ==> IsTrimmable(s[i])
    ensures r != [] ==> !IsTrimmable(r[0])
  {
    if s != [] && IsTrimmable(s[0]) then TrimStart(s[1..]) else s
  }

  /** Drops the trailing trimmable characters. */
  function TrimEnd(s: string): (r: string)
    ensures |r| <= |s| && r == s[..|r|]
    ensures forall i :: |r| <= i < |s| ==> IsTrimmable(s[i])
    ensures r != [] ==> !IsTrimmable(r[|r| - 1])
  {
    if s != [] && IsTrimmable(s[|s| - 1]) then TrimEnd(s[..|s| - 1]) else s
  }

  function Trim(s: string): string
  {
    TrimEnd(TrimStart(s))
  }

  /** The id check of the AbstractVehicle constructor: `id.trim().isEmpty()`. */
  predicate IsBlank(s: string)
  {
    Trim(s) == []
  }

  /** A string trims to nothing exactly when every character in it is trimmable. */
  lemma BlankIffAllTrimmable(s: string)
    ensures IsBlank(s) <==> forall i :: 0 <= i < |s| ==> IsTrimmable(s[i])
  {
    var t := TrimStart(s);
    var k := |s| - |t|;
    assert forall i :: k <= i < |s| ==> s[i] == t[i - k];
    assert t != [] ==> t[0] == s[k];
  }

  /** The ids the vehicle and ticket tests reject are blank. */
  lemma RejectedTestIdsAreBlank(id: string)
    requires id in ["", " ", "   ", "\t", "\n"]
    ensures IsBlank(id)
  {
    assert |id| <= 3 && forall i :: 0 <= i < |id| ==> id[i] in " \t\n";
    BlankIffAllTrimmable(id);
  }

  /** The ids the tests accept are not blank. */
  lemma AcceptedTestIdsAreNotBlank()
    ensures !IsBlank("1") && !IsBlank("Vehicle1")
  {
    BlankIffAllTrimmable("1");
    BlankIffAllTrimmable("Vehicle1");
    assert !IsTrimmable("1"[0]) && !IsTrimmable("Vehicle1"[0]);
  }

  /** The AbstractVehicle constructor (reached through new Car/Bike/Truck):
      a null or blank id is refused, anything else is kept unchanged. */
  function NewVehicle(kind: Kind, id: Option<string>): (r: Option<Vehicle>)
    ensures r.Some? <==> id.Some? && !IsBlank(id.value)
    ensures r.Some? ==> r.value.kind == kind && r.value.id == id.value && r.value.WellFormed()
  {
    if id.None? || IsBlank(id.value) then None else Some(Vehicle(kind, id.value))
  }

  /** AbstractVehicle.equals: a null argument is unequal, a different
      concrete class is unequal, otherwise the ids decide. */
  function Equals(v: Vehicle, o: Option<Vehicle>): (r: bool)
    ensures r <==> o == Some(v)
    ensures r ==> o.value.Size() == v.Size()
  {
    match o
    case None => false
    case Some(w) => v.kind == w.kind && v.id == w.id
  }

  lemma EqualsReflexive(v: Vehicle)
    ensures Equals(v, Some(v))
  {
  }

  lemma EqualsSymmetric(v: Vehicle, w: Vehicle)
    ensures Equals(v, Some(w)) == Equals(w, Some(v))
  {
  }

  /** Vehicles of different kinds are never equal, whatever their ids. */
  lemma DifferentKindsUnequal(v: Vehicle, w: Vehicle)
    requires v.kind != w.kind
    ensures !Equals(v, Some(w)) && !Equals(w, Some(v))
  {
  }
}
