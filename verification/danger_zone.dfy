/**
 * The danger-zone classifier: a person is at risk when the bottom edge of their
 * box lies in the lowest third of a truck's box, or below the truck altogether.
 * Image y coordinates grow downwards, so "below" means a larger y.
 */
module DangerZone {

  /** A detector box: (x1, y1) is the top-left corner and (x2, y2) the bottom-right one. */
  datatype Box = Box(x1: real, y1: real, x2: real, y2: real)

  /** The y coordinate where the lowest third of the truck's box begins. */
  function ZoneTop(truck: Box): (top: real)
    ensures 3.0 * (truck.y2 - top) == truck.y2 - truck.y1
    ensures truck.y1 <= truck.y2 ==> truck.y1 <= top <= truck.y2
  {
    truck.y2 - (truck.y2 - truck.y1) / 3.0
  }

  /**
   * check_person_in_danger_zone: only the person's bottom edge and the truck's
   * top and bottom edges are consulted. For a well-formed truck box the test is
   * a single half-line starting (inclusively) at ZoneTop; for an inverted box the
   * "lower third" is empty and only "strictly below the truck" remains.
   */
  function InDangerZone(person: Box, truck: Box): (r: bool)
    ensures truck.y1 <= truck.y2 ==> (r <==> person.y2 >= ZoneTop(truck))
    ensures truck.y1 > truck.y2 ==> (r <==> person.y2 > truck.y2)
  {
    var personBottom := person.y2;
    var truckBottom := truck.y2;
    var inLowerThird := personBottom >= ZoneTop(truck) && personBottom <= truckBottom;
    var belowTruck := personBottom > truckBottom;
    inLowerThird || belowTruck
  }

  /** Moving a person further down never takes them out of the danger zone. */
  lemma DangerZoneDownwardClosed(person: Box, lower: Box, truck: Box)
    requires InDangerZone(person, truck) && lower.y2 >= person.y2
    ensures InDangerZone(lower, truck)
  {
  }

  /** The boundary cases: the zone's top edge is inside, and so is anything under the truck. */
  lemma DangerZoneBoundaries(truck: Box)
    requires truck.y1 <= truck.y2
    ensures InDangerZone(Box(0.0, 0.0, 0.0, ZoneTop(truck)), truck)
    ensures InDangerZone(Box(0.0, 0.0, 0.0, truck.y2 + 1.0), truck)
    ensures truck.y1 < truck.y2 ==> !InDangerZone(Box(0.0, 0.0, 0.0, truck.y1), truck)
  {
  }
}
