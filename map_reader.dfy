/**
 * The map reader object: the step size it is configured with, the last
 * Overpass result it received, and the node coordinate table it fills in
 * from that result.
 */
module MapReading {
  import opened Osm
  import opened Coordinates

  class MapReader {
    /** Address of the Overpass interpreter the queries go to. */
    const overpassUrl: string
    /** Spacing wanted between consecutive nodes; never validated. */
    var stepSize: real
    /** The last query result: `None` stands for a result without an
        "elements" key, such as the empty result a new reader starts with. */
    var overpassResult: Option<seq<Element>>
    /** Node id to (latitude, longitude). */
    var nodeCoordinates: Table

    constructor ()
      ensures overpassUrl == "http://overpass-api.de/api/interpreter"
      ensures stepSize == 10.0
      ensures overpassResult == None
      ensures nodeCoordinates == map[]
    {
      overpassUrl := "http://overpass-api.de/api/interpreter";
      stepSize := 10.0;
      overpassResult := None;
      nodeCoordinates := map[];
    }

    /** The step_size property. */
    function StepSize(): real
      reads this
    {
      stepSize
    }

    /** The step_size setter: any value is accepted, zero and negative ones
        included, and nothing else changes. */
    method SetStepSize(newStepSize: real)
      modifies this`stepSize
      ensures StepSize() == newStepSize
      ensures overpassResult == old(overpassResult)
      ensures nodeCoordinates == old(nodeCoordinates)
    {
      stepSize := newStepSize;
    }

    /** Keeps the response of a highway query as the current result. */
    method StoreResult(response: Option<seq<Element>>)
      modifies this`overpassResult
      ensures overpassResult == response
      ensures stepSize == old(stepSize)
      ensures nodeCoordinates == old(nodeCoordinates)
    {
      overpassResult := response;
    }

    /** Node densification is declared but has no body: the call changes
        nothing. */
    method InterpolateNodes()
      ensures unchanged(this)
    {
    }

    /** Writes the coordinates of every node element of the current result
        into the table, in list order. A result without "elements", or a
        node element without "id", "lat" or "lon", ends the call with that
        KeyError; what was written before stays written. */
    method ExtractCoordinates() returns (failure: Option<KeyError>)
      modifies this`nodeCoordinates
      ensures Extract(old(nodeCoordinates), overpassResult) == Extraction(nodeCoordinates, failure)
      ensures stepSize == old(stepSize)
      ensures overpassResult == old(overpassResult)
    {
      if overpassResult.None? {
        return Some(KeyError("elements"));
      }
      var elements := overpassResult.value;
      var i := 0;
      while i < |elements|
        invariant 0 <= i <= |elements|
        invariant ExtractFrom(nodeCoordinates, elements[i..]) == ExtractFrom(old(nodeCoordinates), elements)
      {
        var element := elements[i];
        assert elements[i..][0] == element && elements[i..][1..] == elements[i + 1..];
        if Type(element) == "node" {
          if !element.Node? || element.id.None? {
            return Some(KeyError("id"));
          }
          if element.lat.None? {
            return Some(KeyError("lat"));
          }
          if element.lon.None? {
            return Some(KeyError("lon"));
          }
          nodeCoordinates := nodeCoordinates[element.id.value := Coord(element.lat.value, element.lon.value)];
        }
        i := i + 1;
      }
      return None;
    }
  }
}
