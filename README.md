# MapReader: node coordinate extraction from an Overpass result

This project models the `MapReader` class of `src/map_reader.py`, the part of
the Strava-art generator that reads OpenStreetMap highway data. A reader holds
a step size (default 10.0), the last result returned by the Overpass API, and
a table from node id to `(latitude, longitude)`. The table is filled by
walking the result's `elements` list in order. Every element of type `"node"`
writes `id -> (lat, lon)`, so a later occurrence of an id overwrites an earlier
one. Ways and relations are skipped. A missing `elements`, `id`, `lat` or `lon`
key raises a `KeyError`, and whatever was written before the error stays.

Files:

- `osm.dfy` (module `Osm`): elements of an Overpass result (`Node` with optional
  `id`/`lat`/`lon`, `Way`, `Other`), coordinates, and `KeyError`.
- `coordinates.dfy` (module `Coordinates`): the extraction written as a fold
  over the element list (`ExtractFrom`, `Extract`). It also holds an independent
  description of the resulting table (`Latest`: for every node id, the
  coordinate of its last occurrence) and the lemmas that connect the two.
- `map_reader.dfy` (module `MapReading`): the `MapReader` class. Its
  `ExtractCoordinates` method is the source's loop. It updates the table in
  place and is proved to produce exactly what `Extract` describes.

The Python exception is modelled as a returned `Option<KeyError>`. The table
the method leaves behind is the table at the moment of the exception.
A result without an `"elements"` key, such as the empty dictionary a new
reader starts with, is `overpassResult == None`.

The docstring of `interpolate_nodes` (src/map_reader.py:65-70) describes node
densification, but the method has no body, so `InterpolateNodes` changes
nothing.

## Model

| member | source | states |
|---|---|---|
| `MapReading.MapReader.constructor` | src/map_reader.py:18-22 | a new reader has the Overpass interpreter URL, step size 10.0, a result with no "elements" and an empty coordinate table |
| `MapReading.MapReader.SetStepSize` | src/map_reader.py:25-37 | after setting, the step_size getter returns exactly the value set; any value is accepted, with no positivity check; result and table are unchanged |
| `MapReading.MapReader.StoreResult` | src/map_reader.py:62 | the query response becomes the current result; step size and table are unchanged |
| `MapReading.MapReader.InterpolateNodes` | src/map_reader.py:64-71 | the call leaves the whole reader unchanged, since the method has no body |
| `MapReading.MapReader.ExtractCoordinates` | src/map_reader.py:99-109 | the in-place loop leaves the table and the returned KeyError exactly as `Extract` describes for the old table and the current result; step size and result are unchanged |
| `Coordinates.LastIndexOf` | src/map_reader.py:104-109 | returns the position of the last node element with a given id, or -1 when there is none; no later element has that id |
| `Coordinates.FirstMalformed` | src/map_reader.py:104-108 | returns the position of the first element the loop cannot get past (a "node" lacking id, lat or lon), or the length when there is none; all earlier elements are well-formed |
| `Coordinates.ExtractAppend` | src/map_reader.py:104 | walking `p + q` is walking `p`, then walking `q` from the table `p` left, unless `p` already failed |
| `Coordinates.ExtractMatchesReference` | src/map_reader.py:104-109 | on elements with no malformed node, the walk succeeds and yields the old table overwritten by `Latest`: for each node id, the (lat, lon) of its last occurrence |
| `Coordinates.ExtractCharacterization` | src/map_reader.py:104-109 | for any element list, the walk writes `Latest` of the elements before the first malformed one. It then fails with a KeyError naming the first of "id", "lat", "lon" that element lacks. With no malformed element it succeeds |
| `Coordinates.ExtractFailsIff` | src/map_reader.py:104-108 | the call fails if and only if "elements" is missing or some "node" element lacks id, lat or lon; a missing "elements" leaves the table untouched |
| `Coordinates.NodeIdsPresent` | src/map_reader.py:104-109 | after a successful call, the id of every element of type "node" is a key of the table |
| `Coordinates.LastOccurrenceWins` | src/map_reader.py:104-109 | when an id repeats, the last node with that id in list order determines the stored pair, latitude first then longitude |
| `Coordinates.NothingRemoved` | src/map_reader.py:109 | whether or not the call fails: every old key stays; an old key that no node names keeps its value; every new key is a node's id |
| `Coordinates.NonNodesIgnored` | src/map_reader.py:105 | dropping every element whose type is not "node" changes neither the resulting table nor the failure |
| `Coordinates.ExtractIdempotent` | src/map_reader.py:104-109 | re-running a successful extraction over the same result leaves the table as it is |

## Left out

- `distance` (src/map_reader.py:111-117): floating-point square root over coordinate pairs; the model never computes with coordinates.
- `get_highway_data_from_bbox` (src/map_reader.py:40-61) and `_query_overpass` (src/map_reader.py:91-97): formatting the Overpass query string and the HTTP request. Only storing the response (line 62) is modelled, with the response as a parameter (`StoreResult`).
- `plot_response_data` (src/map_reader.py:73-88): matplotlib/numpy display. As written, it also indexes the table with the `(key, value)` pairs of `items()` instead of keys. This is a defect in display code outside the model.
- The densification algorithm: `interpolate_nodes` has no implementation to model.
- Insertion order of the Python dictionary: the table is a Dafny `map`, so the order in which keys were first inserted is not modelled.
- Dynamic typing of the JSON data: every element has a "type"; ids are integers; lat and lon are reals; "elements" is a list. An element without a "type" key, which would also raise a `KeyError`, is not representable.
- MapReading.MapReader.SetStepSize: the step size is modelled as a `real`. The Python setter stores any object unchecked, so NaN, infinity, `None` or a string cannot be expressed. For NaN, "the getter returns the value set" would not hold under `==`.
- Floating-point latitude and longitude are modelled as `real`. They are only stored, so no rounding is involved.
- src/shape_segmenter.py: an OpenCV window with mouse and keyboard callbacks, unrelated to the coordinate table.
