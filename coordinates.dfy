/**
 * The coordinate table the map reader builds from a query result: a walk over
 * the "elements" list, in order, that writes `id -> (lat, lon)` for every
 * element of type "node" and stops at the first key lookup that fails.
 *
 * `ExtractFrom` states the walk as a fold; `Latest` is an independent
 * description of what it writes (for each node id, the coordinate of its
 * last occurrence); the lemmas relate the two and draw the consequences.
 */
module Coordinates {
  import opened Osm

  /** Node id to coordinate. */
  type Table = map<int, Coord>

  /** What the walk leaves behind: the table as it stands when the walk ends,
      and the KeyError that ended it early, if any. Entries written before
      the failure stay in the table. */
  datatype Extraction = Extraction(table: Table, failure: Option<KeyError>)

  predicate IsNodeTyped(e: Element)
  {
    Type(e) == "node"
  }

  /** A node element carrying all three of "id", "lat" and "lon". */
  predicate Complete(e: Element)
  {
    e.Node? && e.id.Some? && e.lat.Some? && e.lon.Some?
  }

  /** An element the walk gets past: not of type "node", or a complete node. */
  predicate WellFormed(e: Element)
  {
    !IsNodeTyped(e) || Complete(e)
  }

  predicate AllWellFormed(s: seq<Element>)
  {
    forall i :: 0 <= i < |s| ==> WellFormed(s[i])
  }

  /** The error for a node element that lacks a key: the keys are looked up
      in the order "id", "lat", "lon", and the first absent one is named. */
  function MissingKey(e: Element): KeyError
    requires IsNodeTyped(e) && !Complete(e)
  {
    if !e.Node? || e.id.None? then KeyError("id")
    else if e.lat.None? then KeyError("lat")
    else KeyError("lon")
  }

  /** The value stored for a complete node: latitude first, then longitude. */
  function CoordOf(e: Element): Coord
    requires Complete(e)
  {
    Coord(e.lat.value, e.lon.value)
  }

  /** The walk over the elements, one element at a time, in list order. */
  function ExtractFrom(table: Table, elements: seq<Element>): Extraction
    decreases |elements|
  {
    if elements == [] then Extraction(table, None)
    else
      var e := elements[0];
      if !IsNodeTyped(e) then ExtractFrom(table, elements[1..])
      else if !Complete(e) then Extraction(table, Some(MissingKey(e)))
      else ExtractFrom(table[e.id.value := CoordOf(e)], elements[1..])
  }

  /** The whole call: a result without an "elements" key fails before any
      write; otherwise the walk runs over its elements. */
  function Extract(table: Table, result: Option<seq<Element>>): Extraction
  {
    match result
    case None => Extraction(table, Some(KeyError("elements")))
    case Some(elements) => ExtractFrom(table, elements)
  }

  // ---------------------------------------------------------------------
  // Reference description of the table the walk produces
  // ---------------------------------------------------------------------

  predicate HasId(e: Element, k: int)
  {
    e.Node? && e.id == Some(k)
  }

  /** The ids named by the node elements of `s`. */
  function NodeIds(s: seq<Element>): set<int>
  {
    set i | 0 <= i < |s| && s[i].Node? && s[i].id.Some? :: s[i].id.value
  }

  /** The position of the last node element of `s` with id `k`, or -1 when
      there is none. */
  function LastIndexOf(s: seq<Element>, k: int): (r: int)
    ensures -1 <= r < |s|
    ensures r >= 0 ==> HasId(s[r], k)
    ensures forall j :: r < j < |s| ==> !HasId(s[j], k)
    decreases |s|
  {
    if s == [] then -1
    else if HasId(s[|s| - 1], k) then |s| - 1
    else LastIndexOf(s[..|s| - 1], k)
  }

  /** The position of the first element the walk cannot get past, or |s|
      when it gets past all of them. */
  function FirstMalformed(s: seq<Element>): (j: nat)
    ensures j <= |s|
    ensures forall i :: 0 <= i < j ==> WellFormed(s[i])
    ensures j < |s| ==> !WellFormed(s[j])
    decreases |s|
  {
    if s == [] then 0
    else if !WellFormed(s[0]) then 0
    else 1 + FirstMalformed(s[1..])
  }

  /** For every node id of `s`, the coordinate of its last occurrence. */
  function Latest(s: seq<Element>): Table
    requires AllWellFormed(s)
  {
    map k | k in NodeIds(s) :: CoordOf(s[LastIndexOfNode(s, k)])
  }

  /** `LastIndexOf` for an id that does occur. */
  function LastIndexOfNode(s: seq<Element>, k: int): (r: nat)
    requires AllWellFormed(s) && k in NodeIds(s)
    ensures r < |s| && Complete(s[r]) && s[r].id.value == k
    ensures forall j :: r < j < |s| ==> !HasId(s[j], k)
  {
    var i :| 0 <= i < |s| && s[i].Node? && s[i].id.Some? && s[i].id.value == k;
    assert HasId(s[i], k);
    var r := LastIndexOf(s, k);
    assert WellFormed(s[r]);
    r
  }

  // ---------------------------------------------------------------------
  // Lemmas
  // ---------------------------------------------------------------------

  /** Walking `p + q` is walking `p` and, if that got through, walking `q`
      from where `p` left the table. */
  lemma {:induction false} ExtractAppend(t: Table, p: seq<Element>, q: seq<Element>)
    ensures ExtractFrom(t, p + q) ==
      (var x := ExtractFrom(t, p);
       if x.failure.Some? then x else ExtractFrom(x.table, q))
    decreases |p|
  {
    if p == [] {
      assert p + q == q;
    } else {
      assert (p + q)[0] == p[0];
      assert (p + q)[1..] == p[1..] + q;
      var e := p[0];
      if !IsNodeTyped(e) {
        ExtractAppend(t, p[1..], q);
      } else if Complete(e) {
        ExtractAppend(t[e.id.value := CoordOf(e)], p[1..], q);
      }
    }
  }

  /** Appending one element to `s` changes `Latest` only at that element's id. */
  lemma LatestSnoc(s: seq<Element>, e: Element)
    requires AllWellFormed(s + [e])
    ensures AllWellFormed(s)
    ensures Latest(s + [e]) == if Complete(e) then Latest(s)[e.id.value := CoordOf(e)] else Latest(s)
  {
    var s' := s + [e];
    assert s'[..|s|] == s;
    assert forall i :: 0 <= i < |s| ==> s'[i] == s[i];
    assert WellFormed(s'[|s|]);
    if Complete(e) {
      assert NodeIds(s') == NodeIds(s) + {e.id.value};
    } else {
      assert NodeIds(s') == NodeIds(s);
    }
  }

  /** On elements the walk gets through, it produces the old table
      overwritten by `Latest`. */
  lemma {:induction false} ExtractMatchesReference(t: Table, s: seq<Element>)
    requires AllWellFormed(s)
    ensures ExtractFrom(t, s) == Extraction(t + Latest(s), None)
    decreases |s|
  {
    if s == [] {
      assert Latest(s) == map[];
      assert t + map[] == t;
    } else {
      var p, e := s[..|s| - 1], s[|s| - 1];
      assert s == p + [e];
      LatestSnoc(p, e);
      ExtractMatchesReference(t, p);
      ExtractAppend(t, p, [e]);
      ExtractOne(t + Latest(p), e);
      if Complete(e) {
        UpdateUnion(t, Latest(p), e.id.value, CoordOf(e));
      }
    }
  }

  /** The walk over a single well-formed element. */
  lemma ExtractOne(t: Table, e: Element)
    requires WellFormed(e)
    ensures ExtractFrom(t, [e]) ==
      Extraction(if Complete(e) then t[e.id.value := CoordOf(e)] else t, None)
  {
  }

  /** Overwriting one key after a union is the same as overwriting it in
      the right-hand map. */
  lemma UpdateUnion(t: Table, u: Table, k: int, c: Coord)
    ensures (t + u)[k := c] == t + u[k := c]
  {
  }

  /** The complete outcome of the walk: it writes `Latest` of the elements
      before the first malformed one, and fails there, naming the first key
      that element lacks; with no malformed element it succeeds. */
  lemma ExtractCharacterization(t: Table, s: seq<Element>)
    ensures var j := FirstMalformed(s);
      AllWellFormed(s[..j]) &&
      ExtractFrom(t, s) ==
        Extraction(t + Latest(s[..j]), if j == |s| then None else Some(MissingKey(s[j])))
  {
    var j := FirstMalformed(s);
    assert s == s[..j] + s[j..];
    assert forall i :: 0 <= i < j ==> s[..j][i] == s[i];
    ExtractMatchesReference(t, s[..j]);
    ExtractAppend(t, s[..j], s[j..]);
    if j < |s| {
      assert s[j..][0] == s[j];
    }
  }

  /** The call fails exactly when the result has no "elements" key or some
      element of type "node" lacks "id", "lat" or "lon"; a missing
      "elements" key leaves the table as it was. */
  lemma ExtractFailsIff(t: Table, result: Option<seq<Element>>)
    ensures Extract(t, result).failure == None <==>
      result.Some? && AllWellFormed(result.value)
    ensures result.None? ==> Extract(t, result).table == t
  {
    if result.Some? {
      var s := result.value;
      ExtractCharacterization(t, s);
      var j := FirstMalformed(s);
      if j < |s| {
        assert !WellFormed(s[j]);
      }
    }
  }

  /** After a successful call, every node element's id is a key of the table. */
  lemma NodeIdsPresent(t: Table, s: seq<Element>)
    requires Extract(t, Some(s)).failure == None
    ensures forall i :: 0 <= i < |s| && IsNodeTyped(s[i]) ==>
      s[i].Node? && s[i].id.Some? && s[i].id.value in Extract(t, Some(s)).table
  {
    ExtractFailsIff(t, Some(s));
    ExtractMatchesReference(t, s);
    forall i | 0 <= i < |s| && IsNodeTyped(s[i])
      ensures s[i].Node? && s[i].id.Some? && s[i].id.value in Extract(t, Some(s)).table
    {
      assert WellFormed(s[i]);
      assert s[i].id.value in NodeIds(s);
    }
  }

  /** When a node id occurs several times, the last occurrence in list order
      decides the stored coordinate, latitude first. */
  lemma LastOccurrenceWins(t: Table, s: seq<Element>, i: int)
    requires Extract(t, Some(s)).failure == None
    requires 0 <= i < |s| && Complete(s[i])
    requires forall j :: i < j < |s| ==> !HasId(s[j], s[i].id.value)
    ensures s[i].id.value in Extract(t, Some(s)).table
    ensures Extract(t, Some(s)).table[s[i].id.value] == Coord(s[i].lat.value, s[i].lon.value)
  {
    var k := s[i].id.value;
    ExtractFailsIff(t, Some(s));
    ExtractMatchesReference(t, s);
    assert k in NodeIds(s);
    var r := LastIndexOfNode(s, k);
    assert HasId(s[i], k);
  }

  /** The table only grows, whether or not the call fails: every old key
      stays, an old key no node element names keeps its value, and every
      new key is the id of a node element. */
  lemma NothingRemoved(t: Table, result: Option<seq<Element>>)
    ensures t.Keys <= Extract(t, result).table.Keys
    ensures result.None? ==> Extract(t, result).table == t
    ensures result.Some? ==>
      Extract(t, result).table.Keys <= t.Keys + NodeIds(result.value)
    ensures forall k :: k in t && (result.None? || k !in NodeIds(result.value)) ==>
      Extract(t, result).table[k] == t[k]
  {
    if result.Some? {
      var s := result.value;
      ExtractCharacterization(t, s);
      var j := FirstMalformed(s);
      assert NodeIds(s[..j]) <= NodeIds(s) by {
        forall k | k in NodeIds(s[..j]) ensures k in NodeIds(s) {
          var i :| 0 <= i < j && s[..j][i].Node? && s[..j][i].id.Some? && s[..j][i].id.value == k;
          assert s[i] == s[..j][i];
        }
      }
    }
  }

  /** The elements whose type is not "node" play no part: dropping them
      changes neither the table nor the failure. */
  function NodeTypedOnly(s: seq<Element>): seq<Element>
    decreases |s|
  {
    if s == [] then []
    else if IsNodeTyped(s[0]) then [s[0]] + NodeTypedOnly(s[1..])
    else NodeTypedOnly(s[1..])
  }

  lemma {:induction false} NonNodesIgnored(t: Table, s: seq<Element>)
    ensures Extract(t, Some(s)) == Extract(t, Some(NodeTypedOnly(s)))
    decreases |s|
  {
    if s != [] {
      var e := s[0];
      if IsNodeTyped(e) {
        var rest := NodeTypedOnly(s[1..]);
        assert ([e] + rest)[0] == e;
        assert ([e] + rest)[1..] == rest;
        if Complete(e) {
          NonNodesIgnored(t[e.id.value := CoordOf(e)], s[1..]);
        }
      } else {
        NonNodesIgnored(t, s[1..]);
      }
    }
  }

  /** Running the extraction again over the same result after it succeeded
      leaves the table as it is. */
  lemma ExtractIdempotent(t: Table, s: seq<Element>)
    requires Extract(t, Some(s)).failure == None
    ensures Extract(Extract(t, Some(s)).table, Some(s)) == Extract(t, Some(s))
  {
    ExtractFailsIff(t, Some(s));
    ExtractMatchesReference(t, s);
    ExtractMatchesReference(t + Latest(s), s);
    assert t + Latest(s) + Latest(s) == t + Latest(s);
  }
}
