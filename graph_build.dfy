/** The top-level read loop: the module-level table `points`, the lists
    `existing_coords` and `edges`, and the loop that fills them from the rows
    of the edge list.  The globals become the fields of one GraphSession;
    the host renderer is seen only through the objects of Scene it returns.
 */
module GraphBuild {
  import opened Sampler
  import opened FirstSeen
  import opened Scene

  /** How a run ends.  An input without any record fails at the header skip
      (StopIteration); a data row with fewer than three fields fails at the
      field lookup (IndexError); `index` is that row's position after the
      header.  Neither is caught, and nothing built before is undone. */
  datatype Status = Completed | MissingHeader | RowTooShort(index: nat)

  /** The node table, its key order and the coordinate list agree: every key
      once, one coordinate per key, each the key's point location and each
      accepted by the sampler. */
  ghost predicate TableInvariant<Field(!new)>(points: map<Field, Point<Field>>, pointOrder: seq<Field>, existingCoords: seq<Coord>) {
    && NoDuplicates(pointOrder)
    && (forall k :: k in points <==> k in pointOrder)
    && |existingCoords| == |pointOrder|
    && (forall j :: 0 <= j < |pointOrder| ==> points[pointOrder[j]] == Point(pointOrder[j], existingCoords[j]))
    && (forall j :: 0 <= j < |existingCoords| ==> Accepts(existingCoords[j], DefaultMaxDistance))
  }

  /** Both endpoints of every edge are points held in the table. */
  ghost predicate EdgesInvariant<Field(!new)>(points: map<Field, Point<Field>>, edges: seq<Edge<Field>>) {
    forall i :: 0 <= i < |edges| ==>
      edges[i].from.name in points && points[edges[i].from.name] == edges[i].from &&
      edges[i].to.name in points && points[edges[i].to.name] == edges[i].to
  }

  /** Storing a new id with an accepted coordinate keeps the table
      invariant. */
  lemma TableAppend<Field(!new)>(points: map<Field, Point<Field>>, pointOrder: seq<Field>, existingCoords: seq<Coord>,
                           id: Field, coord: Coord)
    requires TableInvariant(points, pointOrder, existingCoords) && id !in points
    requires Accepts(coord, DefaultMaxDistance)
    ensures TableInvariant(points[id := Point(id, coord)], pointOrder + [id], existingCoords + [coord])
  {
  }

  /** A new table entry leaves the existing edges between table points. */
  lemma EdgesKeep<Field(!new)>(points: map<Field, Point<Field>>, edges: seq<Edge<Field>>, id: Field, p: Point<Field>)
    requires EdgesInvariant(points, edges) && id !in points
    ensures EdgesInvariant(points[id := p], edges)
  {
  }

  /** The session invariant on the values of the globals: the table
      invariants, and `existing_coords` and the cursor are what the sampler
      calls so far produced from the stream. */
  ghost predicate SessionInvariant<Field(!new)>(draws: nat -> Coord, cursor: nat, points: map<Field, Point<Field>>,
                                                pointOrder: seq<Field>, existingCoords: seq<Coord>, edges: seq<Edge<Field>>) {
    && Endless(draws)
    && TableInvariant(points, pointOrder, existingCoords)
    && EdgesInvariant(points, edges)
    && cursor == CursorAfter(draws, |existingCoords|)
    && existingCoords == Samples(draws, |existingCoords|)
  }

  /** Creating a node for a new id with the sampler's next result keeps the
      session invariant. */
  lemma SessionAdd<Field(!new)>(draws: nat -> Coord, cursor: nat, points: map<Field, Point<Field>>,
                                pointOrder: seq<Field>, existingCoords: seq<Coord>, edges: seq<Edge<Field>>,
                                id: Field, next: nat)
    requires SessionInvariant(draws, cursor, points, pointOrder, existingCoords, edges) && id !in points
    requires next == FirstAccepted(draws, cursor, DefaultMaxDistance) + 1
    ensures SessionInvariant(draws, next, points[id := Point(id, draws(next - 1))], pointOrder + [id],
                             existingCoords + [draws(next - 1)], edges)
  {
    SamplesAppend(draws, cursor, existingCoords, next);
    TableAppend(points, pointOrder, existingCoords, id, draws(next - 1));
    EdgesKeep(points, edges, id, Point(id, draws(next - 1)));
  }

  class GraphSession<Field(==, !new)> {
    /** The random source: the n-th iteration of any retry loop draws draws(n). */
    const draws: nat -> Coord
    /** How many candidates have been drawn so far. */
    var cursor: nat
    /** The table `points`: node id to the point created for it. */
    var points: map<Field, Point<Field>>
    /** The key order of `points` (insertion order). */
    var pointOrder: seq<Field>
    /** The list `existing_coords`. */
    var existingCoords: seq<Coord>
    /** The list `edges`. */
    var edges: seq<Edge<Field>>

    ghost predicate Valid()
      reads this
    {
      SessionInvariant(draws, cursor, points, pointOrder, existingCoords, edges)
    }

    /** The empty table and lists set up before the file is read. */
    constructor (draws: nat -> Coord)
      requires Endless(draws)
      ensures Valid() && this.draws == draws && cursor == 0
      ensures points == map[] && pointOrder == [] && existingCoords == []
      ensures edges == []
    {
      this.draws := draws;
      cursor := 0;
      points, pointOrder := map[], [];
      existingCoords, edges := [], [];
    }

    /** The block run for an id not yet in `points`: sample a coordinate,
        append it to `existing_coords`, create the point and store it. */
    method CreateNode(id: Field)
      requires Valid() && id !in points
      modifies this
      ensures Valid()
      ensures old(cursor) < cursor && Accepts(draws(cursor - 1), DefaultMaxDistance)
      ensures forall j :: old(cursor) <= j < cursor - 1 ==> !Accepts(draws(j), DefaultMaxDistance)
      ensures cursor == FirstAccepted(draws, old(cursor), DefaultMaxDistance) + 1
      ensures existingCoords == old(existingCoords) + [draws(cursor - 1)]
      ensures points == old(points)[id := Point(id, draws(cursor - 1))]
      ensures pointOrder == old(pointOrder) + [id]
      ensures edges == old(edges)
    {
      var coord, next := GenerateCoordinates(draws, cursor, existingCoords, DefaultMaxDistance, DefaultMinDistance);
      SessionAdd(draws, cursor, points, pointOrder, existingCoords, edges, id, next);
      var point := Point(id, coord);
      cursor, existingCoords, points, pointOrder := next, existingCoords + [coord], points[id := point], pointOrder + [id];
    }

    /** The lookup `if id not in points` followed by that block; the read
        loop runs it for the source and then for the target. */
    method AddPointIfMissing(id: Field)
      requires Valid()
      modifies this
      ensures Valid()
      ensures pointOrder == AppendUnseen(old(pointOrder), id)
      ensures points.Keys == old(points).Keys + {id}
      ensures forall k :: k in old(points) ==> points[k] == old(points)[k]
      ensures edges == old(edges)
      ensures old(existingCoords) <= existingCoords
      ensures id in old(points) ==>
                cursor == old(cursor) && points == old(points) && existingCoords == old(existingCoords)
      ensures id !in old(points) ==>
                && old(cursor) < cursor && Accepts(draws(cursor - 1), DefaultMaxDistance)
                && (forall j :: old(cursor) <= j < cursor - 1 ==> !Accepts(draws(j), DefaultMaxDistance))
                && cursor == FirstAccepted(draws, old(cursor), DefaultMaxDistance) + 1
                && existingCoords == old(existingCoords) + [draws(cursor - 1)]
                && points == old(points)[id := Point(id, draws(cursor - 1))]
    {
      if id !in points {
        CreateNode(id);
      }
    }

    /** create_curved_edge between the two stored points, and the list append. */
    method AddEdge(source: Field, target: Field)
      requires Valid() && source in points && target in points
      modifies this
      ensures Valid()
      ensures cursor == old(cursor)
      ensures points == old(points) && pointOrder == old(pointOrder) && existingCoords == old(existingCoords)
      ensures edges == old(edges) + [Edge(points[source], points[target])]
      ensures EdgeLinks(edges) == EdgeLinks(old(edges)) + [Link(source, target)]
    {
      var edge := Edge(points[source], points[target]);
      EdgeLinksAppend(edges, edge);
      edges := edges + [edge];
    }

    /** One data row: create the missing endpoints, source first, then
        always one edge between them. */
    method AddRow(source: Field, target: Field)
      requires Valid()
      modifies this
      ensures Valid()
      ensures pointOrder == AppendUnseen(AppendUnseen(old(pointOrder), source), target)
      ensures forall k :: k in old(points) ==> points[k] == old(points)[k]
      ensures edges == old(edges) + [Edge(points[source], points[target])]
      ensures EdgeLinks(edges) == EdgeLinks(old(edges)) + [Link(source, target)]
      ensures old(existingCoords) <= existingCoords
      ensures old(cursor) <= cursor
      ensures existingCoords == Samples(draws, |pointOrder|) && cursor == CursorAfter(draws, |pointOrder|)
      ensures source in old(points) && target in old(points) ==>
                cursor == old(cursor) && existingCoords == old(existingCoords)
    {
      AddPointIfMissing(source);
      AddPointIfMissing(target);
      AddEdge(source, target);
    }

    /** The loop over the data rows, run on the empty table: each row with
        three fields or more is added, and the loop stops at the first
        shorter one.  Returns how many rows were added. */
    method ReadDataRows(dataRows: seq<seq<Field>>) returns (read: nat)
      requires Valid() && pointOrder == [] && edges == []
      modifies this
      ensures Valid()
      ensures read <= |dataRows| && (read < |dataRows| ==> |dataRows[read]| < 3)
      ensures |edges| == read
      ensures EdgeLinks(edges) == ScanLinks(dataRows)
      ensures pointOrder == Dedup(Endpoints(ScanLinks(dataRows)))
      ensures existingCoords == Samples(draws, |pointOrder|) && cursor == CursorAfter(draws, |pointOrder|)
    {
      read := 0;
      while read < |dataRows| && |dataRows[read]| >= 3
        invariant read <= |dataRows|
        invariant Valid()
        invariant |edges| == read
        invariant ScanLinks(dataRows) == EdgeLinks(edges) + ScanLinks(dataRows[read..])
        invariant pointOrder == Dedup(Endpoints(EdgeLinks(edges)))
      {
        var row := dataRows[read];
        var source, target := row[1], row[2];
        ghost var before := EdgeLinks(edges);
        ScanLinksStep(dataRows, read, before);
        DedupAddLink(before, Link(source, target));
        AddRow(source, target);
        read := read + 1;
      }
      ScanLinksStop(dataRows, read);
    }

  }

  /** The position of the first data row with fewer than three fields, or
      the number of data rows when there is none. */
  function FirstShortRow<Field>(dataRows: seq<seq<Field>>): (n: nat)
    ensures n <= |dataRows|
    ensures forall i :: 0 <= i < n ==> |dataRows[i]| >= 3
    ensures n < |dataRows| ==> |dataRows[n]| < 3
  {
    if dataRows == [] || |dataRows[0]| < 3 then 0
    else 1 + FirstShortRow(dataRows[1..])
  }

  /** The (source, target) pairs, fields 1 and 2, of the data rows before
      the first one with fewer than three fields. */
  function ScanLinks<Field>(dataRows: seq<seq<Field>>): seq<Link<Field>> {
    if dataRows == [] || |dataRows[0]| < 3 then []
    else [Link(dataRows[0][1], dataRows[0][2])] + ScanLinks(dataRows[1..])
  }

  /** Reading on from row `i`, when it has three fields or more, appends
      that row's pair to the pairs read so far. */
  lemma ScanLinksStep<Field>(dataRows: seq<seq<Field>>, i: nat, links: seq<Link<Field>>)
    requires i < |dataRows| && |dataRows[i]| >= 3
    requires ScanLinks(dataRows) == links + ScanLinks(dataRows[i..])
    ensures ScanLinks(dataRows) == (links + [Link(dataRows[i][1], dataRows[i][2])]) + ScanLinks(dataRows[i + 1..])
  {
    assert dataRows[i..][1..] == dataRows[i + 1..];
  }

  /** Reading stops at the end of the rows or at a short row. */
  lemma ScanLinksStop<Field>(dataRows: seq<seq<Field>>, i: nat)
    requires i <= |dataRows|
    requires i == |dataRows| || |dataRows[i]| < 3
    ensures ScanLinks(dataRows[i..]) == []
  {
  }

  /** ScanLinks reads one pair from each row before the first short one. */
  lemma {:induction false} ScanLinksRows<Field>(dataRows: seq<seq<Field>>)
    ensures |ScanLinks(dataRows)| == FirstShortRow(dataRows)
    ensures forall i :: 0 <= i < |ScanLinks(dataRows)| ==>
              |dataRows[i]| >= 3 && ScanLinks(dataRows)[i] == Link(dataRows[i][1], dataRows[i][2])
  {
    if dataRows != [] && |dataRows[0]| >= 3 {
      ScanLinksRows(dataRows[1..]);
    }
  }

  /** How a run over `rows` (header first) ends. */
  function ReadOutcome<Field>(rows: seq<seq<Field>>): (st: Status)
    ensures st == MissingHeader <==> rows == []
    ensures st == Completed <==> rows != [] && forall i :: 1 <= i < |rows| ==> |rows[i]| >= 3
    ensures st.RowTooShort? ==>
              st.index + 1 < |rows| && |rows[st.index + 1]| < 3 &&
              forall i :: 1 <= i <= st.index ==> |rows[i]| >= 3
  {
    if rows == [] then MissingHeader
    else
      var n := FirstShortRow(rows[1..]);
      if n < |rows| - 1 then RowTooShort(n) else Completed
  }

  /** The pairs of the data rows the loop gets through: all of them, or
      those before the first short row. */
  function ProcessedLinks<Field>(rows: seq<seq<Field>>): seq<Link<Field>> {
    if rows == [] then [] else ScanLinks(rows[1..])
  }

  /** One pair per data row the loop gets through: every data row when the
      run completes, the rows before the failing one otherwise. */
  lemma ProcessedLinksRows<Field>(rows: seq<seq<Field>>)
    ensures rows == [] ==> ProcessedLinks(rows) == []
    ensures rows != [] ==> |ProcessedLinks(rows)| < |rows|
    ensures ReadOutcome(rows) == Completed ==> |ProcessedLinks(rows)| == |rows| - 1
    ensures ReadOutcome(rows).RowTooShort? ==> |ProcessedLinks(rows)| == ReadOutcome(rows).index
    ensures forall i :: 0 <= i < |ProcessedLinks(rows)| ==>
              |rows[i + 1]| >= 3 && ProcessedLinks(rows)[i] == Link(rows[i + 1][1], rows[i + 1][2])
  {
    if rows != [] {
      ScanLinksRows(rows[1..]);
    }
  }

  /** The (source, target) pair each listed edge was built for. */
  function EdgeLinks<Field>(edges: seq<Edge<Field>>): seq<Link<Field>>
  {
    if edges == [] then []
    else
      var n := |edges| - 1;
      EdgeLinks(edges[..n]) + [Link(edges[n].from.name, edges[n].to.name)]
  }

  /** One pair per edge: the names of its two endpoints. */
  lemma {:induction false} EdgeLinksPairs<Field>(edges: seq<Edge<Field>>)
    ensures |EdgeLinks(edges)| == |edges|
    ensures forall i :: 0 <= i < |edges| ==> EdgeLinks(edges)[i] == Link(edges[i].from.name, edges[i].to.name)
  {
    if edges != [] {
      EdgeLinksPairs(edges[..|edges| - 1]);
    }
  }

  /** Appending an edge appends its pair. */
  lemma EdgeLinksAppend<Field>(edges: seq<Edge<Field>>, e: Edge<Field>)
    ensures EdgeLinks(edges + [e]) == EdgeLinks(edges) + [Link(e.from.name, e.to.name)]
  {
    assert (edges + [e])[..|edges|] == edges;
  }

  /** The read loop: skip the header record, then for each data row read
      fields 1 and 2 and add the row to the graph. */
  method ReadGraph<Field(==, !new)>(rows: seq<seq<Field>>, draws: nat -> Coord) returns (session: GraphSession<Field>, status: Status)
    requires Endless(draws)
    ensures fresh(session) && session.Valid() && session.draws == draws
    ensures status == ReadOutcome(rows)
    ensures session.pointOrder == Dedup(Endpoints(ProcessedLinks(rows)))
    ensures session.points.Keys == Elements(Endpoints(ProcessedLinks(rows)))
    ensures EdgeLinks(session.edges) == ProcessedLinks(rows)
    ensures session.existingCoords == Samples(draws, |session.pointOrder|)
    ensures session.cursor == CursorAfter(draws, |session.pointOrder|)
    ensures |rows| <= 1 ==> session.points == map[] && session.edges == []
  {
    session := new GraphSession(draws);
    if rows == [] {
      return session, MissingHeader;
    }
    var read := session.ReadDataRows(rows[1..]);
    status := if read < |rows| - 1 then RowTooShort(read) else Completed;
    Finish(session, rows);
  }

  /** What the loop has built when it stops: the rows read are those before
      the first short one, the keys are the ids they mention, and a run
      without data rows builds nothing. */
  lemma Finish<Field(!new)>(session: GraphSession<Field>, rows: seq<seq<Field>>)
    requires rows != [] && session.Valid()
    requires EdgeLinks(session.edges) == ScanLinks(rows[1..])
    requires session.pointOrder == Dedup(Endpoints(ScanLinks(rows[1..])))
    ensures |session.edges| == FirstShortRow(rows[1..])
    ensures session.points.Keys == Elements(Endpoints(ScanLinks(rows[1..])))
    ensures |rows| <= 1 ==> session.points == map[] && session.edges == []
  {
    ScanLinksRows(rows[1..]);
    EdgeLinksPairs(session.edges);
    KeysAreEndpoints(session, ScanLinks(rows[1..]));
  }

  /** The keys of a valid session whose key order comes from `links` are
      exactly the ids those rows mention. */
  lemma KeysAreEndpoints<Field(!new)>(session: GraphSession<Field>, links: seq<Link<Field>>)
    requires session.Valid() && session.pointOrder == Dedup(Endpoints(links))
    ensures session.points.Keys == Elements(Endpoints(links))
  {
    DedupMembers(Endpoints(links));
  }

  /** One coordinate per key: `existing_coords` is as long as the table, and
      the table holds one key per distinct id the rows mention. */
  lemma CoordinatePerKey<Field(!new)>(session: GraphSession<Field>, links: seq<Link<Field>>)
    requires session.Valid() && session.pointOrder == Dedup(Endpoints(links))
    ensures |session.existingCoords| == |session.points.Keys| == |Elements(Endpoints(links))|
  {
    KeysAreEndpoints(session, links);
    DedupSize(Endpoints(links));
  }
}
