# Graph builder of spotify-network, in Dafny

The repository turns an edge list (a CSV file with a header row, then one row
per connection, the source id in column 1 and the target id in column 2) into
a 3D scene in Blender: one small sphere per distinct node id, placed by
rejection sampling inside a flattened ellipsoid, and one curved tube per row.
This project models the bookkeeping at the heart of that script, in
`blender.py`:

- `generate_coordinates`, the rejection sampler (module `Sampler`);
- the module-level table `points`, the lists `existing_coords` and `edges`,
  and the read loop that fills them (module `GraphBuild`, class
  `GraphSession`);
- the insertion-order behaviour of the `points` dictionary, as a pure theory
  of "distinct ids in order of first occurrence" (module `FirstSeen`);
- the two renderer objects the loop keeps, a point with a name and a location
  and an edge between two points (module `Scene`).

Modelling choices:

- The random source is a parameter: an infinite stream `draws: nat -> Coord`
  of candidate triples, read from a cursor the session keeps. Every call to
  the sampler goes on from where the previous one stopped. One element of
  the stream is one whole candidate (x, y, z): it stands for the three
  `random.uniform` calls of one iteration of the retry loop
  (blender.py:130-132). The sampler's probabilistic termination becomes a
  precondition (`Endless`): from every position, some later candidate is
  accepted.
- `Samples(draws, n)` is what the first `n` sampler calls return, in call
  order, and `CursorAfter(draws, n)` is where they leave the cursor. The
  session invariant ties the globals to the stream: `existing_coords` is
  `Samples(draws, k)` and the cursor is `CursorAfter(draws, k)`, where `k`
  is the number of keys.
- Coordinates are mathematical reals, not floats.
- Node ids have any type with equality. The script compares the CSV field
  strings for equality and uses each one as its point's name.
- The dictionary `points` is a `map` plus a `seq` of its keys in insertion
  order, because Python dictionaries keep that order.
- The input is the sequence of records that `csv.reader` yields, each a
  sequence of fields.
- The run ends in a `Status`:
  - `Completed`.
  - `MissingHeader`: the file has no record, so skipping the header with
    `next()` raises `StopIteration`.
  - `RowTooShort(index)`: data row `index` (0-based after the header) has
    fewer than three fields, so `row[1]` or `row[2]` raises `IndexError`.
  
  Exceptions are not caught, so on either error the table and lists keep what
  the earlier rows built.

## Model

| member | source | states |
|---|---|---|
| `Sampler.GenerateCoordinates` | blender.py:128-136 | Returns the first accepted candidate from the start position on, where accepted means 2x²+2y²+z² ≤ max². Every candidate skipped before it was rejected. The cursor moves past it, to `FirstAccepted(start) + 1`. The result does not depend on `existingCoords` or `minDistance`. |
| `Sampler.FirstAcceptedExists` | blender.py:129-136 | A scan from a start position that meets an accepted candidate at `w` meets a first accepted one at or before `w`, with every candidate before it rejected. |
| `Sampler.FirstAccepted` | blender.py:129-136 | Where a retry loop started at a given position stops: at or after the start, on an accepted candidate. |
| `Sampler.FirstAcceptedFirst` | blender.py:129-136 | Every candidate between the start and `FirstAccepted` is rejected, so `FirstAccepted` is the first accepted position. |
| `Sampler.Samples` | blender.py:158-159 | The first `n` sampler calls of the read loop return `n` coordinates. |
| `Sampler.SamplesStep` | blender.py:158-165 | Call n+1 starts at the cursor the first n calls left, stops just after the first accepted candidate from there, and appends that candidate to the results. |
| `Sampler.SamplesAppend` | blender.py:158-159 | The same step on values: a list and cursor equal to the first n calls' results and cursor, followed by one more sampler call, give the results and cursor of n+1 calls. |
| `Sampler.SamplesInOrder` | blender.py:158-165 | Later calls only append to the results, the cursor never moves back, and every returned coordinate passes the acceptance test. |
| `Sampler.SamplesAt` | blender.py:158-165 | The i-th result is the candidate just before the cursor that call i+1 leaves. |
| `Sampler.OriginStreamSamples` | blender.py:129-136 | A stream that yields only the origin satisfies `Endless`, and every sampler call on it returns the origin. |
| `Sampler.AcceptedWithinBounds` | blender.py:134 | The acceptance test `Accepts` (2x²+2y²+z² ≤ max²) bounds each component: an accepted triple lies in the cube [-\|max\|, \|max\|]³. For a non-negative max (the default 300.0), that is the cube the candidates are drawn from. |
| `Sampler.FirstAcceptedUnique` | blender.py:129-136 | Two scans that both stop at the first accepted candidate after the same start stop at the same position. So the sampler's result is fixed by the stream, the start and max alone. |
| `FirstSeen.AppendUnseen` | blender.py:157-168 | The `if id not in points` step on the key order: the id is in the result, the old order is a prefix of it, and the order is unchanged exactly when the id was already present. |
| `FirstSeen.EndpointsOrder` | blender.py:155-163 | Rows are looked up source first, then target: row i contributes ids 2i and 2i+1. |
| `FirstSeen.DedupMembers` | blender.py:157-168 | The keys are exactly the ids the rows mention. |
| `FirstSeen.DedupNoDuplicates` | blender.py:157-168 | No id becomes a key twice. |
| `FirstSeen.DedupSize` | blender.py:157-168 | The number of keys equals the number of distinct ids. |
| `FirstSeen.DedupFirstSeenOrder` | blender.py:157-168 | Keys appear in the order in which their ids are first seen. |
| `FirstSeen.DedupExtends` | blender.py:152-171 | Later rows only append keys. The keys already present keep their positions. |
| `FirstSeen.DedupAddLink` | blender.py:155-168 | One row adds its source and then its target to the key order, each only if unseen. |
| `FirstSeen.SelfLoopAddsAtMostOne` | blender.py:157-168 | A row whose source and target are the same id adds at most one key, so its second lookup changes nothing. |
| `FirstSeen.FirstSeenExample` | blender.py:155-168 | The rows (A,B), (B,C), (A,B) give the keys A, B, C, in that order. |
| `GraphBuild.GraphSession.constructor` | blender.py:140-142 | `points`, `edges` and `existing_coords` start empty. The session invariant holds. |
| `GraphBuild.SessionAdd` | blender.py:158-160 | Storing a new id with the sampler's next result, on the values of the globals, keeps the session invariant: the table invariants, and `existing_coords` and the cursor equal to the results and cursor of the sampler calls so far. |
| `GraphBuild.TableAppend` | blender.py:158-160 | A new id stored with an accepted coordinate, appended to the key order and to `existing_coords`, keeps one accepted coordinate per key, each its point's location. |
| `GraphBuild.EdgesKeep` | blender.py:160 | A new table entry keeps every edge between table points. |
| `GraphBuild.GraphSession.CreateNode` | blender.py:158-162 | For an id not yet in the table: the sampler runs from the cursor, the new cursor is `FirstAccepted(old cursor) + 1`, and that candidate is appended to `existing_coords` and stored as a new point named after the id. The id goes last in the key order. No other entry and no edge changes. The session invariant, with its tie to the stream, is kept. |
| `GraphBuild.GraphSession.AddPointIfMissing` | blender.py:157-168 | The key order becomes `AppendUnseen(old, id)` and the keys gain `id`. Existing entries are never overwritten. Edges are unchanged. An id already present draws no candidate and changes nothing else. A new id gets the sampler's next result: the first accepted candidate after the cursor, appended to `existing_coords` and stored as its point's location. |
| `GraphBuild.GraphSession.AddEdge` | blender.py:170-171 | Exactly one edge is appended, between the stored points of source and target. Its pair of names is (source, target). The table, `existing_coords` and the random cursor are unchanged. |
| `GraphBuild.GraphSession.AddRow` | blender.py:155-171 | One data row: source then target are added if missing, existing entries are preserved, and exactly one edge is appended for the pair, self-loops and duplicates included. The cursor never moves back. When both ids are already keys, no candidate is drawn and `existing_coords` is unchanged. The session invariant is kept: both endpoints of every edge are table points, and there is one accepted coordinate per key. `existing_coords` is `Samples(draws, k)` and the cursor `CursorAfter(draws, k)`, for `k` keys. |
| `GraphBuild.GraphSession.ReadDataRows` | blender.py:152-173 | The loop stops at the first row with fewer than three fields, or at the end. It builds one edge per row read, with that row's (source, target). It leaves the key order equal to the distinct ids of those rows in first-seen order, and `existing_coords` equal to the results of one sampler call per key, `Samples(draws, k)`. |
| `GraphBuild.FirstShortRow` | blender.py:155-156 | The position of the first row with fewer than three fields: all rows before it have three or more, and the row there (if any) has fewer. |
| `GraphBuild.ScanLinksRows` | blender.py:152-156 | The pairs read are one per row before the first short row, in order, each being fields 1 and 2 of its row. |
| `GraphBuild.ReadOutcome` | blender.py:148-156 | The outcome is `MissingHeader` exactly for the empty input, and `Completed` exactly when every data row has at least three fields. Otherwise it is `RowTooShort(i)`, with row i short and every earlier data row long enough. |
| `GraphBuild.ProcessedLinksRows` | blender.py:150-156 | The header is never read as data. There is one pair per data row when the run completes, and one per row before the failing one otherwise. Each pair is fields 1 and 2 of its row. |
| `GraphBuild.EdgeLinksPairs` | blender.py:170-171 | There is one (source name, target name) pair per edge, in list order. |
| `GraphBuild.ReadGraph` | blender.py:140-173 | The whole run. The status is `ReadOutcome(rows)`. The key order is the distinct ids of the processed rows in first-seen order, and the keys are exactly those ids. The edges are exactly the processed rows' pairs. `existing_coords` is `Samples(draws, k)` for `k` keys, and the cursor is `CursorAfter(draws, k)`. A header-only input builds nothing. |
| `GraphBuild.Finish` | blender.py:152-173 | When the loop stops, the number of edges is the position of the first short row, the keys are the ids mentioned in the rows read, and no data row means no point and no edge. |
| `GraphBuild.KeysAreEndpoints` | blender.py:157-168 | In a valid session whose key order comes from some rows, the table's keys are exactly the ids those rows mention. |
| `GraphBuild.CoordinatePerKey` | blender.py:157-168 | `existing_coords` is as long as the table, and both equal the number of distinct ids mentioned. |

## Left out

- Everything `bpy` does is out of scope. Mesh creation, the emissive and gradient materials, the Bezier curve geometry of `create_curved_edge`, and the collection link/unlink calls produce no data the loop reads back. The renderer appears only through the point and edge objects it returns.
- Blender's object-name uniquifying (a second object named "A" becoming "A.001") is not modelled. A point's name is its id.
- Opening the file, UTF-8 decoding and CSV tokenising are not modelled. The input is already the sequence of records, and the file-not-found and decode errors are left out.
- The progress log every 100 rows (with its fixed denominator 18061) is not modelled, because it only writes to the log.
- `random.uniform` becomes a given stream of candidates. The model does not capture the distribution, the expected number of draws, or termination "with probability 1". It requires instead that an accepted candidate always comes later in the stream.
- Floating point is modelled as exact reals, so rounding in `x**2` and in the comparison is not captured.
- The order in which the renderer is asked to create points and edges is not modelled as a call log. The model records what the loop stores: the table, its key order, `existing_coords` and `edges`.
- GraphBuild.GraphSession.AddRow: does not restate that the keys grow by source and target, because that conjunct makes the read loop too costly to verify. It follows from the key-order postcondition with the session invariant (`AddPointIfMissing` states it for one id).
- GraphBuild.GraphSession.ReadDataRows: requires an empty session, because the script runs its loop once on freshly initialised globals.
