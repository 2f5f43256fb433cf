/** The bookkeeping behind the node table: which node ids a list of edge
    rows introduces, in the order in which they are first seen.  Python
    dictionaries keep their keys in insertion order, so this is also the key
    order of the table the read loop builds.  Ids are only stored and
    compared, so they are of any type with equality; the read loop uses the
    CSV field text.
 */
module FirstSeen {

  /** One data row of the edge list, reduced to the two columns read. */
  datatype Link<T> = Link(source: T, target: T)

  predicate NoDuplicates<T(==)>(s: seq<T>) {
    forall i, j :: 0 <= i < j < |s| ==> s[i] != s[j]
  }

  function Elements<T>(s: seq<T>): set<T> {
    set x | x in s
  }

  /** The ids a row sequence mentions, each row contributing its source and
      then its target: the order in which the loop looks them up. */
  function Endpoints<T>(links: seq<Link<T>>): seq<T> {
    if links == [] then []
    else
      var n := |links| - 1;
      Endpoints(links[..n]) + [links[n].source, links[n].target]
  }

  /** Each row contributes two ids, its source and then its target. */
  lemma {:induction false} EndpointsOrder<T>(links: seq<Link<T>>)
    ensures |Endpoints(links)| == 2 * |links|
    ensures forall i :: 0 <= i < |links| ==>
              Endpoints(links)[2 * i] == links[i].source && Endpoints(links)[2 * i + 1] == links[i].target
  {
    if links != [] {
      EndpointsOrder(links[..|links| - 1]);
    }
  }

  /** One lookup-and-insert step: `x` is appended to the key order unless it
      is already there. */
  function AppendUnseen<T(==)>(seen: seq<T>, x: T): (r: seq<T>)
    ensures x in r && seen <= r
    ensures r == seen <==> x in seen
  {
    if x in seen then seen else seen + [x]
  }

  /** The distinct elements of `xs`, in order of first occurrence. */
  function Dedup<T(==)>(xs: seq<T>): seq<T> {
    if xs == [] then []
    else AppendUnseen(Dedup(xs[..|xs| - 1]), xs[|xs| - 1])
  }

  /** The position at which `x` first occurs in `xs`. */
  function FirstIndex<T(==)>(xs: seq<T>, x: T): (r: nat)
    requires x in xs
    ensures r < |xs| && xs[r] == x
    ensures forall k :: 0 <= k < r ==> xs[k] != x
  {
    var n := |xs| - 1;
    if x in xs[..n] then FirstIndex(xs[..n], x) else n
  }

  /** Dedup keeps exactly the elements of its input. */
  lemma {:induction false} DedupMembers<T>(xs: seq<T>)
    ensures forall x :: x in Dedup(xs) <==> x in xs
  {
    if xs != [] {
      var n := |xs| - 1;
      DedupMembers(xs[..n]);
      assert xs == xs[..n] + [xs[n]];
    }
  }

  /** Dedup keeps each element once. */
  lemma {:induction false} DedupNoDuplicates<T>(xs: seq<T>)
    ensures NoDuplicates(Dedup(xs))
  {
    if xs != [] {
      DedupNoDuplicates(xs[..|xs| - 1]);
    }
  }

  /** The number of keys equals the number of distinct ids. */
  lemma {:induction false} DedupSize<T>(xs: seq<T>)
    ensures |Dedup(xs)| == |Elements(xs)|
  {
    if xs != [] {
      var n := |xs| - 1;
      var p := xs[..n];
      DedupSize(p);
      DedupMembers(p);
      assert xs == p + [xs[n]];
      assert Elements(xs) == Elements(p) + {xs[n]};
      if xs[n] in p {
        assert Elements(xs) == Elements(p);
      } else {
        assert xs[n] !in Elements(p);
      }
    }
  }

  /** Keys come out in order of first occurrence. */
  lemma {:induction false} DedupFirstSeenOrder<T>(xs: seq<T>)
    ensures forall x :: x in Dedup(xs) ==> x in xs
    ensures forall i, j :: 0 <= i < j < |Dedup(xs)| ==>
              FirstIndex(xs, Dedup(xs)[i]) < FirstIndex(xs, Dedup(xs)[j])
  {
    DedupMembers(xs);
    if xs != [] {
      var n := |xs| - 1;
      var p := xs[..n];
      DedupFirstSeenOrder(p);
      DedupMembers(p);
      var d, e := Dedup(p), Dedup(xs);
      forall i, j | 0 <= i < j < |e|
        ensures FirstIndex(xs, e[i]) < FirstIndex(xs, e[j])
      {
        assert e[i] in d;
        assert FirstIndex(xs, e[i]) == FirstIndex(p, e[i]);
        if j < |d| {
          assert FirstIndex(xs, e[j]) == FirstIndex(p, e[j]);
        } else {
          assert e[j] == xs[n] && xs[n] !in p;
        }
      }
    }
  }

  /** Later rows only append keys: the keys already present keep their
      positions. */
  lemma {:induction false} DedupExtends<T>(xs: seq<T>, ys: seq<T>)
    ensures Dedup(xs) <= Dedup(xs + ys)
  {
    if ys != [] {
      var n := |ys| - 1;
      DedupExtends(xs, ys[..n]);
      assert (xs + ys)[..|xs + ys| - 1] == xs + ys[..n];
    } else {
      assert xs + ys == xs;
    }
  }

  /** A row adds its source and then its target to the key order, each
      only when unseen. */
  lemma DedupAddLink<T>(links: seq<Link<T>>, l: Link<T>)
    ensures Dedup(Endpoints(links + [l])) == AppendUnseen(AppendUnseen(Dedup(Endpoints(links)), l.source), l.target)
  {
    var e := Endpoints(links);
    assert (links + [l])[..|links|] == links;
    assert Endpoints(links + [l]) == e + [l.source, l.target];
    assert (e + [l.source, l.target])[..|e| + 1] == e + [l.source];
    assert (e + [l.source])[..|e|] == e;
  }

  /** A self-loop row introduces at most one key. */
  lemma SelfLoopAddsAtMostOne<T>(seen: seq<T>, x: T)
    ensures AppendUnseen(AppendUnseen(seen, x), x) == AppendUnseen(seen, x)
    ensures |AppendUnseen(seen, x)| <= |seen| + 1
  {
  }

  /** The rows (A,B), (B,C), (A,B) introduce the keys A, B, C. */
  lemma FirstSeenExample()
    ensures Dedup(Endpoints<string>([Link("A", "B"), Link("B", "C"), Link("A", "B")])) == ["A", "B", "C"]
  {
    var links: seq<Link<string>> := [Link("A", "B"), Link("B", "C"), Link("A", "B")];
    var xs := Endpoints(links);
    EndpointsOrder(links);
    assert xs == ["A", "B", "B", "C", "A", "B"];
    assert Dedup(xs[..1]) == ["A"];
    assert Dedup(xs[..2]) == ["A", "B"] by { assert xs[..2][..1] == xs[..1]; }
    assert Dedup(xs[..3]) == ["A", "B"] by { assert xs[..3][..2] == xs[..2]; }
    assert Dedup(xs[..4]) == ["A", "B", "C"] by { assert xs[..4][..3] == xs[..3]; }
    assert Dedup(xs[..5]) == ["A", "B", "C"] by { assert xs[..5][..4] == xs[..4]; }
    assert xs[..6][..5] == xs[..5] && xs[..6] == xs;
  }
}
