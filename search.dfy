/** The list view's search: which shown rows a query keeps. */
module Search {
  import opened Text
  import opened Seqs
  import opened Catalog

  /** A shown row matches a lower-cased query when any of its three
      columns, lower-cased, contains the query. */
  predicate Matches(row: Row, q: string) {
    Contains(Lower(row.id), q) || Contains(Lower(row.objectClass), q) || Contains(Lower(row.name), q)
  }

  function MatchesQuery(q: string): Row -> bool {
    (row: Row) => Matches(row, q)
  }

  /** The rows a non-empty search leaves attached: the matching ones, in
      the order they were shown. */
  function Narrow(rows: seq<Row>, q: string): seq<Row> {
    Filter(rows, MatchesQuery(q))
  }

  /** A search keeps exactly the shown rows that match. */
  lemma NarrowMembers(rows: seq<Row>, q: string)
    ensures forall row :: row in Narrow(rows, q) <==> row in rows && Matches(row, q)
  {
    forall row ensures row in Narrow(rows, q) <==> row in rows && Matches(row, q) {
      FilterMembers(rows, MatchesQuery(q), row);
    }
  }

  /** A search that no shown row matches detaches every row. */
  lemma {:induction false} NarrowNoneMatch(rows: seq<Row>, q: string)
    requires forall i :: 0 <= i < |rows| ==> !Matches(rows[i], q)
    ensures Narrow(rows, q) == []
  {
    if rows != [] {
      NarrowNoneMatch(rows[..|rows| - 1], q);
    }
  }

  /** A search keeps every shown copy of a matching row and detaches
      every copy of any other row. */
  lemma NarrowKeepsEveryCopy(rows: seq<Row>, q: string, row: Row)
    ensures multiset(Narrow(rows, q))[row] == if Matches(row, q) then multiset(rows)[row] else 0
  {
    FilterCopies(rows, MatchesQuery(q), row);
  }

  /** One step of the search loop over `rows`: with the first `i` rows
      already narrowed and the rest still attached, row `i` is either kept
      or detached, and the list becomes the first `i + 1` rows narrowed
      followed by the rest. */
  lemma NarrowStep(rows: seq<Row>, i: int, q: string)
    requires 0 <= i < |rows|
    ensures var kept := Narrow(rows[..i], q);
      if Matches(rows[i], q) then
        Narrow(rows[..i + 1], q) == kept + [rows[i]] &&
        kept + rows[i..] == Narrow(rows[..i + 1], q) + rows[i + 1..]
      else
        Narrow(rows[..i + 1], q) == kept &&
        var attached := kept + rows[i..];
        attached[..|kept|] + attached[|kept| + 1..] == kept + rows[i + 1..]
  {
    FilterPrefix(rows, i, MatchesQuery(q));
    SplitAt(rows, i);
    RemoveAfter(Narrow(rows[..i], q), rows[i], rows[i + 1..]);
  }

  /** A search detaches rows but never reorders the ones it keeps. */
  lemma NarrowKeepsOrder(rows: seq<Row>, q: string)
    ensures IsSubsequence(Narrow(rows, q), rows)
  {
    FilterIsSubsequence(rows, MatchesQuery(q));
  }

  /** Narrowing rows that all come, in order, from `whole` leaves rows that
      still do. */
  lemma NarrowStaysInside(rows: seq<Row>, whole: seq<Row>, q: string)
    requires IsSubsequence(rows, whole)
    ensures IsSubsequence(Narrow(rows, q), whole)
    ensures forall row :: row in Narrow(rows, q) ==> row in whole
  {
    var kept := Narrow(rows, q);
    NarrowKeepsOrder(rows, q);
    NarrowMembers(rows, q);
    SubsequenceTransitive(kept, rows, whole);
    forall row | row in kept ensures row in whole {
      SubsequenceMembers(kept, whole, row);
    }
  }

  /** Searching again for the same query detaches nothing more. */
  lemma NarrowIdempotent(rows: seq<Row>, q: string)
    ensures Narrow(Narrow(rows, q), q) == Narrow(rows, q)
  {
    FilterIdempotent(rows, MatchesQuery(q));
  }

  /** Searches compound: two successive searches keep the rows matching
      both queries, whichever was typed first. */
  lemma NarrowCommutes(rows: seq<Row>, q1: string, q2: string)
    ensures Narrow(Narrow(rows, q1), q2) == Narrow(Narrow(rows, q2), q1)
  {
    FilterCommutes(rows, MatchesQuery(q1), MatchesQuery(q2));
  }

  /** The empty query matches every row, so narrowing by it would keep the
      list whole; the search reloads the list instead. */
  lemma NarrowByEmptyKeepsAll(rows: seq<Row>)
    ensures Narrow(rows, []) == rows
  {
    forall i | 0 <= i < |rows| ensures Matches(rows[i], []) {
      ContainsEmpty(Lower(rows[i].id));
    }
    FilterKeepsAll(rows, MatchesQuery([]));
  }

  /** A catalog record is found by a search when its id, class or name
      contains the query; its description and containment procedure are
      not searched. */
  predicate RecordMatches(r: Record, q: string) {
    Matches(RowOf(r), q)
  }

  function RecordMatchesQuery(q: string): Record -> bool {
    (r: Record) => RecordMatches(r, q)
  }

  /** Searching the freshly loaded list shows the rows of exactly the
      records whose id, class or name contains the query, in catalog
      order. */
  lemma {:induction false} NarrowRender(c: seq<Record>, q: string)
    ensures Narrow(Render(c), q) == Render(Filter(c, RecordMatchesQuery(q)))
  {
    if c != [] {
      var init, last := c[..|c| - 1], c[|c| - 1];
      NarrowRender(init, q);
      var kept := Filter(init, RecordMatchesQuery(q));
      assert Render(c) == Render(init) + [RowOf(last)];
      FilterAppend(Render(init), [RowOf(last)], MatchesQuery(q));
      assert [RowOf(last)][..0] == [];
      if RecordMatches(last, q) {
        assert Filter(c, RecordMatchesQuery(q)) == kept + [last];
        assert (kept + [last])[..|kept|] == kept;
      }
    }
  }
}
