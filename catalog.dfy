/** The catalog of SCP entries as the application stores it: an ordered
    sequence of records, the add form that builds one, the three columns
    the list view shows for each, lookup of the first record with a given
    id, and removal of every record with a given id. */
module Catalog {
  import opened Text
  import opened Seqs

  datatype Option<T> = None | Some(value: T)

  /** One stored entry; every field is a string, `createdAt` formatted
      `YYYY-MM-DD HH:MM:SS` by the caller. */
  datatype Record = Record(
    id: string,
    objectClass: string,
    name: string,
    description: string,
    containmentProcedure: string,
    createdAt: string)

  /** One row of the list view: the id, class and name columns. */
  datatype Row = Row(id: string, objectClass: string, name: string)

  /** The add form as the user left it: the three entry fields and the
      full text of the two text areas. */
  datatype Entry = Entry(
    id: string,
    objectClass: string,
    name: string,
    description: string,
    containmentProcedure: string)

  function RowOf(r: Record): Row {
    Row(r.id, r.objectClass, r.name)
  }

  /** The record the add form submits: the three entry fields exactly as
      typed, the two text areas with surrounding whitespace stripped, and
      the creation time given by the caller. */
  function NewRecord(e: Entry, now: string): (r: Record)
    ensures r.id == e.id && r.objectClass == e.objectClass && r.name == e.name
    ensures IsStripOf(e.description, r.description)
    ensures IsStripOf(e.containmentProcedure, r.containmentProcedure)
    ensures r.createdAt == now
  {
    Record(e.id, e.objectClass, e.name, Strip(e.description), Strip(e.containmentProcedure), now)
  }

  /** The rows the list view shows for catalog `c`: one per record, in
      catalog order. */
  function Render(c: seq<Record>): (rows: seq<Row>)
    ensures |rows| == |c|
    ensures forall i :: 0 <= i < |c| ==> rows[i] == RowOf(c[i])
  {
    if c == [] then [] else Render(c[..|c| - 1]) + [RowOf(c[|c| - 1])]
  }

  /** The first record of `c` whose id is `key`, if there is one. */
  function Find(c: seq<Record>, key: string): (found: Option<Record>)
    ensures found.None? <==> forall i :: 0 <= i < |c| ==> c[i].id != key
    ensures found.Some? ==>
      exists i :: 0 <= i < |c| && c[i] == found.value && c[i].id == key &&
        forall j :: 0 <= j < i ==> c[j].id != key
  {
    if c == [] then None
    else if c[0].id == key then
      Some(c[0])
    else
      var found := Find(c[1..], key);
      if found.Some? then
        var i :| 0 <= i < |c[1..]| && c[1..][i] == found.value && c[1..][i].id == key &&
          forall j :: 0 <= j < i ==> c[1..][j].id != key;
        assert c[i + 1] == found.value;
        assert forall j :: 0 <= j < i + 1 ==> c[j].id != key by {
          forall j | 0 <= j < i + 1 ensures c[j].id != key {
            if j > 0 { assert c[j] == c[1..][j - 1]; }
          }
        }
        found
      else
        assert forall j :: 1 <= j < |c| ==> c[j] == c[1..][j - 1];
        found
  }

  /** Number of records of `c` whose id is `key`. */
  function Count(c: seq<Record>, key: string): nat {
    if c == [] then 0
    else Count(c[..|c| - 1], key) + (if c[|c| - 1].id == key then 1 else 0)
  }

  function IdIsNot(key: string): Record -> bool {
    (r: Record) => r.id != key
  }

  /** The catalog with every record whose id is `key` removed and the
      others kept (in their original order, see `DeleteKeepsOrder`). */
  function Delete(c: seq<Record>, key: string): (kept: seq<Record>)
    ensures forall r :: r in kept <==> r in c && r.id != key
  {
    forall r ensures r in Filter(c, IdIsNot(key)) <==> r in c && r.id != key {
      FilterMembers(c, IdIsNot(key), r);
    }
    Filter(c, IdIsNot(key))
  }

  /** Deleting never reorders the records it keeps. */
  lemma DeleteKeepsOrder(c: seq<Record>, key: string)
    ensures IsSubsequence(Delete(c, key), c)
  {
    FilterIsSubsequence(c, IdIsNot(key));
  }

  /** Deleting removes exactly the records with that id, duplicates
      included. */
  lemma {:induction false} DeleteRemovesEveryMatch(c: seq<Record>, key: string)
    ensures |Delete(c, key)| == |c| - Count(c, key)
  {
    if c != [] {
      DeleteRemovesEveryMatch(c[..|c| - 1], key);
    }
  }

  /** Deleting keeps every copy of a record with another id, duplicates
      included, and no copy of a record with the deleted id. */
  lemma DeleteKeepsEveryCopy(c: seq<Record>, key: string, r: Record)
    ensures multiset(Delete(c, key))[r] == if r.id != key then multiset(c)[r] else 0
  {
    FilterCopies(c, IdIsNot(key), r);
  }

  /** Deleting an id that no record has leaves the catalog as it was. */
  lemma DeleteAbsent(c: seq<Record>, key: string)
    requires forall i :: 0 <= i < |c| ==> c[i].id != key
    ensures Delete(c, key) == c
  {
    FilterKeepsAll(c, IdIsNot(key));
  }

  /** Deleting twice is deleting once. */
  lemma DeleteIdempotent(c: seq<Record>, key: string)
    ensures Delete(Delete(c, key), key) == Delete(c, key)
  {
    FilterIdempotent(c, IdIsNot(key));
  }

  /** Delete seen from the front of the catalog. */
  lemma DeleteFirst(c: seq<Record>, key: string)
    requires c != []
    ensures Delete(c, key) == (if c[0].id != key then [c[0]] else []) + Delete(c[1..], key)
  {
    FilterFirst(c, IdIsNot(key));
  }

  /** After a delete, looking the id up finds nothing. */
  lemma FindAfterDeleteMisses(c: seq<Record>, key: string)
    ensures Find(Delete(c, key), key).None?
  {
  }

  /** Deleting one id does not change what a lookup of another id finds. */
  lemma {:induction false} FindAfterDeleteOther(c: seq<Record>, key: string, other: string)
    requires other != key
    ensures Find(Delete(c, key), other) == Find(c, other)
  {
    if c != [] {
      DeleteFirst(c, key);
      var d := Delete(c[1..], key);
      if c[0].id == key {
        assert Delete(c, key) == d;
        FindAfterDeleteOther(c[1..], key, other);
      } else if c[0].id != other {
        assert Delete(c, key) == [c[0]] + d;
        assert ([c[0]] + d)[1..] == d;
        FindAfterDeleteOther(c[1..], key, other);
      } else {
        assert Delete(c, key) == [c[0]] + d;
      }
    }
  }

  /** Appending a record leaves every lookup that already succeeded as it
      was; a lookup that failed now finds the new record when the ids
      match. */
  lemma {:induction false} FindAfterAppend(c: seq<Record>, r: Record, key: string)
    ensures Find(c + [r], key) ==
      if Find(c, key).Some? then Find(c, key)
      else if r.id == key then Some(r) else None
  {
    if c != [] {
      assert (c + [r])[1..] == c[1..] + [r];
      FindAfterAppend(c[1..], r, key);
    }
  }

  /** Every row the list view shows for the catalog names an id that the
      lookup finds. */
  lemma ShownRowIsFound(c: seq<Record>, row: Row)
    ensures row in Render(c) ==> Find(c, row.id).Some?
  {
    if row in Render(c) {
      var i :| 0 <= i < |Render(c)| && Render(c)[i] == row;
      assert c[i].id == row.id;
    }
  }
}
