/** The application object: the catalog file it reads and rewrites, the
    rows its list view shows, and the item that has the list's focus. Each
    method is one of the actions the window offers. */
module App {
  import opened Seqs
  import opened Catalog
  import opened Search
  import opened Text

  /** The catalog file as the application finds it: absent, present but
      not a readable catalog document, or holding the records in order. */
  datatype Document = Missing | Malformed | Stored(scps: seq<Record>)

  /** The records a read of the file yields; none when it cannot be read. */
  function CatalogOf(d: Document): seq<Record> {
    if d.Stored? then d.scps else []
  }

  /** Why an action was refused: nothing has the list's focus, the file
      could not be read, parsed or written, or the focused id has no
      record. */
  datatype Failure = NoSelection | StorageError | NotFound

  /** How an action ended; `Declined` is a delete the user did not confirm. */
  datatype Outcome = Done | Declined | Failed(reason: Failure)

  datatype Result<T> = Ok(value: T) | Err(error: Failure)

  /** The list view's focus item: none; an item still attached to the
      list, given by its position among the shown rows; or an item a search
      has detached, which keeps its values but is no longer shown. */
  datatype Focus = NoFocus | OnShown(pos: nat) | OnDetached(row: Row)

  /** The values of the focused item, which view and delete read. */
  function FocusedRow(f: Focus, shown: seq<Row>): Option<Row>
    requires f.OnShown? ==> f.pos < |shown|
  {
    match f
    case NoFocus => None
    case OnShown(p) => Some(shown[p])
    case OnDetached(row) => Some(row)
  }

  /** Refilling the list deletes every attached item, and the focus goes
      with a deleted item; an item a search detached is not deleted, so a
      focus on it stays. */
  function AfterReload(f: Focus): Focus {
    if f.OnShown? then NoFocus else f
  }

  /** The focus once the attached item at position `k`, holding `row`, is
      detached: the item keeps the focus, and the items below it move up. */
  function AfterDetach(f: Focus, k: nat, row: Row): Focus {
    match f
    case OnShown(p) =>
      if p == k then OnDetached(row) else if p > k then OnShown(p - 1) else f
    case _ => f
  }

  /** Where a non-empty search over the shown `rows` leaves the focus: on
      the last row it kept; when it kept none, every row was detached, the
      focused one included. */
  function SearchFocus(rows: seq<Row>, q: string, before: Focus): Focus
    requires before.OnShown? ==> before.pos < |rows|
  {
    var kept := Narrow(rows, q);
    if kept != [] then OnShown(|kept| - 1)
    else if before.OnShown? then OnDetached(rows[before.pos])
    else before
  }

  /** After a search that kept some row, the focus is on the last kept row,
      which was shown and matches the query. After one that kept none, no
      shown item has the focus and the focused values are what they were. */
  lemma SearchFocusMeaning(rows: seq<Row>, q: string, before: Focus)
    requires before.OnShown? ==> before.pos < |rows|
    ensures var kept, f := Narrow(rows, q), SearchFocus(rows, q, before);
      kept != [] ==>
        f == OnShown(|kept| - 1) && kept[|kept| - 1] in rows && Matches(kept[|kept| - 1], q)
    ensures var kept, f := Narrow(rows, q), SearchFocus(rows, q, before);
      kept == [] ==> !f.OnShown? && FocusedRow(f, kept) == FocusedRow(before, rows)
  {
    var kept := Narrow(rows, q);
    if kept != [] {
      NarrowMembers(rows, q);
      assert kept[|kept| - 1] in kept;
    }
  }

  /** Running the same search a second time changes neither the rows nor
      the focus. */
  lemma SearchAgainChangesNothing(rows: seq<Row>, q: string, before: Focus)
    requires before.OnShown? ==> before.pos < |rows|
    ensures var kept, f := Narrow(rows, q), SearchFocus(rows, q, before);
      Narrow(kept, q) == kept && (f.OnShown? ==> f.pos < |kept|) &&
      SearchFocus(kept, q, f) == f
  {
    NarrowIdempotent(rows, q);
  }

  class ScpDatabaseApp {
    /** The catalog file. */
    var doc: Document
    /** The rows attached to the list view, top to bottom. */
    var shown: seq<Row>
    /** The list view's focus item, if it has one. */
    var focus: Focus

    /** The catalog file exists, the list shows only rows of catalog
        records in catalog order, and an attached focus item is one of the
        shown rows. A detached focus item may name a record that has since
        been deleted. */
    ghost predicate Valid()
      reads this
    {
      doc != Missing &&
      IsSubsequence(shown, Render(CatalogOf(doc))) &&
      (focus.OnShown? ==> focus.pos < |shown|)
    }

    /** The values of the focused item. */
    function Selected(): Option<Row>
      reads this
      requires focus.OnShown? ==> focus.pos < |shown|
    {
      FocusedRow(focus, shown)
    }

    /** Start-up: make sure the catalog file exists, then fill the list. */
    constructor (persisted: Document)
      ensures Valid()
      ensures persisted == Missing ==> doc == Stored([])
      ensures persisted != Missing ==> doc == persisted
      ensures shown == Render(CatalogOf(doc)) && focus == NoFocus
    {
      doc, shown, focus := persisted, [], NoFocus;
      new;
      Initialize();
      var loaded := LoadData();
    }

    /** Creates the catalog file, holding no records, only when there is
        none; an existing file, readable or not, is left as it is, so a
        second call changes nothing. */
    method Initialize()
      modifies this`doc
      ensures doc != Missing
      ensures old(doc) == Missing ==> doc == Stored([])
      ensures old(doc) != Missing ==> doc == old(doc)
    {
      if doc == Missing {
        doc := Stored([]);
      }
    }

    /** Refills the list: every attached row is deleted (a focus on one of
        them goes with it), then one row per stored record is appended in
        catalog order. Rows a search detached are not deleted and stay
        hidden. An unreadable file leaves the list empty and is reported. */
    method LoadData() returns (res: Outcome)
      requires doc != Missing
      modifies this`shown, this`focus
      ensures Valid()
      ensures shown == Render(CatalogOf(doc)) && focus == AfterReload(old(focus))
      ensures res == if doc.Stored? then Done else Failed(StorageError)
    {
      shown, focus := [], AfterReload(focus);
      if !doc.Stored? {
        return Failed(StorageError);
      }
      var scps := doc.scps;
      var i := 0;
      while i < |scps|
        invariant 0 <= i <= |scps|
        invariant shown == Render(scps[..i]) && focus == AfterReload(old(focus))
      {
        assert scps[..i + 1] == scps[..i] + [scps[i]];
        shown := shown + [RowOf(scps[i])];
        i := i + 1;
      }
      assert scps[..i] == scps;
      SubsequenceReflexive(shown);
      res := Done;
    }

    /** The user moves the list's focus to the shown row at position `i`,
        by clicking it or with the arrow keys. */
    method FocusRow(i: nat)
      requires Valid() && i < |shown|
      modifies this`focus
      ensures Valid() && focus == OnShown(i)
      ensures Selected() == Some(shown[i])
    {
      focus := OnShown(i);
    }

    /** The add form's submit: the record is built from the form, the file
        is read, the record appended after all existing ones, and the whole
        catalog written back; then the list is refilled. A read, parse or
        write failure changes neither the file nor the list. */
    method Submit(form: Entry, now: string, writeOk: bool) returns (res: Outcome)
      requires Valid()
      modifies this
      ensures Valid()
      ensures old(doc).Stored? && writeOk ==>
        res == Done && doc == Stored(old(doc).scps + [NewRecord(form, now)]) &&
        shown == Render(doc.scps) && focus == AfterReload(old(focus))
      ensures !(old(doc).Stored? && writeOk) ==>
        res == Failed(StorageError) && doc == old(doc) && shown == old(shown) && focus == old(focus)
    {
      if doc.Stored? && writeOk {
        doc := Stored(doc.scps + [NewRecord(form, now)]);
        res := LoadData();
      } else {
        res := Failed(StorageError);
      }
    }

    /** The detail view's lookup: the first stored record whose id is the
        focused item's id. */
    method ViewSelected() returns (res: Result<Record>)
      requires Valid()
      ensures Selected().None? ==> res == Err(NoSelection)
      ensures Selected().Some? && !doc.Stored? ==> res == Err(StorageError)
      ensures Selected().Some? && doc.Stored? ==>
        (res.Ok? <==> exists i :: 0 <= i < |doc.scps| && doc.scps[i].id == Selected().value.id)
      ensures Selected().Some? && doc.Stored? && res.Err? ==> res.error == NotFound
      ensures res.Ok? ==>
        Selected().Some? && doc.Stored? && res.value.id == Selected().value.id &&
        Find(doc.scps, Selected().value.id) == Some(res.value)
      ensures focus.OnShown? ==> res != Err(NotFound)
    {
      var selected := Selected();
      if selected.None? {
        res := Err(NoSelection);
      } else if !doc.Stored? {
        res := Err(StorageError);
      } else {
        if focus.OnShown? {
          assert shown[focus.pos] in shown;
          SubsequenceMembers(shown, Render(doc.scps), shown[focus.pos]);
          ShownRowIsFound(doc.scps, shown[focus.pos]);
        }
        var found := Find(doc.scps, selected.value.id);
        match found
        case Some(record) =>
          res := Ok(record);
        case None =>
          res := Err(NotFound);
      }
    }

    /** The delete button: the focused item's id is taken, and once the user
        confirms, the file is read, every record with that id removed, and
        the rest written back in order; then the list is refilled. No focus,
        no confirmation, or a read, parse or write failure changes nothing. */
    method DeleteSelected(confirmed: bool, writeOk: bool) returns (res: Outcome)
      requires Valid()
      modifies this
      ensures Valid()
      ensures old(Selected()).None? ==> res == Failed(NoSelection) && unchanged(this)
      ensures old(Selected()).Some? && !confirmed ==> res == Declined && unchanged(this)
      ensures old(Selected()).Some? && confirmed && !(old(doc).Stored? && writeOk) ==>
        res == Failed(StorageError) && unchanged(this)
      ensures old(Selected()).Some? && confirmed && old(doc).Stored? && writeOk ==>
        res == Done && doc == Stored(Delete(old(doc).scps, old(Selected()).value.id)) &&
        shown == Render(doc.scps) && focus == AfterReload(old(focus))
    {
      var selected := Selected();
      if selected.None? {
        res := Failed(NoSelection);
      } else if !confirmed {
        res := Declined;
      } else if doc.Stored? && writeOk {
        doc := Stored(Delete(doc.scps, selected.value.id));
        res := LoadData();
      } else {
        res := Failed(StorageError);
      }
    }

    /** The search button. An empty query refills the list. Otherwise the
        query is lower-cased and each shown row, top to bottom, either
        takes the focus (it matches) or is detached from the list. */
    method Search(entry: string) returns (res: Outcome)
      requires Valid()
      modifies this`shown, this`focus
      ensures Valid()
      ensures entry == [] ==>
        res == (if doc.Stored? then Done else Failed(StorageError)) &&
        shown == Render(CatalogOf(doc)) && focus == AfterReload(old(focus))
      ensures entry != [] ==>
        res == Done && shown == Narrow(old(shown), Lower(entry)) &&
        focus == SearchFocus(old(shown), Lower(entry), old(focus))
    {
      var q := Lower(entry);
      if q == [] {
        res := LoadData();
      } else {
        ghost var whole := Render(CatalogOf(doc));
        NarrowStaysInside(shown, whole, q);
        DetachNonMatching(q);
        res := Done;
      }
    }

    /** The loop of a non-empty search: walks the rows shown when it
        starts, top to bottom; a matching row takes the focus, any other is
        detached. */
    method DetachNonMatching(q: string)
      requires focus.OnShown? ==> focus.pos < |shown|
      modifies this`shown, this`focus
      ensures shown == Narrow(old(shown), q)
      ensures focus == SearchFocus(old(shown), q, old(focus))
    {
      var children, before := shown, focus;
      var i, k := 0, 0;
      while i < |children|
        invariant 0 <= i <= |children|
        invariant before.OnShown? ==> before.pos < |children|
        invariant k == |Narrow(children[..i], q)|
        invariant shown == Narrow(children[..i], q) + children[i..]
        invariant k > 0 ==> focus == OnShown(k - 1)
        invariant k == 0 && before.OnShown? && before.pos < i ==> focus == OnDetached(children[before.pos])
        invariant k == 0 && before.OnShown? && before.pos >= i ==> focus == OnShown(before.pos - i)
        invariant k == 0 && !before.OnShown? ==> focus == before
      {
        NarrowStep(children, i, q);
        var kept := FocusOrDetach(k, q);
        if kept {
          k := k + 1;
        }
        i := i + 1;
      }
      assert children[..i] == children;
    }

    /** One row of the search: the row at position `k` takes the focus when
        it matches and is detached from the list otherwise. */
    method FocusOrDetach(k: nat, q: string) returns (kept: bool)
      requires k < |shown|
      modifies this`shown, this`focus
      ensures kept == Matches(old(shown)[k], q)
      ensures kept ==> shown == old(shown) && focus == OnShown(k)
      ensures !kept ==>
        shown == old(shown)[..k] + old(shown)[k + 1..] &&
        focus == AfterDetach(old(focus), k, old(shown)[k])
    {
      kept := Matches(shown[k], q);
      if kept {
        focus := OnShown(k);
      } else {
        focus := AfterDetach(focus, k, shown[k]);
        shown := shown[..k] + shown[k + 1..];
      }
    }
  }

  /** A focus left on a row that a search detached outlives a refill, so
      viewing can report a missing record: the user focuses the top row,
      searches for text no row contains, and then deletes the focused
      record. */
  method DetachedFocusOutlivesItsRecord(c: seq<Record>, entry: string) returns (res: Result<Record>)
    requires c != [] && entry != []
    requires forall i :: 0 <= i < |c| ==> !Matches(RowOf(c[i]), Lower(entry))
    ensures res == Err(NotFound)
  {
    var app := SearchAwayEveryRow(c, entry);
    var deleted := app.DeleteSelected(true, true);
    FindAfterDeleteMisses(c, c[0].id);
    res := app.ViewSelected();
  }

  /** A refill after a search that matched nothing leaves the focus on the
      detached row, so viewing still shows its record. */
  method DetachedFocusSurvivesRefill(c: seq<Record>, entry: string) returns (res: Result<Record>)
    requires c != [] && entry != []
    requires forall i :: 0 <= i < |c| ==> !Matches(RowOf(c[i]), Lower(entry))
    ensures res == Ok(c[0])
  {
    var app := SearchAwayEveryRow(c, entry);
    var refilled := app.Search("");
    res := app.ViewSelected();
  }

  /** The first steps of both walks: start from the catalog `c`, focus the
      top row, and search for text no row contains. */
  method SearchAwayEveryRow(c: seq<Record>, entry: string) returns (app: ScpDatabaseApp)
    requires c != [] && entry != []
    requires forall i :: 0 <= i < |c| ==> !Matches(RowOf(c[i]), Lower(entry))
    ensures fresh(app) && app.Valid()
    ensures app.doc == Stored(c) && app.shown == [] && app.focus == OnDetached(RowOf(c[0]))
  {
    app := new ScpDatabaseApp(Stored(c));
    app.FocusRow(0);
    NarrowNoneMatch(app.shown, Lower(entry));
    var searched := app.Search(entry);
  }
}
