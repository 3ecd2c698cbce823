/** The `linter` table and the per-page operations of `Database`: reading a
    page's lint errors keyed by identity, and reconciling them with a newly
    proposed list by deleting and inserting as few rows as possible. The
    table is an in-memory sequence of rows with an auto-increment counter;
    writes are returned as a plan and applied separately, so that a call's
    effect on the table and the calls it makes to the database can both be
    stated. */
module Database {
  import opened Wrappers
  import opened OrderedMaps
  import opened PhpValues
  import opened LintErrors

  /** The columns `serializeError` hands to an insert: the row id alone for
      an error that already has one, otherwise the page and the error's
      content. */
  datatype Columns =
    | IdColumn(lintId: int)
    | ContentColumns(page: int, category: string, location: Value, params: Value)

  /** A row of the `linter` table: its `linter_id` and its other columns. */
  datatype Row = Row(lintId: int, cols: Columns)

  /** The table and the next value of its auto-increment `linter_id`. */
  datatype Table = Table(rows: seq<Row>, nextId: int)

  /** The row belongs to page `pageId` (`linter_page = pageId`). */
  predicate OnPage(r: Row, pageId: int) {
    r.cols.ContentColumns? && r.cols.page == pageId
  }

  /** `makeLintError`: the error a row of a page describes. */
  function MakeLintError(r: Row): LintError
    requires r.cols.ContentColumns?
  {
    LintError(r.cols.category, r.cols.location, r.cols.params, r.lintId)
  }

  /** `serializeError`: an error with a row id is written as that id alone;
      any other error as its page and content, which read back give the same
      error under whatever row id the insert assigns. */
  function SerializeError(pageId: int, e: LintError): (c: Columns)
    ensures c.IdColumn? <==> e.lintId != 0
    ensures c.IdColumn? ==> c.lintId == e.lintId
    ensures c.ContentColumns? ==> c.page == pageId
    ensures c.ContentColumns? ==> forall n :: MakeLintError(Row(n, c)) == e.(lintId := n)
  {
    if e.lintId != 0 then IdColumn(e.lintId)
    else ContentColumns(pageId, e.category, e.location, e.params)
  }

  /** `array_map( serializeError, $errors )`. */
  function SerializeAll(pageId: int, errors: seq<LintError>): (cs: seq<Columns>)
    ensures |cs| == |errors|
    ensures forall i :: 0 <= i < |errors| ==> cs[i] == SerializeError(pageId, errors[i])
  {
    seq(|errors|, i requires 0 <= i < |errors| => SerializeError(pageId, errors[i]))
  }

  /** `getFromId`: the error stored in the first row with this `linter_id`
      on this page, or none. */
  function GetFromId(rows: seq<Row>, pageId: int, lintId: int): (r: Option<LintError>)
    ensures r.None? <==> forall x :: x in rows && OnPage(x, pageId) ==> x.lintId != lintId
    ensures r.Some? ==> r.value.lintId == lintId
    ensures r.Some? ==> exists x :: x in rows && OnPage(x, pageId) && r.value == MakeLintError(x)
  {
    if |rows| == 0 then None
    else if rows[0].lintId == lintId && OnPage(rows[0], pageId) then Some(MakeLintError(rows[0]))
    else
      assert forall x :: x in rows <==> x == rows[0] || x in rows[1..];
      GetFromId(rows[1..], pageId, lintId)
  }

  /** The errors the rows of a page describe. */
  ghost function PageErrors(rows: seq<Row>, pageId: int): set<LintError> {
    set r | r in rows && OnPage(r, pageId) :: MakeLintError(r)
  }

  /** The identities of the errors stored for a page. */
  ghost function PageIds<K(!new)>(id: LintError -> K, rows: seq<Row>, pageId: int): set<K> {
    set r | r in rows && OnPage(r, pageId) :: id(MakeLintError(r))
  }

  /** `getForPage`: the page's errors keyed by identity. Rows that share an
      identity collapse to one entry (the one read last). */
  function GetForPage<K(==,!new)>(id: LintError -> K, rows: seq<Row>, pageId: int): (m: map<K, LintError>)
    ensures m.Keys == PageIds(id, rows, pageId)
    ensures forall k :: k in m ==> id(m[k]) == k && m[k] in PageErrors(rows, pageId)
    decreases |rows|
  {
    if |rows| == 0 then map[]
    else
      var prefix, last := rows[..|rows| - 1], rows[|rows| - 1];
      assert rows == prefix + [last];
      assert forall x :: x in rows <==> x in prefix || x == last;
      var m := GetForPage(id, prefix, pageId);
      if OnPage(last, pageId) then m[id(MakeLintError(last)) := MakeLintError(last)] else m
  }

  /** The identities of a list of errors. */
  ghost function IdsOf<K(!new)>(id: LintError -> K, errors: seq<LintError>): set<K> {
    set e | e in errors :: id(e)
  }

  /** `$toDelete`: the stored errors whose identity is not proposed. */
  function ToDelete<K(==,!new)>(id: LintError -> K, previous: map<K, LintError>, errors: seq<LintError>): (d: map<K, LintError>)
    ensures d.Keys == previous.Keys - IdsOf(id, errors)
    ensures forall k :: k in d ==> d[k] == previous[k]
  {
    map k | k in previous && forall e :: e in errors ==> id(e) != k :: previous[k]
  }

  /** `$toInsert`: the proposed errors, in order, whose identity is not
      stored. */
  function ToInsert<K(==,!new)>(id: LintError -> K, previous: map<K, LintError>, errors: seq<LintError>): (s: seq<LintError>)
    ensures forall e :: e in s <==> e in errors && id(e) !in previous
    ensures forall e :: multiset(s)[e] == if id(e) in previous then 0 else multiset(errors)[e]
    ensures |s| <= |errors|
  {
    if |errors| == 0 then []
    else
      assert forall x :: x in errors <==> x == errors[0] || x in errors[1..];
      assert errors == [errors[0]] + errors[1..];
      (if id(errors[0]) in previous then [] else [errors[0]]) + ToInsert(id, previous, errors[1..])
  }

  /** The row ids the id-based delete targets: the non-zero `lintId`s of the
      errors to delete. */
  function DeleteTargets<K(==)>(toDelete: map<K, LintError>): set<int> {
    set e | e in toDelete.Values && e.lintId != 0 :: e.lintId
  }

  /** A write `setForPage` sends to the database. */
  datatype Write =
    | DeletePage(pageId: int)    // DELETE ... WHERE linter_page = pageId
    | DeleteIds(ids: set<int>)   // DELETE ... WHERE linter_id IN ids
    | Insert(cols: seq<Columns>) // INSERT of one row per element

  /** `deleted` is a count, or PHP's `true` when every row of the page went
      in one delete. */
  datatype Deleted = Count(n: nat) | AllRows

  /** PHP's loose comparison `$deleted == $n`: `true` equals every non-zero
      integer. */
  predicate LooselyEquals(d: Deleted, n: int) {
    match d
    case Count(c) => c == n
    case AllRows => n != 0
  }

  datatype SetResult = SetResult(deleted: Deleted, added: nat)

  datatype Plan = Plan(writes: seq<Write>, result: SetResult)

  /** `setForPage`: the writes that make the page hold the proposed errors,
      and the counts it returns. */
  function SetForPage<K(==,!new)>(id: LintError -> K, pageId: int, rows: seq<Row>, errors: seq<LintError>): (p: Plan)
    ensures var previous := GetForPage(id, rows, pageId);
      |previous| == 0 && |errors| == 0 ==> p == Plan([], SetResult(Count(0), 0))
    ensures var previous := GetForPage(id, rows, pageId);
      |previous| == 0 && |errors| > 0 ==>
        p == Plan([Insert(SerializeAll(pageId, errors))], SetResult(Count(0), |errors|))
    ensures var previous := GetForPage(id, rows, pageId);
      |previous| > 0 && |errors| == 0 ==> p == Plan([DeletePage(pageId)], SetResult(AllRows, 0))
    ensures var previous := GetForPage(id, rows, pageId);
      |previous| > 0 && |errors| > 0 ==>
        p.result == SetResult(Count(|previous.Keys - IdsOf(id, errors)|), |ToInsert(id, previous, errors)|)
  {
    var previous := GetForPage(id, rows, pageId);
    if |previous| == 0 && |errors| == 0 then Plan([], SetResult(Count(0), 0))
    else if |previous| == 0 then Plan([Insert(SerializeAll(pageId, errors))], SetResult(Count(0), |errors|))
    else if |errors| == 0 then Plan([DeletePage(pageId)], SetResult(AllRows, 0))
    else
      var toDelete := ToDelete(id, previous, errors);
      var toInsert := ToInsert(id, previous, errors);
      var deletes := if |toDelete| > 0 then [DeleteIds(DeleteTargets(toDelete))] else [];
      var inserts := if |toInsert| > 0 then [Insert(SerializeAll(pageId, toInsert))] else [];
      assert |toDelete| == |toDelete.Keys|;
      Plan(deletes + inserts, SetResult(Count(|toDelete|), |toInsert|))
  }

  // ---------------------------------------------------------------------
  // Applying writes to the table

  function RemovePage(rows: seq<Row>, pageId: int): (r: seq<Row>)
    ensures forall x {:trigger x in r} :: x in r <==> x in rows && !OnPage(x, pageId)
  {
    if |rows| == 0 then []
    else
      assert forall x :: x in rows <==> x == rows[0] || x in rows[1..];
      (if OnPage(rows[0], pageId) then [] else [rows[0]]) + RemovePage(rows[1..], pageId)
  }

  function RemoveIds(rows: seq<Row>, ids: set<int>): (r: seq<Row>)
    ensures forall x {:trigger x in r} :: x in r <==> x in rows && x.lintId !in ids
  {
    if |rows| == 0 then []
    else
      assert forall x :: x in rows <==> x == rows[0] || x in rows[1..];
      (if rows[0].lintId in ids then [] else [rows[0]]) + RemoveIds(rows[1..], ids)
  }

  /** An insert: content rows get consecutive auto-increment ids from
      `t.nextId`, id-only rows keep their id. */
  function InsertRows(t: Table, cs: seq<Columns>): Table
    decreases |cs|
  {
    if |cs| == 0 then t
    else if cs[0].IdColumn? then InsertRows(Table(t.rows + [Row(cs[0].lintId, cs[0])], t.nextId), cs[1..])
    else InsertRows(Table(t.rows + [Row(t.nextId, cs[0])], t.nextId + 1), cs[1..])
  }

  function ApplyWrite(t: Table, w: Write): Table {
    match w
    case DeletePage(p) => Table(RemovePage(t.rows, p), t.nextId)
    case DeleteIds(ids) => Table(RemoveIds(t.rows, ids), t.nextId)
    case Insert(cs) => InsertRows(t, cs)
  }

  function Apply(t: Table, ws: seq<Write>): Table
    decreases |ws|
  {
    if |ws| == 0 then t else Apply(ApplyWrite(t, ws[0]), ws[1..])
  }

  // ---------------------------------------------------------------------
  // Table invariant and the rows an insert of fresh errors adds

  /** What the table keeps true: auto-increment ids start at 1 and are
      unique, and no two rows of one page describe errors of the same
      identity. */
  ghost predicate Valid<K(!new)>(id: LintError -> K, t: Table) {
    && t.nextId >= 1
    && (forall r :: r in t.rows ==> 1 <= r.lintId < t.nextId)
    && (forall r1, r2 :: r1 in t.rows && r2 in t.rows && r1.lintId == r2.lintId ==> r1 == r2)
    && (forall r1, r2 ::
          (r1 in t.rows && r2 in t.rows && r1.cols.ContentColumns? && r2.cols.ContentColumns?
           && r1.cols.page == r2.cols.page && id(MakeLintError(r1)) == id(MakeLintError(r2))) ==> r1 == r2)
  }

  /** The proposed errors carry no row id, as the job builds them. */
  predicate Fresh(errors: seq<LintError>) {
    forall e :: e in errors ==> e.lintId == 0
  }

  /** No two proposed errors share an identity. */
  predicate DistinctIds<K(==)>(id: LintError -> K, errors: seq<LintError>) {
    forall i, j :: 0 <= i < j < |errors| ==> id(errors[i]) != id(errors[j])
  }

  /** The row an insert of the fresh error `e` on page `pageId` creates with
      id `n`. */
  function FreshRow(n: int, pageId: int, e: LintError): Row {
    Row(n, ContentColumns(pageId, e.category, e.location, e.params))
  }

  /** The rows an insert of fresh errors creates, numbered from `n` on. */
  function FreshRows(n: int, pageId: int, errors: seq<LintError>): (rs: seq<Row>)
    ensures |rs| == |errors|
    ensures forall i :: 0 <= i < |errors| ==> rs[i] == FreshRow(n + i, pageId, errors[i])
  {
    seq(|errors|, i requires 0 <= i < |errors| => FreshRow(n + i, pageId, errors[i]))
  }

  /** The rows an insert of content columns creates, numbered from `n` on. */
  function RowsFrom(n: int, cs: seq<Columns>): (rs: seq<Row>)
    ensures |rs| == |cs|
    ensures forall i :: 0 <= i < |cs| ==> rs[i] == Row(n + i, cs[i])
  {
    seq(|cs|, i requires 0 <= i < |cs| => Row(n + i, cs[i]))
  }

  /** Inserting content columns appends one row each, numbered on from
      `t.nextId`, and advances the counter past them. */
  lemma {:induction false} InsertContent(t: Table, cs: seq<Columns>)
    requires forall i :: 0 <= i < |cs| ==> cs[i].ContentColumns?
    ensures InsertRows(t, cs).nextId == t.nextId + |cs|
    ensures InsertRows(t, cs).rows == t.rows + RowsFrom(t.nextId, cs)
    decreases |cs|
  {
    if |cs| > 0 {
      var row := Row(t.nextId, cs[0]);
      var t1 := Table(t.rows + [row], t.nextId + 1);
      assert InsertRows(t, cs) == InsertRows(t1, cs[1..]);
      InsertContent(t1, cs[1..]);
      var rest := RowsFrom(t.nextId + 1, cs[1..]);
      assert RowsFrom(t.nextId, cs) == [row] + rest;
      AppendStep(t.rows, row, rest, InsertRows(t1, cs[1..]).rows, RowsFrom(t.nextId, cs));
    }
  }

  lemma AppendStep<T>(a: seq<T>, x: T, rest: seq<T>, got: seq<T>, full: seq<T>)
    requires got == (a + [x]) + rest
    requires full == [x] + rest
    ensures got == a + full
  {
    ConcatAssoc(a, [x], rest);
  }

  /** Inserting fresh errors appends one page row per error, numbered from
      `t.nextId` on. */
  lemma InsertFresh(t: Table, pageId: int, errors: seq<LintError>)
    requires Fresh(errors)
    ensures InsertRows(t, SerializeAll(pageId, errors)).nextId == t.nextId + |errors|
    ensures InsertRows(t, SerializeAll(pageId, errors)).rows
         == t.rows + FreshRows(t.nextId, pageId, errors)
  {
    var cs := SerializeAll(pageId, errors);
    forall i | 0 <= i < |cs| ensures cs[i].ContentColumns? && Row(t.nextId + i, cs[i]) == FreshRow(t.nextId + i, pageId, errors[i]) {
      assert errors[i] in errors;
    }
    InsertContent(t, cs);
    assert RowsFrom(t.nextId, cs) == FreshRows(t.nextId, pageId, errors);
  }

  /** The identities stored on a page after appending rows. */
  lemma PageIdsAppend<K(!new)>(id: LintError -> K, a: seq<Row>, b: seq<Row>, pageId: int)
    ensures PageIds(id, a + b, pageId) == PageIds(id, a, pageId) + PageIds(id, b, pageId)
  {
    assert forall x :: x in a + b <==> x in a || x in b;
  }

  /** The identities of freshly inserted rows are those of the inserted
      errors. */
  lemma FreshRowIds<K(!new)>(id: LintError -> K, n: int, pageId: int, errors: seq<LintError>)
    requires IdentityOf(id)
    ensures PageIds(id, FreshRows(n, pageId, errors), pageId) == IdsOf(id, errors)
  {
    var added := FreshRows(n, pageId, errors);
    forall k | k in IdsOf(id, errors) ensures k in PageIds(id, added, pageId)
    {
      var e :| e in errors && id(e) == k;
      var i :| 0 <= i < |errors| && errors[i] == e;
      assert added[i] in added;
      assert id(MakeLintError(added[i])) == id(e);
    }
    forall k | k in PageIds(id, added, pageId) ensures k in IdsOf(id, errors)
    {
      var r :| r in added && OnPage(r, pageId) && id(MakeLintError(r)) == k;
      var i :| 0 <= i < |added| && added[i] == r;
      assert errors[i] in errors;
      assert id(MakeLintError(r)) == id(errors[i]);
    }
  }

  /** A stored row is targeted by the id-based delete exactly when the
      identity of its error is not proposed. */
  lemma TargetedIffNotProposed<K(!new)>(id: LintError -> K, t: Table, pageId: int, errors: seq<LintError>, r: Row)
    requires Valid(id, t)
    requires r in t.rows && OnPage(r, pageId)
    ensures var previous := GetForPage(id, t.rows, pageId);
      r.lintId in DeleteTargets(ToDelete(id, previous, errors)) <==> id(MakeLintError(r)) !in IdsOf(id, errors)
  {
    var previous := GetForPage(id, t.rows, pageId);
    var toDelete := ToDelete(id, previous, errors);
    var k := id(MakeLintError(r));
    if k !in IdsOf(id, errors) {
      assert k in previous;
      var e := previous[k];
      assert e in PageErrors(t.rows, pageId);
      var r' :| r' in t.rows && OnPage(r', pageId) && MakeLintError(r') == e;
      assert r' == r;
      assert toDelete[k] == e;
      assert e in toDelete.Values;
    }
    if r.lintId in DeleteTargets(toDelete) {
      var e :| e in toDelete.Values && e.lintId != 0 && e.lintId == r.lintId;
      var k' :| k' in toDelete && toDelete[k'] == e;
      assert e in PageErrors(t.rows, pageId);
      var r'' :| r'' in t.rows && OnPage(r'', pageId) && MakeLintError(r'') == e;
      assert r'' == r;
    }
  }

  /** After the id-based delete, the page keeps exactly the stored
      identities that are also proposed. */
  lemma KeptIds<K(!new)>(id: LintError -> K, t: Table, pageId: int, errors: seq<LintError>)
    requires Valid(id, t)
    ensures var previous := GetForPage(id, t.rows, pageId);
      PageIds(id, RemoveIds(t.rows, DeleteTargets(ToDelete(id, previous, errors))), pageId)
        == previous.Keys * IdsOf(id, errors)
  {
    var previous := GetForPage(id, t.rows, pageId);
    var kept := RemoveIds(t.rows, DeleteTargets(ToDelete(id, previous, errors)));
    forall k | k in PageIds(id, kept, pageId) ensures k in previous.Keys * IdsOf(id, errors)
    {
      var r :| r in kept && OnPage(r, pageId) && id(MakeLintError(r)) == k;
      TargetedIffNotProposed(id, t, pageId, errors, r);
    }
    forall k | k in previous.Keys * IdsOf(id, errors) ensures k in PageIds(id, kept, pageId)
    {
      var r :| r in t.rows && OnPage(r, pageId) && id(MakeLintError(r)) == k;
      TargetedIffNotProposed(id, t, pageId, errors, r);
      assert r in kept;
    }
  }

  /** Inserting fresh errors adds exactly their identities to the page. */
  lemma InsertFreshIds<K(!new)>(id: LintError -> K, t: Table, pageId: int, errors: seq<LintError>)
    requires IdentityOf(id)
    requires Fresh(errors)
    ensures PageIds(id, InsertRows(t, SerializeAll(pageId, errors)).rows, pageId)
         == PageIds(id, t.rows, pageId) + IdsOf(id, errors)
  {
    InsertFresh(t, pageId, errors);
    PageIdsAppend(id, t.rows, FreshRows(t.nextId, pageId, errors), pageId);
    FreshRowIds(id, t.nextId, pageId, errors);
  }

  /** The delete of a whole page leaves it without errors. */
  lemma RemovePageIds<K(!new)>(id: LintError -> K, rows: seq<Row>, pageId: int)
    ensures PageIds(id, RemovePage(rows, pageId), pageId) == {}
  {
  }

  /** The identities of the errors to insert are the proposed identities
      not yet stored. */
  lemma ToInsertIds<K(!new)>(id: LintError -> K, previous: map<K, LintError>, errors: seq<LintError>)
    ensures IdsOf(id, ToInsert(id, previous, errors)) == IdsOf(id, errors) - previous.Keys
  {
  }

  /** The writes of the mixed branch: an id-based delete when something is
      to go, then an insert when something is to come. */
  lemma ApplyDeleteInsert(t: Table, pageId: int, deleting: bool, targets: set<int>, toInsert: seq<LintError>)
    ensures var t1 := if deleting then Table(RemoveIds(t.rows, targets), t.nextId) else t;
      Apply(t, (if deleting then [DeleteIds(targets)] else []) + (if |toInsert| > 0 then [Insert(SerializeAll(pageId, toInsert))] else []))
        == if |toInsert| > 0 then InsertRows(t1, SerializeAll(pageId, toInsert)) else t1
  {
    var deletes := if deleting then [DeleteIds(targets)] else [];
    var inserts := if |toInsert| > 0 then [Insert(SerializeAll(pageId, toInsert))] else [];
    ApplyConcat(t, deletes, inserts);
    var t1 := Apply(t, deletes);
    if deleting {
      assert t1 == Apply(ApplyWrite(t, deletes[0]), []);
    }
    if |toInsert| > 0 {
      assert Apply(t1, inserts) == Apply(ApplyWrite(t1, inserts[0]), []);
    }
  }

  lemma {:induction false} ApplyConcat(t: Table, a: seq<Write>, b: seq<Write>)
    ensures Apply(t, a + b) == Apply(Apply(t, a), b)
    decreases |a|
  {
    if |a| > 0 {
      assert (a + b)[1..] == a[1..] + b;
      ApplyConcat(ApplyWrite(t, a[0]), a[1..], b);
    } else {
      assert a + b == b;
    }
  }

  /** What the page stores after the delete of the mixed branch. */
  lemma AfterDelete<K(!new)>(id: LintError -> K, t: Table, pageId: int, errors: seq<LintError>)
    requires Valid(id, t)
    ensures var previous := GetForPage(id, t.rows, pageId);
      var toDelete := ToDelete(id, previous, errors);
      var t1 := if |toDelete| > 0 then Table(RemoveIds(t.rows, DeleteTargets(toDelete)), t.nextId) else t;
      PageIds(id, t1.rows, pageId) == previous.Keys * IdsOf(id, errors)
  {
    var previous := GetForPage(id, t.rows, pageId);
    var toDelete := ToDelete(id, previous, errors);
    if |toDelete| == 0 {
      assert toDelete.Keys == {};
      assert previous.Keys <= IdsOf(id, errors);
    } else {
      KeptIds(id, t, pageId, errors);
    }
  }

  /** Convergence when the page held errors and new ones are proposed. */
  lemma ConvergesMixed<K(!new)>(id: LintError -> K, t: Table, pageId: int, errors: seq<LintError>)
    requires IdentityOf(id)
    requires Valid(id, t)
    requires Fresh(errors)
    requires |GetForPage(id, t.rows, pageId)| > 0 && |errors| > 0
    ensures PageIds(id, Apply(t, SetForPage(id, pageId, t.rows, errors).writes).rows, pageId)
         == IdsOf(id, errors)
  {
    var previous := GetForPage(id, t.rows, pageId);
    var toDelete := ToDelete(id, previous, errors);
    var toInsert := ToInsert(id, previous, errors);
    var t1 := if |toDelete| > 0 then Table(RemoveIds(t.rows, DeleteTargets(toDelete)), t.nextId) else t;
    var deletes := if |toDelete| > 0 then [DeleteIds(DeleteTargets(toDelete))] else [];
    var inserts := if |toInsert| > 0 then [Insert(SerializeAll(pageId, toInsert))] else [];
    assert SetForPage(id, pageId, t.rows, errors).writes == deletes + inserts;
    ApplyDeleteInsert(t, pageId, |toDelete| > 0, DeleteTargets(toDelete), toInsert);
    var t2 := if |toInsert| > 0 then InsertRows(t1, SerializeAll(pageId, toInsert)) else t1;
    assert Apply(t, SetForPage(id, pageId, t.rows, errors).writes) == t2;
    AfterDelete(id, t, pageId, errors);
    ToInsertIds(id, previous, errors);
    InsertIfAnyIds(id, t1, pageId, toInsert);
    SplitByMembership(previous.Keys, IdsOf(id, errors));
  }

  /** The insert of the mixed branch, made only when there is something to
      insert, adds the identities of the inserted errors. */
  lemma InsertIfAnyIds<K(!new)>(id: LintError -> K, t: Table, pageId: int, toInsert: seq<LintError>)
    requires IdentityOf(id)
    requires Fresh(toInsert)
    ensures PageIds(id, (if |toInsert| > 0 then InsertRows(t, SerializeAll(pageId, toInsert)) else t).rows, pageId)
         == PageIds(id, t.rows, pageId) + IdsOf(id, toInsert)
  {
    if |toInsert| > 0 {
      InsertFreshIds(id, t, pageId, toInsert);
    } else {
      assert IdsOf(id, toInsert) == {};
    }
  }

  lemma SplitByMembership<T>(p: set<T>, e: set<T>)
    ensures (p * e) + (e - p) == e
  {
  }

  /** Convergence: whatever the page held before, after `setForPage` with
      fresh errors the page stores exactly the proposed identities, which
      is what `getForPage` then returns as keys. */
  lemma SetForPageConverges<K(!new)>(id: LintError -> K, t: Table, pageId: int, errors: seq<LintError>)
    requires IdentityOf(id)
    requires Valid(id, t)
    requires Fresh(errors)
    ensures GetForPage(id, Apply(t, SetForPage(id, pageId, t.rows, errors).writes).rows, pageId).Keys
         == IdsOf(id, errors)
  {
    var previous := GetForPage(id, t.rows, pageId);
    if |previous| > 0 && |errors| > 0 {
      ConvergesMixed(id, t, pageId, errors);
    } else if |errors| > 0 {
      ConvergesInsertOnly(id, t, pageId, errors);
    } else {
      ConvergesNoErrors(id, t, pageId);
    }
  }

  /** Nothing stored: every proposed error is inserted. */
  lemma ConvergesInsertOnly<K(!new)>(id: LintError -> K, t: Table, pageId: int, errors: seq<LintError>)
    requires IdentityOf(id)
    requires Fresh(errors)
    requires |GetForPage(id, t.rows, pageId)| == 0 && |errors| > 0
    ensures GetForPage(id, Apply(t, SetForPage(id, pageId, t.rows, errors).writes).rows, pageId).Keys
         == IdsOf(id, errors)
  {
    ApplyOnEmptyPage(id, t, pageId, errors);
    var t2 := Apply(t, SetForPage(id, pageId, t.rows, errors).writes);
    PageIdsAppend(id, t.rows, FreshRows(t.nextId, pageId, errors), pageId);
    FreshRowIds(id, t.nextId, pageId, errors);
    assert PageIds(id, t.rows, pageId) == GetForPage(id, t.rows, pageId).Keys == {};
    assert GetForPage(id, t2.rows, pageId).Keys == PageIds(id, t2.rows, pageId);
  }

  /** On a page that holds nothing, `setForPage` with fresh errors is one
      insert, which appends one fresh row per error. */
  lemma ApplyOnEmptyPage<K(!new)>(id: LintError -> K, t: Table, pageId: int, errors: seq<LintError>)
    requires Fresh(errors)
    requires |GetForPage(id, t.rows, pageId)| == 0 && |errors| > 0
    ensures Apply(t, SetForPage(id, pageId, t.rows, errors).writes).rows == t.rows + FreshRows(t.nextId, pageId, errors)
  {
    var w := Insert(SerializeAll(pageId, errors));
    assert SetForPage(id, pageId, t.rows, errors).writes == [w];
    ApplyOne(t, w);
    InsertFresh(t, pageId, errors);
  }

  lemma ApplyOne(t: Table, w: Write)
    ensures Apply(t, [w]) == ApplyWrite(t, w)
  {
    assert [w][1..] == [];
  }

  /** Nothing proposed: the page ends empty, whether or not a delete was
      needed. */
  lemma ConvergesNoErrors<K(!new)>(id: LintError -> K, t: Table, pageId: int)
    ensures GetForPage(id, Apply(t, SetForPage(id, pageId, t.rows, []).writes).rows, pageId).Keys == {}
  {
    if |GetForPage(id, t.rows, pageId)| > 0 {
      assert Apply(t, SetForPage(id, pageId, t.rows, []).writes) == Table(RemovePage(t.rows, pageId), t.nextId);
      RemovePageIds(id, t.rows, pageId);
    } else {
      assert Apply(t, SetForPage(id, pageId, t.rows, []).writes) == t;
    }
  }

  // ---------------------------------------------------------------------
  // What a call of setForPage keeps true

  /** Under the table invariant each stored error is what `getForPage`
      returns for its identity, with its own row id. */
  lemma GetForPageStored<K(!new)>(id: LintError -> K, t: Table, pageId: int, r: Row)
    requires Valid(id, t)
    requires r in t.rows && OnPage(r, pageId)
    ensures var m := GetForPage(id, t.rows, pageId);
      id(MakeLintError(r)) in m && m[id(MakeLintError(r))] == MakeLintError(r)
  {
    var m := GetForPage(id, t.rows, pageId);
    var k := id(MakeLintError(r));
    assert k in PageIds(id, t.rows, pageId);
    var r' :| r' in t.rows && OnPage(r', pageId) && MakeLintError(r') == m[k];
  }

  /** Dropping rows keeps the invariant. */
  lemma ValidSubset<K(!new)>(id: LintError -> K, t: Table, rows: seq<Row>)
    requires Valid(id, t)
    requires forall r :: r in rows ==> r in t.rows
    ensures Valid(id, Table(rows, t.nextId))
  {
  }

  /** Appending fresh rows numbered from `nextId` keeps row ids in range
      and unique. */
  lemma AppendFreshIds(rows: seq<Row>, nextId: int, pageId: int, errors: seq<LintError>)
    requires nextId >= 1
    requires forall r :: r in rows ==> 1 <= r.lintId < nextId
    requires forall r1, r2 :: r1 in rows && r2 in rows && r1.lintId == r2.lintId ==> r1 == r2
    ensures var rows' := rows + FreshRows(nextId, pageId, errors);
      && (forall r :: r in rows' ==> 1 <= r.lintId < nextId + |errors|)
      && (forall r1, r2 :: r1 in rows' && r2 in rows' && r1.lintId == r2.lintId ==> r1 == r2)
  {
    var added := FreshRows(nextId, pageId, errors);
    FreshRowsNumbered(nextId, pageId, errors);
    forall r | r in rows + added ensures 1 <= r.lintId < nextId + |errors| {
      assert r in rows || r in added;
    }
    forall r1, r2 | r1 in rows + added && r2 in rows + added && r1.lintId == r2.lintId ensures r1 == r2 {
      assert r1 in rows || r1 in added;
      assert r2 in rows || r2 in added;
    }
  }

  /** Fresh rows are numbered from `n` on, one id each. */
  lemma FreshRowsNumbered(n: int, pageId: int, errors: seq<LintError>)
    ensures var added := FreshRows(n, pageId, errors);
      && (forall r :: r in added ==> n <= r.lintId < n + |errors|)
      && (forall r1, r2 :: r1 in added && r2 in added && r1.lintId == r2.lintId ==> r1 == r2)
  {
    var added := FreshRows(n, pageId, errors);
    forall r1, r2 | r1 in added && r2 in added && r1.lintId == r2.lintId ensures r1 == r2 {
      var i :| 0 <= i < |added| && added[i] == r1;
      var j :| 0 <= j < |added| && added[j] == r2;
    }
  }

  /** Each fresh row is on the page and has the identity of an inserted
      error; under distinct identities no two fresh rows share one. */
  lemma FreshRowsIdentities<K(!new)>(id: LintError -> K, n: int, pageId: int, errors: seq<LintError>)
    requires IdentityOf(id)
    requires DistinctIds(id, errors)
    ensures var added := FreshRows(n, pageId, errors);
      && (forall r :: r in added ==> OnPage(r, pageId) && id(MakeLintError(r)) in IdsOf(id, errors))
      && (forall r1, r2 :: r1 in added && r2 in added && id(MakeLintError(r1)) == id(MakeLintError(r2)) ==> r1 == r2)
  {
    var added := FreshRows(n, pageId, errors);
    forall r | r in added ensures OnPage(r, pageId) && id(MakeLintError(r)) in IdsOf(id, errors) {
      var i :| 0 <= i < |added| && added[i] == r;
      assert id(MakeLintError(r)) == id(errors[i]) && errors[i] in errors;
    }
    forall r1, r2 | r1 in added && r2 in added && id(MakeLintError(r1)) == id(MakeLintError(r2))
      ensures r1 == r2
    {
      var i :| 0 <= i < |added| && added[i] == r1;
      var j :| 0 <= j < |added| && added[j] == r2;
      assert id(MakeLintError(r1)) == id(errors[i]);
      assert id(MakeLintError(r2)) == id(errors[j]);
    }
  }

  /** Appending fresh rows of distinct identities that the page does not
      store keeps identities unique per page. */
  lemma AppendFreshIdentities<K(!new)>(id: LintError -> K, t: Table, pageId: int, errors: seq<LintError>)
    requires IdentityOf(id)
    requires Valid(id, t)
    requires DistinctIds(id, errors)
    requires PageIds(id, t.rows, pageId) !! IdsOf(id, errors)
    ensures var rows := t.rows + FreshRows(t.nextId, pageId, errors);
      forall r1, r2 ::
          (r1 in rows && r2 in rows && r1.cols.ContentColumns? && r2.cols.ContentColumns?
           && r1.cols.page == r2.cols.page && id(MakeLintError(r1)) == id(MakeLintError(r2))) ==> r1 == r2
  {
    var added := FreshRows(t.nextId, pageId, errors);
    var rows := t.rows + added;
    FreshRowsIdentities(id, t.nextId, pageId, errors);
    assert forall r :: r in rows <==> r in t.rows || r in added;
    forall r1, r2 | r1 in added && r2 in t.rows && OnPage(r2, pageId)
      ensures id(MakeLintError(r1)) != id(MakeLintError(r2))
    {
      assert id(MakeLintError(r2)) in PageIds(id, t.rows, pageId);
    }
  }

  /** Inserting fresh errors of distinct identities none of which the page
      stores keeps the invariant. */
  lemma ValidInsertFresh<K(!new)>(id: LintError -> K, t: Table, pageId: int, errors: seq<LintError>)
    requires IdentityOf(id)
    requires Valid(id, t)
    requires Fresh(errors) && DistinctIds(id, errors)
    requires PageIds(id, t.rows, pageId) !! IdsOf(id, errors)
    ensures Valid(id, InsertRows(t, SerializeAll(pageId, errors)))
  {
    InsertFresh(t, pageId, errors);
    AppendFreshIds(t.rows, t.nextId, pageId, errors);
    AppendFreshIdentities(id, t, pageId, errors);
  }

  /** The errors to insert keep the proposed order, so they keep distinct
      identities. */
  lemma {:induction false} ToInsertDistinct<K(!new)>(id: LintError -> K, previous: map<K, LintError>, errors: seq<LintError>)
    requires DistinctIds(id, errors)
    ensures DistinctIds(id, ToInsert(id, previous, errors))
    decreases |errors|
  {
    if |errors| > 0 {
      assert DistinctIds(id, errors[1..]);
      ToInsertDistinct(id, previous, errors[1..]);
      var rest := ToInsert(id, previous, errors[1..]);
      forall e | e in rest ensures id(e) != id(errors[0]) {
        var j :| 0 <= j < |errors[1..]| && errors[1..][j] == e;
        assert errors[j + 1] == e;
      }
      if id(errors[0]) !in previous {
        ConsDistinct(id, errors[0], rest);
      } else {
        assert ToInsert(id, previous, errors) == [] + rest;
      }
    }
  }

  /** `setForPage` with fresh errors of distinct identities keeps the table
      invariant. */
  lemma SetForPageValid<K(!new)>(id: LintError -> K, t: Table, pageId: int, errors: seq<LintError>)
    requires IdentityOf(id)
    requires Valid(id, t)
    requires Fresh(errors) && DistinctIds(id, errors)
    ensures Valid(id, Apply(t, SetForPage(id, pageId, t.rows, errors).writes))
  {
    var previous := GetForPage(id, t.rows, pageId);
    var plan := SetForPage(id, pageId, t.rows, errors);
    if |previous| == 0 && |errors| == 0 {
      assert Apply(t, plan.writes) == t;
    } else if |previous| == 0 {
      assert Apply(t, plan.writes) == InsertRows(t, SerializeAll(pageId, errors));
      ValidInsertFresh(id, t, pageId, errors);
    } else if |errors| == 0 {
      assert Apply(t, plan.writes) == Table(RemovePage(t.rows, pageId), t.nextId);
      ValidSubset(id, t, RemovePage(t.rows, pageId));
    } else {
      ValidMixed(id, t, pageId, errors);
    }
  }

  lemma ValidMixed<K(!new)>(id: LintError -> K, t: Table, pageId: int, errors: seq<LintError>)
    requires IdentityOf(id)
    requires Valid(id, t)
    requires Fresh(errors) && DistinctIds(id, errors)
    requires |GetForPage(id, t.rows, pageId)| > 0 && |errors| > 0
    ensures Valid(id, Apply(t, SetForPage(id, pageId, t.rows, errors).writes))
  {
    var previous := GetForPage(id, t.rows, pageId);
    var toDelete := ToDelete(id, previous, errors);
    var toInsert := ToInsert(id, previous, errors);
    var t1 := if |toDelete| > 0 then Table(RemoveIds(t.rows, DeleteTargets(toDelete)), t.nextId) else t;
    var deletes := if |toDelete| > 0 then [DeleteIds(DeleteTargets(toDelete))] else [];
    var inserts := if |toInsert| > 0 then [Insert(SerializeAll(pageId, toInsert))] else [];
    assert SetForPage(id, pageId, t.rows, errors).writes == deletes + inserts;
    ApplyDeleteInsert(t, pageId, |toDelete| > 0, DeleteTargets(toDelete), toInsert);
    ValidSubset(id, t, t1.rows);
    if |toInsert| > 0 {
      AfterDelete(id, t, pageId, errors);
      ToInsertIds(id, previous, errors);
      ToInsertDistinct(id, previous, errors);
      assert Fresh(toInsert);
      ValidInsertFresh(id, t1, pageId, toInsert);
    }
  }

  /** The id-based delete targets only row ids of the page's own rows. */
  lemma TargetsOnPage<K(!new)>(id: LintError -> K, rows: seq<Row>, pageId: int, errors: seq<LintError>, n: int)
    requires n in DeleteTargets(ToDelete(id, GetForPage(id, rows, pageId), errors))
    ensures exists r :: r in rows && OnPage(r, pageId) && r.lintId == n
  {
    var toDelete := ToDelete(id, GetForPage(id, rows, pageId), errors);
    var e :| e in toDelete.Values && e.lintId != 0 && e.lintId == n;
    var k :| k in toDelete && toDelete[k] == e;
    assert e in PageErrors(rows, pageId);
    var r :| r in rows && OnPage(r, pageId) && MakeLintError(r) == e;
  }

  /** The mixed branch leaves rows of other pages alone. */
  lemma OtherPagesMixed<K(!new)>(id: LintError -> K, t: Table, pageId: int, errors: seq<LintError>, r: Row, q: int)
    requires Valid(id, t)
    requires Fresh(errors)
    requires q != pageId && OnPage(r, q)
    requires |GetForPage(id, t.rows, pageId)| > 0 && |errors| > 0
    ensures r in Apply(t, SetForPage(id, pageId, t.rows, errors).writes).rows <==> r in t.rows
  {
    var previous := GetForPage(id, t.rows, pageId);
    var toDelete := ToDelete(id, previous, errors);
    var toInsert := ToInsert(id, previous, errors);
    var t1 := if |toDelete| > 0 then Table(RemoveIds(t.rows, DeleteTargets(toDelete)), t.nextId) else t;
    var deletes := if |toDelete| > 0 then [DeleteIds(DeleteTargets(toDelete))] else [];
    var inserts := if |toInsert| > 0 then [Insert(SerializeAll(pageId, toInsert))] else [];
    assert SetForPage(id, pageId, t.rows, errors).writes == deletes + inserts;
    ApplyDeleteInsert(t, pageId, |toDelete| > 0, DeleteTargets(toDelete), toInsert);
    if r in t.rows && r.lintId in DeleteTargets(toDelete) {
      TargetsOnPage(id, t.rows, pageId, errors, r.lintId);
    }
    assert r in t1.rows <==> r in t.rows;
    var t2 := if |toInsert| > 0 then InsertRows(t1, SerializeAll(pageId, toInsert)) else t1;
    assert r in t2.rows <==> r in t1.rows by {
      if |toInsert| > 0 {
        assert Fresh(toInsert);
        InsertOtherPage(t1, pageId, toInsert, r);
      }
    }
  }

  /** An insert of fresh errors adds no row of another page. */
  lemma InsertOtherPage(t: Table, pageId: int, errors: seq<LintError>, r: Row)
    requires Fresh(errors)
    requires !OnPage(r, pageId)
    ensures r in InsertRows(t, SerializeAll(pageId, errors)).rows <==> r in t.rows
  {
    InsertFresh(t, pageId, errors);
    var added := FreshRows(t.nextId, pageId, errors);
    assert forall x :: x in t.rows + added <==> x in t.rows || x in added;
  }

  /** Rows of other pages are neither deleted nor added. */
  lemma SetForPageOtherPages<K(!new)>(id: LintError -> K, t: Table, pageId: int, errors: seq<LintError>, r: Row, q: int)
    requires Valid(id, t)
    requires Fresh(errors)
    requires q != pageId && OnPage(r, q)
    ensures r in Apply(t, SetForPage(id, pageId, t.rows, errors).writes).rows <==> r in t.rows
  {
    var previous := GetForPage(id, t.rows, pageId);
    var plan := SetForPage(id, pageId, t.rows, errors);
    if |previous| == 0 && |errors| == 0 {
      assert Apply(t, plan.writes) == t;
    } else if |previous| == 0 {
      assert Apply(t, plan.writes) == InsertRows(t, SerializeAll(pageId, errors));
      InsertOtherPage(t, pageId, errors, r);
    } else if |errors| == 0 {
      assert Apply(t, plan.writes) == Table(RemovePage(t.rows, pageId), t.nextId);
    } else {
      OtherPagesMixed(id, t, pageId, errors, r, q);
    }
  }

  /** When the page already stores exactly the proposed identities there is
      nothing to write and nothing is counted. */
  lemma NothingToChange<K(!new)>(id: LintError -> K, rows: seq<Row>, pageId: int, errors: seq<LintError>)
    requires GetForPage(id, rows, pageId).Keys == IdsOf(id, errors)
    ensures SetForPage(id, pageId, rows, errors) == Plan([], SetResult(Count(0), 0))
  {
    var previous := GetForPage(id, rows, pageId);
    if |errors| > 0 {
      assert id(errors[0]) in previous.Keys;
      ToInsertStored(id, previous, errors);
      assert ToDelete(id, previous, errors).Keys == {};
    } else {
      assert previous.Keys == {};
    }
  }

  /** Nothing is to be inserted when every proposed identity is stored. */
  lemma {:induction false} ToInsertStored<K(!new)>(id: LintError -> K, previous: map<K, LintError>, errors: seq<LintError>)
    requires IdsOf(id, errors) <= previous.Keys
    ensures ToInsert(id, previous, errors) == []
    decreases |errors|
  {
    if |errors| > 0 {
      assert errors[0] in errors;
      assert IdsOf(id, errors[1..]) <= IdsOf(id, errors) by {
        forall e | e in errors[1..] ensures e in errors { }
      }
      ToInsertStored(id, previous, errors[1..]);
    }
  }

  /** Saving the same fresh errors a second time writes nothing. */
  lemma SetForPageIdempotent<K(!new)>(id: LintError -> K, t: Table, pageId: int, errors: seq<LintError>)
    requires IdentityOf(id)
    requires Valid(id, t)
    requires Fresh(errors)
    ensures var t' := Apply(t, SetForPage(id, pageId, t.rows, errors).writes);
      SetForPage(id, pageId, t'.rows, errors) == Plan([], SetResult(Count(0), 0))
  {
    SetForPageConverges(id, t, pageId, errors);
    NothingToChange(id, Apply(t, SetForPage(id, pageId, t.rows, errors).writes).rows, pageId, errors);
  }

  /** The errors of the store's test: a `fostered` error at [0, 10] without
      parameters and an `obsolete-tag` error at [15, 20] with `name` `big`. */
  function FosteredError(): LintError {
    LintError("fostered", Arr([(IntKey(0), Int(0)), (IntKey(1), Int(10))]), Arr([]), 0)
  }

  function ObsoleteTagError(): LintError {
    LintError("obsolete-tag", Arr([(IntKey(0), Int(15)), (IntKey(1), Int(20))]),
      Arr([(StrKey("name"), Str("big"))]), 0)
  }

  /** The table after one call of `setForPage`. */
  function After<K(==,!new)>(id: LintError -> K, t: Table, pageId: int, errors: seq<LintError>): Table {
    Apply(t, SetForPage(id, pageId, t.rows, errors).writes)
  }

  /** One call of the test sequence returns `result` and leaves the page
      holding exactly `keys`. */
  ghost predicate Step<K(!new)>(id: LintError -> K, t: Table, pageId: int, errors: seq<LintError>, result: SetResult, keys: set<K>) {
    && SetForPage(id, pageId, t.rows, errors).result == result
    && GetForPage(id, After(id, t, pageId, errors).rows, pageId).Keys == keys
  }

  /** One call of the test sequence: the identities the page stores
      afterwards, and that the invariant still holds. */
  lemma TestStep<K(!new)>(id: LintError -> K, t: Table, pageId: int, errors: seq<LintError>)
    requires IdentityOf(id) && Valid(id, t) && Fresh(errors) && DistinctIds(id, errors)
    ensures Valid(id, After(id, t, pageId, errors))
    ensures GetForPage(id, After(id, t, pageId, errors).rows, pageId).Keys == IdsOf(id, errors)
  {
    SetForPageValid(id, t, pageId, errors);
    SetForPageConverges(id, t, pageId, errors);
  }

  /** An error whose identity no later one shares keeps identities
      distinct in front of them. */
  lemma ConsDistinct<K(!new)>(id: LintError -> K, x: LintError, rest: seq<LintError>)
    requires DistinctIds(id, rest)
    requires forall e :: e in rest ==> id(e) != id(x)
    ensures DistinctIds(id, [x] + rest)
  {
    var s := [x] + rest;
    forall i, j | 0 <= i < j < |s| ensures id(s[i]) != id(s[j]) {
      if i == 0 {
        assert s[j] in rest;
      } else {
        assert s[i] == rest[i - 1] && s[j] == rest[j - 1];
      }
    }
  }

  /** The counts of a call that keeps one stored error and adds nothing. */
  lemma DropOne<K(!new)>(id: LintError -> K, rows: seq<Row>, pageId: int, a: LintError, b: LintError)
    requires id(a) != id(b)
    requires GetForPage(id, rows, pageId).Keys == {id(a), id(b)}
    ensures SetForPage(id, pageId, rows, [a]).result == SetResult(Count(1), 0)
  {
    var previous := GetForPage(id, rows, pageId);
    assert IdsOf(id, [a]) == {id(a)};
    assert previous.Keys - IdsOf(id, [a]) == {id(b)};
    assert |previous| == |previous.Keys| > 0;
    ToInsertStored(id, previous, [a]);
  }

  /** The counts of a call that replaces the one stored error. */
  lemma SwapOne<K(!new)>(id: LintError -> K, rows: seq<Row>, pageId: int, a: LintError, b: LintError)
    requires id(a) != id(b)
    requires GetForPage(id, rows, pageId).Keys == {id(a)}
    ensures SetForPage(id, pageId, rows, [b]).result == SetResult(Count(1), 1)
  {
    assert IdsOf(id, [b]) == {id(b)};
    assert {id(a)} - {id(b)} == {id(a)};
    assert ToInsert(id, GetForPage(id, rows, pageId), [b]) == [b];
  }

  lemma IdsOfPair<K(!new)>(id: LintError -> K, a: LintError, b: LintError)
    ensures IdsOf(id, [a, b]) == {id(a), id(b)}
    ensures IdsOf(id, [a]) == {id(a)} && IdsOf(id, [b]) == {id(b)} && IdsOf(id, []) == {}
  {
    assert forall e :: e in [a, b] <==> e == a || e == b;
  }

  /** The first call of the store's test: both errors saved on an empty
      page. */
  lemma SaveBoth<K(!new)>(id: LintError -> K, t: Table, pageId: int, a: LintError, b: LintError)
    requires IdentityOf(id) && Valid(id, t)
    requires forall r :: r in t.rows ==> !OnPage(r, pageId)
    requires a.lintId == 0 && b.lintId == 0 && id(a) != id(b)
    ensures Valid(id, After(id, t, pageId, [a, b]))
    ensures Step(id, t, pageId, [a, b], SetResult(Count(0), 2), {id(a), id(b)})
  {
    IdsOfPair(id, a, b);
    assert GetForPage(id, t.rows, pageId).Keys == {};
    TestStep(id, t, pageId, [a, b]);
  }

  /** The second call: only the first error kept. */
  lemma KeepFirst<K(!new)>(id: LintError -> K, t1: Table, pageId: int, a: LintError, b: LintError)
    requires IdentityOf(id) && Valid(id, t1)
    requires GetForPage(id, t1.rows, pageId).Keys == {id(a), id(b)}
    requires a.lintId == 0 && id(a) != id(b)
    ensures Valid(id, After(id, t1, pageId, [a]))
    ensures Step(id, t1, pageId, [a], SetResult(Count(1), 0), {id(a)})
  {
    IdsOfPair(id, a, b);
    DropOne(id, t1.rows, pageId, a, b);
    TestStep(id, t1, pageId, [a]);
  }

  /** The third call: the stored error replaced by the other one. */
  lemma ReplaceByOther<K(!new)>(id: LintError -> K, t2: Table, pageId: int, a: LintError, b: LintError)
    requires IdentityOf(id) && Valid(id, t2)
    requires GetForPage(id, t2.rows, pageId).Keys == {id(a)}
    requires b.lintId == 0 && id(a) != id(b)
    ensures Valid(id, After(id, t2, pageId, [b]))
    ensures Step(id, t2, pageId, [b], SetResult(Count(1), 1), {id(b)})
  {
    IdsOfPair(id, a, b);
    SwapOne(id, t2.rows, pageId, a, b);
    TestStep(id, t2, pageId, [b]);
  }

  /** The last call: nothing saved on a page that holds an error deletes
      the whole page and reports `true`. */
  lemma ClearPage<K(!new)>(id: LintError -> K, t3: Table, pageId: int, b: LintError)
    requires IdentityOf(id) && Valid(id, t3)
    requires GetForPage(id, t3.rows, pageId).Keys == {id(b)}
    ensures Step(id, t3, pageId, [], SetResult(AllRows, 0), {})
    ensures LooselyEquals(SetForPage(id, pageId, t3.rows, []).result.deleted, 1)
  {
    assert id(b) in GetForPage(id, t3.rows, pageId);
    IdsOfPair(id, b, b);
    TestStep(id, t3, pageId, []);
  }

  /** What the store's test expects of the calls with `[a, b]`, `[a]`, `[b]`
      and `[]` in turn: the counts (0, 2), (1, 0), (1, 1) and (true, 0),
      where PHP's `true` loosely equals the expected 1, and after each call
      exactly the saved identities on the page. */
  ghost predicate SequenceOutcome<K(!new)>(id: LintError -> K, t: Table, pageId: int, a: LintError, b: LintError) {
    var t1 := After(id, t, pageId, [a, b]);
    var t2 := After(id, t1, pageId, [a]);
    var t3 := After(id, t2, pageId, [b]);
    && Step(id, t, pageId, [a, b], SetResult(Count(0), 2), {id(a), id(b)})
    && Step(id, t1, pageId, [a], SetResult(Count(1), 0), {id(a)})
    && Step(id, t2, pageId, [b], SetResult(Count(1), 1), {id(b)})
    && Step(id, t3, pageId, [], SetResult(AllRows, 0), {})
    && LooselyEquals(SetForPage(id, pageId, t3.rows, []).result.deleted, 1)
  }

  /** The calls of the store's test for any two fresh errors of different
      identities, on a page that holds nothing. */
  lemma SetForPageSequence<K(!new)>(id: LintError -> K, t: Table, pageId: int, a: LintError, b: LintError)
    requires IdentityOf(id)
    requires Valid(id, t)
    requires forall r :: r in t.rows ==> !OnPage(r, pageId)
    requires a.lintId == 0 && b.lintId == 0 && id(a) != id(b)
    ensures SequenceOutcome(id, t, pageId, a, b)
  {
    var t1 := After(id, t, pageId, [a, b]);
    SaveBoth(id, t, pageId, a, b);
    var t2 := After(id, t1, pageId, [a]);
    KeepFirst(id, t1, pageId, a, b);
    var t3 := After(id, t2, pageId, [b]);
    ReplaceByOther(id, t2, pageId, a, b);
    ClearPage(id, t3, pageId, b);
  }

  /** The store's test on an empty page, with its two errors: save both,
      then only the first, then only the second, then none. */
  lemma TestSetForPage<K(!new)>(id: LintError -> K, t: Table, pageId: int)
    requires IdentityOf(id) && IdDeterminesCategory(id)
    requires Valid(id, t)
    requires forall r :: r in t.rows ==> !OnPage(r, pageId)
    ensures SequenceOutcome(id, t, pageId, FosteredError(), ObsoleteTagError())
  {
    var a, b := FosteredError(), ObsoleteTagError();
    assert a.category != b.category;
    SetForPageSequence(id, t, pageId, a, b);
  }
}
