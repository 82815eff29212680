/**
 Installing region bundles into a database (src/regional_install.cpp, `appendParentGroup`
 and `appendChildGroup`): stage the rows, note which parent ids are new, insert the parents
 that are not there yet, and insert the tag rows of the new parents only.
 */
module Install {
  import opened Core
  import opened Geometry
  import opened Lists
  import opened RegionalExport

  datatype Bundle = Bundle(parents: seq<ParentRow>, children: seq<ChildRow>)

  /** A parent table with its primary key, and a child table without one. */
  datatype Db = Db(parents: map<int, ParentRow>, children: multiset<ChildRow>)

  /** `LEFT JOIN ... WHERE t.id IS NULL`: staged ids that the table does not have. */
  function NewIds(db: Db, staged: seq<ParentRow>): seq<int> {
    if staged == [] then []
    else NewIds(db, staged[..|staged| - 1]) + IdIfNew(db, staged[|staged| - 1].id)
  }

  function IdIfNew(db: Db, id: int): seq<int> { if id in db.parents then [] else [id] }

  /** `INSERT ... ON CONFLICT (id) DO NOTHING` */
  function InsertParents(table: map<int, ParentRow>, staged: seq<ParentRow>): map<int, ParentRow> {
    if staged == [] then table
    else
      var t := InsertParents(table, staged[..|staged| - 1]);
      var row := staged[|staged| - 1];
      if row.id in t then t else t[row.id := row]
  }

  function RowsFor(children: seq<ChildRow>, id: int): seq<ChildRow> {
    Filter(children, (c: ChildRow) => c.id == id)
  }

  lemma RowsForCount(children: seq<ChildRow>, id: int, c: ChildRow)
    ensures multiset(RowsFor(children, id))[c] == if c.id == id then multiset(children)[c] else 0
  {
    FilterCount(children, (x: ChildRow) => x.id == id, c);
  }

  /** `JOIN new_ids n ON n.id = c.id`: a child row once per matching new id. */
  function Joined(children: seq<ChildRow>, newIds: seq<int>): multiset<ChildRow> {
    if newIds == [] then multiset{}
    else Joined(children, newIds[..|newIds| - 1]) + multiset(RowsFor(children, newIds[|newIds| - 1]))
  }

  function InstallOne(db: Db, b: Bundle): Db {
    Db(InsertParents(db.parents, b.parents), db.children + Joined(b.children, NewIds(db, b.parents)))
  }

  function InstallAll(db: Db, bundles: seq<Bundle>): Db {
    if bundles == [] then db else InstallOne(InstallAll(db, bundles[..|bundles| - 1]), bundles[|bundles| - 1])
  }

  // ---------------------------------------------------------------- one install

  predicate HasId(rows: seq<ParentRow>, id: int) {
    exists i :: 0 <= i < |rows| && rows[i].id == id
  }

  lemma HasIdSnoc(init: seq<ParentRow>, last: ParentRow, id: int)
    ensures HasId(init + [last], id) <==> HasId(init, id) || last.id == id
  {
    var rows := init + [last];
    if HasId(init, id) { var i :| 0 <= i < |init| && init[i].id == id; assert rows[i].id == id; }
    if last.id == id { assert rows[|init|].id == id; }
  }

  lemma {:induction false} InsertedParents(table: map<int, ParentRow>, staged: seq<ParentRow>, id: int)
    ensures id in InsertParents(table, staged) <==> id in table || HasId(staged, id)
    ensures id in table ==> InsertParents(table, staged)[id] == table[id]
    ensures id !in table && id in InsertParents(table, staged) ==>
              InsertParents(table, staged)[id].id == id && InsertParents(table, staged)[id] in staged
  {
    if staged != [] {
      var init, last := staged[..|staged| - 1], staged[|staged| - 1];
      InsertedParents(table, init, id);
      HasIdSnoc(init, last, id);
      assert staged == init + [last];
    }
  }

  lemma KeySnoc(init: seq<ParentRow>, last: ParentRow)
    requires PrimaryKey(init + [last])
    ensures PrimaryKey(init) && !HasId(init, last.id)
  {
    var rows := init + [last];
    assert forall i :: 0 <= i < |init| ==> rows[i] == init[i];
    forall i | 0 <= i < |init| ensures init[i].id != last.id { assert rows[i].id != rows[|init|].id; }
  }

  lemma IdIfNewCount(db: Db, ids: seq<int>, id: int, x: int)
    ensures multiset(ids + IdIfNew(db, id))[x] == multiset(ids)[x] + (if x == id && id !in db.parents then 1 else 0)
  {}

  lemma {:induction false} NewIdsAre(db: Db, staged: seq<ParentRow>, id: int)
    requires PrimaryKey(staged)
    ensures multiset(NewIds(db, staged))[id] == if HasId(staged, id) && id !in db.parents then 1 else 0
  {
    hide PrimaryKey, IdIfNew;
    if staged != [] {
      hide HasId;
      var init, last := staged[..|staged| - 1], staged[|staged| - 1];
      assert staged == init + [last];
      KeySnoc(init, last);
      NewIdsAre(db, init, id);
      HasIdSnoc(init, last, id);
      IdIfNewCount(db, NewIds(db, init), last.id, id);
    }
  }

  function Times(a: nat, b: nat): nat { a * b }

  lemma TimesFacts(a: nat, b: nat)
    ensures Times(0, b) == 0 && Times(1, b) == b
    ensures Times(a + 1, b) == Times(a, b) + b
  {}

  lemma CountSnoc(init: seq<int>, last: int, x: int)
    ensures multiset(init + [last])[x] == multiset(init)[x] + (if last == x then 1 else 0)
  {}

  lemma {:induction false} JoinedCount(children: seq<ChildRow>, newIds: seq<int>, c: ChildRow)
    ensures Joined(children, newIds)[c] == Times(multiset(newIds)[c.id], multiset(children)[c])
  {
    hide Times, RowsFor;
    if newIds == [] {
      TimesFacts(0, multiset(children)[c]);
    } else {
      var init, last := newIds[..|newIds| - 1], newIds[|newIds| - 1];
      JoinedCount(children, init, c);
      RowsForCount(children, last, c);
      assert newIds == init + [last];
      CountSnoc(init, last, c.id);
      TimesFacts(multiset(init)[c.id], multiset(children)[c]);
      assert Joined(children, newIds)[c] == Joined(children, init)[c] + multiset(RowsFor(children, last))[c];
    }
  }

  // ---------------------------------------------------------------- bundles of one snapshot

  /** A bundle as the exporter makes it for region `r`. */
  ghost predicate IsBundle(matches: (nat, Geom) -> bool, m: Master, r: nat, b: Bundle) {
    ExactParents(matches, m, r, b.parents) && ExactChildren(matches, m, r, b.children)
  }

  ghost predicate InSome(matches: (nat, Geom) -> bool, m: Master, regions: seq<nat>, id: int) {
    exists r :: r in regions && ParentMatches(matches, m, r, id)
  }

  /**
   The database holds exactly the master rows of the installed regions: each matching parent
   as the master has it, and each of its tag rows as often as the master has it.
   */
  ghost predicate Holds(matches: (nat, Geom) -> bool, m: Master, regions: seq<nat>, db: Db) {
    && (forall id :: id in db.parents <==> InSome(matches, m, regions, id))
    && (forall id :: id in db.parents ==> db.parents[id].id == id && db.parents[id] in m.parents)
    && (forall c :: db.children[c] == if InSome(matches, m, regions, c.id) then multiset(m.children)[c] else 0)
  }

  lemma ExactIds(matches: (nat, Geom) -> bool, m: Master, r: nat, rows: seq<ParentRow>, id: int)
    requires ExactParents(matches, m, r, rows)
    ensures HasId(rows, id) <==> ParentMatches(matches, m, r, id)
    ensures forall row :: row in rows ==> row in m.parents
  {
    hide RowMatches;
    forall row ensures row in rows <==> row in m.parents && RowMatches(matches, r, row) {
      assert row in rows <==> multiset(rows)[row] > 0;
      assert row in m.parents <==> multiset(m.parents)[row] > 0;
    }
    if HasId(rows, id) { var i :| 0 <= i < |rows| && rows[i].id == id; assert rows[i] in rows; }
    if ParentMatches(matches, m, r, id) {
      var row :| row in m.parents && row.id == id && RowMatches(matches, r, row);
      var i :| 0 <= i < |rows| && rows[i] == row;
      assert rows[i].id == id;
    }
  }

  lemma ExactHasKey(matches: (nat, Geom) -> bool, m: Master, r: nat, rows: seq<ParentRow>)
    requires ExactParents(matches, m, r, rows) && PrimaryKey(m.parents)
    ensures PrimaryKey(rows)
  {
    hide RowMatches;
    forall i, j | 0 <= i < j < |rows| ensures rows[i].id != rows[j].id {
      var a, b := rows[i], rows[j];
      assert multiset(rows)[a] > 0 && multiset(rows)[b] > 0;
      assert a in m.parents && b in m.parents;
      SameIdSameRow(m.parents, a, b);
      if a == b {
        TwiceCounts(rows, i, j);
        KeyCountsOne(m.parents, a);
      }
    }
  }

  lemma SameIdSameRow(rows: seq<ParentRow>, a: ParentRow, b: ParentRow)
    requires PrimaryKey(rows) && a in rows && b in rows
    ensures a.id == b.id ==> a == b
  {
    var i :| 0 <= i < |rows| && rows[i] == a;
    var j :| 0 <= j < |rows| && rows[j] == b;
  }

  lemma TwiceCounts(rows: seq<ParentRow>, i: nat, j: nat)
    requires i < j < |rows| && rows[i] == rows[j]
    ensures multiset(rows)[rows[i]] >= 2
  {
    assert rows == rows[..j] + [rows[j]] + rows[j + 1..];
    assert rows[..j][i] == rows[i];
    assert rows[i] in multiset(rows[..j]);
  }

  lemma {:induction false} KeyCountsOne(rows: seq<ParentRow>, row: ParentRow)
    requires PrimaryKey(rows)
    ensures multiset(rows)[row] <= 1
  {
    if rows != [] {
      var init, last := rows[..|rows| - 1], rows[|rows| - 1];
      KeyCountsOne(init, row);
      assert rows == init + [last];
      if last == row {
        assert row !in init by { forall i | 0 <= i < |init| ensures init[i] != row { assert rows[i].id != last.id; } }
        assert multiset(init)[row] == 0;
      }
    }
  }

  lemma InSomeSnoc(matches: (nat, Geom) -> bool, m: Master, regions: seq<nat>, r: nat, id: int)
    ensures InSome(matches, m, regions + [r], id) <==> InSome(matches, m, regions, id) || ParentMatches(matches, m, r, id)
  {
    hide ParentMatches;
    assert forall q :: q in regions + [r] <==> q in regions || q == r;
  }

  lemma InstallKeeps(matches: (nat, Geom) -> bool, m: Master, regions: seq<nat>, db: Db, r: nat, b: Bundle)
    requires PrimaryKey(m.parents) && Holds(matches, m, regions, db) && IsBundle(matches, m, r, b)
    ensures Holds(matches, m, regions + [r], InstallOne(db, b))
  {
    hide ParentMatches, InSome, InsertParents, Joined, NewIds, HasId, PrimaryKey;
    var now := InstallOne(db, b);
    ExactHasKey(matches, m, r, b.parents);
    forall id
      ensures id in now.parents <==> InSome(matches, m, regions + [r], id)
      ensures id in now.parents ==> now.parents[id].id == id && now.parents[id] in m.parents
    {
      InsertedParents(db.parents, b.parents, id);
      ExactIds(matches, m, r, b.parents, id);
      InSomeSnoc(matches, m, regions, r, id);
    }
    forall c ensures now.children[c] == if InSome(matches, m, regions + [r], c.id) then multiset(m.children)[c] else 0 {
      ChildCount(matches, m, regions, db, r, b, c);
    }
  }

  lemma ChildCount(matches: (nat, Geom) -> bool, m: Master, regions: seq<nat>, db: Db, r: nat, b: Bundle, c: ChildRow)
    requires PrimaryKey(b.parents) && Holds(matches, m, regions, db) && IsBundle(matches, m, r, b)
    ensures InstallOne(db, b).children[c] == if InSome(matches, m, regions + [r], c.id) then multiset(m.children)[c] else 0
  {
    hide ParentMatches, InSome, InsertParents, Joined, NewIds, HasId, PrimaryKey;
    NewIdsAre(db, b.parents, c.id);
    JoinedCount(b.children, NewIds(db, b.parents), c);
    TimesFacts(0, multiset(b.children)[c]);
    ExactIds(matches, m, r, b.parents, c.id);
    InSomeSnoc(matches, m, regions, r, c.id);
    assert c.id in db.parents <==> InSome(matches, m, regions, c.id);
  }

  /** Every bundle is one region's export from the same snapshot. */
  ghost predicate AreBundles(matches: (nat, Geom) -> bool, m: Master, regions: seq<nat>, bundles: seq<Bundle>) {
    |bundles| == |regions| && forall i :: 0 <= i < |regions| ==> IsBundle(matches, m, regions[i], bundles[i])
  }

  /**
   Export/install confluence: installing any list of regions of one snapshot, in any order
   and with repeats, into an empty database yields exactly the master's rows that match some
   listed region, and each such row's tag rows exactly as the master has them.
   */
  lemma {:induction false} InstallExact(matches: (nat, Geom) -> bool, m: Master, regions: seq<nat>, bundles: seq<Bundle>)
    requires PrimaryKey(m.parents) && AreBundles(matches, m, regions, bundles)
    ensures Holds(matches, m, regions, InstallAll(Db(map[], multiset{}), bundles))
  {
    hide IsBundle, Holds, InstallOne, PrimaryKey;
    if regions == [] {
      EmptyHolds(matches, m);
    } else {
      var init, last := regions[..|regions| - 1], regions[|regions| - 1];
      InstallExact(matches, m, init, bundles[..|bundles| - 1]);
      InstallKeeps(matches, m, init, InstallAll(Db(map[], multiset{}), bundles[..|bundles| - 1]), last, bundles[|bundles| - 1]);
      assert init + [last] == regions;
    }
  }

  lemma EmptyHolds(matches: (nat, Geom) -> bool, m: Master)
    ensures Holds(matches, m, [], Db(map[], multiset{}))
  {}

  /** Two lists of the same regions leave the same database. */
  lemma InstallConfluent(matches: (nat, Geom) -> bool, m: Master, regions: seq<nat>, bundles: seq<Bundle>,
                         others: seq<nat>, otherBundles: seq<Bundle>)
    requires PrimaryKey(m.parents)
    requires AreBundles(matches, m, regions, bundles) && AreBundles(matches, m, others, otherBundles)
    requires forall r :: r in regions <==> r in others
    ensures InstallAll(Db(map[], multiset{}), bundles) == InstallAll(Db(map[], multiset{}), otherBundles)
  {
    hide AreBundles, InstallAll, ParentMatches, PrimaryKey;
    var a, b := InstallAll(Db(map[], multiset{}), bundles), InstallAll(Db(map[], multiset{}), otherBundles);
    InstallExact(matches, m, regions, bundles);
    InstallExact(matches, m, others, otherBundles);
    forall id ensures InSome(matches, m, regions, id) <==> InSome(matches, m, others, id) {}
    SameHolds(matches, m, regions, others, a, b);
  }

  lemma SameHolds(matches: (nat, Geom) -> bool, m: Master, regions: seq<nat>, others: seq<nat>, a: Db, b: Db)
    requires PrimaryKey(m.parents) && Holds(matches, m, regions, a) && Holds(matches, m, others, b)
    requires forall id :: InSome(matches, m, regions, id) <==> InSome(matches, m, others, id)
    ensures a == b
  {
    hide InSome, PrimaryKey;
    forall id | id in a.parents ensures id in b.parents && a.parents[id] == b.parents[id] {
      assert InSome(matches, m, regions, id);
      SameIdSameRow(m.parents, a.parents[id], b.parents[id]);
    }
    forall id | id in b.parents ensures id in a.parents { assert InSome(matches, m, others, id); }
    assert a.parents == b.parents;
    forall c ensures a.children[c] == b.children[c] {}
    assert a.children == b.children;
  }
}
