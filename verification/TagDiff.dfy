/**
 `diffTags` (src/NavDB.cpp): make the stored tag rows of one entity equal its filtered,
 cleaned tags with as few statements as possible. The tag tables have no key of their
 own, so the rows of an entity are a list.
 */
module TagDiff {
  import opened NavTables
  import TagText

  datatype Tag = Tag(key: string, value: string)

  predicate KeyUnique(rows: seq<Tag>) {
    forall i, j :: 0 <= i < j < |rows| ==> rows[i].key != rows[j].key
  }

  predicate HasKey(rows: seq<Tag>, key: string) {
    exists i :: 0 <= i < |rows| && rows[i].key == key
  }

  /** Rows read into a map; a later row wins. */
  function AsMap(rows: seq<Tag>): map<string, string> {
    if rows == [] then map[]
    else AsMap(rows[..|rows| - 1])[rows[|rows| - 1].key := rows[|rows| - 1].value]
  }

  function SqlUpdate(rows: seq<Tag>, key: string, value: string): (r: seq<Tag>)
    ensures |r| == |rows|
  {
    seq(|rows|, i requires 0 <= i < |rows| => if rows[i].key == key then Tag(key, value) else rows[i])
  }

  /** The rows whose key is none of `keys`. */
  function SqlDelete(rows: seq<Tag>, keys: set<string>): seq<Tag> {
    if rows == [] then []
    else
      var init := SqlDelete(rows[..|rows| - 1], keys);
      if rows[|rows| - 1].key in keys then init else init + [rows[|rows| - 1]]
  }

  // ---------------------------------------------------------------- the loop, as a function

  datatype Loop = Loop(rows: seq<Tag>, existing: map<string, string>)

  function DiffStep(s: Loop, t: Tag): Loop {
    Loop(
      if t.key !in s.existing then s.rows + [t]
      else if s.existing[t.key] != t.value then SqlUpdate(s.rows, t.key, t.value)
      else s.rows,
      s.existing - {t.key})
  }

  function DiffLoop(rows: seq<Tag>, cleaned: seq<Tag>): Loop {
    if cleaned == [] then Loop(rows, AsMap(rows))
    else DiffStep(DiffLoop(rows, cleaned[..|cleaned| - 1]), cleaned[|cleaned| - 1])
  }

  /** The rows after `diffTags` when the tags come in the order `cleaned`. */
  function Diff(rows: seq<Tag>, cleaned: seq<Tag>): seq<Tag> {
    var s := DiffLoop(rows, cleaned);
    SqlDelete(s.rows, s.existing.Keys)
  }

  // ---------------------------------------------------------------- statements seen through AsMap

  lemma {:induction false} MapKeys(rows: seq<Tag>, key: string)
    ensures key in AsMap(rows) <==> HasKey(rows, key)
  {
    if rows != [] {
      var init, last := rows[..|rows| - 1], rows[|rows| - 1];
      MapKeys(init, key);
      if HasKey(init, key) {
        var i :| 0 <= i < |init| && init[i].key == key;
        assert rows[i].key == key;
      }
      if HasKey(rows, key) && key != last.key {
        var i :| 0 <= i < |rows| && rows[i].key == key;
        assert init[i].key == key;
      }
      if key == last.key { assert rows[|rows| - 1].key == key; }
    }
  }

  lemma MapSnoc(init: seq<Tag>, last: Tag)
    ensures AsMap(init + [last]) == AsMap(init)[last.key := last.value]
  {
    assert (init + [last])[..|init|] == init;
  }

  lemma UpdateAbsent(rows: seq<Tag>, key: string, value: string)
    requires key !in AsMap(rows)
    ensures SqlUpdate(rows, key, value) == rows
  {
    hide AsMap;
    MapKeys(rows, key);
  }

  lemma UpdateSnoc(init: seq<Tag>, last: Tag, key: string, value: string)
    ensures SqlUpdate(init + [last], key, value)
         == SqlUpdate(init, key, value) + [if last.key == key then Tag(key, value) else last]
  {}

  lemma {:induction false} UpdateRow(rows: seq<Tag>, key: string, value: string)
    requires key in AsMap(rows)
    ensures AsMap(SqlUpdate(rows, key, value)) == AsMap(rows)[key := value]
  {
    hide SqlUpdate;
    var init, last := rows[..|rows| - 1], rows[|rows| - 1];
    assert rows == init + [last];
    UpdateSnoc(init, last, key, value);
    var now := if last.key == key then Tag(key, value) else last;
    MapSnoc(SqlUpdate(init, key, value), now);
    if key in AsMap(init) {
      UpdateRow(init, key, value);
    } else {
      UpdateAbsent(init, key, value);
    }
  }

  lemma {:induction false} DeleteRows(rows: seq<Tag>, keys: set<string>)
    ensures AsMap(SqlDelete(rows, keys)) == AsMap(rows) - keys
  {
    if rows != [] {
      DeleteRows(rows[..|rows| - 1], keys);
      MapSnoc(SqlDelete(rows[..|rows| - 1], keys), rows[|rows| - 1]);
    }
  }

  lemma {:induction false} DeleteTwice(rows: seq<Tag>, a: set<string>, b: set<string>)
    ensures SqlDelete(SqlDelete(rows, a), b) == SqlDelete(rows, a + b)
  {
    if rows != [] {
      var init, last := rows[..|rows| - 1], rows[|rows| - 1];
      DeleteTwice(init, a, b);
      var d := SqlDelete(init, a);
      assert (d + [last])[..|d|] == d;
    }
  }

  lemma {:induction false} DeleteNone(rows: seq<Tag>)
    ensures SqlDelete(rows, {}) == rows
  {
    if rows != [] { DeleteNone(rows[..|rows| - 1]); }
  }

  // ---------------------------------------------------------------- what the diff achieves

  lemma OverrideMore(m: map<string, string>, done: map<string, string>, t: Tag)
    ensures (m + done)[t.key := t.value] == m + done[t.key := t.value]
    ensures (m - done.Keys) - {t.key} == m - done[t.key := t.value].Keys
  {}

  lemma {:induction false} LoopInvariant(rows: seq<Tag>, cleaned: seq<Tag>)
    ensures var s := DiffLoop(rows, cleaned);
            && AsMap(s.rows) == AsMap(rows) + AsMap(cleaned)
            && s.existing == AsMap(rows) - AsMap(cleaned).Keys
  {
    hide DiffStep;
    if cleaned != [] {
      var init, t := cleaned[..|cleaned| - 1], cleaned[|cleaned| - 1];
      assert cleaned == init + [t];
      LoopInvariant(rows, init);
      var s := DiffLoop(rows, init);
      OneTag(s, t);
      OverrideMore(AsMap(rows), AsMap(init), t);
    }
  }

  lemma OneTag(s: Loop, t: Tag)
    requires t.key in s.existing ==> t.key in AsMap(s.rows) && s.existing[t.key] == AsMap(s.rows)[t.key]
    ensures AsMap(DiffStep(s, t).rows) == AsMap(s.rows)[t.key := t.value]
    ensures DiffStep(s, t).existing == s.existing - {t.key}
  {
    hide AsMap;
    MapSnoc(s.rows, t);
    if t.key in s.existing { UpdateRow(s.rows, t.key, t.value); }
  }

  /** Read as a map, the rows become the cleaned tags, whatever was stored. */
  lemma DiffExact(rows: seq<Tag>, cleaned: seq<Tag>)
    ensures AsMap(Diff(rows, cleaned)) == AsMap(cleaned)
  {
    hide AsMap, DiffLoop;
    LoopInvariant(rows, cleaned);
    var s := DiffLoop(rows, cleaned);
    DeleteRows(s.rows, s.existing.Keys);
    var m, done := AsMap(rows), AsMap(cleaned);
    assert (m + done) - (m - done.Keys).Keys == done;
  }

  // ---------------------------------------------------------------- the rows of one key

  /** The rows of one key, in order. */
  function ForKey(rows: seq<Tag>, key: string): seq<Tag> {
    if rows == [] then []
    else
      var last := rows[|rows| - 1];
      ForKey(rows[..|rows| - 1], key) + (if last.key == key then [last] else [])
  }

  function Count(rows: seq<Tag>, key: string): nat { |ForKey(rows, key)| }

  lemma ForKeySnoc(init: seq<Tag>, last: Tag, key: string)
    ensures ForKey(init + [last], key) == ForKey(init, key) + (if last.key == key then [last] else [])
  {
    assert (init + [last])[..|init|] == init;
  }

  lemma {:induction false} CountKey(rows: seq<Tag>, key: string)
    ensures key in AsMap(rows) <==> Count(rows, key) > 0
  {
    if rows != [] { CountKey(rows[..|rows| - 1], key); }
  }

  /** A statement on one key leaves the rows of the others alone. */
  lemma {:induction false} UpdateKeeps(rows: seq<Tag>, key: string, value: string, k: string)
    ensures Count(SqlUpdate(rows, key, value), k) == Count(rows, k)
    ensures k != key ==> ForKey(SqlUpdate(rows, key, value), k) == ForKey(rows, k)
  {
    hide SqlUpdate;
    if rows == [] {
      UpdateEmpty(key, value);
    } else {
      var init, last := rows[..|rows| - 1], rows[|rows| - 1];
      assert rows == init + [last];
      UpdateKeeps(init, key, value, k);
      UpdateSnoc(init, last, key, value);
      ForKeySnoc(SqlUpdate(init, key, value), if last.key == key then Tag(key, value) else last, k);
    }
  }

  lemma UpdateEmpty(key: string, value: string)
    ensures SqlUpdate([], key, value) == []
  {}

  /** An UPDATE sets every row of its key. */
  lemma {:induction false} UpdateSets(rows: seq<Tag>, key: string, value: string)
    ensures forall t :: t in ForKey(SqlUpdate(rows, key, value), key) ==> t == Tag(key, value)
  {
    hide SqlUpdate;
    if rows == [] {
      UpdateEmpty(key, value);
    } else {
      var init, last := rows[..|rows| - 1], rows[|rows| - 1];
      assert rows == init + [last];
      UpdateSets(init, key, value);
      UpdateSnoc(init, last, key, value);
      ForKeySnoc(SqlUpdate(init, key, value), if last.key == key then Tag(key, value) else last, key);
    }
  }

  lemma {:induction false} DeleteKey(rows: seq<Tag>, keys: set<string>, k: string)
    ensures ForKey(SqlDelete(rows, keys), k) == if k in keys then [] else ForKey(rows, k)
  {
    if rows != [] {
      DeleteKey(rows[..|rows| - 1], keys, k);
      ForKeySnoc(SqlDelete(rows[..|rows| - 1], keys), rows[|rows| - 1], k);
    }
  }

  /** How many rows a key has once the loop has run. */
  function LoopCount(r: nat, c: nat): nat { if c == 0 then r else r + c - (if r > 0 then 1 else 0) }

  lemma {:induction false} LoopCounts(rows: seq<Tag>, cleaned: seq<Tag>, k: string)
    ensures var s := DiffLoop(rows, cleaned);
      && Count(s.rows, k) == LoopCount(Count(rows, k), Count(cleaned, k))
      && (k in s.existing <==> Count(rows, k) > 0 && Count(cleaned, k) == 0)
  {
    hide AsMap, DiffStep, ForKey;
    if cleaned == [] {
      CountKey(rows, k);
      NoRows(k);
    } else {
      var init, t := cleaned[..|cleaned| - 1], cleaned[|cleaned| - 1];
      assert cleaned == init + [t];
      LoopCounts(rows, init, k);
      ForKeySnoc(init, t, k);
      StepCounts(DiffLoop(rows, init), t, k);
    }
  }

  lemma NoRows(k: string)
    ensures ForKey([], k) == []
  {}

  lemma StepCounts(s: Loop, t: Tag, k: string)
    ensures var r := DiffStep(s, t);
      && Count(r.rows, k) == Count(s.rows, k) + (if t.key == k && k !in s.existing then 1 else 0)
      && (k in r.existing <==> k in s.existing && k != t.key)
  {
    hide ForKey, SqlUpdate;
    ForKeySnoc(s.rows, t, k);
    UpdateKeeps(s.rows, t.key, t.value, k);
  }

  /** How many rows a key has after the diff, whatever was stored and whatever collides. */
  lemma DiffCount(rows: seq<Tag>, cleaned: seq<Tag>, k: string)
    ensures Count(Diff(rows, cleaned), k) ==
      if Count(cleaned, k) == 0 then 0
      else Count(rows, k) + Count(cleaned, k) - (if Count(rows, k) > 0 then 1 else 0)
  {
    hide ForKey, DiffLoop, SqlDelete;
    LoopCounts(rows, cleaned, k);
    var s := DiffLoop(rows, cleaned);
    DeleteKey(s.rows, s.existing.Keys, k);
  }

  lemma {:induction false} UniqueCounts(rows: seq<Tag>)
    ensures KeyUnique(rows) <==> forall k :: Count(rows, k) <= 1
  {
    if rows != [] {
      var init, last := rows[..|rows| - 1], rows[|rows| - 1];
      UniqueCounts(init);
      CountKey(init, last.key);
      MapKeys(init, last.key);
      if HasKey(init, last.key) {
        var i :| 0 <= i < |init| && init[i].key == last.key;
        assert rows[i].key == rows[|init|].key;
        assert Count(rows, last.key) == Count(init, last.key) + 1;
      } else {
        assert KeyUnique(init) ==> KeyUnique(rows);
      }
      assert forall k :: Count(rows, k) >= Count(init, k);
      assert KeyUnique(rows) ==> KeyUnique(init);
    }
  }

  /**
   Exactly when the diff leaves one row per key: the cleaned keys are distinct, and none of
   them is stored more than once.
   */
  lemma UniqueIff(rows: seq<Tag>, cleaned: seq<Tag>)
    ensures KeyUnique(Diff(rows, cleaned)) <==>
      KeyUnique(cleaned) && forall k :: Count(cleaned, k) > 0 ==> Count(rows, k) <= 1
  {
    hide KeyUnique, Count, Diff;
    forall k ensures Count(Diff(rows, cleaned), k) <= 1 <==>
      Count(cleaned, k) <= 1 && (Count(cleaned, k) > 0 ==> Count(rows, k) <= 1)
    {
      DiffCount(rows, cleaned, k);
    }
    UniqueCounts(Diff(rows, cleaned));
    UniqueCounts(cleaned);
  }

  // ---------------------------------------------------------------- exactly the cleaned rows

  lemma {:induction false} ReadBack(rows: seq<Tag>, key: string)
    requires Count(rows, key) == 1
    ensures key in AsMap(rows) && ForKey(rows, key) == [Tag(key, AsMap(rows)[key])]
  {
    var init, last := rows[..|rows| - 1], rows[|rows| - 1];
    if last.key == key {
      assert last == Tag(key, last.value);
    } else {
      ReadBack(init, key);
    }
  }

  lemma {:induction false} LoopRows(rows: seq<Tag>, cleaned: seq<Tag>, k: string)
    requires Count(rows, k) <= 1
    ensures ForKey(DiffLoop(rows, cleaned).rows, k) == if Count(cleaned, k) == 0 then ForKey(rows, k) else ForKey(cleaned, k)
  {
    hide AsMap, DiffStep, ForKey;
    if cleaned == [] {
      NoRows(k);
    } else {
      var init, t := cleaned[..|cleaned| - 1], cleaned[|cleaned| - 1];
      assert cleaned == init + [t];
      LoopRows(rows, init, k);
      LoopCounts(rows, init, k);
      LoopInvariant(rows, init);
      CountKey(init, k);
      CountKey(rows, k);
      ForKeySnoc(init, t, k);
      var s := DiffLoop(rows, init);
      if k in s.existing { ReadBack(s.rows, k); }
      StepRows(s, t, k);
      if Count(init, k) == 0 { assert ForKey(init, k) == []; assert [] + [t] == [t]; }
    }
  }

  lemma StepRows(s: Loop, t: Tag, k: string)
    requires k in s.existing ==> ForKey(s.rows, k) == [Tag(k, s.existing[k])]
    ensures ForKey(DiffStep(s, t).rows, k) ==
      if t.key != k then ForKey(s.rows, k) else if k in s.existing then [t] else ForKey(s.rows, k) + [t]
  {
    hide ForKey, SqlUpdate;
    ForKeySnoc(s.rows, t, k);
    UpdateKeeps(s.rows, t.key, t.value, k);
    UpdateSets(s.rows, t.key, t.value);
    if t.key == k && k in s.existing {
      var u := ForKey(SqlUpdate(s.rows, k, t.value), k);
      assert |u| == 1 && u[0] in u;
      assert u == [t];
    }
  }

  /** Exactly when a key's rows become its cleaned tags: unless it is kept and stored repeatedly. */
  lemma KeyRowsIff(rows: seq<Tag>, cleaned: seq<Tag>, k: string)
    ensures ForKey(Diff(rows, cleaned), k) == ForKey(cleaned, k) <==> Count(cleaned, k) == 0 || Count(rows, k) <= 1
  {
    hide ForKey, DiffLoop, SqlDelete;
    var s := DiffLoop(rows, cleaned);
    DiffCount(rows, cleaned, k);
    DeleteKey(s.rows, s.existing.Keys, k);
    LoopCounts(rows, cleaned, k);
    if Count(rows, k) <= 1 { LoopRows(rows, cleaned, k); }
    if Count(cleaned, k) == 0 { assert ForKey(cleaned, k) == [] == ForKey(Diff(rows, cleaned), k); }
  }

  /** A key stored twice stays twice, with distinct cleaned tags. */
  lemma RepeatStays(key: string, value: string)
    ensures var t := Tag(key, value); Diff([t, t], [t]) == [t, t]
  {
    hide SqlUpdate, SqlDelete;
    var t := Tag(key, value);
    MapSnoc([t], t);
    assert [t] + [t] == [t, t];
    assert AsMap([t, t]) == map[key := value];
    assert [t][..0] == [];
    assert DiffLoop([t, t], []) == Loop([t, t], map[key := value]);
    var none: map<string, string> := map[];
    assert DiffLoop([t, t], [t]) == Loop([t, t], none);
    DeleteNone([t, t]);
    assert none.Keys == {};
  }

  /** Re-application: each time some listing of the stored rows is brought in line again. */
  ghost predicate Reapplied(history: seq<seq<Tag>>, cleaned: seq<Tag>) {
    |history| > 0 && forall i :: 0 <= i < |history| - 1 ==> multiset(history[i + 1]) == multiset(Diff(history[i], cleaned))
  }

  lemma {:induction false} ForKeyConcat(a: seq<Tag>, b: seq<Tag>, k: string)
    ensures ForKey(a + b, k) == ForKey(a, k) + ForKey(b, k)
  {
    if b == [] {
      assert a + b == a;
    } else {
      var init, last := b[..|b| - 1], b[|b| - 1];
      assert a + b == (a + init) + [last] && b == init + [last];
      ForKeyConcat(a, init, k);
      ForKeySnoc(a + init, last, k);
    }
  }

  lemma TakeOut(b: seq<Tag>, t: Tag, k: string) returns (rest: seq<Tag>)
    requires t in b
    ensures multiset(b) == multiset(rest) + multiset{t}
    ensures Count(b, k) == Count(rest, k) + (if t.key == k then 1 else 0)
  {
    hide ForKey;
    var i :| 0 <= i < |b| && b[i] == t;
    rest := b[..i] + b[i + 1..];
    assert b == b[..i] + [t] + b[i + 1..];
    ForKeyConcat(b[..i], b[i + 1..], k);
    ForKeyConcat(b[..i] + [t], b[i + 1..], k);
    ForKeySnoc(b[..i], t, k);
  }

  lemma DropOne(t: Tag, m: multiset<Tag>, n: multiset<Tag>)
    requires m + multiset{t} == n + multiset{t}
    ensures m == n
  {
    forall x: Tag ensures m[x] == n[x] { assert (m + multiset{t})[x] == (n + multiset{t})[x]; }
  }

  /** Counting does not depend on the order in which rows are listed. */
  lemma {:induction false} CountListing(a: seq<Tag>, b: seq<Tag>, k: string)
    requires multiset(a) == multiset(b)
    ensures Count(a, k) == Count(b, k)
  {
    hide ForKey, Count;
    if a == [] {
      assert |multiset(b)| == |b|;
    } else {
      var init, last := a[..|a| - 1], a[|a| - 1];
      assert a == init + [last];
      assert last in multiset(b);
      var rest := TakeOut(b, last, k);
      DropOne(last, multiset(init), multiset(rest));
      CountListing(init, rest, k);
      CountSnoc(init, last, k);
    }
  }

  lemma CountSnoc(init: seq<Tag>, last: Tag, k: string)
    ensures Count(init + [last], k) == Count(init, k) + (if last.key == k then 1 else 0)
  {
    ForKeySnoc(init, last, k);
  }

  /** How often a kept key is stored after `n` applications of `c` cleaned tags to `r` rows. */
  function Grown(r: nat, c: nat, n: nat): int {
    if n == 0 then r else if r > 0 then r + Times(n, c - 1) else c + Times(n - 1, c - 1)
  }

  function Times(n: nat, d: int): int { n * d }

  lemma TimesNext(n: nat, d: int)
    ensures Times(0, d) == 0
    ensures Times(n + 1, d) == Times(n, d) + d
    ensures d >= 0 ==> Times(n, d) >= 0
  {}

  lemma GrownStep(r: nat, c: nat, n: nat)
    requires c > 0
    ensures Grown(r, c, n) >= 0 && (Grown(r, c, n) > 0 <==> n > 0 || r > 0)
    ensures Grown(r, c, n + 1) == Grown(r, c, n) + c - (if Grown(r, c, n) > 0 then 1 else 0)
  {
    hide Times;
    TimesNext(n, c - 1);
    if n > 0 { TimesNext(n - 1, c - 1); }
  }

  /**
   Every re-application adds the same number of rows for a key: one less than its cleaned tags,
   so a collision grows without bound and distinct keys never grow.
   */
  lemma {:induction false} CollisionGrows(history: seq<seq<Tag>>, cleaned: seq<Tag>, k: string, n: nat)
    requires Reapplied(history, cleaned) && Count(cleaned, k) > 0 && n < |history|
    ensures Count(history[n], k) == Grown(Count(history[0], k), Count(cleaned, k), n)
  {
    hide Count, Diff, Grown;
    if n == 0 {
      GrownStart(Count(history[0], k), Count(cleaned, k));
    } else {
      CollisionGrows(history, cleaned, k, n - 1);
      assert multiset(history[n - 1 + 1]) == multiset(Diff(history[n - 1], cleaned));
      CountListing(history[n], Diff(history[n - 1], cleaned), k);
      DiffCount(history[n - 1], cleaned, k);
      GrownStep(Count(history[0], k), Count(cleaned, k), n - 1);
    }
  }

  lemma GrownStart(r: nat, c: nat)
    ensures Grown(r, c, 0) == r
  {}

  // ---------------------------------------------------------------- cleaning an entity's tags

  /** The cleaned pairs of the raw keys `order`. */
  function Cleaned(tags: map<string, string>, order: seq<string>): seq<Tag>
    requires forall i :: 0 <= i < |order| ==> order[i] in tags
  {
    seq(|order|, i requires 0 <= i < |order| =>
      Tag(TagText.SanitizeTag(order[i]), TagText.SanitizeTag(tags[order[i]])))
  }

  /** `order` lists the surviving raw keys, each once. */
  ghost predicate Lists(order: seq<string>, tags: map<string, string>, isNode: bool) {
    && (forall i, j :: 0 <= i < j < |order| ==> order[i] != order[j])
    && (forall k :: k in order <==> k in tags && Survives(tags, k, isNode))
  }

  /** However the tags are enumerated, cleaning them gives the tag set an entity should have. */
  lemma CleanedIsKept(tags: Tags, order: seq<string>, isNode: bool)
    requires Lists(order, tags, isNode)
    ensures KeyUnique(Cleaned(tags, order)) && AsMap(Cleaned(tags, order)) == Kept(tags, isNode)
  {
    hide AsMap, Kept, Survives, TagText.SanitizeTag, NavTables.NoCollision;
    var c := Cleaned(tags, order);
    CleanedUnique(tags, order, isNode);
    var m, kept := AsMap(c), Kept(tags, isNode);
    forall k ensures k in m ==> k in kept && m[k] == kept[k] {
      if k in m {
        var i := MapRow(c, k);
        assert order[i] in order;
        KeptAt(tags, isNode, order[i]);
      }
    }
    forall k | k in kept ensures k in m {
      var raw := KeptFrom(tags, isNode, k);
      var i :| 0 <= i < |order| && order[i] == raw;
      assert c[i].key == k;
      MapKeys(c, k);
    }
  }

  lemma CleanedUnique(tags: Tags, order: seq<string>, isNode: bool)
    requires Lists(order, tags, isNode)
    ensures KeyUnique(Cleaned(tags, order))
  {
    hide ExcludedKey, SignOrBarrier, DroppableNature, HasElevation, TagText.SanitizeTag;
    var c := Cleaned(tags, order);
    forall i, j | 0 <= i < j < |c| ensures c[i].key != c[j].key {
      assert order[i] in order && order[j] in order;
      assert Survives(tags, order[i], false) && Survives(tags, order[j], false);
    }
  }

  lemma {:induction false} MapRow(rows: seq<Tag>, key: string) returns (i: nat)
    requires key in AsMap(rows)
    ensures i < |rows| && rows[i] == Tag(key, AsMap(rows)[key])
  {
    var init, last := rows[..|rows| - 1], rows[|rows| - 1];
    if last.key == key { i := |init|; } else { i := MapRow(init, key); }
  }

  // ---------------------------------------------------------------- the method

  method ReadExisting(rows: seq<Tag>) returns (existing: map<string, string>)
    ensures existing == AsMap(rows)
  {
    existing := map[];
    for i := 0 to |rows|
      invariant existing == AsMap(rows[..i])
    {
      assert rows[..i + 1][..i] == rows[..i];
      existing := existing[rows[i].key := rows[i].value];
    }
    assert rows[..|rows|] == rows;
  }

  method SweepLeftovers(rows: seq<Tag>, existing: map<string, string>) returns (out: seq<Tag>)
    ensures out == SqlDelete(rows, existing.Keys)
  {
    out := rows;
    var left := existing.Keys;
    DeleteNone(rows);
    assert existing.Keys - left == {};
    while left != {}
      invariant left <= existing.Keys
      invariant out == SqlDelete(rows, existing.Keys - left)
      decreases left
    {
      var k :| k in left;
      DeleteTwice(rows, existing.Keys - left, {k});
      assert existing.Keys - left + {k} == existing.Keys - (left - {k});
      out := SqlDelete(out, {k});
      left := left - {k};
    }
    assert existing.Keys - {} == existing.Keys;
  }

  /**
   `diffTags`, with the order in which the unordered tags were visited. Each tag is skipped,
   inserted, updated or left alone; what the loop did not reach is deleted.
   */
  method DiffTags(rows: seq<Tag>, tags: map<string, string>, isNode: bool) returns (out: seq<Tag>, order: seq<string>)
    ensures Lists(order, tags, isNode)
    ensures out == Diff(rows, Cleaned(tags, order))
  {
    hide Survives, DiffStep, AsMap, TagText.SanitizeTag;
    var existing := ReadExisting(rows);
    out := rows;
    order := [];
    assert Cleaned(tags, order) == [];
    var rest := tags.Keys;
    while rest != {}
      invariant rest <= tags.Keys
      invariant forall i :: 0 <= i < |order| ==> order[i] in tags.Keys - rest
      invariant forall i, j :: 0 <= i < j < |order| ==> order[i] != order[j]
      invariant forall k :: k in order <==> k in tags.Keys - rest && Survives(tags, k, isNode)
      invariant Loop(out, existing) == DiffLoop(rows, Cleaned(tags, order))
      decreases rest
    {
      var k :| k in rest;
      rest := rest - {k};
      if Survives(tags, k, isNode) {
        var ck := TagText.CleanTagText(k);
        var cv := TagText.CleanTagText(tags[k]);
        ExtendCleaned(tags, order, k);
        ghost var before := Loop(out, existing);
        if ck !in existing {
          out := out + [Tag(ck, cv)];
        } else if existing[ck] != cv {
          out := SqlUpdate(out, ck, cv);
        }
        existing := existing - {ck};
        StepIs(before, Tag(ck, cv), Loop(out, existing));
        order := order + [k];
      }
    }
    out := SweepLeftovers(out, existing);
  }

  lemma StepIs(s: Loop, t: Tag, r: Loop)
    requires r.existing == s.existing - {t.key}
    requires t.key !in s.existing ==> r.rows == s.rows + [t]
    requires t.key in s.existing && s.existing[t.key] != t.value ==> r.rows == SqlUpdate(s.rows, t.key, t.value)
    requires t.key in s.existing && s.existing[t.key] == t.value ==> r.rows == s.rows
    ensures DiffStep(s, t) == r
  {}

  lemma ExtendCleaned(tags: map<string, string>, order: seq<string>, k: string)
    requires (forall i :: 0 <= i < |order| ==> order[i] in tags) && k in tags
    ensures var c := Cleaned(tags, order + [k]); var t := Tag(TagText.SanitizeTag(k), TagText.SanitizeTag(tags[k]));
            && c == Cleaned(tags, order) + [t]
            && forall rows :: DiffLoop(rows, c) == DiffStep(DiffLoop(rows, Cleaned(tags, order)), t)
  {
    hide DiffStep, TagText.SanitizeTag;
    var c, init := Cleaned(tags, order + [k]), Cleaned(tags, order);
    assert c[..|c| - 1] == init;
  }
}
