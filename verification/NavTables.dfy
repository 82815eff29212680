/**
 The entity tables and the transactions the delta appliers run on them
 (src/NavDB.cpp: tag filters, `diffTags`, `update*`, `deleteEntity`, `getWay`).

 A `World` holds the node coordinate store and the five parent/tag table pairs as one
 map from cells to contents. A parent row is keyed by (table, id); the tag rows of one
 entity form one cell.
 */
module NavTables {
  import opened Core
  import opened Geometry
  import TagText

  datatype Kind = NodeKind | WayKind | AreaKind | RoadKind | RelationKind

  datatype Row =
    | NodeRow(name: string, at: Coord, geog: Geom)
    | GeomRow(name: string, shape: Option<Geom>)

  // ---------------------------------------------------------------- tag filters

  const EXCLUDED_KEYS := {"source", "created_by", "attribution"}
  const EXCLUDED_PREFIXES := ["addr:", "building:", "source:", "tiger:"]
  const KEPT_BUILDINGS := {"hangar", "terminal", "control_tower"}
  const DROPPED_HIGHWAYS := {
    "stop", "give_way", "traffic_signals", "milestone", "crossing", "turning_circle",
    "turning_loop", "motorway_junction", "street_lamp", "bus_stop" }
  const DROPPED_BARRIERS := {
    "gate", "bollard", "kerb", "lift_gate", "block", "cycle_barrier", "swing_gate", "stile" }
  const DROPPED_NATURE := {"tree", "shrub", "rock"}

  predicate ExcludedKey(key: string) {
    key in EXCLUDED_KEYS || exists p :: p in EXCLUDED_PREFIXES && p <= key
  }

  predicate SignOrBarrier(key: string, value: string) {
    || key == "traffic_sign"
    || (key == "highway" && value in DROPPED_HIGHWAYS)
    || (key == "barrier" && value in DROPPED_BARRIERS)
  }

  predicate DroppableNature(key: string, value: string) {
    key == "natural" && value in DROPPED_NATURE
  }

  predicate HasElevation(tags: map<string, string>) {
    ("height" in tags && tags["height"] != "") || ("ele" in tags && tags["ele"] != "")
  }

  /** The filter that `hasSurvivingTag` and `diffTags` must share. */
  predicate Survives(tags: map<string, string>, key: string, isNode: bool)
    requires key in tags
  {
    var value := tags[key];
    && !ExcludedKey(key)
    && !(key == "building" && value !in KEPT_BUILDINGS)
    && !(isNode && SignOrBarrier(key, value))
    && !(isNode && DroppableNature(key, value) && !HasElevation(tags))
    && TagText.SanitizeTag(key) != [] && TagText.SanitizeTag(value) != []
  }

  predicate HasSurvivingTag(tags: map<string, string>, isNode: bool) {
    exists k :: k in tags && Survives(tags, k, isNode)
  }

  /** No two surviving raw keys of one entity are cleaned to the same key. */
  predicate NoCollision(tags: map<string, string>) {
    forall j, k | j in tags && k in tags && Survives(tags, j, false) && Survives(tags, k, false) ::
      TagText.SanitizeTag(j) == TagText.SanitizeTag(k) ==> j == k
  }

  type Tags = t: map<string, string> | NoCollision(t) witness map[]

  /** The tag rows an entity should have: surviving tags, cleaned. */
  function Kept(tags: Tags, isNode: bool): (m: map<string, string>)
    ensures (m == map[]) <==> !HasSurvivingTag(tags, isNode)
  {
    var m := map k | k in tags && Survives(tags, k, isNode)
      :: TagText.SanitizeTag(k) := TagText.SanitizeTag(tags[k]);
    assert forall k :: k in tags && Survives(tags, k, isNode) ==> TagText.SanitizeTag(k) in m;
    assert m != map[] ==> exists k :: k in m;
    m
  }

  lemma KeptAt(tags: Tags, isNode: bool, raw: string)
    requires raw in tags && Survives(tags, raw, isNode)
    ensures var k := TagText.SanitizeTag(raw);
            k in Kept(tags, isNode) && Kept(tags, isNode)[k] == TagText.SanitizeTag(tags[raw])
  {
    hide ExcludedKey, SignOrBarrier, DroppableNature, HasElevation, TagText.SanitizeTag;
    assert Survives(tags, raw, false);
  }

  lemma KeptFrom(tags: Tags, isNode: bool, key: string) returns (raw: string)
    requires key in Kept(tags, isNode)
    ensures raw in tags && Survives(tags, raw, isNode) && TagText.SanitizeTag(raw) == key
  {
    hide Survives, TagText.SanitizeTag;
    raw :| raw in tags && Survives(tags, raw, isNode) && TagText.SanitizeTag(raw) == key;
  }

  // ---------------------------------------------------------------- cells

  datatype Cell =
    | CoordCell(id: int)
    | RowCell(kind: Kind, id: int)
    | TagCell(kind: Kind, id: int)

  datatype Content =
    | Absent
    | At(coord: Coord)
    | Stored(row: Row)
    | Tagged(rows: map<string, string>)

  /** Absent cells are simply not in the map, so equal worlds are equal maps. */
  type World = w: map<Cell, Content> | forall c :: c in w ==> w[c] != Absent witness map[]

  function Get(w: World, c: Cell): Content { if c in w then w[c] else Absent }

  function Put(w: World, patch: map<Cell, Content>): (r: World)
    ensures forall c :: Get(r, c) == if c in patch then patch[c] else Get(w, c)
  {
    map c | c in w.Keys + patch.Keys && (if c in patch then patch[c] else w[c]) != Absent
      :: if c in patch then patch[c] else w[c]
  }

  lemma Extensional(v: World, w: World)
    requires forall c :: Get(v, c) == Get(w, c)
    ensures v == w
  {
    forall c ensures c in v <==> c in w { assert Get(v, c) == Get(w, c); }
    forall c | c in v ensures v[c] == w[c] { assert Get(v, c) == Get(w, c); }
  }

  // ---------------------------------------------------------------- transactions as patches

  /** One `updateNode/Way/Area/Relation/Road` transaction. */
  function Upsert(kind: Kind, id: int, row: Row, tags: Tags): (patch: map<Cell, Content>)
    ensures patch.Keys == {RowCell(kind, id), TagCell(kind, id)}
  {
    var kept := Kept(tags, kind.NodeKind?);
    if kept == map[] then Erase(kind, id)
    else map[RowCell(kind, id) := Stored(row), TagCell(kind, id) := Tagged(kept)]
  }

  /** One `deleteEntity` transaction. */
  function Erase(kind: Kind, id: int): (patch: map<Cell, Content>)
    ensures patch.Keys == {RowCell(kind, id), TagCell(kind, id)}
  {
    map[RowCell(kind, id) := Absent, TagCell(kind, id) := Absent]
  }

  /** `getWay`: the way row's geometry, else the area row's. */
  function GetWay(w: World, id: int): Option<Geom> {
    match Get(w, RowCell(WayKind, id))
    case Stored(GeomRow(_, shape)) => shape
    case Stored(NodeRow(_, _, _)) => None
    case _ =>
      match Get(w, RowCell(AreaKind, id))
      case Stored(GeomRow(_, shape)) => shape
      case _ => None
  }
}
