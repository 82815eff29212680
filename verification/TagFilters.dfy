/**
 What the tag filters keep (src/NavDB.cpp, `hasSurvivingTag` and the helpers before it), one
 tag at a time and for the literal keys and values.
 */
module TagFilters {
  import opened NavTables
  import TagText

  // ---------------------------------------------------------------- tag by tag

  /** One tag, with the two that the node filters look up beside it. */
  function Beside(tags: Tags, raw: string): Tags {
    RestrictedTags(tags, raw);
    map x | x in tags && (x == raw || x == "height" || x == "ele") :: tags[x]
  }

  lemma RestrictedTags(tags: Tags, raw: string)
    ensures NoCollision(map x | x in tags && (x == raw || x == "height" || x == "ele") :: tags[x])
  {
    hide ExcludedKey, SignOrBarrier, DroppableNature, TagText.SanitizeTag;
    var m := map x | x in tags && (x == raw || x == "height" || x == "ele") :: tags[x];
    assert forall j :: j in m && Survives(m, j, false) ==> Survives(tags, j, false);
  }

  lemma SurvivesBeside(tags: Tags, raw: string, isNode: bool, j: string)
    requires j in Beside(tags, raw)
    ensures Survives(Beside(tags, raw), j, isNode) <==> Survives(tags, j, isNode)
  {
    hide ExcludedKey, SignOrBarrier, DroppableNature, TagText.SanitizeTag, NoCollision;
  }

  predicate KeepsAs(tags: Tags, isNode: bool, k: string, v: string) { k in Kept(tags, isNode) && Kept(tags, isNode)[k] == v }

  /** An entity keeps what its tags keep, each taken with its elevation alone. */
  lemma TagByTag(tags: Tags, isNode: bool, k: string, v: string)
    ensures KeepsAs(tags, isNode, k, v) <==> exists raw :: raw in tags && KeepsAs(Beside(tags, raw), isNode, k, v)
  {
    hide Survives, TagText.SanitizeTag, Kept, NoCollision;
    if KeepsAs(tags, isNode, k, v) {
      var raw := KeptFrom(tags, isNode, k);
      KeptAt(tags, isNode, raw);
      SurvivesBeside(tags, raw, isNode, raw);
      KeptAt(Beside(tags, raw), isNode, raw);
      assert KeepsAs(Beside(tags, raw), isNode, k, v);
    }
    if raw :| raw in tags && KeepsAs(Beside(tags, raw), isNode, k, v) {
      var j := KeptFrom(Beside(tags, raw), isNode, k);
      KeptAt(Beside(tags, raw), isNode, j);
      SurvivesBeside(tags, raw, isNode, j);
      KeptAt(tags, isNode, j);
    }
  }

  // ---------------------------------------------------------------- single tags

  lemma Single(raw: string, v: string, isNode: bool)
    ensures NoCollision(map[raw := v])
    ensures var t: Tags := map[raw := v];
      Kept(t, isNode) == if Survives(t, raw, isNode) then map[TagText.SanitizeTag(raw) := TagText.SanitizeTag(v)] else map[]
  {
    hide Survives, TagText.SanitizeTag;
  }

  predicate Prefixed(raw: string) { "addr:" <= raw || "building:" <= raw || "source:" <= raw || "tiger:" <= raw }

  lemma PrefixedIff(raw: string)
    ensures Prefixed(raw) <==> exists p :: p in EXCLUDED_PREFIXES && p <= raw
  {
    assert EXCLUDED_PREFIXES[0] == "addr:" && EXCLUDED_PREFIXES[1] == "building:";
    assert EXCLUDED_PREFIXES[2] == "source:" && EXCLUDED_PREFIXES[3] == "tiger:";
    if Prefixed(raw) {
      var p := if "addr:" <= raw then "addr:" else if "building:" <= raw then "building:" else if "source:" <= raw then "source:" else "tiger:";
      assert p in EXCLUDED_PREFIXES && p <= raw;
    }
  }

  lemma NotPrefixed(raw: string)
    requires |raw| > 1 && raw[0] != 'a' && raw[0] != 's' && (raw[0] == 't' ==> raw[1] != 'i') && (raw[0] == 'b' ==> |raw| < 9)
    ensures !Prefixed(raw)
  {
    assert "addr:"[0] == 'a' && "source:"[0] == 's' && "tiger:"[1] == 'i' && "tiger:"[0] == 't';
  }

  lemma SpecialNotExcluded(raw: string)
    requires raw == "building" || raw == "highway" || raw == "barrier" || raw == "traffic_sign" || raw == "natural"
    ensures !ExcludedKey(raw) && TagText.SanitizeTag(raw) == raw
  {
    hide TagText.SanitizeTag, Prefixed;
    PrefixedIff(raw);
    NotPrefixed(raw);
    TagText.AsciiStays(raw);
  }

  /** A building alone is kept exactly for the three values of use to aviation. */
  lemma BareBuilding(v: string, isNode: bool)
    ensures NoCollision(map["building" := v])
    ensures var t: Tags := map["building" := v];
      Kept(t, isNode) == if v == "hangar" || v == "terminal" || v == "control_tower" then t else map[]
  {
    hide TagText.SanitizeTag, Kept;
    hide ExcludedKey;
    Single("building", v, isNode);
    SpecialNotExcluded("building");
    if v == "hangar" || v == "terminal" || v == "control_tower" { TagText.AsciiStays(v); }
  }

  /** Provenance keys and the four prefixes are never kept, nor a tag that cleaning empties. */
  lemma ExcludedAlone(raw: string, v: string, isNode: bool)
    requires raw == "source" || raw == "created_by" || raw == "attribution" || Prefixed(raw)
      || TagText.SanitizeTag(raw) == "" || TagText.SanitizeTag(v) == ""
    ensures NoCollision(map[raw := v])
    ensures var t: Tags := map[raw := v]; Kept(t, isNode) == map[]
  {
    hide TagText.SanitizeTag, Kept;
    Single(raw, v, isNode);
    PrefixedIff(raw);
  }

  /** Signs and barriers: nothing on a node, kept elsewhere. */
  lemma NodeClutter(raw: string, v: string)
    requires raw == "highway" || raw == "barrier" || raw == "traffic_sign"
    ensures NoCollision(map[raw := v])
    ensures var t: Tags := map[raw := v]; var clean := TagText.SanitizeTag(v);
      && Kept(t, false) == (if clean == "" then map[] else map[raw := clean])
      && Kept(t, true) == if clean == "" || Clutter(raw, v) then map[] else map[raw := clean]
  {
    hide TagText.SanitizeTag, Kept;
    Single(raw, v, true);
    Single(raw, v, false);
    SpecialNotExcluded(raw);
  }

  predicate Clutter(raw: string, v: string) {
    || raw == "traffic_sign"
    || (raw == "highway"
        && v in ["stop", "give_way", "traffic_signals", "milestone", "crossing", "turning_circle", "turning_loop",
                 "motorway_junction", "street_lamp", "bus_stop"])
    || (raw == "barrier" && v in ["gate", "bollard", "kerb", "lift_gate", "block", "cycle_barrier", "swing_gate", "stile"])
  }

  /** A tree, shrub or rock is kept on a node exactly when it has a height or an elevation. */
  lemma Nature(tags: Tags, isNode: bool)
    requires "natural" in tags && forall x :: x in tags ==> x == "natural" || x == "height" || x == "ele"
    ensures var v := tags["natural"]; var clean := TagText.SanitizeTag(v);
      "natural" in Kept(tags, isNode) <==>
        && clean != ""
        && (!isNode || (v != "tree" && v != "shrub" && v != "rock")
            || ("height" in tags && tags["height"] != "") || ("ele" in tags && tags["ele"] != ""))
  {
    hide TagText.SanitizeTag, Kept, ExcludedKey, NoCollision;
    SpecialNotExcluded("natural");
    TagText.AsciiStays("height");
    TagText.AsciiStays("ele");
    if "natural" in Kept(tags, isNode) { var raw := KeptFrom(tags, isNode, "natural"); }
    if Survives(tags, "natural", isNode) { KeptAt(tags, isNode, "natural"); }
  }

  /** Any other tag is kept, cleaned. */
  lemma OtherTag(raw: string, v: string, isNode: bool)
    requires raw != "source" && raw != "created_by" && raw != "attribution" && !Prefixed(raw)
    requires raw != "building" && raw != "highway" && raw != "barrier" && raw != "traffic_sign" && raw != "natural"
    requires TagText.SanitizeTag(raw) != "" && TagText.SanitizeTag(v) != ""
    ensures NoCollision(map[raw := v])
    ensures var t: Tags := map[raw := v]; Kept(t, isNode) == map[TagText.SanitizeTag(raw) := TagText.SanitizeTag(v)]
  {
    hide TagText.SanitizeTag, Kept;
    Single(raw, v, isNode);
    PrefixedIff(raw);
  }

  /** A road route is always kept. */
  lemma RouteKept(tags: Tags, isNode: bool)
    requires "route" in tags && tags["route"] == "road"
    ensures Kept(tags, isNode) != map[]
  {
    hide TagText.SanitizeTag, Kept;
    PrefixedIff("route");
    NotPrefixed("route");
    TagText.AsciiStays("route");
    TagText.AsciiStays("road");
    KeptAt(tags, isNode, "route");
  }
}
