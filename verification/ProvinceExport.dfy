/** Exporting the province map: the colour image, the definition table, and how they agree. */
module ProvinceExport {
  import opened Types
  import opened Collections
  import opened ProvinceForest
  import opened ForestLaws
  import opened ForestEffects
  import opened Pixels
  import opened ProvinceProject

  // ----- The image -----

  /** The three bytes of pixel `i`. */
  ghost predicate PixelIs(bytes: seq<uint8>, i: nat, c: Color) {
    3 * i + 3 <= |bytes| && bytes[3 * i] == c.r && bytes[3 * i + 1] == c.g && bytes[3 * i + 2] == c.b
  }

  ghost function PixelColor(bytes: seq<uint8>, i: nat): Color
    requires 3 * i + 3 <= |bytes|
  {
    Color(bytes[3 * i], bytes[3 * i + 1], bytes[3 * i + 2])
  }

  /** The root walk from the pixel's province ends at a province of this colour. */
  ghost predicate RootColored(m: ProvinceMap, bytes: seq<uint8>, labels: seq<ProvinceID>, i: nat)
    requires i < |labels| && labels[i] in m ==> Terminates(m, labels[i])
  {
    i < |labels| && labels[i] in m ==>
      var r := RootResult(m, labels[i]);
      r.Value? && r.value in m && PixelIs(bytes, i, m[r.value].uniqueColor)
  }

  ghost predicate WalksEnd(m: ProvinceMap, labels: seq<ProvinceID>) {
    forall i {:trigger labels[i]} :: 0 <= i < |labels| && labels[i] in m ==> Terminates(m, labels[i])
  }

  /**
    The colours of the root provinces, pixel by pixel. Pixels of unknown
    provinces keep whatever the fresh buffer held.
   */
  method GetProvinceColorsForExport(project: ProvinceProject, labels: seq<ProvinceID>, width: nat, height: nat)
    returns (r: Maybe<seq<uint8>>)
    requires |labels| == width * height && width * height * 3 <= 0x1_0000_0000
    requires WalksEnd(project.provinces, labels)
    ensures r.Value? ==> |r.value| == 3 * |labels|
    ensures r.Value? ==> forall i :: 0 <= i < |labels| ==> RootColored(project.provinces, r.value, labels, i)
    ensures r.Failure? ==> exists i ::
      0 <= i < |labels| && labels[i] in project.provinces && RootResult(project.provinces, labels[i]).Failure?
  {
    var colors := new uint8[width * height * 3];
    ghost var m := project.provinces;
    for x := 0 to width
      invariant forall i :: 0 <= i < |labels| && Visited(width, x, 0, i) ==> RootColored(m, colors[..], labels, i)
    {
      for y := 0 to height
        invariant forall i :: 0 <= i < |labels| && Visited(width, x, y, i) ==> RootColored(m, colors[..], labels, i)
      {
        XyToIndexIsExact(width, height, x, y);
        PixelOffset(width, height, 3, x, y);
        var lindex := XyToIndex(width, x, y);
        var gindex := XyToIndex(width * 3, x * 3, y);
        var id := labels[lindex];
        forall i ensures Visited(width, x, y + 1, i) <==> Visited(width, x, y, i) || i == lindex {
          VisitedNext(width, x, y, i);
        }
        if id in project.provinces {
          var root := project.GetRootProvinceParent(id);
          if root.Failure? {
            return Failure(root.status);
          }
          WalkResultExists(m, id);
          var color := project.provinces[root.value].uniqueColor;
          ghost var before := colors[..];
          colors[gindex] := color.r;
          colors[gindex + 1] := color.g;
          colors[gindex + 2] := color.b;
          forall i | 0 <= i < |labels| && Visited(width, x, y + 1, i) ensures RootColored(m, colors[..], labels, i) {
            if i != lindex { assert RootColored(m, before, labels, i); }
          }
        }
      }
      forall i | 0 <= i < |labels| && Visited(width, x + 1, 0, i) ensures Visited(width, x, height, i) {
        RowInImage(width, height, i);
      }
    }
    forall i | 0 <= i < |labels| ensures RootColored(m, colors[..], labels, i) {
      ColumnAndRowDetermine(width, i);
      assert Visited(width, width, 0, i);
    }
    return Value(colors[..]);
  }

  // ----- The definition table -----

  datatype Definition = Definition(
    id: nat, color: Color, kind: ProvinceType, coastal: bool, terrain: string, continent: nat)

  /** The numbers that exported files use: positions in the walk, from 1. */
  method RebuildUUIDToIDMap(order: seq<ProvinceID>) returns (ids: map<ProvinceID, nat>)
    requires Distinct(order)
    ensures IsNumbering(ids, order)
  {
    ids := map[];
    for i := 0 to |order|
      invariant forall p :: p in ids <==> p in order[..i]
      invariant forall k :: 0 <= k < i ==> order[k] in ids && ids[order[k]] == k + 1
    {
      ids := ids[order[i] := i + 1];
    }
  }

  ghost predicate IsNumbering(ids: map<ProvinceID, nat>, order: seq<ProvinceID>) {
    && (forall p :: p in ids <==> p in order)
    && forall k :: 0 <= k < |order| ==> order[k] in ids && ids[order[k]] == k + 1
  }

  /** The provinces without a parent, in the order of the walk. */
  function RootsIn(m: ProvinceMap, order: seq<ProvinceID>): seq<ProvinceID>
    requires forall p :: p in order ==> p in m
  {
    if order == [] then []
    else
      var last := order[|order| - 1];
      RootsIn(m, order[..|order| - 1]) + if m[last].parent == INVALID_PROVINCE then [last] else []
  }

  /** Continents count from 1; 0 stands for an unknown one. */
  function ContinentNumber(continents: seq<string>, name: string): (k: nat)
    ensures k <= |continents|
    ensures k > 0 ==> continents[k - 1] == name
    ensures k == 0 <==> name !in continents
  {
    if continents == [] then 0
    else if continents[|continents| - 1] == name then |continents|
    else ContinentNumber(continents[..|continents| - 1], name)
  }

  function RowOf(m: ProvinceMap, ids: map<ProvinceID, nat>, continents: seq<string>, p: ProvinceID): Definition
    requires p in m && p in ids
  {
    var q := m[p];
    Definition(ids[p], q.uniqueColor, q.kind, q.coastal, q.terrain, ContinentNumber(continents, q.continent))
  }

  /**
    One row for each province without a parent. `goOn` is the user's answer when
    a continent is unknown; it is asked for once.
   */
  method SaveDefinitions(
    m: ProvinceMap, ids: map<ProvinceID, nat>, continents: seq<string>, order: seq<ProvinceID>, goOn: bool)
    returns (r: Maybe<seq<Definition>>)
    requires Enumerates(order, m)
    ensures r.Failure? <==>
      exists p :: p in m && m[p].parent == INVALID_PROVINCE && (p !in ids || (m[p].continent !in continents && !goOn))
    ensures r.Failure? ==> r.status == ValueNotFound
    ensures r.Value? ==> IsTable(m, ids, continents, order, r.value)
  {
    var rows := [];
    var assumeUnknown := false;
    for i := 0 to |order|
      invariant assumeUnknown ==> goOn
      invariant forall p :: p in order[..i] && m[p].parent == INVALID_PROVINCE ==>
        p in ids && (m[p].continent in continents || goOn)
      invariant IsTable(m, ids, continents, order[..i], rows)
    {
      var p := order[i];
      assert order[..i + 1][..i] == order[..i];
      if m[p].parent != INVALID_PROVINCE {
        continue;
      }
      if p !in ids {
        return Failure(ValueNotFound);
      }
      var number := ContinentNumber(continents, m[p].continent);
      if number == 0 {
        if !assumeUnknown {
          if !goOn {
            return Failure(ValueNotFound);
          }
          assumeUnknown := true;
        }
      }
      rows := rows + [RowOf(m, ids, continents, p)];
    }
    assert order[..|order|] == order;
    return Value(rows);
  }

  ghost predicate IsTable(
    m: ProvinceMap, ids: map<ProvinceID, nat>, continents: seq<string>, order: seq<ProvinceID>, rows: seq<Definition>)
    requires forall p :: p in order ==> p in m
  {
    var roots := RootsIn(m, order);
    && |rows| == |roots|
    && forall k :: 0 <= k < |rows| ==>
      roots[k] in m && roots[k] in ids && rows[k].id == ids[roots[k]] && Describes(rows[k], m[roots[k]], continents)
  }

  /** The row has the province's colour, type, coast, terrain and continent, if that is a known one. */
  ghost predicate Describes(row: Definition, p: Province, continents: seq<string>) {
    && row.color == p.uniqueColor && row.kind == p.kind && row.coastal == p.coastal && row.terrain == p.terrain
    && if row.continent == 0 then p.continent !in continents
       else row.continent <= |continents| && continents[row.continent - 1] == p.continent
  }

  /** The rows follow the walk. */
  lemma {:induction false} RootsInWalkOrder(m: ProvinceMap, order: seq<ProvinceID>, i: nat, j: nat)
    requires forall p :: p in order ==> p in m
    requires i < j < |RootsIn(m, order)|
    ensures exists k, l ::
      0 <= k < l < |order| && order[k] == RootsIn(m, order)[i] && order[l] == RootsIn(m, order)[j]
  {
    var prior, last := order[..|order| - 1], order[|order| - 1];
    assert order == prior + [last];
    if j < |RootsIn(m, prior)| {
      RootsInWalkOrder(m, prior, i, j);
      var k, l :| 0 <= k < l < |prior| && prior[k] == RootsIn(m, prior)[i] && prior[l] == RootsIn(m, prior)[j];
      assert order[k] == prior[k] && order[l] == prior[l];
    } else {
      RootsInAreWalked(m, prior);
      var k :| 0 <= k < |prior| && prior[k] == RootsIn(m, prior)[i];
      assert order[k] == prior[k] && order[|prior|] == last;
    }
  }

  lemma {:induction false} RootsInAreWalked(m: ProvinceMap, order: seq<ProvinceID>)
    requires forall p :: p in order ==> p in m
    ensures forall i :: 0 <= i < |RootsIn(m, order)| ==> RootsIn(m, order)[i] in order
  {
    if order != [] {
      RootsInAreWalked(m, order[..|order| - 1]);
    }
  }

  lemma {:induction false} RootsInMembers(m: ProvinceMap, order: seq<ProvinceID>)
    requires forall p :: p in order ==> p in m
    requires Distinct(order)
    ensures forall p :: p in RootsIn(m, order) <==> p in order && m[p].parent == INVALID_PROVINCE
    ensures Distinct(RootsIn(m, order))
  {
    if order != [] {
      var prior, last := order[..|order| - 1], order[|order| - 1];
      RootsInMembers(m, prior);
      assert order == prior + [last];
    }
  }

  // ----- Agreement -----

  /** Two pixels of known provinces get the same colour exactly when their provinces are merged. */
  lemma SameColorIffMerged(m: ProvinceMap, labels: seq<ProvinceID>, bytes: seq<uint8>, i: nat, j: nat)
    requires Forest(m) && DistinctColors(m)
    requires i < |labels| && j < |labels| && labels[i] in m && labels[j] in m && |bytes| == 3 * |labels|
    requires Terminates(m, labels[i]) && RootColored(m, bytes, labels, i)
    requires Terminates(m, labels[j]) && RootColored(m, bytes, labels, j)
    ensures PixelColor(bytes, i) == PixelColor(bytes, j) <==> Group(m, labels[i]) == Group(m, labels[j])
  {
    RootResultIsRoot(m, labels[i]);
    RootResultIsRoot(m, labels[j]);
    RootIsProvince(m, labels[i]);
    RootIsProvince(m, labels[j]);
    GroupsPartition(m, labels[i], labels[j]);
  }

  /** The colour of a pixel appears in exactly one row, the one that numbers the pixel's root. */
  lemma ColorHasOneRow(
    m: ProvinceMap, ids: map<ProvinceID, nat>, continents: seq<string>, order: seq<ProvinceID>,
    labels: seq<ProvinceID>, bytes: seq<uint8>, rows: seq<Definition>, i: nat)
    requires Forest(m) && DistinctColors(m) && Enumerates(order, m) && IsNumbering(ids, order)
    requires IsTable(m, ids, continents, order, rows)
    requires i < |labels| && labels[i] in m && |bytes| == 3 * |labels|
    requires Terminates(m, labels[i]) && RootColored(m, bytes, labels, i)
    ensures exists k :: 0 <= k < |rows| && rows[k].color == PixelColor(bytes, i)
    ensures forall k :: 0 <= k < |rows| && rows[k].color == PixelColor(bytes, i) ==>
      Root(m, labels[i]) in ids && rows[k].id == ids[Root(m, labels[i])]
    ensures forall k, l :: 0 <= k < l < |rows| ==> rows[k].id != rows[l].id && rows[k].color != rows[l].color
  {
    var root, roots := Root(m, labels[i]), RootsIn(m, order);
    RootResultIsRoot(m, labels[i]);
    RootIsProvince(m, labels[i]);
    RootsInMembers(m, order);
    assert root in roots;
    var k :| 0 <= k < |roots| && roots[k] == root;
    assert rows[k].color == PixelColor(bytes, i);
    forall k, l | 0 <= k < l < |rows| ensures rows[k].id != rows[l].id && rows[k].color != rows[l].color {
      NumbersAreDistinct(ids, order, roots[k], roots[l]);
    }
  }

  /** The row describes the root of the province, and its number finds the root in the walk. */
  ghost predicate TellsRoot(
    m: ProvinceMap, order: seq<ProvinceID>, continents: seq<string>, row: Definition, p: ProvinceID)
    requires Acyclic(m)
  {
    && p in m && Root(m, p) in m && Describes(row, m[Root(m, p)], continents)
    && 1 <= row.id <= |order| && order[row.id - 1] == Root(m, p)
  }

  lemma NumberFindsProvince(ids: map<ProvinceID, nat>, order: seq<ProvinceID>, p: ProvinceID)
    requires IsNumbering(ids, order) && p in order
    ensures p in ids && 1 <= ids[p] <= |order| && order[ids[p] - 1] == p
  {
    var k :| 0 <= k < |order| && order[k] == p;
  }

  /** The row with the colour of a pixel's root is about this root. */
  lemma RowTellsRoot(
    m: ProvinceMap, ids: map<ProvinceID, nat>, continents: seq<string>, order: seq<ProvinceID>,
    rows: seq<Definition>, k: nat, p: ProvinceID)
    requires Forest(m) && DistinctColors(m) && Enumerates(order, m) && IsNumbering(ids, order)
    requires IsTable(m, ids, continents, order, rows) && k < |rows| && p in m
    requires Root(m, p) in m && rows[k].color == m[Root(m, p)].uniqueColor
    ensures TellsRoot(m, order, continents, rows[k], p)
  {
    assert RootsIn(m, order)[k] == Root(m, p);
    NumberFindsProvince(ids, order, Root(m, p));
  }

  lemma NumbersAreDistinct(ids: map<ProvinceID, nat>, order: seq<ProvinceID>, p: ProvinceID, q: ProvinceID)
    requires IsNumbering(ids, order) && p in order && q in order && p != q
    ensures ids[p] != ids[q]
  {
    var k :| 0 <= k < |order| && order[k] == p;
    var l :| 0 <= l < |order| && order[l] == q;
  }

  /** There are as many rows as groups of merged provinces. */
  lemma OneRowPerRoot(
    m: ProvinceMap, ids: map<ProvinceID, nat>, continents: seq<string>, order: seq<ProvinceID>, rows: seq<Definition>)
    requires Enumerates(order, m) && IsTable(m, ids, continents, order, rows)
    ensures |rows| == |Roots(m)|
  {
    RootsInMembers(m, order);
    var roots := RootsIn(m, order);
    assert Roots(m) == Members(roots);
    MembersSize(roots);
  }

  /** The pixels `i` that show a known province. */
  ghost predicate Known(m: ProvinceMap, labels: seq<ProvinceID>, i: int) {
    0 <= i < |labels| && labels[i] in m
  }

  /**
    A successful export: pixels share a colour exactly when their provinces are
    merged, and the colour of each stands in exactly one row of the table.
   */
  method Export(
    project: ProvinceProject, labels: seq<ProvinceID>, width: nat, height: nat,
    order: seq<ProvinceID>, continents: seq<string>, goOn: bool)
    returns (r: Maybe<(seq<uint8>, seq<Definition>)>)
    requires |labels| == width * height && width * height * 3 <= 0x1_0000_0000
    requires Forest(project.provinces) && DistinctColors(project.provinces) && Enumerates(order, project.provinces)
    ensures r.Failure? <==>
      exists p :: p in project.provinces && project.provinces[p].parent == INVALID_PROVINCE &&
                  project.provinces[p].continent !in continents && !goOn
    ensures r.Value? ==> |r.value.0| == 3 * |labels| && |r.value.1| == |Roots(project.provinces)|
    ensures r.Value? ==> forall i, j ::
      Known(project.provinces, labels, i) && Known(project.provinces, labels, j) ==>
      (PixelColor(r.value.0, i) == PixelColor(r.value.0, j) <==>
       Group(project.provinces, labels[i]) == Group(project.provinces, labels[j]))
    ensures r.Value? ==> forall i :: Known(project.provinces, labels, i) ==>
      InOneRow(r.value.1, PixelColor(r.value.0, i))
    ensures r.Value? ==> forall i :: Known(project.provinces, labels, i) ==>
      forall k :: 0 <= k < |r.value.1| && r.value.1[k].color == PixelColor(r.value.0, i) ==>
        TellsRoot(project.provinces, order, continents, r.value.1[k], labels[i])
    ensures r.Value? ==> forall i: nat :: Known(project.provinces, labels, i) ==>
      Terminates(project.provinces, labels[i]) && RootColored(project.provinces, r.value.0, labels, i)
  {
    ghost var m := project.provinces;
    forall i | Known(m, labels, i) ensures Terminates(m, labels[i]) && RootResult(m, labels[i]).Value? {
      RootResultIsRoot(m, labels[i]);
    }
    assert WalksEnd(m, labels) by {
      forall i | 0 <= i < |labels| && labels[i] in m ensures Terminates(m, labels[i]) { assert Known(m, labels, i); }
    }
    var image := GetProvinceColorsForExport(project, labels, width, height);
    if image.Failure? {
      return Failure(Unexpected);
    }
    var ids := RebuildUUIDToIDMap(order);
    var table := SaveDefinitions(project.provinces, ids, continents, order, goOn);
    if table.Failure? {
      return Failure(table.status);
    }
    forall i, j | Known(m, labels, i) && Known(m, labels, j)
      ensures PixelColor(image.value, i) == PixelColor(image.value, j) <==> Group(m, labels[i]) == Group(m, labels[j])
    {
      SameColorIffMerged(m, labels, image.value, i, j);
    }
    forall i | Known(m, labels, i)
      ensures InOneRow(table.value, PixelColor(image.value, i))
      ensures forall k :: 0 <= k < |table.value| && table.value[k].color == PixelColor(image.value, i) ==>
        TellsRoot(m, order, continents, table.value[k], labels[i])
    {
      ColorHasOneRow(m, ids, continents, order, labels, image.value, table.value, i);
      RootResultIsRoot(m, labels[i]);
      forall k | 0 <= k < |table.value| && table.value[k].color == PixelColor(image.value, i)
        ensures TellsRoot(m, order, continents, table.value[k], labels[i])
      {
        RowTellsRoot(m, ids, continents, order, table.value, k, labels[i]);
      }
    }
    OneRowPerRoot(m, ids, continents, order, table.value);
    return Value((image.value, table.value));
  }

  /** Exactly one row has the colour. */
  ghost predicate InOneRow(rows: seq<Definition>, c: Color) {
    && (exists k :: 0 <= k < |rows| && rows[k].color == c)
    && forall k, l :: 0 <= k < |rows| && 0 <= l < |rows| && rows[k].color == c && rows[l].color == c ==> k == l
  }
}
