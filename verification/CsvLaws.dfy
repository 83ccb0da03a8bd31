/** The saved files field by field, and which lines of a file a load goes by. */
module CsvLaws {
  import opened Types
  import opened TextStream
  import opened TextLaws
  import Decimal
  import ProvinceCsv
  import StateCsv

  // ----- What a line shows -----

  /** The text of a flag, and that of a type. */
  function FlagText(b: bool): string {
    if b then "true" else "false"
  }

  function TypeText(t: ProvinceType): string {
    match t case Land => "land" case Sea => "sea" case Lake => "lake" case Unknown => "UNKNOWN{0}"
  }

  /** Cutting the line of a province at the semicolons gives id, colour, type, coast, terrain, continent, box, state and parent. */
  lemma ProvinceLineShows(p: Province, ids: ProvinceCsv.IDText)
    requires ProvinceCsv.Printable(p, ids)
    ensures
      var f, c, bb := Pieces(ProvinceCsv.Line(p, ids), ';'), p.uniqueColor, p.boundingBox;
      && |f| == 14 && f[0] == ids.unparse(p.id) && f[13] == ids.unparse(p.parent)
      && f[1] == Decimal.Print(c.r as nat) && f[2] == Decimal.Print(c.g as nat) && f[3] == Decimal.Print(c.b as nat)
      && f[4] == TypeText(p.kind) && f[5] == FlagText(p.coastal) && f[6] == p.terrain && f[7] == p.continent
      && f[8] == Decimal.Print(bb.bottomLeft.x as nat) && f[9] == Decimal.Print(bb.bottomLeft.y as nat)
      && f[10] == Decimal.Print(bb.topRight.x as nat) && f[11] == Decimal.Print(bb.topRight.y as nat)
      && f[12] == Decimal.Print(p.state as nat)
  {
    ProvinceFieldsArePlain(p, ids, Decimal.Print);
    PiecesOfJoined(ProvinceCsv.Fields(p, ids, Decimal.Print));
  }

  lemma ProvinceFieldsArePlain(p: Province, ids: ProvinceCsv.IDText, num: nat -> string)
    requires ProvinceCsv.Printable(p, ids) && num == Decimal.Print
    ensures
      var f := ProvinceCsv.Fields(p, ids, num);
      f[13] != [] && forall i :: 0 <= i < |f| ==> ';' !in f[i]
  {
    forall n: nat ensures ';' !in num(n) { PrintIsPlain(n); }
  }

  /** Cutting the line of a state gives id, name, manpower, category, factor, flag, provinces and colour. */
  lemma StateLineShows(s: State, ids: ProvinceCsv.IDText, factors: StateCsv.FactorText)
    requires StateCsv.Printable(s, ids, factors)
    ensures
      var f, c := Pieces(StateCsv.Line(s, ids, factors), ';'), s.color;
      && |f| == 10 && f[0] == Decimal.Print(s.id as nat) && f[1] == s.name && f[2] == Decimal.Print(s.manpower)
      && f[3] == s.category && f[4] == factors.show(s.buildingsMaxLevelFactor)
      && f[5] == (if s.impassable then "1" else "0")
      && (var listed := Pieces(f[6], ',');
          && |listed| == |s.provinces|
          && forall i :: 0 <= i < |listed| ==> listed[i] == ids.unparse(s.provinces[i]))
      && f[7] == Decimal.Print(c.r as nat) && f[8] == Decimal.Print(c.g as nat) && f[9] == Decimal.Print(c.b as nat)
  {
    StateCsv.ListRoundTrip(s.provinces, ids);
    StateFieldsArePlain(s, ids, factors, Decimal.Print);
    PiecesOfJoined(StateCsv.Fields(s, ids, factors, Decimal.Print));
    forall i | 0 <= i < |s.provinces| ensures ',' !in ids.unparse(s.provinces[i]) {
      assert ids.Faithful(s.provinces[i]);
    }
    PiecesOfTerminated(StateCsv.Unparsed(s.provinces, ids), ',');
  }

  lemma StateFieldsArePlain(s: State, ids: ProvinceCsv.IDText, factors: StateCsv.FactorText, num: nat -> string)
    requires StateCsv.Printable(s, ids, factors) && num == Decimal.Print && Plain(StateCsv.ListText(s.provinces, ids))
    ensures
      var f := StateCsv.Fields(s, ids, factors, num);
      f[9] != [] && forall i :: 0 <= i < |f| ==> ';' !in f[i]
  {
    forall n: nat ensures ';' !in num(n) { PrintIsPlain(n); }
  }

  // ----- Which lines count -----

  /** A line that is not empty cannot be read. */
  ghost predicate IsBad<T>(lines: seq<string>, parse: string -> Option<T>, i: nat) {
    i < |lines| && lines[i] != [] && parse(lines[i]) == None
  }

  /** The last line can be read, or is empty, and so can the others. */
  lemma NoBadLine<T>(lines: seq<string>, parse: string -> Option<T>)
    requires lines != []
    ensures
      var n := |lines| - 1;
      (exists i: nat :: IsBad(lines, parse, i)) <==>
      (exists i: nat :: IsBad(lines[..n], parse, i)) || IsBad(lines, parse, n)
  {
    var n := |lines| - 1;
    if i: nat :| IsBad(lines, parse, i) && i != n { assert IsBad(lines[..n], parse, i); }
    if i: nat :| IsBad(lines[..n], parse, i) { assert IsBad(lines, parse, i); }
  }

  /** Line `i` holds a province with this id. */
  ghost predicate HoldsProvince(lines: seq<string>, parse: string -> Option<Province>, i: nat, id: ProvinceID) {
    i < |lines| && lines[i] != [] && parse(lines[i]).Some? && parse(lines[i]).value.id == id
  }

  /** `p` is the province of the last line with its id. */
  ghost predicate IsLast(lines: seq<string>, parse: string -> Option<Province>, i: nat, id: ProvinceID, p: Province) {
    && HoldsProvince(lines, parse, i, id) && parse(lines[i]).value == p
    && forall j: nat :: HoldsProvince(lines, parse, j, id) ==> j <= i
  }

  lemma LastStays(lines: seq<string>, parse: string -> Option<Province>, i: nat, id: ProvinceID, p: Province)
    requires lines != [] && IsLast(lines[..|lines| - 1], parse, i, id, p)
    requires !HoldsProvince(lines, parse, |lines| - 1, id)
    ensures IsLast(lines, parse, i, id, p)
  {
    forall j: nat | HoldsProvince(lines, parse, j, id) ensures j <= i {
      assert HoldsProvince(lines[..|lines| - 1], parse, j, id);
    }
  }

  /**
    A province file is refused if and only if a line cannot be read. Otherwise each
    id that occurs has the province of the last line with this id.
   */
  lemma {:induction false} LastProvinceLineCounts(lines: seq<string>, parse: string -> Option<Province>)
    ensures ProvinceCsv.ParsedLines(lines, parse) == None <==> exists i: nat :: IsBad(lines, parse, i)
    ensures ProvinceCsv.ParsedLines(lines, parse).Some? ==>
      var m := ProvinceCsv.ParsedLines(lines, parse).value;
      && (forall i: nat, id :: HoldsProvince(lines, parse, i, id) ==> id in m)
      && forall id :: id in m ==> exists i: nat :: IsLast(lines, parse, i, id, m[id])
    decreases |lines|
  {
    if lines != [] {
      var n := |lines| - 1;
      LastProvinceLineCounts(lines[..n], parse);
      NoBadLine(lines, parse);
      if ProvinceCsv.ParsedLines(lines, parse).Some? { ProvincesOfOneMoreLine(lines, parse); }
    }
  }

  lemma ProvincesOfOneMoreLine(lines: seq<string>, parse: string -> Option<Province>)
    requires lines != [] && ProvinceCsv.ParsedLines(lines, parse).Some?
    requires
      var prior := lines[..|lines| - 1];
      && ProvinceCsv.ParsedLines(prior, parse).Some?
      && var m := ProvinceCsv.ParsedLines(prior, parse).value;
      && (forall i: nat, id :: HoldsProvince(prior, parse, i, id) ==> id in m)
      && forall id :: id in m ==> exists i: nat :: IsLast(prior, parse, i, id, m[id])
    ensures
      var m := ProvinceCsv.ParsedLines(lines, parse).value;
      && (forall i: nat, id :: HoldsProvince(lines, parse, i, id) ==> id in m)
      && forall id :: id in m ==> exists i: nat :: IsLast(lines, parse, i, id, m[id])
  {
    var n := |lines| - 1;
    var prior, m := lines[..n], ProvinceCsv.ParsedLines(lines, parse).value;
    forall i: nat, id | HoldsProvince(lines, parse, i, id) ensures id in m {
      if i < n { assert HoldsProvince(prior, parse, i, id); }
    }
    forall id | id in m ensures exists i: nat :: IsLast(lines, parse, i, id, m[id]) {
      if HoldsProvince(lines, parse, n, id) {
        assert IsLast(lines, parse, n, id, m[id]);
      } else {
        var i: nat :| IsLast(prior, parse, i, id, m[id]);
        LastStays(lines, parse, i, id, m[id]);
      }
    }
  }

  /** The number of lines that are not empty. */
  function Filled(lines: seq<string>): nat {
    if lines == [] then 0 else Filled(lines[..|lines| - 1]) + if lines[|lines| - 1] == [] then 0 else 1
  }

  /** Line `i` holds a state with this id. */
  ghost predicate HoldsState(lines: seq<string>, parse: string -> Option<State>, i: nat, id: StateID) {
    i < |lines| && lines[i] != [] && parse(lines[i]).Some? && parse(lines[i]).value.id == id
  }

  /** `s` is the state of the first line with its id, except that a black one has the colour generated for this line. */
  ghost predicate IsFirst(
    lines: seq<string>, parse: string -> Option<State>, unique: nat -> Color, i: nat, id: StateID, s: State)
  {
    && HoldsState(lines, parse, i, id)
    && (forall j: nat :: HoldsState(lines, parse, j, id) ==> i <= j)
    && var read := parse(lines[i]).value;
       s == if read.color == Color(0, 0, 0) then read.(color := unique(Filled(lines[..i]))) else read
  }

  lemma FirstStays(
    lines: seq<string>, parse: string -> Option<State>, unique: nat -> Color, i: nat, id: StateID, s: State)
    requires lines != [] && IsFirst(lines[..|lines| - 1], parse, unique, i, id, s)
    ensures IsFirst(lines, parse, unique, i, id, s)
  {
    var prior := lines[..|lines| - 1];
    assert lines[..i] == prior[..i];
    forall j: nat | HoldsState(lines, parse, j, id) ensures i <= j {
      if j < |prior| { assert HoldsState(prior, parse, j, id); }
    }
  }

  /** The states that a file holds, going by the first line of each id. */
  ghost predicate HoldsFirsts(lines: seq<string>, parse: string -> Option<State>, unique: nat -> Color, m: StateMap) {
    && (forall i: nat, id :: HoldsState(lines, parse, i, id) ==> id in m)
    && forall id :: id in m ==> exists i: nat :: IsFirst(lines, parse, unique, i, id, m[id])
  }

  /**
    A state file is refused if and only if a line cannot be read. Otherwise each id
    that occurs has the state of the first line with this id, recoloured if black.
   */
  lemma {:induction false} FirstStateLineCounts(
    lines: seq<string>, parse: string -> Option<State>, unique: nat -> Color)
    ensures StateCsv.Loaded(lines, parse, unique) == None <==> exists i: nat :: IsBad(lines, parse, i)
    ensures StateCsv.Loaded(lines, parse, unique).Some? ==>
      var (m, k) := StateCsv.Loaded(lines, parse, unique).value;
      k == Filled(lines) && HoldsFirsts(lines, parse, unique, m)
    decreases |lines|
  {
    if lines != [] {
      var n := |lines| - 1;
      FirstStateLineCounts(lines[..n], parse, unique);
      NoBadLine(lines, parse);
      if StateCsv.Loaded(lines, parse, unique).Some? {
        var (m, _) := StateCsv.Loaded(lines[..n], parse, unique).value;
        var (m', _) := StateCsv.Loaded(lines, parse, unique).value;
        StatesOfOneMoreLine(lines, parse, unique, m, m');
      }
    }
  }

  lemma StatesOfOneMoreLine(
    lines: seq<string>, parse: string -> Option<State>, unique: nat -> Color, m: StateMap, m': StateMap)
    requires lines != [] && HoldsFirsts(lines[..|lines| - 1], parse, unique, m)
    requires
      var prior, last := lines[..|lines| - 1], lines[|lines| - 1];
      if last == [] then m' == m
      else
        parse(last).Some? && var s := parse(last).value;
        m' == if s.id in m then m
              else m[s.id := if s.color == Color(0, 0, 0) then s.(color := unique(Filled(prior))) else s]
    ensures HoldsFirsts(lines, parse, unique, m')
  {
    var n := |lines| - 1;
    var prior := lines[..n];
    forall i: nat, id | HoldsState(lines, parse, i, id) ensures id in m' {
      if i < n { assert HoldsState(prior, parse, i, id); }
    }
    forall id | id in m' ensures exists i: nat :: IsFirst(lines, parse, unique, i, id, m'[id]) {
      if id in m {
        var i: nat :| IsFirst(prior, parse, unique, i, id, m[id]);
        FirstStays(lines, parse, unique, i, id, m[id]);
      } else {
        forall j: nat | HoldsState(lines, parse, j, id) ensures n <= j {
          if j < n { assert HoldsState(prior, parse, j, id); }
        }
        assert IsFirst(lines, parse, unique, n, id, m'[id]);
      }
    }
  }

  // ----- Links -----

  /** After a load a province lists what the file gave it, which is nothing, and those that name it as their parent. */
  lemma LoadLinksChildren(m: ProvinceMap, p: ProvinceID, c: ProvinceID)
    requires p in m
    ensures p in ProvinceCsv.Relinked(m)
    ensures
      var q := ProvinceCsv.Relinked(m)[p];
      && q == m[p].(children := q.children)
      && (c in q.children <==> c in m[p].children || (c in m && m[c].parent == p))
  {
  }
}
