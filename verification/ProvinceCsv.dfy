/** Saving the province map as a CSV file and loading it again. */
module ProvinceCsv {
  import opened Types
  import opened Collections
  import opened ProvinceForest
  import opened TextStream
  import Decimal

  /** The system library's printing and parsing of UUIDs. */
  datatype IDText = IDText(unparse: ProvinceID -> string, parse: string -> ProvinceID) {
    /** The id is printed as a non-empty text without separators, which is parsed back. */
    ghost predicate Faithful(id: ProvinceID) {
      && parse(unparse(id)) == id
      && Plain(unparse(id)) && ',' !in unparse(id) && unparse(id) != [] && unparse(id)[0] != '\0'
    }
  }

  // ----- Printing -----

  /** The fields of a line; `num` prints numbers. */
  function Fields(p: Province, ids: IDText, num: nat -> string): seq<string> {
    var bb := p.boundingBox;
    [ ids.unparse(p.id),
      num(p.uniqueColor.r as nat), num(p.uniqueColor.g as nat), num(p.uniqueColor.b as nat),
      PrintProvinceType(p.kind),
      if p.coastal then "true" else "false",
      p.terrain,
      p.continent,
      num(bb.bottomLeft.x as nat), num(bb.bottomLeft.y as nat), num(bb.topRight.x as nat), num(bb.topRight.y as nat),
      num(p.state as nat),
      ids.unparse(p.parent) ]
  }

  function Line(p: Province, ids: IDText): string {
    Joined(Fields(p, ids, Decimal.Print))
  }

  function LinePrinter(ids: IDText): Province -> string {
    (p: Province) => Line(p, ids)
  }

  function Lines(m: ProvinceMap, show: Province -> string, order: seq<ProvinceID>): seq<string>
    requires forall p :: p in order ==> p in m
    decreases order
  {
    if order == [] then [] else Lines(m, show, order[..|order| - 1]) + [show(m[order[|order| - 1]])]
  }

  /** One line per province, in the order in which the map is walked. */
  method SaveProvinceData(m: ProvinceMap, ids: IDText, order: seq<ProvinceID>) returns (text: string)
    requires forall p :: p in order ==> p in m
    ensures text == Terminated(Lines(m, LinePrinter(ids), order), '\n')
  {
    text := "";
    for i := 0 to |order|
      invariant text == Terminated(Lines(m, LinePrinter(ids), order[..i]), '\n')
    {
      var line := Line(m[order[i]], ids);
      assert order[..i + 1][..i] == order[..i];
      TerminatedAppend(Lines(m, LinePrinter(ids), order[..i]), line, '\n');
      text := text + line + ['\n'];
    }
    assert order[..|order|] == order;
  }

  // ----- Parsing -----

  function ToID(ids: IDText): string -> Option<ProvinceID> {
    (s: string) => Some(ids.parse(s))
  }

  function ToText(): string -> Option<string> {
    (s: string) => Some(s)
  }

  /** How numbers are read: into one byte, and into 32 bits. */
  datatype Numbers = Numbers(to8: string -> Option<uint8>, to32: string -> Option<uint32>)

  function StandardNumbers(): Numbers {
    Numbers(ToUint8, ToUint32)
  }

  /** How each kind of field is read. */
  datatype Readers = Readers(
    id: Reader<ProvinceID>,
    channel: Reader<uint8>,
    kind: Reader<ProvinceType>,
    flag: Reader<bool>,
    text: Reader<string>,
    coordinate: Reader<uint32>,
    state: Reader<uint32>,
    parent: Reader<ProvinceID>)

  /** The last two fields may be missing. */
  function ReadersFor(ids: IDText, num: Numbers, held: Province): Readers {
    Readers(
      FieldReader(ToID(ids)), FieldReader(num.to8), FieldReader(ToProvinceType), FieldReader(ToBool),
      FieldReader(ToText()),
      FieldReader(num.to32), OptionalReader(num.to32, held.state), OptionalReader(ToID(ids), INVALID_PROVINCE))
  }

  function ParseColor(st: Stream, rd: Readers): Parsed<Color> {
    match rd.channel(st) case NoParse => NoParse case Parsed(s1, r) =>
    match rd.channel(s1) case NoParse => NoParse case Parsed(s2, g) =>
    match rd.channel(s2) case NoParse => NoParse case Parsed(s3, b) =>
      Parsed(s3, Color(r, g, b))
  }

  function ParsePoint(st: Stream, rd: Readers): Parsed<Point2D> {
    match rd.coordinate(st) case NoParse => NoParse case Parsed(s1, x) =>
    match rd.coordinate(s1) case NoParse => NoParse case Parsed(s2, y) =>
      Parsed(s2, Point2D(x, y))
  }

  function ParseFields(st: Stream, rd: Readers, held: Province): Option<Province> {
    var (s1, id) :- rd.id(st);
    var (s2, color) :- ParseColor(s1, rd);
    var (s3, kind) :- rd.kind(s2);
    var (s4, coastal) :- rd.flag(s3);
    ParseRest(s4, rd, held.(id := id, uniqueColor := color, kind := kind, coastal := coastal))
  }

  function ParseRest(st: Stream, rd: Readers, p: Province): Option<Province> {
    var (s5, terrain) :- rd.text(st);
    var (s6, continent) :- rd.text(s5);
    var (s7, bottomLeft) :- ParsePoint(s6, rd);
    var (s8, topRight) :- ParsePoint(s7, rd);
    var (s9, state) :- rd.state(s8);
    var (_, parent) :- rd.parent(s9);
    Some(p.(terrain := terrain, continent := continent, boundingBox := BoundingBox(bottomLeft, topRight),
            state := state, parent := parent, children := {}))
  }

  /** `held` is what an uninitialised province happens to hold. */
  function ParseLine(line: string, ids: IDText, held: Province): Option<Province> {
    ParseFields(Open(line), ReadersFor(ids, StandardNumbers(), held), held)
  }

  function LineParser(ids: IDText, held: Province): string -> Option<Province> {
    (line: string) => ParseLine(line, ids, held)
  }

  /** Every province listed with the children of it that `m` has. */
  ghost function Relinked(m: ProvinceMap): ProvinceMap {
    map p | p in m :: m[p].(children := m[p].children + ChildrenOf(m, p))
  }

  ghost function ChildrenOf(m: ProvinceMap, p: ProvinceID): set<ProvinceID> {
    set c | c in m && m[c].parent == p
  }

  /** The provinces of the lines, later ones replacing earlier ones with the same id; none if a line is bad. */
  ghost function ParsedLines(lines: seq<string>, parse: string -> Option<Province>): Option<ProvinceMap> {
    if lines == [] then Some(map[])
    else
      var last := lines[|lines| - 1];
      match ParsedLines(lines[..|lines| - 1], parse)
      case None => None
      case Some(m) =>
        if last == [] then Some(m)
        else
          match parse(last)
          case None => None
          case Some(p) => Some(m[p.id := p])
  }

  method LoadProvinceData(text: string, ids: IDText, held: Province) returns (r: Maybe<ProvinceMap>)
    ensures
      match ParsedLines(Pieces(text, '\n'), LineParser(ids, held))
      case None => r == Failure(BadMessage)
      case Some(m) => r == Value(Relinked(m))
  {
    r := LoadLines(text, LineParser(ids, held));
  }

  /** The loop over the lines, for any way of reading a line, and the linking of children after it. */
  method LoadLines(text: string, parse: string -> Option<Province>) returns (r: Maybe<ProvinceMap>)
    ensures
      match ParsedLines(Pieces(text, '\n'), parse)
      case None => r == Failure(BadMessage)
      case Some(m) => r == Value(Relinked(m))
  {
    ghost var lines := Pieces(text, '\n');
    var provinces: ProvinceMap := map[];
    var stream := Open(text);
    ghost var i := 0;
    while true
      invariant i <= |lines| && StreamOf(stream, lines[i..], '\n')
      invariant ParsedLines(lines[..i], parse) == Some(provinces)
      decreases |lines| - i
    {
      var after, line := ReadPiece(stream, '\n', lines, i);
      if line == None {
        break;
      }
      ParsedNext(lines, parse, i, provinces);
      stream := after;
      if line.value == [] {
        i := i + 1;
        continue;
      }
      var p := parse(line.value);
      if p == None {
        BadLineFails(lines, parse, i + 1);
        return Failure(BadMessage);
      }
      provinces, i := provinces[p.value.id := p.value], i + 1;
    }
    assert lines[..i] == lines;
    provinces := Link(provinces);
    return Value(provinces);
  }

  lemma ParsedNext(lines: seq<string>, parse: string -> Option<Province>, i: nat, m: ProvinceMap)
    requires i < |lines| && ParsedLines(lines[..i], parse) == Some(m)
    ensures ParsedLines(lines[..i + 1], parse) ==
      if lines[i] == [] then Some(m) else match parse(lines[i]) case None => None case Some(p) => Some(m[p.id := p])
  {
    assert lines[..i + 1][..i] == lines[..i];
  }

  lemma {:induction false} BadLineFails(lines: seq<string>, parse: string -> Option<Province>, i: nat)
    requires i <= |lines| && ParsedLines(lines[..i], parse) == None
    ensures ParsedLines(lines, parse) == None
    decreases |lines|
  {
    if i == |lines| {
      assert lines[..i] == lines;
    } else {
      assert lines[..|lines| - 1][..i] == lines[..i];
      BadLineFails(lines[..|lines| - 1], parse, i);
    }
  }

  /** The children among `done` have been added. */
  ghost function PartlyLinked(m: ProvinceMap, done: set<ProvinceID>): ProvinceMap {
    map p | p in m :: m[p].(children := m[p].children + ChildrenOf(m, p) * done)
  }

  lemma PartlyLinkedNone(m: ProvinceMap)
    ensures PartlyLinked(m, {}) == m
  {
    forall p | p in m ensures PartlyLinked(m, {})[p] == m[p] {
      assert m[p].children + ChildrenOf(m, p) * {} == m[p].children;
    }
  }

  lemma OneMoreChild(m: ProvinceMap, done: set<ProvinceID>, c: ProvinceID, p: ProvinceID)
    requires c in m && p in m
    ensures m[p].children + ChildrenOf(m, p) * (done + {c}) ==
            m[p].children + ChildrenOf(m, p) * done + if p == m[c].parent then {c} else {}
  {
  }

  lemma PartlyLinkedOneMore(m: ProvinceMap, done: set<ProvinceID>, c: ProvinceID)
    requires c in m
    ensures
      var m1, parent := PartlyLinked(m, done), m[c].parent;
      PartlyLinked(m, done + {c}) ==
      if parent in m then m1[parent := m1[parent].(children := m1[parent].children + {c})] else m1
  {
    var m1, m2, parent := PartlyLinked(m, done), PartlyLinked(m, done + {c}), m[c].parent;
    forall p | p in m
      ensures m2[p] == if p == parent then m1[p].(children := m1[p].children + {c}) else m1[p]
    {
      OneMoreChild(m, done, c, p);
    }
  }

  lemma PartlyLinkedAll(m: ProvinceMap)
    ensures PartlyLinked(m, m.Keys) == Relinked(m)
  {
    forall p | p in m ensures ChildrenOf(m, p) * m.Keys == ChildrenOf(m, p) {}
  }

  /** Adds each province to the children of its parent, if it has one. */
  method Link(m: ProvinceMap) returns (linked: ProvinceMap)
    ensures linked == Relinked(m)
  {
    linked := m;
    var rest := m.Keys;
    ghost var done: set<ProvinceID> := {};
    PartlyLinkedNone(m);
    while rest != {}
      invariant done !! rest && done + rest == m.Keys
      invariant linked == PartlyLinked(m, done)
      decreases rest
    {
      var c :| c in rest;
      PartlyLinkedOneMore(m, done, c);
      var parent := linked[c].parent;
      if parent in linked {
        linked := linked[parent := linked[parent].(children := linked[parent].children + {c})];
      }
      rest, done := rest - {c}, done + {c};
    }
    assert done == m.Keys;
    PartlyLinkedAll(m);
  }

  // ----- Round trip -----

  /** The texts and ids of a province survive printing. */
  ghost predicate Printable(p: Province, ids: IDText) {
    Plain(p.terrain) && Plain(p.continent) && ids.Faithful(p.id) && ids.Faithful(p.parent)
  }

  /** Reading the fields back, one by one, gives the province's values. */
  ghost predicate FieldsStandFor(fs: seq<string>, p: Province, ids: IDText, num: Numbers) {
    && |fs| == 14
    && Plain(fs[0]) && Plain(fs[1]) && Plain(fs[2]) && Plain(fs[3]) && Plain(fs[4]) && Plain(fs[5]) && Plain(fs[6])
    && Plain(fs[7]) && Plain(fs[8]) && Plain(fs[9]) && Plain(fs[10]) && Plain(fs[11]) && Plain(fs[12]) && Plain(fs[13])
    && ids.parse(fs[0]) == p.id && ids.parse(fs[13]) == p.parent
    && num.to8(fs[1]) == Some(p.uniqueColor.r)
    && num.to8(fs[2]) == Some(p.uniqueColor.g)
    && num.to8(fs[3]) == Some(p.uniqueColor.b)
    && ToProvinceType(fs[4]) == Some(p.kind)
    && ToBool(fs[5]) == Some(p.coastal)
    && fs[6] == p.terrain && fs[7] == p.continent
    && num.to32(fs[8]) == Some(p.boundingBox.bottomLeft.x)
    && num.to32(fs[9]) == Some(p.boundingBox.bottomLeft.y)
    && num.to32(fs[10]) == Some(p.boundingBox.topRight.x)
    && num.to32(fs[11]) == Some(p.boundingBox.topRight.y)
    && num.to32(fs[12]) == Some(p.state)
  }

  /** Numbers are printed without separators and read back. */
  ghost predicate NumbersRoundTrip(out: nat -> string, num: Numbers) {
    && (forall n: uint8 :: num.to8(out(n as nat)) == Some(n))
    && (forall n: uint32 :: num.to32(out(n as nat)) == Some(n))
    && forall n: nat :: Plain(out(n))
  }

  lemma StandardNumbersRoundTrip()
    ensures NumbersRoundTrip(Decimal.Print, StandardNumbers())
  {
    forall n: uint8 ensures ToUint8(Decimal.Print(n as nat)) == Some(n) { Uint8OfPrint(n as nat); }
    forall n: uint32 ensures ToUint32(Decimal.Print(n as nat)) == Some(n) { Uint32OfPrint(n as nat); }
    forall n: nat ensures Plain(Decimal.Print(n)) { PrintIsPlain(n); }
  }

  lemma FieldsAreFaithful(p: Province, ids: IDText, out: nat -> string, num: Numbers)
    requires NumbersRoundTrip(out, num) && Printable(p, ids)
    ensures FieldsStandFor(Fields(p, ids, out), p, ids, num)
  {
  }

  /** Each field of the province is read in its turn. */
  ghost predicate ReadsAlong(at: seq<Stream>, p: Province, rd: Readers) {
    && |at| == 14
    && rd.id(at[0]) == Parsed(at[1], p.id)
    && rd.channel(at[1]) == Parsed(at[2], p.uniqueColor.r)
    && rd.channel(at[2]) == Parsed(at[3], p.uniqueColor.g)
    && rd.channel(at[3]) == Parsed(at[4], p.uniqueColor.b)
    && rd.kind(at[4]) == Parsed(at[5], p.kind)
    && rd.flag(at[5]) == Parsed(at[6], p.coastal)
    && rd.text(at[6]) == Parsed(at[7], p.terrain)
    && rd.text(at[7]) == Parsed(at[8], p.continent)
    && rd.coordinate(at[8]) == Parsed(at[9], p.boundingBox.bottomLeft.x)
    && rd.coordinate(at[9]) == Parsed(at[10], p.boundingBox.bottomLeft.y)
    && rd.coordinate(at[10]) == Parsed(at[11], p.boundingBox.topRight.x)
    && rd.coordinate(at[11]) == Parsed(at[12], p.boundingBox.topRight.y)
    && rd.state(at[12]) == Parsed(at[13], p.state)
    && rd.parent(at[13]).Parsed? && rd.parent(at[13]).value == p.parent
  }

  ghost predicate ReadersTake(rd: Readers, ids: IDText, num: Numbers) {
    && Takes(rd.id, ToID(ids)) && Takes(rd.channel, num.to8) && Takes(rd.kind, ToProvinceType)
    && Takes(rd.flag, ToBool) && Takes(rd.text, ToText()) && Takes(rd.coordinate, num.to32)
    && Takes(rd.state, num.to32) && TakesLast(rd.parent, ToID(ids))
  }

  lemma ReadersForTake(ids: IDText, num: Numbers, held: Province)
    ensures ReadersTake(ReadersFor(ids, num, held), ids, num)
  {
    FieldReaderTakes(ToID(ids));
    FieldReaderTakes(num.to8);
    FieldReaderTakes(ToProvinceType);
    FieldReaderTakes(ToBool);
    FieldReaderTakes(ToText());
    FieldReaderTakes(num.to32);
    OptionalReaderTakes(num.to32, held.state);
    OptionalReaderTakesLast(ToID(ids), INVALID_PROVINCE);
  }

  lemma FaithfulFieldsAreRead(fs: seq<string>, at: seq<Stream>, p: Province, ids: IDText, num: Numbers, rd: Readers)
    requires FieldsStandFor(fs, p, ids, num) && Positions(at, fs) && ReadersTake(rd, ids, num)
    ensures ReadsAlong(at, p, rd)
  {
    assert Readable(fs, at, 0, ToID(ids), p.id);
    assert Readable(fs, at, 1, num.to8, p.uniqueColor.r);
    assert Readable(fs, at, 2, num.to8, p.uniqueColor.g);
    assert Readable(fs, at, 3, num.to8, p.uniqueColor.b);
    assert Readable(fs, at, 4, ToProvinceType, p.kind);
    assert Readable(fs, at, 5, ToBool, p.coastal);
    assert Readable(fs, at, 6, ToText(), p.terrain);
    assert Readable(fs, at, 7, ToText(), p.continent);
    assert Readable(fs, at, 8, num.to32, p.boundingBox.bottomLeft.x);
    assert Readable(fs, at, 9, num.to32, p.boundingBox.bottomLeft.y);
    assert Readable(fs, at, 10, num.to32, p.boundingBox.topRight.x);
    assert Readable(fs, at, 11, num.to32, p.boundingBox.topRight.y);
    assert Readable(fs, at, 12, num.to32, p.state);
    assert LastReadable(fs, at, ToID(ids), p.parent);
  }

  lemma FieldsInTurn(at: seq<Stream>, p: Province, rd: Readers, held: Province)
    requires ReadsAlong(at, p, rd)
    ensures ParseFields(at[0], rd, held) == Some(p.(children := {}))
  {
    RestInTurn(at, p, rd, held.(id := p.id, uniqueColor := p.uniqueColor, kind := p.kind, coastal := p.coastal));
  }

  lemma FaithfulFieldsParse(fs: seq<string>, p: Province, ids: IDText, num: Numbers, rd: Readers, held: Province)
    requires FieldsStandFor(fs, p, ids, num) && ReadersTake(rd, ids, num)
    ensures ParseFields(Open(Joined(fs)), rd, held) == Some(p.(children := {}))
  {
    var at := LineHasPositions(fs);
    FaithfulFieldsAreRead(fs, at, p, ids, num, rd);
    FieldsInTurn(at, p, rd, held);
  }

  lemma RestInTurn(at: seq<Stream>, p: Province, rd: Readers, q: Province)
    requires ReadsAlong(at, p, rd)
    ensures ParseRest(at[6], rd, q) ==
      Some(q.(terrain := p.terrain, continent := p.continent, boundingBox := p.boundingBox,
              state := p.state, parent := p.parent, children := {}))
  {
  }

  /** A printed line parses to the province it was printed from, apart from its children. */
  lemma LineRoundTrip(p: Province, ids: IDText, held: Province)
    requires Printable(p, ids)
    ensures ParseLine(Line(p, ids), ids, held) == Some(p.(children := {}))
  {
    StandardNumbersRoundTrip();
    FieldsAreFaithful(p, ids, Decimal.Print, StandardNumbers());
    ReadersForTake(ids, StandardNumbers(), held);
    var fs := Fields(p, ids, Decimal.Print);
    FaithfulFieldsParse(fs, p, ids, StandardNumbers(), ReadersFor(ids, StandardNumbers(), held), held);
  }

  lemma LineIsOneLine(p: Province, ids: IDText)
    requires Printable(p, ids)
    ensures '\n' !in Line(p, ids) && Line(p, ids) != []
  {
    StandardNumbersRoundTrip();
    var fs := Fields(p, ids, Decimal.Print);
    FieldsAreFaithful(p, ids, Decimal.Print, StandardNumbers());
    FaithfulFieldsAreOneLine(fs, p, ids, StandardNumbers());
  }

  lemma FaithfulFieldsAreOneLine(fs: seq<string>, p: Province, ids: IDText, num: Numbers)
    requires FieldsStandFor(fs, p, ids, num)
    ensures '\n' !in Joined(fs) && Joined(fs) != []
  {
    JoinedAvoids(fs, '\n');
  }

  /** The provinces of `order`, without their children. */
  ghost function Stripped(m: ProvinceMap, order: seq<ProvinceID>): ProvinceMap {
    map p | p in m && p in order :: m[p].(children := {})
  }

  /** The printed line is one line, and parses to the province without its children. */
  ghost predicate PrintsRightly(p: Province, show: Province -> string, parse: string -> Option<Province>) {
    '\n' !in show(p) && show(p) != [] && parse(show(p)) == Some(p.(children := {}))
  }

  lemma LinePrinterPrintsRightly(p: Province, ids: IDText, held: Province)
    requires Printable(p, ids)
    ensures PrintsRightly(p, LinePrinter(ids), LineParser(ids, held))
  {
    LineIsOneLine(p, ids);
    LineRoundTrip(p, ids, held);
  }

  lemma {:induction false} LinesParse(
    m: ProvinceMap, show: Province -> string, parse: string -> Option<Province>, order: seq<ProvinceID>)
    requires Keyed(m) && forall p :: p in order ==> p in m && PrintsRightly(m[p], show, parse)
    ensures ParsedLines(Lines(m, show, order), parse) == Some(Stripped(m, order))
    ensures forall i :: 0 <= i < |Lines(m, show, order)| ==> '\n' !in Lines(m, show, order)[i]
    decreases order
  {
    if order == [] {
      assert Stripped(m, order) == map[];
    } else {
      var prior, last := order[..|order| - 1], order[|order| - 1];
      assert order == prior + [last];
      LinesParse(m, show, parse, prior);
      assert PrintsRightly(m[last], show, parse);
      LinesStep(Lines(m, show, prior), show(m[last]), parse, Stripped(m, prior), m[last].(children := {}));
      assert Stripped(m, order) == Stripped(m, prior)[last := m[last].(children := {})];
    }
  }

  lemma LinesStep(lines: seq<string>, line: string, parse: string -> Option<Province>, m: ProvinceMap, p: Province)
    requires ParsedLines(lines, parse) == Some(m) && line != [] && parse(line) == Some(p)
    ensures ParsedLines(lines + [line], parse) == Some(m[p.id := p])
  {
    assert (lines + [line])[..|lines|] == lines;
  }

  /** Every province with the children that the parent fields give it. */
  ghost function Rebuilt(m: ProvinceMap): ProvinceMap {
    map p | p in m :: m[p].(children := ChildrenOf(m, p))
  }

  lemma RelinkedStripped(m: ProvinceMap, order: seq<ProvinceID>)
    requires Enumerates(order, m)
    ensures Relinked(Stripped(m, order)) == Rebuilt(m)
  {
    var stripped := Stripped(m, order);
    assert stripped.Keys == m.Keys;
    forall p | p in m ensures Relinked(stripped)[p] == Rebuilt(m)[p] {
      assert ChildrenOf(stripped, p) == ChildrenOf(m, p);
      assert {} + ChildrenOf(stripped, p) == ChildrenOf(m, p);
    }
  }

  lemma RebuiltIffMirrored(m: ProvinceMap)
    ensures Rebuilt(m) == m <==> Mirrored(m) && forall p :: p in m ==> m[p].children <= m.Keys
  {
    if Rebuilt(m) == m {
      forall p | p in m ensures m[p].children == ChildrenOf(m, p) {
        assert m[p] == Rebuilt(m)[p];
      }
      forall p, c | p in m && c in m ensures Agree(m, p, c) {}
    }
    if Mirrored(m) && forall p :: p in m ==> m[p].children <= m.Keys {
      forall p | p in m ensures Rebuilt(m)[p] == m[p] {
        forall c | c in m ensures c in m[p].children <==> c in ChildrenOf(m, p) { assert Agree(m, p, c); }
        assert m[p].children == ChildrenOf(m, p);
      }
    }
  }

  /** What loading the saved lines gives; none if they are refused. */
  ghost function Reloaded(m: ProvinceMap, ids: IDText, order: seq<ProvinceID>, held: Province): Option<ProvinceMap>
    requires forall p :: p in order ==> p in m
  {
    match ParsedLines(Pieces(Terminated(Lines(m, LinePrinter(ids), order), '\n'), '\n'), LineParser(ids, held))
    case None => None
    case Some(parsed) => Some(Relinked(parsed))
  }

  /**
    Loading what was saved restores every field of every province, and rebuilds
    the child sets from the parents. The result is the saved map if and only if
    parents and children agreed in it.
   */
  lemma LoadRestoresSave(m: ProvinceMap, ids: IDText, order: seq<ProvinceID>, held: Province)
    requires (forall p :: p in m ==> Printable(m[p], ids)) && Keyed(m) && Enumerates(order, m)
    ensures Reloaded(m, ids, order, held) == Some(Rebuilt(m))
    ensures Rebuilt(m) == m <==> Mirrored(m) && forall p :: p in m ==> m[p].children <= m.Keys
  {
    forall p | p in order ensures PrintsRightly(m[p], LinePrinter(ids), LineParser(ids, held)) {
      LinePrinterPrintsRightly(m[p], ids, held);
    }
    LinesParse(m, LinePrinter(ids), LineParser(ids, held), order);
    PiecesOfTerminated(Lines(m, LinePrinter(ids), order), '\n');
    RelinkedStripped(m, order);
    RebuiltIffMirrored(m);
  }
}
