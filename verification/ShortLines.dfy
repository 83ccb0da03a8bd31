/** Lines that end before their optional fields, as older files have them. */
module ShortLines {
  import opened Types
  import opened TextStream
  import opened TextLaws
  import Decimal
  import ProvinceCsv
  import StateCsv

  /** The last field that is there is read, and nothing is left. */
  lemma LastFieldIsRead<T>(fields: seq<string>, at: seq<Stream>, fromString: string -> Option<T>, v: T) returns (st: Stream)
    requires LastReadable(fields, at, fromString, v) && fields[|fields| - 1] != []
    ensures FieldReader(fromString)(at[|fields| - 1]) == Parsed(st, v) && Exhausted(st)
  {
    var last := fields[|fields| - 1];
    assert StandsAt(at[|fields| - 1], fields, |fields| - 1);
    assert Joined(fields[|fields| - 1..]) == last;
    IndexOfDelimiter(last, ';', []);
    st := Stream([], true, false);
  }

  // ----- Provinces -----

  /** The fields up to the bounding box. */
  function BoxedFields(p: Province, ids: ProvinceCsv.IDText, num: nat -> string): seq<string> {
    ProvinceCsv.Fields(p, ids, num)[..12]
  }

  lemma BoxedFieldsAreRead(
    fs: seq<string>, at: seq<Stream>, p: Province, ids: ProvinceCsv.IDText, num: ProvinceCsv.Numbers,
    rd: ProvinceCsv.Readers) returns (end: Stream)
    requires ProvinceCsv.FieldsStandFor(fs, p, ids, num) && ProvinceCsv.ReadersTake(rd, ids, num)
    requires rd.coordinate == FieldReader(num.to32) && fs[11] != [] && Positions(at, fs[..12])
    ensures |at| == 12 && Exhausted(end)
    ensures rd.id(at[0]) == Parsed(at[1], p.id)
    ensures rd.channel(at[1]) == Parsed(at[2], p.uniqueColor.r) && rd.channel(at[2]) == Parsed(at[3], p.uniqueColor.g)
    ensures rd.channel(at[3]) == Parsed(at[4], p.uniqueColor.b) && rd.kind(at[4]) == Parsed(at[5], p.kind)
    ensures rd.flag(at[5]) == Parsed(at[6], p.coastal) && rd.text(at[6]) == Parsed(at[7], p.terrain)
    ensures rd.text(at[7]) == Parsed(at[8], p.continent)
    ensures rd.coordinate(at[8]) == Parsed(at[9], p.boundingBox.bottomLeft.x)
    ensures rd.coordinate(at[9]) == Parsed(at[10], p.boundingBox.bottomLeft.y)
    ensures rd.coordinate(at[10]) == Parsed(at[11], p.boundingBox.topRight.x)
    ensures rd.coordinate(at[11]) == Parsed(end, p.boundingBox.topRight.y)
  {
    var short := fs[..12];
    assert Readable(short, at, 0, ProvinceCsv.ToID(ids), p.id);
    assert Readable(short, at, 1, num.to8, p.uniqueColor.r);
    assert Readable(short, at, 2, num.to8, p.uniqueColor.g);
    assert Readable(short, at, 3, num.to8, p.uniqueColor.b);
    assert Readable(short, at, 4, ToProvinceType, p.kind);
    assert Readable(short, at, 5, ToBool, p.coastal);
    assert Readable(short, at, 6, ProvinceCsv.ToText(), p.terrain);
    assert Readable(short, at, 7, ProvinceCsv.ToText(), p.continent);
    assert Readable(short, at, 8, num.to32, p.boundingBox.bottomLeft.x);
    assert Readable(short, at, 9, num.to32, p.boundingBox.bottomLeft.y);
    assert Readable(short, at, 10, num.to32, p.boundingBox.topRight.x);
    end := LastFieldIsRead(short, at, num.to32, p.boundingBox.topRight.y);
  }

  lemma ShortProvinceFieldsParse(
    fs: seq<string>, p: Province, ids: ProvinceCsv.IDText, num: ProvinceCsv.Numbers, held: Province)
    requires ProvinceCsv.FieldsStandFor(fs, p, ids, num) && fs[11] != [] && num.to32("") == None
    ensures ProvinceCsv.ParseFields(Open(Joined(fs[..12])), ProvinceCsv.ReadersFor(ids, num, held), held) ==
      Some(p.(state := held.state, parent := ids.parse(""), children := {}))
  {
    var rd := ProvinceCsv.ReadersFor(ids, num, held);
    ProvinceCsv.ReadersForTake(ids, num, held);
    var at := LineHasPositions(fs[..12]);
    var end := BoxedFieldsAreRead(fs, at, p, ids, num, rd);
    MissingField(end, num.to32, held.state);
    var last := rd.state(end).stream;
    MissingField(last, ProvinceCsv.ToID(ids), INVALID_PROVINCE);
    ProvinceCsv.FieldsInTurn(at + [end, last], p.(state := held.state, parent := ids.parse("")), rd, held);
  }

  lemma EmptyIsNoNumber()
    ensures ToUint8("") == None && ToUint32("") == None
  {
  }

  /** Numbers are printed as something. */
  ghost predicate PrintsSomething(out: nat -> string) {
    forall n: nat :: out(n) != []
  }

  lemma ShortFieldsOfProvince(
    p: Province, ids: ProvinceCsv.IDText, out: nat -> string, num: ProvinceCsv.Numbers, held: Province)
    requires ProvinceCsv.NumbersRoundTrip(out, num) && PrintsSomething(out) && num.to32("") == None
    requires ProvinceCsv.Printable(p, ids)
    ensures ProvinceCsv.ParseFields(
        Open(Joined(BoxedFields(p, ids, out))), ProvinceCsv.ReadersFor(ids, num, held), held) ==
      Some(p.(state := held.state, parent := ids.parse(""), children := {}))
  {
    ProvinceCsv.FieldsAreFaithful(p, ids, out, num);
    ShortProvinceFieldsParse(ProvinceCsv.Fields(p, ids, out), p, ids, num, held);
  }

  /**
    A province line that ends after the bounding box is accepted: the state is what
    an uninitialised province holds, and the parent what an empty id is read as.
   */
  lemma ShortProvinceLine(p: Province, ids: ProvinceCsv.IDText, held: Province)
    requires ProvinceCsv.Printable(p, ids)
    ensures ProvinceCsv.ParseLine(Joined(BoxedFields(p, ids, Decimal.Print)), ids, held) ==
      Some(p.(state := held.state, parent := ids.parse(""), children := {}))
  {
    ProvinceCsv.StandardNumbersRoundTrip();
    EmptyIsNoNumber();
    ShortFieldsOfProvince(p, ids, Decimal.Print, ProvinceCsv.StandardNumbers(), held);
  }

  // ----- States -----

  lemma UnlistedFieldsAreRead(
    fs: seq<string>, at: seq<Stream>, s: State, list: string, factors: StateCsv.FactorText, num: ProvinceCsv.Numbers,
    toSize: string -> Option<nat>, rd: StateCsv.Readers) returns (end: Stream)
    requires StateCsv.FieldsStandFor(fs, s, list, factors, num, toSize)
    requires StateCsv.ReadersTake(rd, factors, num, toSize) && rd.flag == FieldReader(ToBool)
    requires fs[5] != [] && Positions(at, fs[..6])
    ensures |at| == 6 && Exhausted(end)
    ensures rd.id(at[0]) == Parsed(at[1], s.id) && rd.text(at[1]) == Parsed(at[2], s.name)
    ensures rd.size(at[2]) == Parsed(at[3], s.manpower) && rd.text(at[3]) == Parsed(at[4], s.category)
    ensures rd.factor(at[4]) == Parsed(at[5], s.buildingsMaxLevelFactor)
    ensures rd.flag(at[5]) == Parsed(end, s.impassable)
  {
    var short := fs[..6];
    assert Readable(short, at, 0, num.to32, s.id);
    assert Readable(short, at, 1, ProvinceCsv.ToText(), s.name);
    assert Readable(short, at, 2, toSize, s.manpower);
    assert Readable(short, at, 3, ProvinceCsv.ToText(), s.category);
    assert Readable(short, at, 4, factors.read, s.buildingsMaxLevelFactor);
    end := LastFieldIsRead(short, at, ToBool, s.impassable);
  }

  /** All that a line may leave out is missing: no list, and black. */
  lemma RestIsMissing(end: Stream, factors: StateCsv.FactorText, num: ProvinceCsv.Numbers, toSize: string -> Option<nat>)
    returns (s7: Stream, s8: Stream, s9: Stream)
    requires Exhausted(end) && num.to8("") == None
    ensures
      var rd := StateCsv.ReadersFor(factors, num, toSize);
      && rd.list(end) == Parsed(s7, "") && rd.channel(s7) == Parsed(s8, 0) && rd.channel(s8) == Parsed(s9, 0)
      && rd.channel(s9).Parsed? && rd.channel(s9).value == 0
  {
    var rd := StateCsv.ReadersFor(factors, num, toSize);
    MissingField(end, ProvinceCsv.ToText(), "");
    s7 := rd.list(end).stream;
    MissingField(s7, num.to8, 0);
    s8 := rd.channel(s7).stream;
    MissingField(s8, num.to8, 0);
    s9 := rd.channel(s8).stream;
    MissingField(s9, num.to8, 0);
  }

  lemma ShortStateFieldsParse(
    fs: seq<string>, s: State, list: string, factors: StateCsv.FactorText, num: ProvinceCsv.Numbers,
    toSize: string -> Option<nat>)
    requires StateCsv.FieldsStandFor(fs, s, list, factors, num, toSize) && fs[5] != [] && num.to8("") == None
    ensures StateCsv.ParseFields(Open(Joined(fs[..6])), StateCsv.ReadersFor(factors, num, toSize)) ==
      Some((s.(provinces := [], color := Color(0, 0, 0)), ""))
  {
    var rd := StateCsv.ReadersFor(factors, num, toSize);
    StateCsv.ReadersForTake(factors, num, toSize);
    var at := LineHasPositions(fs[..6]);
    var s6 := UnlistedFieldsAreRead(fs, at, s, list, factors, num, toSize, rd);
    var s7, s8, s9 := RestIsMissing(s6, factors, num, toSize);
    StateCsv.FieldsInTurn(at + [s6, s7, s8, s9], s.(color := Color(0, 0, 0)), "", rd);
  }

  lemma ShortFieldsOfState(
    s: State, ids: ProvinceCsv.IDText, factors: StateCsv.FactorText, out: nat -> string, num: ProvinceCsv.Numbers,
    toSize: string -> Option<nat>)
    requires StateCsv.Printable(s, ids, factors) && ProvinceCsv.NumbersRoundTrip(out, num) && num.to8("") == None
    requires toSize(out(s.manpower)) == Some(s.manpower)
    ensures StateCsv.ParseFields(
        Open(Joined(StateCsv.Fields(s, ids, factors, out)[..6])), StateCsv.ReadersFor(factors, num, toSize)) ==
      Some((StateCsv.Stored(s, factors).(provinces := [], color := Color(0, 0, 0)), ""))
  {
    StateCsv.ListRoundTrip(s.provinces, ids);
    StateCsv.FieldsAreFaithful(s, ids, factors, out, num, toSize);
    ShortStateFieldsParse(
      StateCsv.Fields(s, ids, factors, out), StateCsv.Stored(s, factors), StateCsv.ListText(s.provinces, ids), factors,
      num, toSize);
  }

  /** A state line that ends after the flag is accepted: it lists no provinces and has no colour yet. */
  lemma ShortStateLine(s: State, ids: ProvinceCsv.IDText, factors: StateCsv.FactorText)
    requires StateCsv.Printable(s, ids, factors)
    ensures StateCsv.ParseLine(Joined(StateCsv.Fields(s, ids, factors, Decimal.Print)[..6]), ids, factors) ==
      Some(s.(buildingsMaxLevelFactor := factors.Stored(s.buildingsMaxLevelFactor), provinces := [], color := Color(0, 0, 0)))
  {
    ProvinceCsv.StandardNumbersRoundTrip();
    StoulOfPrint(s.manpower);
    EmptyIsNoNumber();
    ShortFieldsOfState(s, ids, factors, Decimal.Print, ProvinceCsv.StandardNumbers(), Stoul);
  }
}
