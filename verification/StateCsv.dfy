/** Saving the states as a CSV file and loading them again. */
module StateCsv {
  import opened Types
  import opened Collections
  import opened TextStream
  import opened ProvinceCsv
  import Decimal

  /** Printing and reading of the level factor, a floating-point number. Digits may be lost on the way. */
  datatype FactorText = FactorText(show: real -> string, read: string -> Option<real>) {
    /** The factor is printed without separators, and as something that can be read. */
    ghost predicate Readable(x: real) {
      Plain(show(x)) && read(show(x)).Some?
    }

    function Stored(x: real): real {
      match read(show(x)) case Some(y) => y case None => x
    }
  }

  const BLACK := Color(0, 0, 0)

  // ----- Printing -----

  /** The ids, each followed by a comma. */
  function ListText(provinces: seq<ProvinceID>, ids: IDText): string {
    Terminated(Unparsed(provinces, ids), ',')
  }

  function Unparsed(provinces: seq<ProvinceID>, ids: IDText): seq<string> {
    seq(|provinces|, i requires 0 <= i < |provinces| => ids.unparse(provinces[i]))
  }

  function Fields(s: State, ids: IDText, factors: FactorText, num: nat -> string): seq<string> {
    [ num(s.id as nat),
      s.name,
      num(s.manpower),
      s.category,
      factors.show(s.buildingsMaxLevelFactor),
      if s.impassable then "1" else "0",
      ListText(s.provinces, ids),
      num(s.color.r as nat), num(s.color.g as nat), num(s.color.b as nat) ]
  }

  function Line(s: State, ids: IDText, factors: FactorText): string {
    Joined(Fields(s, ids, factors, Decimal.Print))
  }

  function LinePrinter(ids: IDText, factors: FactorText): State -> string {
    (s: State) => Line(s, ids, factors)
  }

  function Lines(m: StateMap, show: State -> string, order: seq<StateID>): seq<string>
    requires forall s :: s in order ==> s in m
    decreases order
  {
    if order == [] then []
    else Lines(m, show, order[..|order| - 1]) + [show(m[order[|order| - 1]])]
  }

  ghost predicate Ascending(order: seq<StateID>) {
    forall i, j :: 0 <= i < j < |order| ==> order[i] < order[j]
  }

  /** One line per state, in ascending order of the ids. */
  method Save(m: StateMap, ids: IDText, factors: FactorText) returns (text: string, ghost order: seq<StateID>)
    ensures Enumerates(order, m) && Ascending(order)
    ensures text == Terminated(Lines(m, LinePrinter(ids, factors), order), '\n')
  {
    text, order := SaveLines(m, LinePrinter(ids, factors));
  }

  /** The loop over the states, for any way of printing one. */
  method SaveLines(m: StateMap, show: State -> string) returns (text: string, ghost order: seq<StateID>)
    ensures Enumerates(order, m) && Ascending(order)
    ensures text == Terminated(Lines(m, show, order), '\n')
  {
    text, order := "", [];
    var rest := m.Keys;
    while rest != {}
      invariant rest <= m.Keys && Ascending(order)
      invariant forall s :: s in order <==> s in m && s !in rest
      invariant forall s, r :: s in order && r in rest ==> s < r
      invariant text == Terminated(Lines(m, show, order), '\n')
      decreases rest
    {
      var least := Least(rest);
      LinesAppend(m, show, order, least);
      AscendingAppend(order, least);
      text, order, rest := text + show(m[least]) + ['\n'], order + [least], rest - {least};
    }
  }

  lemma AscendingAppend(order: seq<StateID>, s: StateID)
    requires Ascending(order) && forall r :: r in order ==> r < s
    ensures Ascending(order + [s])
  {
    forall i | 0 <= i < |order| ensures order[i] < s { assert order[i] in order; }
  }

  lemma LinesAppend(m: StateMap, show: State -> string, order: seq<StateID>, s: StateID)
    requires (forall r :: r in order ==> r in m) && s in m
    ensures Terminated(Lines(m, show, order + [s]), '\n') ==
            Terminated(Lines(m, show, order), '\n') + show(m[s]) + ['\n']
  {
    assert (order + [s])[..|order|] == order;
    TerminatedAppend(Lines(m, show, order), show(m[s]), '\n');
  }

  method Least(s: set<StateID>) returns (x: StateID)
    requires s != {}
    ensures x in s && forall y :: y in s ==> x <= y
  {
    x :| x in s;
    var rest := s - {x};
    while rest != {}
      invariant x in s && rest <= s
      invariant forall y :: y in s && y !in rest ==> x <= y
      decreases rest
    {
      var y :| y in rest;
      if y < x { x := y; }
      rest := rest - {y};
    }
  }

  // ----- Parsing -----

  /** What `splitAndTransform` makes of the pieces: empty ones, and ones that start with NUL, are skipped. */
  function Transformed<T>(pieces: seq<string>, f: string -> T): seq<T> {
    if pieces == [] then []
    else
      var last := pieces[|pieces| - 1];
      Transformed(pieces[..|pieces| - 1], f) + if last == [] || last[0] == '\0' then [] else [f(last)]
  }

  method SplitAndTransform<T>(text: string, delim: char, f: string -> T) returns (r: seq<T>)
    ensures r == Transformed(Pieces(text, delim), f)
  {
    ghost var pieces := Pieces(text, delim);
    r := [];
    var stream := Open(text);
    ghost var i := 0;
    while true
      invariant i <= |pieces| && StreamOf(stream, pieces[i..], delim)
      invariant r == Transformed(pieces[..i], f)
      decreases |pieces| - i
    {
      var after, item := ReadPiece(stream, delim, pieces, i);
      if item == None {
        break;
      }
      assert pieces[..i + 1][..i] == pieces[..i];
      stream, i := after, i + 1;
      if item.value == [] || item.value[0] == '\0' {
        continue;
      }
      r := r + [f(item.value)];
    }
    assert pieces[..i] == pieces;
  }

  /** How each kind of field is read. */
  datatype Readers = Readers(
    id: Reader<StateID>,
    text: Reader<string>,
    size: Reader<nat>,
    factor: Reader<real>,
    flag: Reader<bool>,
    list: Reader<string>,
    channel: Reader<uint8>)

  /** The list and the colour may be missing. */
  function ReadersFor(factors: FactorText, num: Numbers, toSize: string -> Option<nat>): Readers {
    Readers.Readers(
      FieldReader(num.to32), FieldReader(ToText()), FieldReader(toSize), FieldReader(factors.read), FieldReader(ToBool),
      OptionalReader(ToText(), ""), OptionalReader(num.to8, 0))
  }

  /** The state of a line without its provinces, and the text that lists them. */
  function ParseFields(st: Stream, rd: Readers): Option<(State, string)> {
    var (s1, id) :- rd.id(st);
    var (s2, name) :- rd.text(s1);
    var (s3, manpower) :- rd.size(s2);
    var (s4, category) :- rd.text(s3);
    ParseRest(s4, rd, State(id, name, manpower, category, 0.0, false, [], BLACK))
  }

  function ParseRest(st: Stream, rd: Readers, s: State): Option<(State, string)> {
    var (s5, factor) :- rd.factor(st);
    var (s6, impassable) :- rd.flag(s5);
    var (s7, list) :- rd.list(s6);
    var (s8, r) :- rd.channel(s7);
    var (s9, g) :- rd.channel(s8);
    var (_, b) :- rd.channel(s9);
    Some((s.(buildingsMaxLevelFactor := factor, impassable := impassable, color := Color(r, g, b)), list))
  }

  /** A state that was saved without a colour gets a new one. */
  function Recolored(s: State, generated: Color): State {
    if s.color == BLACK then s.(color := generated) else s
  }

  function ParseLine(line: string, ids: IDText, factors: FactorText): Option<State> {
    match ParseFields(Open(line), ReadersFor(factors, StandardNumbers(), Stoul))
    case None => None
    case Some((s, list)) => Some(s.(provinces := Transformed(Pieces(list, ','), ids.parse)))
  }

  function LineParser(ids: IDText, factors: FactorText): string -> Option<State> {
    (line: string) => ParseLine(line, ids, factors)
  }

  /**
    The states of the lines, and how many there were; none if a line is bad. Of
    two states with the same id the first is kept. `unique` generates colours.
   */
  ghost function Loaded(lines: seq<string>, parse: string -> Option<State>, unique: nat -> Color)
    : Option<(StateMap, nat)>
  {
    if lines == [] then Some((map[], 0))
    else LoadedNext(Loaded(lines[..|lines| - 1], parse, unique), lines[|lines| - 1], parse, unique)
  }

  ghost function LoadedNext(
    before: Option<(StateMap, nat)>, line: string, parse: string -> Option<State>, unique: nat -> Color)
    : Option<(StateMap, nat)>
  {
    if before == None || line == [] then before
    else
      match parse(line)
      case None => None
      case Some(s) =>
        var (m, k) := before.value;
        Some((if s.id in m then m else m[s.id := Recolored(s, unique(k))], k + 1))
  }

  method Load(text: string, ids: IDText, factors: FactorText, unique: nat -> Color) returns (r: Maybe<StateMap>)
    ensures
      match Loaded(Pieces(text, '\n'), LineParser(ids, factors), unique)
      case None => r == Failure(BadMessage)
      case Some((m, _)) => r == Value(m)
  {
    r := LoadLines(text, LineParser(ids, factors), unique);
  }

  /** The loop over the lines, for any way of reading a line. */
  method LoadLines(text: string, parse: string -> Option<State>, unique: nat -> Color) returns (r: Maybe<StateMap>)
    ensures
      match Loaded(Pieces(text, '\n'), parse, unique)
      case None => r == Failure(BadMessage)
      case Some((m, _)) => r == Value(m)
  {
    ghost var lines := Pieces(text, '\n');
    var states: StateMap := map[];
    var stream := Open(text);
    var generated := 0;
    ghost var i := 0;
    while true
      invariant i <= |lines| && StreamOf(stream, lines[i..], '\n')
      invariant Loaded(lines[..i], parse, unique) == Some((states, generated))
      decreases |lines| - i
    {
      var after, line := ReadPiece(stream, '\n', lines, i);
      if line == None {
        break;
      }
      LoadedStep(lines, parse, unique, i, Some((states, generated)));
      stream, i := after, i + 1;
      if line.value == [] {
        continue;
      }
      var state := parse(line.value);
      if state == None {
        BadLineFails(lines, parse, unique, i);
        return Failure(BadMessage);
      }
      states := KeepFirst(states, state.value, unique(generated));
      generated := generated + 1;
    }
    assert lines[..i] == lines;
    return Value(states);
  }

  method KeepFirst(states: StateMap, state: State, color: Color) returns (states': StateMap)
    ensures states' == if state.id in states then states else states[state.id := Recolored(state, color)]
  {
    states' := states;
    if state.id !in states {
      states' := states[state.id := Recolored(state, color)];
    }
  }

  lemma LoadedStep(
    lines: seq<string>, parse: string -> Option<State>, unique: nat -> Color, i: nat, before: Option<(StateMap, nat)>)
    requires i < |lines| && Loaded(lines[..i], parse, unique) == before
    ensures Loaded(lines[..i + 1], parse, unique) == LoadedNext(before, lines[i], parse, unique)
  {
    assert lines[..i + 1][..i] == lines[..i];
  }

  lemma {:induction false} BadLineFails(lines: seq<string>, parse: string -> Option<State>, unique: nat -> Color, i: nat)
    requires i <= |lines| && Loaded(lines[..i], parse, unique) == None
    ensures Loaded(lines, parse, unique) == None
    decreases |lines|
  {
    if i == |lines| {
      assert lines[..i] == lines;
    } else {
      assert lines[..|lines| - 1][..i] == lines[..i];
      BadLineFails(lines[..|lines| - 1], parse, unique, i);
    }
  }

  // ----- Round trip -----

  /** The province list is restored in order. */
  lemma ListRoundTrip(provinces: seq<ProvinceID>, ids: IDText)
    requires forall p :: p in provinces ==> ids.Faithful(p)
    ensures Transformed(Pieces(ListText(provinces, ids), ','), ids.parse) == provinces
    ensures Plain(ListText(provinces, ids))
  {
    forall i | 0 <= i < |provinces| ensures ids.Faithful(provinces[i]) { assert provinces[i] in provinces; }
    PiecesOfTerminated(Unparsed(provinces, ids), ',');
    TransformedUnparsed(provinces, ids);
    TerminatedAvoids(Unparsed(provinces, ids), ',', ';');
    TerminatedAvoids(Unparsed(provinces, ids), ',', '\n');
  }

  lemma {:induction false} TransformedUnparsed(provinces: seq<ProvinceID>, ids: IDText)
    requires forall p :: p in provinces ==> ids.Faithful(p)
    ensures Transformed(Unparsed(provinces, ids), ids.parse) == provinces
    decreases provinces
  {
    if provinces != [] {
      var n := |provinces| - 1;
      TransformedUnparsed(provinces[..n], ids);
      assert ids.Faithful(provinces[n]) by { assert provinces[n] in provinces; }
      assert Unparsed(provinces, ids)[..n] == Unparsed(provinces[..n], ids);
      assert provinces == provinces[..n] + [provinces[n]];
    }
  }

  lemma {:induction false} TerminatedAvoids(pieces: seq<string>, delim: char, c: char)
    requires c != delim && forall i :: 0 <= i < |pieces| ==> c !in pieces[i]
    ensures c !in Terminated(pieces, delim)
  {
    if pieces != [] { TerminatedAvoids(pieces[1..], delim, c); }
  }

  ghost predicate FieldsStandFor(
    fs: seq<string>, s: State, list: string, factors: FactorText, num: Numbers, toSize: string -> Option<nat>)
  {
    && |fs| == 10
    && Plain(fs[0]) && Plain(fs[1]) && Plain(fs[2]) && Plain(fs[3]) && Plain(fs[4])
    && Plain(fs[5]) && Plain(fs[6]) && Plain(fs[7]) && Plain(fs[8]) && Plain(fs[9])
    && num.to32(fs[0]) == Some(s.id)
    && fs[1] == s.name
    && toSize(fs[2]) == Some(s.manpower)
    && fs[3] == s.category
    && factors.read(fs[4]) == Some(s.buildingsMaxLevelFactor)
    && ToBool(fs[5]) == Some(s.impassable)
    && fs[6] == list
    && num.to8(fs[7]) == Some(s.color.r)
    && num.to8(fs[8]) == Some(s.color.g)
    && num.to8(fs[9]) == Some(s.color.b)
  }

  /** Each field of the state is read in its turn. */
  ghost predicate ReadsAlong(at: seq<Stream>, s: State, list: string, rd: Readers) {
    && |at| == 10
    && rd.id(at[0]) == Parsed(at[1], s.id)
    && rd.text(at[1]) == Parsed(at[2], s.name)
    && rd.size(at[2]) == Parsed(at[3], s.manpower)
    && rd.text(at[3]) == Parsed(at[4], s.category)
    && rd.factor(at[4]) == Parsed(at[5], s.buildingsMaxLevelFactor)
    && rd.flag(at[5]) == Parsed(at[6], s.impassable)
    && rd.list(at[6]) == Parsed(at[7], list)
    && rd.channel(at[7]) == Parsed(at[8], s.color.r)
    && rd.channel(at[8]) == Parsed(at[9], s.color.g)
    && rd.channel(at[9]).Parsed? && rd.channel(at[9]).value == s.color.b
  }

  ghost predicate ReadersTake(rd: Readers, factors: FactorText, num: Numbers, toSize: string -> Option<nat>) {
    && Takes(rd.id, num.to32) && Takes(rd.text, ToText()) && Takes(rd.size, toSize)
    && Takes(rd.factor, factors.read) && Takes(rd.flag, ToBool) && Takes(rd.list, ToText())
    && Takes(rd.channel, num.to8) && TakesLast(rd.channel, num.to8)
  }

  lemma ReadersForTake(factors: FactorText, num: Numbers, toSize: string -> Option<nat>)
    ensures ReadersTake(ReadersFor(factors, num, toSize), factors, num, toSize)
  {
    FieldReaderTakes(num.to32);
    FieldReaderTakes(ToText());
    FieldReaderTakes(toSize);
    FieldReaderTakes(factors.read);
    FieldReaderTakes(ToBool);
    OptionalReaderTakes(ToText(), "");
    OptionalReaderTakes(num.to8, 0);
    OptionalReaderTakesLast(num.to8, 0);
  }

  lemma FaithfulFieldsAreRead(
    fs: seq<string>, at: seq<Stream>, s: State, list: string, factors: FactorText, num: Numbers,
    toSize: string -> Option<nat>, rd: Readers)
    requires FieldsStandFor(fs, s, list, factors, num, toSize) && Positions(at, fs)
    requires ReadersTake(rd, factors, num, toSize)
    ensures ReadsAlong(at, s, list, rd)
  {
    assert Readable(fs, at, 0, num.to32, s.id);
    assert Readable(fs, at, 1, ToText(), s.name);
    assert Readable(fs, at, 2, toSize, s.manpower);
    assert Readable(fs, at, 3, ToText(), s.category);
    assert Readable(fs, at, 4, factors.read, s.buildingsMaxLevelFactor);
    assert Readable(fs, at, 5, ToBool, s.impassable);
    assert Readable(fs, at, 6, ToText(), list);
    assert Readable(fs, at, 7, num.to8, s.color.r);
    assert Readable(fs, at, 8, num.to8, s.color.g);
    assert LastReadable(fs, at, num.to8, s.color.b);
  }

  lemma FieldsInTurn(at: seq<Stream>, s: State, list: string, rd: Readers)
    requires ReadsAlong(at, s, list, rd)
    ensures ParseFields(at[0], rd) == Some((s.(provinces := []), list))
  {
  }

  /** Texts without separators, ids and a factor that can be read, and a manpower that fits the 64-bit field. */
  ghost predicate Printable(s: State, ids: IDText, factors: FactorText) {
    && Plain(s.name) && Plain(s.category) && s.manpower < 0x1_0000_0000_0000_0000
    && factors.Readable(s.buildingsMaxLevelFactor)
    && forall p :: p in s.provinces ==> ids.Faithful(p)
  }

  /** The state as its printed factor stands for it. */
  function Stored(s: State, factors: FactorText): State {
    s.(buildingsMaxLevelFactor := factors.Stored(s.buildingsMaxLevelFactor))
  }

  lemma FieldsAreFaithful(
    s: State, ids: IDText, factors: FactorText, out: nat -> string, num: Numbers, toSize: string -> Option<nat>)
    requires Printable(s, ids, factors) && NumbersRoundTrip(out, num)
    requires toSize(out(s.manpower)) == Some(s.manpower) && Plain(ListText(s.provinces, ids))
    ensures
      FieldsStandFor(Fields(s, ids, factors, out), Stored(s, factors), ListText(s.provinces, ids), factors, num, toSize)
  {
  }

  /** A printed line is one line, and parses to the state it was printed from, with the factor that was printed. */
  lemma LineRoundTrip(s: State, ids: IDText, factors: FactorText)
    requires Printable(s, ids, factors)
    ensures ParseLine(Line(s, ids, factors), ids, factors) == Some(Stored(s, factors))
    ensures '\n' !in Line(s, ids, factors) && Line(s, ids, factors) != []
  {
    var fs, list, num := Fields(s, ids, factors, Decimal.Print), ListText(s.provinces, ids), StandardNumbers();
    StandardNumbersRoundTrip();
    StoulOfPrint(s.manpower);
    ListRoundTrip(s.provinces, ids);
    FieldsAreFaithful(s, ids, factors, Decimal.Print, num, Stoul);
    ReadersForTake(factors, num, Stoul);
    FaithfulFieldsParse(fs, Stored(s, factors), list, factors, num, Stoul, ReadersFor(factors, num, Stoul));
  }

  lemma FaithfulFieldsParse(
    fs: seq<string>, s: State, list: string, factors: FactorText, num: Numbers, toSize: string -> Option<nat>,
    rd: Readers)
    requires FieldsStandFor(fs, s, list, factors, num, toSize) && ReadersTake(rd, factors, num, toSize)
    ensures ParseFields(Open(Joined(fs)), rd) == Some((s.(provinces := []), list))
    ensures '\n' !in Joined(fs) && Joined(fs) != []
  {
    var at := LineHasPositions(fs);
    FaithfulFieldsAreRead(fs, at, s, list, factors, num, toSize, rd);
    FieldsInTurn(at, s, list, rd);
    JoinedAvoids(fs, '\n');
  }

  /**
    `loaded` is `m` restricted to `order`, except that each state is changed as
    `kept` says, and black ones have the colours generated for their lines.
   */
  ghost predicate Restores(
    loaded: StateMap, m: StateMap, order: seq<StateID>, kept: State -> State, unique: nat -> Color)
  {
    && (forall s :: s in loaded <==> s in order)
    && forall i :: 0 <= i < |order| ==>
         order[i] in m && order[i] in loaded && loaded[order[i]] == Recolored(kept(m[order[i]]), unique(i))
  }

  /** The printed line is one line, and parses to what `kept` leaves of the state. */
  ghost predicate PrintsRightly(s: State, show: State -> string, parse: string -> Option<State>, kept: State -> State) {
    '\n' !in show(s) && show(s) != [] && parse(show(s)) == Some(kept(s)) && kept(s).id == s.id
  }

  lemma {:induction false} LinesLoad(
    m: StateMap, show: State -> string, parse: string -> Option<State>, kept: State -> State, order: seq<StateID>,
    unique: nat -> Color)
    requires forall s :: s in order ==> s in m && m[s].id == s && PrintsRightly(m[s], show, parse, kept)
    requires Distinct(order)
    ensures LoadsRightly(Lines(m, show, order), m, order, parse, kept, unique)
    decreases order
  {
    if order != [] {
      var prior, last := order[..|order| - 1], order[|order| - 1];
      assert order == prior + [last];
      LinesLoad(m, show, parse, kept, prior, unique);
      NextLineLoads(Lines(m, show, prior), show(m[last]), m, prior, last, parse, kept, unique);
    }
  }

  /** The lines hold no further line break, and load as the states of `order`. */
  ghost predicate LoadsRightly(
    lines: seq<string>, m: StateMap, order: seq<StateID>, parse: string -> Option<State>, kept: State -> State,
    unique: nat -> Color)
  {
    && (forall i :: 0 <= i < |lines| ==> '\n' !in lines[i])
    && Loaded(lines, parse, unique).Some?
    && Loaded(lines, parse, unique).value.1 == |order|
    && Restores(Loaded(lines, parse, unique).value.0, m, order, kept, unique)
  }

  /** One more line of a state that is not among the earlier ones. */
  lemma NextLineLoads(
    lines: seq<string>, line: string, m: StateMap, prior: seq<StateID>, last: StateID,
    parse: string -> Option<State>, kept: State -> State, unique: nat -> Color)
    requires LoadsRightly(lines, m, prior, parse, kept, unique) && last in m && m[last].id == last && last !in prior
    requires '\n' !in line && line != [] && parse(line) == Some(kept(m[last])) && kept(m[last]).id == last
    ensures LoadsRightly(lines + [line], m, prior + [last], parse, kept, unique)
  {
    LoadedAppend(lines, line, parse, kept(m[last]), unique);
    RestoresNext(Loaded(lines, parse, unique).value.0, m, prior, last, kept, unique);
  }

  lemma LoadedAppend(lines: seq<string>, line: string, parse: string -> Option<State>, s: State, unique: nat -> Color)
    requires Loaded(lines, parse, unique).Some? && line != [] && parse(line) == Some(s)
    ensures
      var (m, k) := Loaded(lines, parse, unique).value;
      Loaded(lines + [line], parse, unique) ==
      Some((if s.id in m then m else m[s.id := Recolored(s, unique(k))], k + 1))
  {
    assert (lines + [line])[..|lines|] == lines;
  }

  lemma RestoresNext(
    loaded: StateMap, m: StateMap, prior: seq<StateID>, last: StateID, kept: State -> State, unique: nat -> Color)
    requires Restores(loaded, m, prior, kept, unique) && last in m && last !in prior
    ensures Restores(loaded[last := Recolored(kept(m[last]), unique(|prior|))], m, prior + [last], kept, unique)
  {
  }

  function Keeper(factors: FactorText): State -> State {
    (s: State) => Stored(s, factors)
  }

  /** The state comes back as it was: its factor survives printing, and it has a colour or is given black again. */
  ghost predicate Survives(s: State, factors: FactorText, generated: Color) {
    && factors.Stored(s.buildingsMaxLevelFactor) == s.buildingsMaxLevelFactor
    && (s.color != BLACK || generated == BLACK)
  }

  /**
    Loading what was saved restores every state, with its provinces in order,
    but for factors that printing rounds and for black states, which come back
    with generated colours. The map is the saved one exactly when there are none.
   */
  lemma LoadRestoresSave(m: StateMap, ids: IDText, factors: FactorText, order: seq<StateID>, unique: nat -> Color)
    requires Enumerates(order, m)
    requires forall s :: s in m ==> m[s].id == s && Printable(m[s], ids, factors)
    ensures
      var text := Terminated(Lines(m, LinePrinter(ids, factors), order), '\n');
      var loaded := Loaded(Pieces(text, '\n'), LineParser(ids, factors), unique);
      && loaded.Some?
      && Restores(loaded.value.0, m, order, Keeper(factors), unique)
      && (loaded.value.0 == m <==> forall i :: 0 <= i < |order| ==> Survives(m[order[i]], factors, unique(i)))
  {
    var show, parse, kept := LinePrinter(ids, factors), LineParser(ids, factors), Keeper(factors);
    forall s | s in order ensures PrintsRightly(m[s], show, parse, kept) {
      LineRoundTrip(m[s], ids, factors);
    }
    LinesLoad(m, show, parse, kept, order, unique);
    PiecesOfTerminated(Lines(m, show, order), '\n');
    RestoredIffSurviving(Loaded(Lines(m, show, order), parse, unique).value.0, m, factors, order, unique);
  }

  lemma SurvivesIffKept(s: State, factors: FactorText, generated: Color)
    ensures Recolored(Stored(s, factors), generated) == s <==> Survives(s, factors, generated)
  {
  }

  lemma RestoredIffSurviving(
    loaded: StateMap, m: StateMap, factors: FactorText, order: seq<StateID>, unique: nat -> Color)
    requires Enumerates(order, m) && Restores(loaded, m, order, Keeper(factors), unique)
    ensures loaded == m <==> forall i :: 0 <= i < |order| ==> Survives(m[order[i]], factors, unique(i))
  {
    forall i | 0 <= i < |order| ensures loaded[order[i]] == m[order[i]] <==> Survives(m[order[i]], factors, unique(i)) {
      SurvivesIffKept(m[order[i]], factors, unique(i));
    }
    if forall i :: 0 <= i < |order| ==> Survives(m[order[i]], factors, unique(i)) {
      forall s | s in m ensures s in loaded && loaded[s] == m[s] {
        var i :| 0 <= i < |order| && order[i] == s;
      }
      assert loaded.Keys == m.Keys;
    }
  }

  /** A map that holds nothing but a black state is already changed by a save and a load. */
  lemma BlackStateIsRecolored(s: State, ids: IDText, factors: FactorText, unique: nat -> Color)
    requires Printable(s, ids, factors) && s.color == BLACK && unique(0) != BLACK
    ensures
      var text := Terminated(Lines(map[s.id := s], LinePrinter(ids, factors), [s.id]), '\n');
      var loaded := Loaded(Pieces(text, '\n'), LineParser(ids, factors), unique);
      loaded.Some? && s.id in loaded.value.0 && loaded.value.0[s.id].color == unique(0)
  {
    var m, order: seq<StateID> := map[s.id := s], [s.id];
    LoadRestoresSave(m, ids, factors, order, unique);
    assert order[0] == s.id && m[order[0]] == s;
  }
}
