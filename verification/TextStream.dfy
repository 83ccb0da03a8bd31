/** Reading delimited fields from a string stream, and printing them. */
module TextStream {
  import opened Types
  import Decimal

  // ----- std::getline -----

  /** What is left to read, and the stream's end-of-file and failure bits. */
  datatype Stream = Stream(rest: string, eof: bool, fail: bool)

  function Open(text: string): Stream {
    Stream(text, false, false)
  }

  /** The first position of `c`; the length if there is none. */
  function IndexOf(s: string, c: char): (i: nat)
    ensures i <= |s|
    ensures i < |s| ==> s[i] == c
    ensures c !in s[..i]
  {
    if s == [] then 0 else if s[0] == c then 0
    else
      var i := 1 + IndexOf(s[1..], c);
      assert s[..i] == [s[0]] + s[1..][..i - 1];
      i
  }

  /** Reads up to a delimiter and past it. Reading nothing at all is a failure. */
  function Getline(st: Stream, delim: char): (Stream, Option<string>) {
    if st.eof || st.fail then (st.(fail := true), None)
    else if st.rest == [] then (Stream([], true, true), None)
    else
      var i := IndexOf(st.rest, delim);
      if i < |st.rest| then (Stream(st.rest[i + 1..], false, false), Some(st.rest[..i]))
      else (Stream([], true, false), Some(st.rest))
  }

  /** All that repeated calls of `Getline` read. */
  function Pieces(text: string, delim: char): seq<string> {
    if text == [] then []
    else
      var i := IndexOf(text, delim);
      if i < |text| then [text[..i]] + Pieces(text[i + 1..], delim) else [text]
  }

  // ----- parseValue -----

  /** Telling the position of a stream that is not good makes it fail. */
  function Told(st: Stream): Stream {
    if st.eof then st.(fail := true) else st
  }

  /** Seeking clears the end-of-file bit, and moves only a stream that has not failed. */
  function SoughtBack(st: Stream, orig: Stream): Stream {
    if st.fail then st.(eof := false) else Stream(orig.rest, false, false)
  }

  /**
    The new stream, the value if the destination is written, and success. A
    value that does not parse is not consumed.
   */
  function ParseValue<T>(st: Stream, delim: char, fromString: string -> Option<T>, skipMissing: bool)
    : (Stream, Option<T>, bool)
  {
    var orig := Told(st);
    var (after, piece) := Getline(orig, delim);
    match piece
    case Some(s) =>
      (match fromString(s)
       case Some(v) => (after, Some(v), true)
       case None => (SoughtBack(after, orig), None, skipMissing))
    case None =>
      (match fromString("")
       case Some(v) => (after, Some(v), true)
       case None => (SoughtBack(after, orig), None, skipMissing))
  }

  /** The outcome of one field of `parseValuesSkipMissing`. */
  datatype Parsed<+T> = NoParse | Parsed(stream: Stream, value: T) {
    predicate IsFailure() { NoParse? }

    function PropagateFailure<U>(): Option<U>
      requires NoParse?
    {
      None
    }

    function Extract(): (Stream, T)
      requires Parsed?
    {
      (stream, value)
    }
  }

  /** A field that has to be there. */
  function Field<T>(st: Stream, fromString: string -> Option<T>): Parsed<T> {
    match ParseValue(st, ';', fromString, false)
    case (after, Some(v), true) => Parsed(after, v)
    case _ => NoParse
  }

  /** A field that may be missing; the destination then keeps what it held. */
  function OptionalField<T>(st: Stream, fromString: string -> Option<T>, held: T): Parsed<T> {
    var (after, v, _) := ParseValue(st, ';', fromString, true);
    Parsed(after, match v case Some(x) => x case None => held)
  }

  /** A way of reading one field. */
  type Reader<T> = Stream -> Parsed<T>

  function FieldReader<T>(fromString: string -> Option<T>): Reader<T> {
    (st: Stream) => Field(st, fromString)
  }

  function OptionalReader<T>(fromString: string -> Option<T>, held: T): Reader<T> {
    (st: Stream) => OptionalField(st, fromString, held)
  }

  // ----- fromString -----

  predicate IsSpace(c: char) {
    c == ' ' || c == '\t' || c == '\n' || c == '\r' || c == '\U{0B}' || c == '\U{0C}'
  }

  function SkipSpace(s: string): string {
    if s != [] && IsSpace(s[0]) then SkipSpace(s[1..]) else s
  }

  function DigitPrefix(s: string): (d: string)
    ensures forall c :: c in d ==> Decimal.IsDigit(c)
  {
    if s != [] && Decimal.IsDigit(s[0]) then [s[0]] + DigitPrefix(s[1..]) else []
  }

  /** `std::stoul`: none where it throws. A minus sign negates modulo 2^64. */
  function Stoul(s: string): Option<nat> {
    var t := SkipSpace(s);
    var signed := t != [] && (t[0] == '-' || t[0] == '+');
    var digits := DigitPrefix(if signed then t[1..] else t);
    if digits == [] then None
    else
      var v := Decimal.ValueOf(digits);
      if v >= 0x1_0000_0000_0000_0000 then None
      else if signed && t[0] == '-' && v != 0 then Some(0x1_0000_0000_0000_0000 - v)
      else Some(v)
  }

  function ToUint8(s: string): Option<uint8> {
    match Stoul(s) case Some(v) => Some((v % 0x100) as uint8) case None => None
  }

  function ToUint32(s: string): Option<uint32> {
    match Stoul(s) case Some(v) => Some((v % 0x1_0000_0000) as uint32) case None => None
  }

  function ToBool(s: string): Option<bool> {
    if s == "true" || s == "1" then Some(true)
    else if s == "false" || s == "0" then Some(false)
    else None
  }

  function ToProvinceType(s: string): Option<ProvinceType> {
    Some(if s == "land" then Land else if s == "sea" then Sea else if s == "lake" then Lake else Unknown)
  }

  function PrintProvinceType(t: ProvinceType): string {
    match t
    case Land => "land"
    case Sea => "sea"
    case Lake => "lake"
    case Unknown => "UNKNOWN{0}"
  }

  // ----- Round trips -----

  lemma {:induction false} DigitsAreTheirPrefix(s: string)
    requires forall c :: c in s ==> Decimal.IsDigit(c)
    ensures DigitPrefix(s) == s
  {
    if s != [] { DigitsAreTheirPrefix(s[1..]); }
  }

  lemma StoulOfPrint(n: nat)
    requires n < 0x1_0000_0000_0000_0000
    ensures Stoul(Decimal.Print(n)) == Some(n)
  {
    var s := Decimal.Print(n);
    assert Decimal.IsDigit(s[0]);
    DigitsAreTheirPrefix(s);
    Decimal.ValueOfPrint(n);
  }

  lemma Uint8OfPrint(n: nat)
    requires n < 0x100
    ensures ToUint8(Decimal.Print(n)) == Some(n as uint8)
  {
    StoulOfPrint(n);
  }

  lemma Uint32OfPrint(n: nat)
    requires n < 0x1_0000_0000
    ensures ToUint32(Decimal.Print(n)) == Some(n as uint32)
  {
    StoulOfPrint(n);
  }

  /** Free of the separators of fields and lines. */
  predicate Plain(s: string) {
    ';' !in s && '\n' !in s
  }

  lemma PrintIsPlain(n: nat)
    ensures Plain(Decimal.Print(n))
  {
    assert forall c :: c in Decimal.Print(n) ==> Decimal.IsDigit(c);
  }

  /** Fields separated by semicolons. */
  function Joined(fields: seq<string>): string {
    if fields == [] then []
    else if |fields| == 1 then fields[0]
    else fields[0] + [';'] + Joined(fields[1..])
  }

  lemma {:induction false} IndexOfDelimiter(s: string, c: char, tail: string)
    requires c !in s
    ensures IndexOf(s + [c] + tail, c) == |s|
    ensures IndexOf(s, c) == |s|
  {
    if s == [] {
      assert s + [c] + tail == [c] + tail;
    } else {
      assert (s + [c] + tail)[1..] == s[1..] + [c] + tail;
      IndexOfDelimiter(s[1..], c, tail);
    }
  }

  /** A printed field is read back, and the stream stands at the next one. */
  lemma FieldRoundTrip<T>(fields: seq<string>, k: nat, fromString: string -> Option<T>, v: T, skip: bool)
    requires k + 1 < |fields| && ';' !in fields[k] && fromString(fields[k]) == Some(v)
    ensures ParseValue(Open(Joined(fields[k..])), ';', fromString, skip) == (Open(Joined(fields[k + 1..])), Some(v), true)
  {
    var text, tail := Joined(fields[k..]), Joined(fields[k + 1..]);
    assert fields[k..][1..] == fields[k + 1..];
    assert text == fields[k] + [';'] + tail;
    IndexOfDelimiter(fields[k], ';', tail);
    assert text[..|fields[k]|] == fields[k] && text[|fields[k]| + 1..] == tail;
  }

  /** The stream stands at a field of a printed line. */
  ghost predicate StandsAt(st: Stream, fields: seq<string>, k: nat)
    requires k < |fields|
  {
    st == Open(Joined(fields[k..]))
  }

  /** The streams that stand at the fields of a printed line. */
  ghost predicate Positions(at: seq<Stream>, fields: seq<string>) {
    |at| == |fields| && forall k {:trigger StandsAt(at[k], fields, k)} :: 0 <= k < |fields| ==> StandsAt(at[k], fields, k)
  }

  lemma LineHasPositions(fields: seq<string>) returns (at: seq<Stream>)
    requires fields != []
    ensures Positions(at, fields) && at[0] == Open(Joined(fields))
  {
    at := seq(|fields|, k requires 0 <= k < |fields| => Open(Joined(fields[k..])));
    assert fields[0..] == fields;
  }

  /** Field `k` is followed by another one, and `fromString` reads it as `v`. */
  ghost predicate Readable<T>(fields: seq<string>, at: seq<Stream>, k: nat, fromString: string -> Option<T>, v: T) {
    && Positions(at, fields) && k + 1 < |fields|
    && ';' !in fields[k] && fromString(fields[k]) == Some(v)
  }

  /** The reader takes one readable field from the stream. */
  ghost predicate Takes<T(!new)>(read: Reader<T>, fromString: string -> Option<T>) {
    forall fields, at, k, v {:trigger Readable(fields, at, k, fromString, v)} ::
      Readable(fields, at, k, fromString, v) ==> read(at[k]) == Parsed(at[k + 1], v)
  }

  lemma FieldReaderTakes<T(!new)>(fromString: string -> Option<T>)
    ensures Takes(FieldReader(fromString), fromString)
  {
    forall fields, at, k: nat, v | Readable(fields, at, k, fromString, v)
      ensures FieldReader(fromString)(at[k]) == Parsed(at[k + 1], v)
    {
      assert StandsAt(at[k], fields, k) && StandsAt(at[k + 1], fields, k + 1);
      FieldRoundTrip(fields, k, fromString, v, false);
    }
  }

  lemma OptionalReaderTakes<T(!new)>(fromString: string -> Option<T>, held: T)
    ensures Takes(OptionalReader(fromString, held), fromString)
  {
    forall fields, at, k: nat, v | Readable(fields, at, k, fromString, v)
      ensures OptionalReader(fromString, held)(at[k]) == Parsed(at[k + 1], v)
    {
      assert StandsAt(at[k], fields, k) && StandsAt(at[k + 1], fields, k + 1);
      FieldRoundTrip(fields, k, fromString, v, true);
    }
  }

  /** The last field of a line, and `fromString` reads it as `v`. */
  ghost predicate LastReadable<T>(fields: seq<string>, at: seq<Stream>, fromString: string -> Option<T>, v: T) {
    && Positions(at, fields) && fields != []
    && ';' !in fields[|fields| - 1] && fromString(fields[|fields| - 1]) == Some(v)
  }

  ghost predicate TakesLast<T(!new)>(read: Reader<T>, fromString: string -> Option<T>) {
    forall fields, at, v {:trigger LastReadable(fields, at, fromString, v)} ::
      LastReadable(fields, at, fromString, v) ==> read(at[|fields| - 1]).Parsed? && read(at[|fields| - 1]).value == v
  }

  lemma OptionalReaderTakesLast<T(!new)>(fromString: string -> Option<T>, held: T)
    ensures TakesLast(OptionalReader(fromString, held), fromString)
  {
    forall fields, at, v | LastReadable(fields, at, fromString, v)
      ensures OptionalReader(fromString, held)(at[|fields| - 1]).Parsed?
      ensures OptionalReader(fromString, held)(at[|fields| - 1]).value == v
    {
      assert StandsAt(at[|fields| - 1], fields, |fields| - 1);
      LastFieldRoundTrip(fields, fromString, v, true);
    }
  }

  lemma LastFieldRoundTrip<T>(fields: seq<string>, fromString: string -> Option<T>, v: T, skip: bool)
    requires fields != [] && ';' !in fields[|fields| - 1] && fromString(fields[|fields| - 1]) == Some(v)
    ensures
      var (_, value, ok) := ParseValue(Open(Joined(fields[|fields| - 1..])), ';', fromString, skip);
      value == Some(v) && ok
  {
    var last := fields[|fields| - 1];
    assert Joined(fields[|fields| - 1..]) == last;
    IndexOfDelimiter(last, ';', []);
  }

  /** Each piece followed by the delimiter. */
  function Terminated(pieces: seq<string>, delim: char): string {
    if pieces == [] then [] else pieces[0] + [delim] + Terminated(pieces[1..], delim)
  }

  lemma {:induction false} PiecesOfTerminated(pieces: seq<string>, delim: char)
    requires forall i :: 0 <= i < |pieces| ==> delim !in pieces[i]
    ensures Pieces(Terminated(pieces, delim), delim) == pieces
  {
    if pieces != [] {
      var tail := Terminated(pieces[1..], delim);
      var text := Terminated(pieces, delim);
      IndexOfDelimiter(pieces[0], delim, tail);
      assert text[..|pieces[0]|] == pieces[0] && text[|pieces[0]| + 1..] == tail;
      PiecesOfTerminated(pieces[1..], delim);
    }
  }

  lemma {:induction false} JoinedAvoids(fields: seq<string>, c: char)
    requires c != ';' && forall i :: 0 <= i < |fields| ==> c !in fields[i]
    ensures c !in Joined(fields)
  {
    if |fields| > 1 { JoinedAvoids(fields[1..], c); }
  }

  /** A stream from which `Getline` will read exactly these pieces. */
  ghost predicate StreamOf(st: Stream, pieces: seq<string>, delim: char) {
    !st.fail && if st.eof then pieces == [] else pieces == Pieces(st.rest, delim)
  }

  lemma GetlineReadsPiece(st: Stream, pieces: seq<string>, delim: char)
    requires StreamOf(st, pieces, delim)
    ensures
      var (after, piece) := Getline(st, delim);
      if pieces == [] then piece == None else piece == Some(pieces[0]) && StreamOf(after, pieces[1..], delim)
  {
  }

  /** One call of `std::getline` on a stream that stands at piece `i`. */
  method ReadPiece(st: Stream, delim: char, ghost pieces: seq<string>, ghost i: nat)
    returns (after: Stream, piece: Option<string>)
    requires i <= |pieces| && StreamOf(st, pieces[i..], delim)
    ensures
      if i == |pieces| then piece == None
      else piece == Some(pieces[i]) && StreamOf(after, pieces[i + 1..], delim)
  {
    GetlineReadsPiece(st, pieces[i..], delim);
    after, piece := Getline(st, delim).0, Getline(st, delim).1;
    assert i < |pieces| ==> pieces[i..][1..] == pieces[i + 1..];
  }

  lemma {:induction false} TerminatedAppend(pieces: seq<string>, last: string, delim: char)
    ensures Terminated(pieces + [last], delim) == Terminated(pieces, delim) + last + [delim]
  {
    if pieces == [] {
      assert Terminated([last], delim) == last + [delim] + [];
    } else {
      assert (pieces + [last])[1..] == pieces[1..] + [last];
      TerminatedAppend(pieces[1..], last, delim);
    }
  }
}
