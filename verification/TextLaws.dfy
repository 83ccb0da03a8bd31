/** What the reading functions make of any text, not only of printed ones. */
module TextLaws {
  import opened Types
  import opened TextStream
  import Decimal

  // ----- Pieces -----

  /** The pieces spell the text: none holds the delimiter, and each but possibly the last was followed by one. */
  lemma {:induction false} PiecesSpellText(text: string, delim: char)
    ensures forall i :: 0 <= i < |Pieces(text, delim)| ==> delim !in Pieces(text, delim)[i]
    ensures Terminated(Pieces(text, delim), delim) == Ended(text, delim)
  {
    if text != [] {
      var i := IndexOf(text, delim);
      if i < |text| {
        PiecesSpellText(text[i + 1..], delim);
        MorePiecesSpell(text, text[..i], text[i + 1..], delim);
      } else {
        LastPieceSpells(text, delim);
      }
    }
  }

  lemma LastPieceSpells(text: string, delim: char)
    requires text != [] && IndexOf(text, delim) == |text|
    ensures Pieces(text, delim) == [text] && delim !in text && Terminated([text], delim) == text + [delim]
    ensures text[|text| - 1] != delim
  {
    assert text[..|text|] == text;
    assert Terminated([text], delim) == text + [delim] + [];
  }

  /** How a text ends if its pieces are all terminated. */
  function Ended(text: string, delim: char): string {
    if text == [] || text[|text| - 1] == delim then text else text + [delim]
  }

  lemma MorePiecesSpell(text: string, first: string, rest: string, delim: char)
    requires text == first + [delim] + rest && delim !in first
    requires forall i :: 0 <= i < |Pieces(rest, delim)| ==> delim !in Pieces(rest, delim)[i]
    requires Terminated(Pieces(rest, delim), delim) == Ended(rest, delim)
    ensures forall i :: 0 <= i < |Pieces(text, delim)| ==> delim !in Pieces(text, delim)[i]
    ensures Terminated(Pieces(text, delim), delim) == Ended(text, delim)
  {
    FirstPieceSpells(text, first, rest, delim);
    EndedBehind(first + [delim], rest, delim);
  }

  lemma EndedBehind(first: string, rest: string, delim: char)
    requires first != [] && first[|first| - 1] == delim
    ensures Ended(first + rest, delim) == first + Ended(rest, delim)
  {
    if rest == [] {
      assert first + rest == first;
    } else {
      assert (first + rest)[|first + rest| - 1] == rest[|rest| - 1];
      assert first + rest + [delim] == first + (rest + [delim]);
    }
  }

  lemma FirstPieceSpells(text: string, first: string, rest: string, delim: char)
    requires text == first + [delim] + rest && delim !in first
    ensures Pieces(text, delim) == [first] + Pieces(rest, delim)
    ensures Terminated(Pieces(text, delim), delim) == first + [delim] + Terminated(Pieces(rest, delim), delim)
  {
    IndexOfDelimiter(first, delim, rest);
    assert text[..|first|] == first && text[|first| + 1..] == rest;
  }

  /** Fields that were joined are found again by cutting at the semicolons, unless the last one is empty. */
  lemma {:induction false} PiecesOfJoined(fields: seq<string>)
    requires fields != [] && fields[|fields| - 1] != []
    requires forall i :: 0 <= i < |fields| ==> ';' !in fields[i]
    ensures Pieces(Joined(fields), ';') == fields
  {
    var text := Joined(fields);
    if |fields| == 1 {
      IndexOfDelimiter(fields[0], ';', []);
      assert fields == [fields[0]];
    } else {
      var tail := Joined(fields[1..]);
      PiecesOfJoined(fields[1..]);
      IndexOfDelimiter(fields[0], ';', tail);
      assert text == fields[0] + [';'] + tail;
      assert text[..|fields[0]|] == fields[0] && text[|fields[0]| + 1..] == tail;
    }
  }

  // ----- Numbers -----

  ghost predicate AllDigits(s: string) {
    forall c :: c in s ==> Decimal.IsDigit(c)
  }

  /** A text that does not go on with digits. */
  ghost predicate NoDigitNext(s: string) {
    s == [] || !Decimal.IsDigit(s[0])
  }

  lemma {:induction false} DigitsOfConcat(digits: string, tail: string)
    requires AllDigits(digits) && NoDigitNext(tail)
    ensures DigitPrefix(digits + tail) == digits
  {
    if digits == [] {
      assert digits + tail == tail;
    } else {
      DigitsOfConcat(digits[1..], tail);
      assert (digits + tail)[1..] == digits[1..] + tail;
    }
  }

  lemma {:induction false} SpacesAreSkipped(spaces: string, rest: string)
    requires (forall c :: c in spaces ==> IsSpace(c)) && (rest == [] || !IsSpace(rest[0]))
    ensures SkipSpace(spaces + rest) == rest
  {
    if spaces == [] {
      assert spaces + rest == rest;
    } else {
      SpacesAreSkipped(spaces[1..], rest);
      assert (spaces + rest)[1..] == spaces[1..] + rest;
    }
  }

  /** The 64-bit number that digits with this sign stand for; none if they stand for too much, or if there are none. */
  function Signed(sign: string, digits: string): Option<nat>
    requires forall c :: c in digits ==> Decimal.IsDigit(c)
  {
    var v := Decimal.ValueOf(digits);
    if digits == [] || v >= 0x1_0000_0000_0000_0000 then None
    else if sign == "-" then Some((0x1_0000_0000_0000_0000 - v) % 0x1_0000_0000_0000_0000)
    else Some(v)
  }

  /** What follows leading space and perhaps a sign: digits, and whatever comes then. */
  lemma UnspacedReads(spaces: string, t: string, sign: string, digits: string, tail: string)
    requires sign in {"", "+", "-"} && AllDigits(digits) && NoDigitNext(tail)
    requires t == sign + (digits + tail) && SkipSpace(spaces + t) == t
    requires sign == "" ==> digits + tail == [] || (digits + tail)[0] !in {'-', '+'}
    ensures Stoul(spaces + t) == Signed(sign, digits)
  {
    DigitsOfConcat(digits, tail);
    if sign == "" {
      assert t == digits + tail;
    } else {
      assert t[0] == sign[0] && t[1..] == digits + tail;
    }
  }

  /** Leading space, one sign, digits; whatever follows is not looked at. A minus sign wraps around. */
  lemma StoulReads(spaces: string, sign: string, digits: string, tail: string)
    requires (forall c :: c in spaces ==> IsSpace(c)) && sign in {"", "+", "-"}
    requires AllDigits(digits) && NoDigitNext(tail)
    requires sign == "" && digits == [] ==> tail == [] || (!IsSpace(tail[0]) && tail[0] != '-' && tail[0] != '+')
    ensures Stoul(spaces + (sign + (digits + tail))) == Signed(sign, digits)
  {
    var t, rest := sign + (digits + tail), digits + tail;
    if digits == [] {
      assert rest == tail;
    } else {
      assert rest[0] == digits[0] && digits[0] in digits;
    }
    if sign == "" { assert t == rest; } else { assert t[0] == sign[0]; }
    SpacesAreSkipped(spaces, t);
    UnspacedReads(spaces, t, sign, digits, tail);
  }

  /** Smaller fields take the number modulo their width. */
  lemma NarrowFieldsWrap(s: string)
    ensures Stoul(s) == None ==> ToUint8(s) == None && ToUint32(s) == None
    ensures Stoul(s).Some? ==>
      && ToUint8(s).Some? && ToUint8(s).value as nat == Stoul(s).value % 256
      && ToUint32(s).Some? && ToUint32(s).value as nat == Stoul(s).value % 0x1_0000_0000
  {
  }

  // ----- Words -----

  /** Flags are the two words and the two digits, and nothing else. */
  lemma FlagIsRead(s: string)
    ensures ToBool(s) == Some(true) <==> s == "true" || s == "1"
    ensures ToBool(s) == Some(false) <==> s == "false" || s == "0"
  {
  }

  /** Every word is some type: the three known ones, and unknown for all others. */
  lemma TypeIsRead(s: string)
    ensures ToProvinceType(s) == Some(Land) <==> s == "land"
    ensures ToProvinceType(s) == Some(Sea) <==> s == "sea"
    ensures ToProvinceType(s) == Some(Lake) <==> s == "lake"
    ensures ToProvinceType(s).Some?
  {
  }

  // ----- Fields -----

  /** There is nothing to read any more. */
  ghost predicate Exhausted(st: Stream) {
    st.eof || st.fail || st.rest == []
  }

  /** A missing field is read like an empty one: an optional one keeps what it held if that cannot be read. */
  lemma MissingField<T>(st: Stream, fromString: string -> Option<T>, held: T)
    requires Exhausted(st)
    ensures fromString("") == None ==> Field(st, fromString) == NoParse
    ensures
      var r := OptionalField(st, fromString, held);
      && r.Parsed? && Exhausted(r.stream)
      && r.value == match fromString("") case Some(v) => v case None => held
  {
  }

  /** An optional field that cannot be read is not consumed: the next field is read from the same place. */
  lemma UnreadableField<T>(text: string, fromString: string -> Option<T>, held: T)
    requires text != [] && fromString(text[..IndexOf(text, ';')]) == None
    ensures Field(Open(text), fromString) == NoParse
    ensures OptionalField(Open(text), fromString, held) == Parsed(Open(text), held)
  {
    if IndexOf(text, ';') == |text| { assert text[..|text|] == text; }
  }
}
