/**
  The keyboard as it is printed: rows of keys by the make code of their first key, with and without shift.  The
  decoder of kernel/keyboard.c is held against these rows, so that a text, struck key by key, is the text that is
  read.
 */
module KeyboardLayout {
  import opened Bytes
  import opened KeyboardSpec

  /** Neighbouring keys: the make code of the first, and what they give without and with shift. */
  datatype Row = Row(first: byte, plain: string, shifted: string)

  const DIGITS: Row := Row(0x02, "1234567890-=", "!@#$%^&*()_+")
  const TOP: Row := Row(0x10, "qwertyuiop[]", "QWERTYUIOP{}")
  const HOME: Row := Row(0x1E, "asdfghjkl;'`", "ASDFGHJKL:\"~")
  const BOTTOM: Row := Row(0x2B, "\\zxcvbnm,./", "|ZXCVBNM<>?")
  const SPACE: Row := Row(0x39, " ", " ")

  predicate RowOk(r: Row) {
    |r.plain| == |r.shifted| && r.first + |r.plain| <= TABLE
  }

  /** The decoder gives what is printed on the keys of the row. */
  predicate AsPrinted(r: Row)
    requires RowOk(r)
  {
    forall i :: 0 <= i < |r.plain| ==>
      Translate(false, r.first + i) == r.plain[i] && Translate(true, r.first + i) == r.shifted[i]
  }

  lemma RowSlices(r: Row)
    requires RowOk(r)
    ensures |PLAIN| == TABLE && |SHIFTED| == TABLE
    ensures PLAIN[r.first..r.first + |r.plain|] == r.plain && SHIFTED[r.first..r.first + |r.plain|] == r.shifted ==>
              AsPrinted(r)
  {
    hide PLAIN, SHIFTED;
    TableSizes();
    if PLAIN[r.first..r.first + |r.plain|] == r.plain && SHIFTED[r.first..r.first + |r.plain|] == r.shifted {
      forall i | 0 <= i < |r.plain|
        ensures Translate(false, r.first + i) == r.plain[i] && Translate(true, r.first + i) == r.shifted[i]
      {
        assert PLAIN[r.first + i] == PLAIN[r.first..r.first + |r.plain|][i];
        assert SHIFTED[r.first + i] == SHIFTED[r.first..r.first + |r.plain|][i];
      }
    }
  }

  /** A table, as ten pieces one after the other, has its five rows where the lengths put them. */
  lemma Pieces(none: string, digits: string, edit: string, top: string, enter: string, home: string, lshift: string,
               bottom: string, pad: string, space: string)
    ensures var s := none + digits + edit + top + enter + home + lshift + bottom + pad + space;
            var a := |none|;
            var b := a + |digits| + |edit|;
            var c := b + |top| + |enter|;
            var d := c + |home| + |lshift|;
            var e := d + |bottom| + |pad|;
            && s[a..a + |digits|] == digits && s[b..b + |top|] == top && s[c..c + |home|] == home
            && s[d..d + |bottom|] == bottom && s[e..e + |space|] == space
  {
  }

  lemma TableRows()
    ensures |PLAIN| == 58 && |SHIFTED| == 58
    ensures PLAIN[0x02..0x0E] == DIGITS.plain && PLAIN[0x10..0x1C] == TOP.plain && PLAIN[0x1E..0x2A] == HOME.plain
    ensures PLAIN[0x2B..0x36] == BOTTOM.plain && PLAIN[0x39..0x3A] == SPACE.plain
    ensures SHIFTED[0x02..0x0E] == DIGITS.shifted && SHIFTED[0x10..0x1C] == TOP.shifted
    ensures SHIFTED[0x1E..0x2A] == HOME.shifted && SHIFTED[0x2B..0x36] == BOTTOM.shifted
    ensures SHIFTED[0x39..0x3A] == SPACE.shifted
  {
    Pieces("\0\0", DIGITS.plain, "\U{8}\t", TOP.plain, "\n\0", HOME.plain, "\0", BOTTOM.plain, "\0*\0", SPACE.plain);
    Pieces("\0\0", DIGITS.shifted, "\U{8}\t", TOP.shifted, "\n\0", HOME.shifted, "\0", BOTTOM.shifted, "\0*\0",
           SPACE.shifted);
  }

  lemma AllPrinted()
    ensures RowOk(DIGITS) && AsPrinted(DIGITS) && RowOk(TOP) && AsPrinted(TOP) && RowOk(HOME) && AsPrinted(HOME)
    ensures RowOk(BOTTOM) && AsPrinted(BOTTOM) && RowOk(SPACE) && AsPrinted(SPACE)
  {
    hide AsPrinted;
    TableRows();
    RowSlices(DIGITS);
    RowSlices(TOP);
    RowSlices(HOME);
    RowSlices(BOTTOM);
    RowSlices(SPACE);
  }

  // ---------------------------------------------------------------- laws of the characters

  predicate Small(c: char) {
    'a' <= c <= 'z'
  }

  function Capital(c: char): char
    requires Small(c)
  {
    (c as int - 32) as char
  }

  /** On a row, a small letter without shift is the capital of that letter with it. */
  predicate Cased(r: Row)
    requires RowOk(r)
  {
    forall i :: 0 <= i < |r.plain| && Small(r.plain[i]) ==> r.shifted[i] == Capital(r.plain[i])
  }

  lemma RowsCased()
    ensures RowOk(TOP) && RowOk(HOME) && RowOk(BOTTOM) && Cased(TOP) && Cased(HOME) && Cased(BOTTOM)
  {
  }

  predicate On(r: Row, code: byte) {
    r.first <= code < r.first + |r.plain|
  }

  predicate OnSome(code: byte) {
    On(DIGITS, code) || On(TOP, code) || On(HOME, code) || On(BOTTOM, code) || On(SPACE, code)
  }

  lemma RowKey(r: Row, code: byte, shift: bool)
    requires RowOk(r) && AsPrinted(r) && On(r, code)
    ensures Translate(shift, code) == if shift then r.shifted[code - r.first] else r.plain[code - r.first]
  {
    hide Translate;
    assert Translate(false, r.first + (code - r.first)) == r.plain[code - r.first];
  }

  /** What the keys between the rows give, with or without shift. */
  function Between(code: byte): char {
    match code
    case 0x0E => '\U{8}'
    case 0x0F => '\t'
    case 0x1C => '\n'
    case 0x37 => '*'
    case _ => '\0'
  }

  lemma OtherKeys(code: byte, shift: bool)
    requires !OnSome(code)
    ensures Translate(shift, code) == Between(code)
  {
    TableSizes();
    if code < TABLE {
      assert code in {0, 1, 0x0E, 0x0F, 0x1C, 0x1D, 0x2A, 0x36, 0x37, 0x38};
    }
  }

  /** The key of a letter gives the letter without shift and its capital with it. */
  lemma LetterKeys(code: byte)
    requires Small(Translate(false, code))
    ensures Translate(true, code) == Capital(Translate(false, code))
  {
    hide Translate, AsPrinted;
    AllPrinted();
    if !OnSome(code) {
      OtherKeys(code, false);
    } else if On(TOP, code) {
      LetterOn(TOP, code);
    } else if On(HOME, code) {
      LetterOn(HOME, code);
    } else if On(BOTTOM, code) {
      LetterOn(BOTTOM, code);
    } else if On(DIGITS, code) {
      LetterOn(DIGITS, code);
    } else {
      LetterOn(SPACE, code);
    }
  }

  lemma LetterOn(r: Row, code: byte)
    requires RowOk(r) && AsPrinted(r) && On(r, code) && r in [DIGITS, TOP, HOME, BOTTOM, SPACE]
    ensures Small(Translate(false, code)) ==> Translate(true, code) == Capital(Translate(false, code))
  {
    hide Translate, AsPrinted;
    RowsCased();
    RowKey(r, code, false);
    RowKey(r, code, true);
  }

  // ---------------------------------------------------------------- from a text to its keys

  function Find(s: string, c: char): (i: nat)
    requires c in s
    ensures i < |s| && s[i] == c
  {
    if s[0] == c then 0 else 1 + Find(s[1..], c)
  }

  /** Characters the keyboard can produce: the printable ones, and the three keys that edit. */
  predicate Typable(c: char) {
    ' ' <= c <= '~' || c == '\n' || c == '\t' || c == '\U{8}'
  }

  predicate Prints(r: Row, c: char) {
    c in r.plain || c in r.shifted
  }

  function KeyOn(r: Row, c: char): Key
    requires RowOk(r) && Prints(r, c)
  {
    if c in r.plain then Letter(r.first + Find(r.plain, c), false) else Letter(r.first + Find(r.shifted, c), true)
  }

  /** Every printable character is printed on some row. */
  lemma Covered(c: char)
    requires ' ' <= c <= '~'
    ensures Prints(DIGITS, c) || Prints(TOP, c) || Prints(HOME, c) || Prints(BOTTOM, c) || Prints(SPACE, c)
  {
  }

  /** The key a typist strikes for a character, going by what is printed. */
  function KeyFor(c: char): Key
    requires Typable(c)
  {
    if c == '\U{8}' then Letter(0x0E, false)
    else if c == '\t' then Letter(0x0F, false)
    else if c == '\n' then Letter(0x1C, false)
    else
      Covered(c);
      if Prints(DIGITS, c) then KeyOn(DIGITS, c)
      else if Prints(TOP, c) then KeyOn(TOP, c)
      else if Prints(HOME, c) then KeyOn(HOME, c)
      else if Prints(BOTTOM, c) then KeyOn(BOTTOM, c)
      else KeyOn(SPACE, c)
  }

  lemma KeyOnStrikes(r: Row, c: char)
    requires RowOk(r) && AsPrinted(r) && Prints(r, c)
    ensures KeyOn(r, c).Letter? && Char(KeyOn(r, c)) == c && On(r, KeyOn(r, c).code)
  {
    hide Translate, AsPrinted;
    RowKey(r, KeyOn(r, c).code, KeyOn(r, c).shift);
  }

  /** Every typable character is struck by some key. */
  lemma KeyForStrikes(c: char)
    requires Typable(c)
    ensures IsKey(KeyFor(c)) && Char(KeyFor(c)) == c
  {
    hide Translate, AsPrinted, KeyOn, RowOk;
    AllPrinted();
    TableBounds();
    if c == '\U{8}' || c == '\t' || c == '\n' {
      OtherKeys(KeyFor(c).code, false);
    } else {
      Covered(c);
      if Prints(DIGITS, c) {
        KeyOnStrikes(DIGITS, c);
      } else if Prints(TOP, c) {
        KeyOnStrikes(TOP, c);
      } else if Prints(HOME, c) {
        KeyOnStrikes(HOME, c);
      } else if Prints(BOTTOM, c) {
        KeyOnStrikes(BOTTOM, c);
      } else {
        KeyOnStrikes(SPACE, c);
      }
    }
  }

  /** No row reaches past the tables. */
  lemma TableBounds()
    ensures forall code: byte :: OnSome(code) ==> code < TABLE
  {
  }

  function KeysFor(text: string): (ks: seq<Key>)
    requires forall i :: 0 <= i < |text| ==> Typable(text[i])
    ensures |ks| == |text| && forall i :: 0 <= i < |ks| ==> ks[i] == KeyFor(text[i])
  {
    seq(|text|, i requires 0 <= i < |text| => KeyFor(text[i]))
  }

  lemma {:induction false} KeysForStrike(text: string)
    requires forall i :: 0 <= i < |text| ==> Typable(text[i])
    ensures forall i :: 0 <= i < |text| ==> IsKey(KeysFor(text)[i])
    ensures Chars(KeysFor(text)) == text
    decreases |text|
  {
    hide KeyFor, Char, IsKey, Typable;
    if text != [] {
      KeyForStrikes(text[0]);
      KeysForStrike(text[1..]);
      assert KeysFor(text)[1..] == KeysFor(text[1..]);
    }
  }

  /** What a keyboard sends while a text is typed, one key after the other, with the left or the right shift key. */
  function Typing(text: string, shiftKey: byte): seq<byte>
    requires shiftKey == 0x2A || shiftKey == 0x36
    requires forall i :: 0 <= i < |text| ==> Typable(text[i])
  {
    KeysForStrike(text);
    StrikeAll(KeysFor(text), shiftKey)
  }

  /**
    A text is typed, with the consumer reading at any moments of its own.  What it has read and what still waits is the
    text, if no character arrives while 63 are waiting.
   */
  lemma TextIsRead(es: seq<Event>, text: string, shiftKey: byte)
    requires shiftKey == 0x2A || shiftKey == 0x36
    requires forall i :: 0 <= i < |text| ==> Typable(text[i])
    requires Inv(START) && Codes(es) == Typing(text, shiftKey) && !EverFull(START, es)
    ensures ReturnedIn(START, es) + Pending(Run(START, es)) == text
  {
    hide Run, ReturnedIn, EverFull, StrikeAll, Codes, KeysFor, IsKey, Inv, Typable;
    KeysForStrike(text);
    TypedIsRead(es, KeysFor(text), shiftKey);
  }

  // ---------------------------------------------------------------- no character on two keys

  // The rows have 95 places for the 95 printable characters, and none of these is missing: so none is there twice.

  predicate Distinct(s: string) {
    forall i, j :: 0 <= i < j < |s| ==> s[i] != s[j]
  }

  ghost function CharsOf(s: string): set<char> {
    set i | 0 <= i < |s| :: s[i]
  }

  lemma {:induction false} FewerChars(s: string)
    ensures |CharsOf(s)| <= |s|
    ensures |CharsOf(s)| == |s| ==> Distinct(s)
  {
    if s != [] {
      var t, c := s[..|s| - 1], s[|s| - 1];
      FewerChars(t);
      assert s == t + [c];
      assert CharsOf(s) == CharsOf(t) + {c};
      if c in CharsOf(t) {
        assert CharsOf(s) == CharsOf(t);
      }
    }
  }

  ghost function PrintableUpTo(n: int): (cs: set<char>)
    requires 31 <= n <= 126
    ensures |cs| == n - 31 && forall c: char :: c in cs <==> 32 <= c as int <= n
  {
    if n == 31 then {} else PrintableUpTo(n - 1) + {n as char}
  }

  function AllRows(): (s: string)
    ensures |s| == 95
  {
    DIGITS.plain + DIGITS.shifted + TOP.plain + TOP.shifted + HOME.plain + HOME.shifted
    + BOTTOM.plain + BOTTOM.shifted + SPACE.plain
  }

  /** Where in AllRows the character of a key is. */
  function Place(code: byte, shift: bool): (i: nat)
    requires OnSome(code)
    ensures i < 95
  {
    if On(DIGITS, code) then code - 0x02 + if shift then 12 else 0
    else if On(TOP, code) then 24 + code - 0x10 + if shift then 12 else 0
    else if On(HOME, code) then 48 + code - 0x1E + if shift then 12 else 0
    else if On(BOTTOM, code) then 72 + code - 0x2B + if shift then 11 else 0
    else 94
  }

  lemma DigitsPlace(i: nat)
    requires i < |DIGITS.plain|
    ensures AllRows()[0 + i] == DIGITS.plain[i] && AllRows()[0 + |DIGITS.plain| + i] == DIGITS.shifted[i]
  {
  }

  lemma TopPlace(i: nat)
    requires i < |TOP.plain|
    ensures AllRows()[24 + i] == TOP.plain[i] && AllRows()[24 + |TOP.plain| + i] == TOP.shifted[i]
  {
  }

  lemma HomePlace(i: nat)
    requires i < |HOME.plain|
    ensures AllRows()[48 + i] == HOME.plain[i] && AllRows()[48 + |HOME.plain| + i] == HOME.shifted[i]
  {
  }

  lemma BottomPlace(i: nat)
    requires i < |BOTTOM.plain|
    ensures AllRows()[72 + i] == BOTTOM.plain[i] && AllRows()[72 + |BOTTOM.plain| + i] == BOTTOM.shifted[i]
  {
  }

  lemma PlaceHolds(code: byte, shift: bool)
    requires OnSome(code)
    ensures AllRows()[Place(code, shift)] == Translate(shift, code)
  {
    hide Translate, AsPrinted;
    AllPrinted();
    if On(DIGITS, code) {
      hide AllRows;
      DigitsPlace(code - 0x02);
      RowKey(DIGITS, code, shift);
    } else if On(TOP, code) {
      hide AllRows;
      TopPlace(code - 0x10);
      RowKey(TOP, code, shift);
    } else if On(HOME, code) {
      hide AllRows;
      HomePlace(code - 0x1E);
      RowKey(HOME, code, shift);
    } else if On(BOTTOM, code) {
      hide AllRows;
      BottomPlace(code - 0x2B);
      RowKey(BOTTOM, code, shift);
    } else {
      RowKey(SPACE, code, shift);
    }
  }

  lemma RowsDistinct()
    ensures Distinct(AllRows())
  {
    hide Distinct;
    var all := AllRows();
    FewerChars(all);
    forall c | c in PrintableUpTo(126)
      ensures c in CharsOf(all)
    {
      Covered(c);
      assert c in all;
    }
    SubsetSize(PrintableUpTo(126), CharsOf(all));
  }

  lemma SubsetSize(a: set<char>, b: set<char>)
    requires a <= b
    ensures |a| <= |b|
  {
    assert b == a + (b - a);
  }

  /** Two keys give the same printable character only for the star: on 8 with shift, and on the keypad. */
  lemma OneKeyEach(a: byte, s: bool, b: byte, t: bool)
    requires a != b && Translate(s, a) == Translate(t, b) && ' ' <= Translate(s, a) <= '~'
    ensures Translate(s, a) == '*' && ((a == 0x37 && b == 0x09 && t) || (a == 0x09 && s && b == 0x37))
  {
    hide Translate, AllRows;
    RowsDistinct();
    if OnSome(a) && OnSome(b) {
      PlaceHolds(a, s);
      PlaceHolds(b, t);
    } else if OnSome(a) {
      OtherKeys(b, t);
      StarPlace(a, s);
    } else {
      OtherKeys(a, s);
      if OnSome(b) {
        StarPlace(b, t);
      } else {
        OtherKeys(b, t);
      }
    }
  }

  lemma StarPlace(code: byte, shift: bool)
    requires OnSome(code) && Translate(shift, code) == '*'
    ensures code == 0x09 && shift
  {
    hide Translate, AllRows;
    RowsDistinct();
    PlaceHolds(code, shift);
    AllPrinted();
    RowKey(DIGITS, 0x09, true);
    PlaceHolds(0x09, true);
    assert Place(code, shift) == Place(0x09, true);
  }

  /** The digit keys, without shift. */
  lemma DigitKeys(n: nat)
    requires n < 10
    ensures Translate(false, if n == 0 then 0x0B else n + 1) == ('0' as int + n) as char
  {
    hide Translate, AsPrinted;
    AllPrinted();
    RowKey(DIGITS, if n == 0 then 0x0B else n + 1, false);
  }

  // ---------------------------------------------------------------- shift and the arrows

  /**
    Outside an extended code, pressing either shift key sets the mode, releasing either clears it, nothing else
    does.
   */
  lemma ShiftKeys(m: Mode, code: byte)
    requires !m.extended && code != 0xE0
    ensures Decode(m, code).0 ==
            Mode(if code in [0x2A, 0x36] then true else if code in [0xAA, 0xB6] then false else m.shift, false)
    ensures code in [0x2A, 0x36] || code >= 0x80 ==> Decode(m, code).1 == []
  {
  }

  /** An extended code is one of the four arrows or nothing, and leaves shift alone. */
  lemma ArrowKeys(m: Mode, code: byte)
    requires !m.extended
    ensures Decode(m, 0xE0) == (Mode(m.shift, true), [])
    ensures code != 0xE0 ==>
              Decode(Mode(m.shift, true), code) ==
              (m, if code == 0x48 then ['\U{80}'] else if code == 0x50 then ['\U{81}']
                  else if code == 0x4B then ['\U{82}'] else if code == 0x4D then ['\U{83}'] else [])
  {
  }
}
