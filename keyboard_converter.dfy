/**
 * The keyboard-layout converter: re-reads a string typed on the Latin
 * (QWERTY) layout as if it had been typed on the Russian (JCUKEN) layout,
 * and leaves it untouched as soon as one character has no key in the table.
 */
module KeyboardConverter {
  import opened Text

  /** The top letter row of the Latin layout and the Russian letters on the same keys. */
  const TopRow: map<char, char> := map[
    'q' := 'й', 'w' := 'ц', 'e' := 'у', 'r' := 'к', 't' := 'е', 'y' := 'н',
    'u' := 'г', 'i' := 'ш', 'o' := 'щ', 'p' := 'з', '[' := 'х', ']' := 'ъ']

  /** The home row. */
  const HomeRow: map<char, char> := map[
    'a' := 'ф', 's' := 'ы', 'd' := 'в', 'f' := 'а', 'g' := 'п', 'h' := 'р',
    'j' := 'о', 'k' := 'л', 'l' := 'д', ';' := 'ж', '\'' := 'э']

  /** The bottom row. */
  const BottomRow: map<char, char> := map[
    'z' := 'я', 'x' := 'ч', 'c' := 'с', 'v' := 'м', 'b' := 'и', 'n' := 'т',
    'm' := 'ь', ',' := 'б', '.' := 'ю']

  /** The shifted punctuation keys, and the space bar. */
  const ShiftedAndSpace: map<char, char> := map[
    '{' := 'х', '}' := 'ъ', ':' := 'ж', '"' := 'э', '<' := 'б', '>' := 'ю', ' ' := ' ']

  /** The table built by getKeyboard: a Latin-layout key to the character on the same key of the Russian layout. */
  const Keyboard: map<char, char> := TopRow + HomeRow + BottomRow + ShiftedAndSpace

  predicate CyrillicOrSpace(c: char) {
    c == ' ' || IsCyrillic(c)
  }

  /** Every key of `row` is an ASCII character and every value a Cyrillic letter or the space. */
  predicate LatinToCyrillic(row: map<char, char>) {
    forall k :: k in row ==> k < 128 as char && CyrillicOrSpace(row[k])
  }

  lemma TopRowIsLatinToCyrillic()
    ensures LatinToCyrillic(TopRow)
  {
    assert LatinToCyrillic(TopRow);
  }

  lemma HomeRowIsLatinToCyrillic()
    ensures LatinToCyrillic(HomeRow)
  {
    assert LatinToCyrillic(HomeRow);
  }

  lemma BottomRowIsLatinToCyrillic()
    ensures LatinToCyrillic(BottomRow)
  {
    assert LatinToCyrillic(BottomRow);
  }

  lemma ShiftedAndSpaceIsLatinToCyrillic()
    ensures LatinToCyrillic(ShiftedAndSpace)
  {
    assert LatinToCyrillic(ShiftedAndSpace);
  }

  /**
   * Every key of the table is an ASCII character; every value is a Cyrillic
   * letter or the space, and space is the only value that is also a key.
   */
  lemma KeyboardIsLatinToCyrillic()
    ensures forall k :: k in Keyboard ==> k < 128 as char && CyrillicOrSpace(Keyboard[k])
    ensures ' ' in Keyboard && Keyboard[' '] == ' '
  {
    TopRowIsLatinToCyrillic();
    HomeRowIsLatinToCyrillic();
    BottomRowIsLatinToCyrillic();
    ShiftedAndSpaceIsLatinToCyrillic();
  }

  /** Every character of `s`, lower-cased, has a key in the table. */
  predicate AllKeys(s: string) {
    forall i :: 0 <= i < |s| ==> Lower(s[i]) in Keyboard
  }

  /** What `convert` returns: the whole string translated key by key, or the string itself. */
  function Converted(s: string): (r: string)
    ensures |r| == |s|
  {
    if AllKeys(s) then seq(|s|, i requires 0 <= i < |s| => Keyboard[Lower(s[i])]) else s
  }

  /** KeyboardConverter.convert: fills a result array and returns the input at the first character without a key. */
  method Convert(s: string) returns (r: string)
    ensures r == Converted(s)
  {
    var result := new char[|s|];
    for i := 0 to |s|
      invariant forall j :: 0 <= j < i ==> Lower(s[j]) in Keyboard && result[j] == Keyboard[Lower(s[j])]
    {
      var letter := Lower(s[i]);
      if letter in Keyboard {
        result[i] := Keyboard[letter];
      } else {
        return s;
      }
    }
    r := result[..];
  }

  /** Fully convertible strings are translated position by position. */
  lemma ConvertedTranslates(s: string)
    requires AllKeys(s)
    ensures forall i :: 0 <= i < |s| ==> Converted(s)[i] == Keyboard[Lower(s[i])]
  {
  }

  /** A single character without a key leaves the whole string, case included, unchanged. */
  lemma NoPartialConversion(s: string, i: int)
    requires 0 <= i < |s| && Lower(s[i]) !in Keyboard
    ensures Converted(s) == s
  {
  }

  /** A string that already holds a Cyrillic letter is returned unchanged. */
  lemma RussianLayoutUnchanged(s: string, i: int)
    requires 0 <= i < |s| && IsCyrillic(s[i])
    ensures Converted(s) == s
  {
    KeyboardIsLatinToCyrillic();
  }

  /** Upper- and lower-case Latin letters convert alike: lookup uses the lower-cased character. */
  lemma CaseInsensitive(s: string)
    ensures AllKeys(s) <==> AllKeys(LowerStr(s))
    ensures AllKeys(s) ==> Converted(s) == Converted(LowerStr(s))
  {
    forall i | 0 <= i < |s| ensures Lower(LowerStr(s)[i]) == Lower(s[i]) {
      LowerIdempotent(s[i]);
    }
  }

  lemma AllKeysConcat(a: string, b: string)
    ensures AllKeys(a + b) <==> AllKeys(a) && AllKeys(b)
  {
    assert forall i :: 0 <= i < |a| ==> (a + b)[i] == a[i];
    assert forall i :: 0 <= i < |b| ==> (a + b)[|a| + i] == b[i];
  }

  /** Two fully convertible strings convert independently of each other. */
  lemma ConvertedConcat(a: string, b: string)
    requires AllKeys(a) && AllKeys(b)
    ensures Converted(a + b) == Converted(a) + Converted(b)
  {
    AllKeysConcat(a, b);
    var s := a + b;
    forall i | 0 <= i < |s| ensures Converted(s)[i] == (Converted(a) + Converted(b))[i] {
      if i < |a| {
        assert s[i] == a[i];
      } else {
        assert s[i] == b[i - |a|];
      }
    }
  }

  /** Space is a key mapped to itself, so words separated by a space convert one by one, or not at all. */
  lemma WordByWord(a: string, b: string)
    ensures Converted(a + " " + b) ==
      if AllKeys(a) && AllKeys(b) then Converted(a) + " " + Converted(b) else a + " " + b
  {
    KeyboardIsLatinToCyrillic();
    assert AllKeys(" ") && Converted(" ") == " ";
    AllKeysConcat(a, " ");
    AllKeysConcat(a + " ", b);
    if AllKeys(a) && AllKeys(b) {
      ConvertedConcat(a, " ");
      ConvertedConcat(a + " ", b);
    }
  }

  /** A string whose lower-cased characters all look up the characters of `t` converts to `t`. */
  lemma ConvertsTo(s: string, t: string)
    requires |s| == |t|
    requires forall i :: 0 <= i < |s| ==> Lower(s[i]) in Keyboard && Keyboard[Lower(s[i])] == t[i]
    ensures Converted(s) == t
  {
  }

  /** Converting twice is converting once: a converted string is either all spaces or holds a Russian letter. */
  lemma Idempotent(s: string)
    ensures Converted(Converted(s)) == Converted(s)
  {
    var r := Converted(s);
    if AllKeys(s) {
      KeyboardIsLatinToCyrillic();
      if i :| 0 <= i < |r| && r[i] != ' ' {
        assert CyrillicOrSpace(r[i]);
        RussianLayoutUnchanged(r, i);
      } else {
        assert Lower(' ') == ' ';
        forall i | 0 <= i < |r| ensures Lower(r[i]) in Keyboard && Keyboard[Lower(r[i])] == r[i] {
          assert r[i] == ' ';
        }
        ConvertsTo(r, r);
      }
    }
  }

  lemma EmptyConvertsToEmpty()
    ensures Converted("") == ""
  {
  }

  /** Both `v` and `V` look up `м`. */
  lemma KeyV()
    ensures 'v' in Keyboard && Keyboard['v'] == 'м'
    ensures Lower('V') in Keyboard && Keyboard[Lower('V')] == 'м'
  {
    assert 'v' in BottomRow && BottomRow['v'] == 'м' && 'v' !in ShiftedAndSpace;
  }

  lemma KeyF()
    ensures 'f' in Keyboard && Keyboard['f'] == 'а'
  {
    assert 'f' in HomeRow && HomeRow['f'] == 'а' && 'f' !in BottomRow && 'f' !in ShiftedAndSpace;
  }

  lemma KeyI()
    ensures 'i' in Keyboard && Keyboard['i'] == 'ш'
  {
    assert 'i' in TopRow && TopRow['i'] == 'ш' && 'i' !in HomeRow && 'i' !in BottomRow && 'i' !in ShiftedAndSpace;
  }

  lemma DigitOneIsNoKey()
    ensures '1' !in Keyboard
  {
    assert '1' !in TopRow && '1' !in HomeRow && '1' !in BottomRow && '1' !in ShiftedAndSpace;
  }

  /** "Vfif" typed on the Latin layout is "маша" on the Russian one. */
  lemma ConvertsName()
    ensures Converted("Vfif") == "маша"
  {
    KeyV();
    KeyF();
    KeyI();
    var s, t := "Vfif", "маша";
    forall i | 0 <= i < |s| ensures Lower(s[i]) in Keyboard && Keyboard[Lower(s[i])] == t[i] {
      if i == 0 {
        assert Lower(s[i]) == 'v';
      } else if i == 1 || i == 3 {
        assert Lower(s[i]) == 'f';
      } else {
        assert Lower(s[i]) == 'i';
      }
    }
    ConvertsTo(s, t);
  }

  /** The Kelvin sign lower-cases to `k`, so on its own it converts to `л`. */
  lemma KelvinSignConverts()
    ensures Converted("\U{212A}") == "л"
  {
    assert 'k' in HomeRow && HomeRow['k'] == 'л' && 'k' !in BottomRow && 'k' !in ShiftedAndSpace;
    var s := "\U{212A}";
    assert Lower(s[0]) == 'k';
    ConvertsTo(s, "л");
  }

  /** With a digit appended, nothing is converted. */
  lemma DigitBlocksConversion()
    ensures Converted("Vfif1") == "Vfif1"
  {
    DigitOneIsNoKey();
    assert Lower("Vfif1"[4]) == '1';
    NoPartialConversion("Vfif1", 4);
  }
}
