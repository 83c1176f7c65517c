/**
 The text form of enchantments, "name(level) " pieces, and its parser: split at white space, cut at the first
 parentheses, keep what holds an 8-bit number.
*/
module EnchantText {
  import opened Common

  datatype Piece = Piece(name: string, level: U8)

  /** The White_Space property of Unicode. */
  predicate IsSpace(c: char) {
    var n := c as int;
    9 <= n <= 13 || n in {0x20, 0x85, 0xA0, 0x1680, 0x2028, 0x2029, 0x202F, 0x205F, 0x3000} || 0x2000 <= n <= 0x200A
  }

  predicate IsDigit(c: char) {
    '0' <= c <= '9'
  }

  // ----- writing -----

  function Digit(n: nat): char
    requires n < 10
  {
    '0' + n as char
  }

  function Decimal(n: nat): string {
    if n < 10 then [Digit(n)] else Decimal(n / 10) + [Digit(n % 10)]
  }

  function PieceText(p: Piece): string {
    p.name + "(" + Decimal(p.level) + ")"
  }

  function Printed(pieces: seq<Piece>): string {
    if pieces == [] then "" else PieceText(pieces[0]) + " " + Printed(pieces[1..])
  }

  // ----- parsing -----

  /** The words of `s`, the first of which has already begun with `word`. */
  function Words(s: string, word: string): seq<string> {
    if s == "" then if word == "" then [] else [word]
    else if IsSpace(s[0]) then (if word == "" then [] else [word]) + Words(s[1..], "")
    else Words(s[1..], word + [s[0]])
  }

  /** The first place of a character, the length when there is none. */
  function Find(s: string, c: char): (i: nat)
    ensures i <= |s| && (i < |s| ==> s[i] == c)
  {
    if s == "" || s[0] == c then 0 else 1 + Find(s[1..], c)
  }

  /** Nothing before the place found is the character. */
  lemma {:induction false} FindFirst(s: string, c: char, k: nat)
    requires k < Find(s, c)
    ensures s[k] != c
    decreases k
  {
    if k > 0 {
      FindFirst(s[1..], c, k - 1);
    }
  }

  function Unspaced(s: string): string {
    if s == "" then "" else (if IsSpace(s[0]) then "" else [s[0]]) + Unspaced(s[1..])
  }

  function Joined(words: seq<string>): string {
    if words == [] then "" else words[0] + Joined(words[1..])
  }

  ghost predicate SpaceFree(s: string) {
    forall i :: 0 <= i < |s| ==> !IsSpace(s[i])
  }

  /** The words are not empty and hold no white space, and together they are all the rest of the text. */
  lemma {:induction false} WordsExact(s: string, word: string)
    requires SpaceFree(word)
    ensures forall i :: 0 <= i < |Words(s, word)| ==> Words(s, word)[i] != "" && SpaceFree(Words(s, word)[i])
    ensures Joined(Words(s, word)) == word + Unspaced(s)
    decreases |s|
  {
    if s == "" {
      assert word != "" ==> [word][1..] == [];
    } else if IsSpace(s[0]) {
      WordsExact(s[1..], "");
      var rest := Words(s[1..], "");
      if word != "" {
        assert ([word] + rest)[1..] == rest;
      } else {
        assert [] + rest == rest;
      }
    } else {
      WordsExact(s[1..], word + [s[0]]);
      assert word + [s[0]] + Unspaced(s[1..]) == word + ([s[0]] + Unspaced(s[1..]));
    }
  }

  predicate AllDigits(s: string) {
    forall i :: 0 <= i < |s| ==> IsDigit(s[i])
  }

  function Number(s: string): nat
    requires AllDigits(s)
  {
    if s == "" then 0
    else
      assert IsDigit(s[|s| - 1]);
      10 * Number(s[..|s| - 1]) + (s[|s| - 1] as int - '0' as int)
  }

  /** An 8-bit number: an optional plus sign, then at least one digit and nothing else. */
  function ParseLevel(s: string): Option<U8> {
    var digits := if |s| > 1 && s[0] == '+' then s[1..] else s;
    if digits != "" && AllDigits(digits) && Number(digits) < 256
    then Some(Number(digits)) else None
  }

  /** What one word contributes; a closing parenthesis before the opening one aborts the server. */
  datatype Parsed = Entry(name: string, level: U8) | Skipped | Panic

  function ParseWord(word: string): Parsed {
    var open, close := Find(word, '('), Find(word, ')');
    if open == |word| || close == |word| then Skipped
    else if close < open then Panic
    else match ParseLevel(word[open + 1..close])
      case None => Skipped
      case Some(level) => Entry(word[..open], level)
  }

  function ParseWords(words: seq<string>, m: map<string, U8>): Option<map<string, U8>> {
    if words == [] then Some(m)
    else match ParseWord(words[0])
      case Panic => None
      case Skipped => ParseWords(words[1..], m)
      case Entry(name, level) => ParseWords(words[1..], m[name := level])
  }

  function Parse(text: string): Option<map<string, U8>> {
    ParseWords(Words(text, ""), map[])
  }

  // ----- numbers -----

  lemma {:induction false} DecimalRoundTrip(n: nat)
    ensures Decimal(n) != "" && AllDigits(Decimal(n))
    ensures Number(Decimal(n)) == n
  {
    if n >= 10 {
      DecimalRoundTrip(n / 10);
      var d := Decimal(n);
      assert d[..|d| - 1] == Decimal(n / 10);
    } else {
      assert Decimal(n)[..0] == "";
    }
  }

  lemma LevelRoundTrip(level: U8)
    ensures ParseLevel(Decimal(level)) == Some(level)
  {
    DecimalRoundTrip(level);
    assert IsDigit(Decimal(level)[0]);
  }

  /** Exactly the numbers below 256 in digits are read, with at most a plus sign in front; leading zeros are allowed. */
  lemma ParseLevelExact(digits: string)
    requires digits != "" && AllDigits(digits)
    ensures ParseLevel(digits) == if Number(digits) < 256 then Some(Number(digits)) else None
    ensures ParseLevel("+" + digits) == ParseLevel(digits)
    ensures Number("0" + digits) == Number(digits)
  {
    assert ("+" + digits)[1..] == digits;
    assert IsDigit(digits[0]);
    LeadingZero(digits);
  }

  lemma {:induction false} LeadingZero(digits: string)
    requires AllDigits(digits)
    ensures Number("0" + digits) == Number(digits)
    decreases |digits|
  {
    if digits != "" {
      var n := |digits| - 1;
      LeadingZero(digits[..n]);
      assert ("0" + digits)[..n + 1] == "0" + digits[..n];
    }
  }

  /** Anything else is not: nothing, a plus sign alone, or a character that is neither a digit nor a leading plus. */
  lemma ParseLevelRejects(s: string, i: nat)
    requires |s| == 0 || (|s| == 1 && s[0] == '+') || (i < |s| && !IsDigit(s[i]) && !(i == 0 && s[0] == '+'))
    ensures ParseLevel(s) == None
  {
    var digits := if |s| > 1 && s[0] == '+' then s[1..] else s;
    if |s| > 0 {
      assert !IsDigit(digits[if |s| == 1 then 0 else if s[0] == '+' then i - 1 else i]);
      assert !AllDigits(digits);
    }
  }

  // ----- pieces -----

  /** One piece on paper. */
  lemma WrittenPiece()
    ensures PieceText(Piece("sharpness", 5)) == "sharpness(5)"
  {
  }

  predicate CleanName(name: string) {
    forall i :: 0 <= i < |name| ==> !IsSpace(name[i]) && name[i] != '(' && name[i] != ')'
  }

  lemma {:induction false} FindAfter(before: string, c: char, after: string)
    requires forall i :: 0 <= i < |before| ==> before[i] != c
    ensures Find(before + [c] + after, c) == |before|
    decreases |before|
  {
    var s := before + [c] + after;
    if before != "" {
      assert s[0] == before[0];
      assert s[1..] == before[1..] + [c] + after;
      FindAfter(before[1..], c, after);
    }
  }

  lemma PieceParses(p: Piece)
    requires CleanName(p.name)
    ensures ParseWord(PieceText(p)) == Entry(p.name, p.level)
  {
    var digits, word := Decimal(p.level), PieceText(p);
    DecimalRoundTrip(p.level);
    LevelRoundTrip(p.level);
    assert word == p.name + ['('] + (digits + ")");
    FindAfter(p.name, '(', digits + ")");
    var before := p.name + "(" + digits;
    assert forall i :: 0 <= i < |before| ==> before[i] != ')';
    assert word == before + [')'] + "";
    FindAfter(before, ')', "");
    assert word[|p.name| + 1..|before|] == digits;
    assert word[..|p.name|] == p.name;
  }

  lemma {:induction false} WordRuns(w: string, rest: string, word: string)
    requires forall i :: 0 <= i < |w| ==> !IsSpace(w[i])
    ensures Words(w + rest, word) == Words(rest, word + w)
    decreases |w|
  {
    if w == "" {
      assert w + rest == rest && word + w == word;
    } else {
      assert (w + rest)[1..] == w[1..] + rest;
      WordRuns(w[1..], rest, word + [w[0]]);
      assert word + [w[0]] + w[1..] == word + w;
    }
  }

  lemma PieceIsAWord(p: Piece, rest: string)
    requires CleanName(p.name)
    ensures Words(PieceText(p) + " " + rest, "") == [PieceText(p)] + Words(rest, "")
  {
    var word := PieceText(p);
    DecimalRoundTrip(p.level);
    forall i | 0 <= i < |word|
      ensures !IsSpace(word[i])
    {
      var digits := Decimal(p.level);
      if |p.name| < i < |p.name| + 1 + |digits| {
        assert word[i] == digits[i - |p.name| - 1];
      }
    }
    assert word + " " + rest == word + (" " + rest);
    WordRuns(word, " " + rest, "");
    assert "" + word == word;
    assert (" " + rest)[1..] == rest;
  }

  /** Later pieces overwrite earlier ones. */
  function MapOf(pieces: seq<Piece>, m: map<string, U8>): map<string, U8> {
    if pieces == [] then m else MapOf(pieces[1..], m[pieces[0].name := pieces[0].level])
  }

  lemma {:induction false} ParsePrinted(pieces: seq<Piece>, m: map<string, U8>)
    requires forall i :: 0 <= i < |pieces| ==> CleanName(pieces[i].name)
    ensures ParseWords(Words(Printed(pieces), ""), m) == Some(MapOf(pieces, m))
    decreases |pieces|
  {
    if pieces != [] {
      var p, rest := pieces[0], Printed(pieces[1..]);
      PieceIsAWord(p, rest);
      PieceParses(p);
      ParsePrinted(pieces[1..], m[p.name := p.level]);
      ParseCons(PieceText(p), Words(rest, ""), m, p);
    }
  }

  lemma ParseCons(word: string, words: seq<string>, m: map<string, U8>, p: Piece)
    requires ParseWord(word) == Entry(p.name, p.level)
    ensures ParseWords([word] + words, m) == ParseWords(words, m[p.name := p.level])
  {
    assert ([word] + words)[1..] == words;
  }

  /** `pieces` lists a map, in some order. */
  ghost predicate Lists(pieces: seq<Piece>, m: map<string, U8>) {
    && (forall i, j :: 0 <= i < j < |pieces| ==> pieces[i].name != pieces[j].name)
    && (forall i :: 0 <= i < |pieces| ==> pieces[i].name in m && m[pieces[i].name] == pieces[i].level)
    && (forall name :: name in m ==> exists i :: 0 <= i < |pieces| && pieces[i].name == name)
  }

  lemma {:induction false} MapOfAt(pieces: seq<Piece>, m: map<string, U8>, name: string)
    requires forall i, j :: 0 <= i < j < |pieces| ==> pieces[i].name != pieces[j].name
    ensures name in MapOf(pieces, m) <==> name in m || exists i :: 0 <= i < |pieces| && pieces[i].name == name
    ensures forall i :: 0 <= i < |pieces| && pieces[i].name == name ==> MapOf(pieces, m)[name] == pieces[i].level
    ensures (forall i :: 0 <= i < |pieces| ==> pieces[i].name != name) && name in m ==>
      MapOf(pieces, m)[name] == m[name]
    decreases |pieces|
  {
    if pieces != [] {
      MapOfAt(pieces[1..], m[pieces[0].name := pieces[0].level], name);
      assert forall i :: 0 < i < |pieces| ==> pieces[i] == pieces[1..][i - 1];
    }
  }

  /** Printing a map in any order and parsing the text gives the map back. */
  lemma PrintParse(pieces: seq<Piece>, m: map<string, U8>)
    requires Lists(pieces, m) && forall name :: name in m ==> CleanName(name)
    ensures Parse(Printed(pieces)) == Some(m)
  {
    ParsePrinted(pieces, map[]);
    var r := MapOf(pieces, map[]);
    forall name
      ensures name in r <==> name in m
      ensures name in m ==> r[name] == m[name]
    {
      MapOfAt(pieces, map[], name);
      if name in m {
        var i :| 0 <= i < |pieces| && pieces[i].name == name;
      }
    }
    assert r == m;
  }

  // ----- text that aborts the server -----

  /** Both parentheses occur, the closing one first. */
  predicate Inverted(word: string) {
    Find(word, ')') < Find(word, '(') < |word|
  }

  lemma {:induction false} WordsAbort(words: seq<string>, m: map<string, U8>)
    ensures ParseWords(words, m).None? <==> exists w :: w in words && Inverted(w)
    decreases |words|
  {
    if words != [] {
      var rest := words[1..];
      assert words == [words[0]] + rest;
      assert ParseWord(words[0]).Panic? <==> Inverted(words[0]);
      match ParseWord(words[0])
      case Panic =>
      case Skipped => WordsAbort(rest, m);
      case Entry(name, level) => WordsAbort(rest, m[name := level]);
    }
  }

  /** Parsing aborts exactly when some word has its first closing parenthesis before its first opening one. */
  lemma ParseAbortsExactly(text: string)
    ensures Parse(text).None? <==> exists w :: w in Words(text, "") && Inverted(w)
  {
    WordsAbort(Words(text, ""), map[]);
  }

  // ----- the loops -----

  /** Writes the pieces one after another. */
  method Write(pieces: seq<Piece>) returns (text: string)
    ensures text == Printed(pieces)
  {
    text := "";
    for i := 0 to |pieces|
      invariant Printed(pieces) == text + Printed(pieces[i..])
    {
      assert pieces[i..][0] == pieces[i] && pieces[i..][1..] == pieces[i + 1..];
      text := text + (PieceText(pieces[i]) + " ");
    }
    assert text + "" == text;
  }

  /** Data that is absent or that `decode`, the UTF-8 decoder, rejects holds no enchantments. No answer when the
      source would abort. */
  method ParseItemEnchants(nbt: Option<seq<U8>>, decode: seq<U8> -> Option<string>) returns (r: Option<map<string, U8>>)
    ensures r == if nbt.None? || decode(nbt.value).None? then Some(map[]) else Parse(decode(nbt.value).value)
  {
    var m: map<string, U8> := map[];
    if nbt.None? || decode(nbt.value).None? {
      return Some(m);
    }
    var words := Words(decode(nbt.value).value, "");
    for i := 0 to |words|
      invariant ParseWords(words, map[]) == ParseWords(words[i..], m)
    {
      assert words[i..][0] == words[i] && words[i..][1..] == words[i + 1..];
      match ParseWord(words[i])
      case Panic => return None;
      case Skipped =>
      case Entry(name, level) => m := m[name := level];
    }
    return Some(m);
  }
}
