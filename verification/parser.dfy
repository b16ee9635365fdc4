/** The season-number heuristic of src/parser.rs (`parse_season_number`):
    a chain of three rules over the name and its space-separated tokens,
    the first rule that yields a number wins. */
module Parser {
  import opened Common

  const I32Min: int := -0x8000_0000
  const I32Max: int := 0x7fff_ffff

  // ------------------------------------------------------ i32 parsing

  /** `char::is_digit(10)`: ASCII decimal digits only. */
  predicate IsDigit(c: char) {
    '0' <= c <= '9'
  }

  predicate AllDigits(s: string) {
    forall i :: 0 <= i < |s| ==> IsDigit(s[i])
  }

  /** Value of a run of decimal digits, most significant first. */
  function DecimalValue(s: string): nat
    requires AllDigits(s)
  {
    if |s| == 0 then 0
    else 10 * DecimalValue(s[..|s| - 1]) + (s[|s| - 1] as int - '0' as int)
  }

  /** `str::parse::<i32>`: an optional `+` or `-`, then one or more ASCII
      digits, and the value must fit in 32 bits; anything else is an error. */
  function ParseI32(s: string): (r: Option<int>)
    ensures r.Some? ==> I32Min <= r.value <= I32Max
    ensures (forall i :: 0 <= i < |s| ==> !IsDigit(s[i])) ==> r.None?
  {
    var signed := |s| > 0 && (s[0] == '+' || s[0] == '-');
    var digits := if signed then s[1..] else s;
    if |digits| == 0 || !AllDigits(digits) then None
    else
      var magnitude: int := DecimalValue(digits);
      var v: int := if s[0] == '-' then -magnitude else magnitude;
      if I32Min <= v <= I32Max then Some(v) else None
  }

  /** Decimal rendering of a natural number, without leading zeros. */
  function Decimal(n: nat): (d: string)
    ensures |d| > 0 && AllDigits(d)
  {
    if n < 10 then [('0' as int + n) as char]
    else Decimal(n / 10) + [('0' as int + n % 10) as char]
  }

  /** `i32::to_string`. */
  function RenderI32(v: int): string {
    if v < 0 then "-" + Decimal(-v) else Decimal(v)
  }

  lemma {:induction false} DecimalValueOfDecimal(n: nat)
    ensures DecimalValue(Decimal(n)) == n
  {
    if n >= 10 {
      var d := Decimal(n);
      assert d[..|d| - 1] == Decimal(n / 10);
      DecimalValueOfDecimal(n / 10);
    }
  }

  /** Every 32-bit integer survives rendering and parsing back. */
  lemma ParseRendered(v: int)
    requires I32Min <= v <= I32Max
    ensures ParseI32(RenderI32(v)) == Some(v)
  {
    var m := if v < 0 then -v else v;
    var d := Decimal(m);
    DecimalValueOfDecimal(m);
    if v < 0 {
      assert RenderI32(v)[1..] == d;
    } else {
      assert !IsDigit('+') && !IsDigit('-');
    }
  }

  /** Length of the optional leading `+` or `-`. */
  function SignLength(s: string): nat {
    if |s| > 0 && (s[0] == '+' || s[0] == '-') then 1 else 0
  }

  /** `parse::<i32>` case by case: a digit run (leading zeros allowed) is
      its decimal value when that fits; after `-` it is the negated value
      down to `i32::MIN`; after `+` the value; a non-digit after the
      optional sign, or no digit at all, is an error. */
  lemma ParseI32Exactly(s: string)
    ensures |s| > 0 && AllDigits(s) ==>
      ParseI32(s) == (if DecimalValue(s) <= I32Max then Some(DecimalValue(s)) else None)
    ensures |s| > 1 && s[0] == '+' && AllDigits(s[1..]) ==>
      ParseI32(s) == (if DecimalValue(s[1..]) <= I32Max then Some(DecimalValue(s[1..])) else None)
    ensures |s| > 1 && s[0] == '-' && AllDigits(s[1..]) ==>
      ParseI32(s) == (if DecimalValue(s[1..]) <= -I32Min then Some(-(DecimalValue(s[1..]) as int)) else None)
    ensures (exists i :: SignLength(s) <= i < |s| && !IsDigit(s[i])) ==> ParseI32(s) == None
    ensures |s| == SignLength(s) ==> ParseI32(s) == None
  {
    if |s| > 0 && AllDigits(s) {
      assert IsDigit(s[0]);
    }
    if exists i :: SignLength(s) <= i < |s| && !IsDigit(s[i]) {
      ParseI32RefusesNonDigit(s);
    }
  }

  lemma ParseI32RefusesNonDigit(s: string)
    requires exists i :: SignLength(s) <= i < |s| && !IsDigit(s[i])
    ensures ParseI32(s) == None
  {
    var i :| SignLength(s) <= i < |s| && !IsDigit(s[i]);
    var digits := s[SignLength(s)..];
    assert digits[i - SignLength(s)] == s[i];
  }

  /** Leading zeros do not change the value, so "02" parses as 2. */
  lemma {:induction false} LeadingZero(d: string)
    requires AllDigits(d)
    ensures AllDigits("0" + d) && DecimalValue("0" + d) == DecimalValue(d)
    decreases |d|
  {
    if |d| > 0 {
      var z := "0" + d;
      assert z[..|z| - 1] == "0" + d[..|d| - 1];
      LeadingZero(d[..|d| - 1]);
    } else {
      assert ("0" + d)[..0] == "";
    }
  }

  /** A run of digits whose value exceeds `i32::MAX` is refused (overflow). */
  lemma OverflowRefused(d: string)
    requires |d| > 0 && AllDigits(d)
    requires DecimalValue(d) > I32Max
    ensures ParseI32(d) == None
  {
    assert IsDigit(d[0]);
  }

  // ------------------------------------------------------------ rules

  /** Rule 1 looks for this word anywhere in the lower-cased name. */
  predicate MentionsSpecials(name: string) {
    HasSubstring(Lower(name), "specials")
  }

  /** Tokens are cut at every single space, so runs of spaces leave empty
      tokens behind. */
  function Tokens(name: string): seq<string> {
    Split(name, ' ')
  }

  predicate IsSeasonWord(t: string) {
    Lower(t) == "season"
  }

  predicate StartsWithS(t: string) {
    |Lower(t)| > 0 && Lower(t)[0] == 's'
  }

  /** The digits of a token, in order, everything else dropped. */
  function DigitsOf(t: string): (d: string)
    ensures AllDigits(d) && |d| <= |t|
  {
    if |t| == 0 then ""
    else (if IsDigit(t[0]) then [t[0]] else "") + DigitsOf(t[1..])
  }

  /** The digits of a token are its digit characters, in order: filtering
      distributes over concatenation, keeps an all-digit string whole and
      empties a string without digits. */
  lemma {:induction false} DigitsOfFilter(a: string, b: string)
    ensures DigitsOf(a + b) == DigitsOf(a) + DigitsOf(b)
    ensures AllDigits(a) ==> DigitsOf(a) == a
    ensures (forall i :: 0 <= i < |a| ==> !IsDigit(a[i])) ==> DigitsOf(a) == ""
    decreases |a|
  {
    if |a| > 0 {
      assert (a + b)[1..] == a[1..] + b;
      DigitsOfFilter(a[1..], b);
      assert [a[0]] + a[1..] == a;
    } else {
      assert a + b == b;
    }
  }

  /** Why `parse_season_number` stops: a value (possibly none), or the
      out-of-bounds index `parts[index + 1]` when "season" is the last token. */
  datatype SeasonParse = Parsed(season: Option<int>) | IndexOutOfBounds

  /** Rule 3: only the first token starting with `s` is consulted. */
  function SeasonFromSToken(parts: seq<string>): Option<int> {
    match Position(parts, StartsWithS)
    case None => None
    case Some(k) => ParseI32(DigitsOf(parts[k]))
  }

  function ParseSeasonNumber(name: string): (r: SeasonParse)
    ensures MentionsSpecials(name) ==> r == Parsed(Some(0))
  {
    if MentionsSpecials(name) then Parsed(Some(0))
    else
      var parts := Tokens(name);
      match Position(parts, IsSeasonWord)
      case Some(index) =>
        if index + 1 >= |parts| then IndexOutOfBounds
        else (match ParseI32(parts[index + 1])
              case Some(n) => Parsed(Some(n))
              case None => Parsed(SeasonFromSToken(parts)))
      case None => Parsed(SeasonFromSToken(parts))
  }

  // ------------------------------------------------------- properties

  /** `parts[i]` is the first token equal to "season", ignoring case. */
  predicate FirstSeasonWordAt(parts: seq<string>, i: nat) {
    i < |parts| && IsSeasonWord(parts[i]) && forall j :: 0 <= j < i ==> !IsSeasonWord(parts[j])
  }

  /** `parts[k]` is the first token starting with `s`, ignoring case. */
  predicate FirstSTokenAt(parts: seq<string>, k: nat) {
    k < |parts| && StartsWithS(parts[k]) && forall j :: 0 <= j < k ==> !StartsWithS(parts[j])
  }

  /** Rule 2 neither fires nor panics: either there is no "season" token,
      or the first one is followed by a token that is not an `i32`. */
  ghost predicate SeasonWordRuleMisses(parts: seq<string>) {
    forall i: nat :: FirstSeasonWordAt(parts, i) ==> i + 1 < |parts| && ParseI32(parts[i + 1]).None?
  }

  /** Rule 2: the token after the first "season" gives the number, whatever
      the later tokens say. */
  lemma SeasonWordRule(name: string, i: nat)
    requires !MentionsSpecials(name)
    requires FirstSeasonWordAt(Tokens(name), i) && i + 1 < |Tokens(name)|
    requires ParseI32(Tokens(name)[i + 1]).Some?
    ensures ParseSeasonNumber(name) == Parsed(ParseI32(Tokens(name)[i + 1]))
  {
    FirstMatchUnique(Tokens(name), IsSeasonWord, i);
  }

  /** The only failure: the first "season" token is the last token. */
  lemma SeasonWordLastIsOutOfBounds(name: string)
    ensures ParseSeasonNumber(name).IndexOutOfBounds?
        <==> !MentionsSpecials(name) && FirstSeasonWordAt(Tokens(name), |Tokens(name)| - 1)
  {
    var parts := Tokens(name);
    if !MentionsSpecials(name) && FirstSeasonWordAt(parts, |parts| - 1) {
      FirstMatchUnique(parts, IsSeasonWord, |parts| - 1);
    }
  }

  /** Rule 3: when rule 2 misses, the digits of the first `s` token decide,
      even when a later `s` token would have parsed. */
  lemma STokenRule(name: string, k: nat)
    requires !MentionsSpecials(name)
    requires SeasonWordRuleMisses(Tokens(name))
    requires FirstSTokenAt(Tokens(name), k)
    ensures ParseSeasonNumber(name) == Parsed(ParseI32(DigitsOf(Tokens(name)[k])))
  {
    var parts := Tokens(name);
    FirstMatchUnique(parts, StartsWithS, k);
    match Position(parts, IsSeasonWord)
    case Some(i) =>
      assert FirstSeasonWordAt(parts, i);
    case None =>
  }

  /** No rule yields a number exactly when the name has no "specials", rule 2
      misses and the first `s` token (if any) has no parsable digits. */
  lemma NoSeasonExactly(name: string)
    ensures ParseSeasonNumber(name) == Parsed(None)
        <==> !MentionsSpecials(name) && SeasonWordRuleMisses(Tokens(name))
             && forall k: nat :: FirstSTokenAt(Tokens(name), k) ==> ParseI32(DigitsOf(Tokens(name)[k])).None?
  {
    SeasonWordMissesAtPosition(Tokens(name));
    STokenMissesAtPosition(Tokens(name));
  }

  lemma SeasonWordMissesAtPosition(parts: seq<string>)
    ensures SeasonWordRuleMisses(parts)
        <==> match Position(parts, IsSeasonWord)
             case None => true
             case Some(i) => i + 1 < |parts| && ParseI32(parts[i + 1]).None?
  {
    match Position(parts, IsSeasonWord)
    case Some(i) =>
      assert FirstSeasonWordAt(parts, i);
      forall i': nat | FirstSeasonWordAt(parts, i') ensures i' == i {
        FirstMatchUnique(parts, IsSeasonWord, i');
      }
    case None =>
  }

  lemma STokenMissesAtPosition(parts: seq<string>)
    ensures SeasonFromSToken(parts).None?
        <==> forall k: nat :: FirstSTokenAt(parts, k) ==> ParseI32(DigitsOf(parts[k])).None?
  {
    match Position(parts, StartsWithS)
    case Some(k) =>
      assert FirstSTokenAt(parts, k);
      forall k': nat | FirstSTokenAt(parts, k') ensures k' == k {
        FirstMatchUnique(parts, StartsWithS, k');
      }
    case None =>
  }
}

/** Worked names for the season-number rules. */
module ParserExamples {
  import opened Common
  import opened Parser


  /** A name without the letter `p` cannot mention "specials". */
  lemma {:induction false} NoSpecialsWithoutP(s: string)
    requires forall i :: 0 <= i < |s| ==> s[i] != 'p'
    ensures !HasSubstring(s, "specials")
  {
    if |s| >= 8 {
      assert s[..8][1] == s[1];
    }
    if |s| > 0 {
      NoSpecialsWithoutP(s[1..]);
    }
  }

  lemma ShowS02Tokens(name: string)
    requires name == "Show S02"
    ensures !MentionsSpecials(name) && Tokens(name) == ["Show", "S02"]
  {
    NoSpecialsWithoutP(Lower(name));
    assert Join(["Show", "S02"], ' ') == name;
    SplitJoin(["Show", "S02"], ' ');
  }

  lemma ShowS02Words()
    ensures !IsSeasonWord("Show") && !IsSeasonWord("S02")
    ensures StartsWithS("Show") && DigitsOf("Show") == ""
  {
  }

  /** "Show S02": the first `s` token is "Show", which has no digits, so the
      later "S02" is never looked at. */
  lemma OnlyFirstSTokenCounts(name: string)
    requires name == "Show S02"
    ensures ParseSeasonNumber(name) == Parsed(None)
  {
    ShowS02Tokens(name);
    ShowS02Words();
    var parts := Tokens(name);
    assert SeasonWordRuleMisses(parts);
    assert FirstSTokenAt(parts, 0);
    STokenRule(name, 0);
  }

  lemma S01E02Digits()
    ensures DigitsOf("S01E02") == "0102"
  {
  }

  lemma ParseZeroOneZeroTwo()
    ensures ParseI32("0102") == Some(102)
  {
    assert "0102"[..3] == "010" && "010"[..2] == "01" && "01"[..1] == "0";
    assert DecimalValue("0102") == 102;
  }

  lemma S01E02Tokens(name: string)
    requires name == "S01E02"
    ensures !MentionsSpecials(name) && Tokens(name) == [name]
    ensures !IsSeasonWord(name) && StartsWithS(name)
  {
    NoSpecialsWithoutP(Lower(name));
    SplitJoin([name], ' ');
  }

  /** "S01E02": every digit of the token is kept, giving 102. */
  lemma AllDigitsConcatenated(name: string)
    requires name == "S01E02"
    ensures ParseSeasonNumber(name) == Parsed(Some(102))
  {
    S01E02Digits();
    ParseZeroOneZeroTwo();
    S01E02Tokens(name);
    var parts := Tokens(name);
    assert SeasonWordRuleMisses(parts);
    assert FirstSTokenAt(parts, 0);
    STokenRule(name, 0);
  }

  lemma DoubleSpaceTokens(name: string)
    requires name == "Season  2"
    ensures !MentionsSpecials(name) && Tokens(name) == ["Season", "", "2"]
  {
    NoSpecialsWithoutP(Lower(name));
    assert Join(["Season", "", "2"], ' ') == name;
    SplitJoin(["Season", "", "2"], ' ');
  }

  lemma SeasonTokenFacts()
    ensures IsSeasonWord("Season") && StartsWithS("Season") && DigitsOf("Season") == ""
  {
  }

  /** "Season  2" (two spaces): the token after "Season" is the empty one,
      which does not parse, and the `s` rule then finds "Season" itself. */
  lemma DoubleSpaceDefeatsSeasonWord(name: string)
    requires name == "Season  2"
    ensures ParseSeasonNumber(name) == Parsed(None)
  {
    DoubleSpaceTokens(name);
    SeasonTokenFacts();
    var parts := Tokens(name);
    assert FirstSeasonWordAt(parts, 0);
    assert ParseI32(parts[1]) == None;
    forall i: nat | FirstSeasonWordAt(parts, i) ensures i == 0 { }
    assert FirstSTokenAt(parts, 0);
    STokenRule(name, 0);
  }
}
