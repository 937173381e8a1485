/** Names with versions and the index of latest versions (farms/farm-client/src/client.rs). */
module VersionIndex {

  import opened LatestIndex

  // ----- version texts -----

  predicate IsDigit(c: char) { '0' <= c <= '9' }

  function DigitValue(c: char): (n: nat)
    requires IsDigit(c)
  {
    (c as int) - ('0' as int)
  }

  predicate AllDigits(s: string)
  {
    forall i :: 0 <= i < |s| ==> IsDigit(s[i])
  }

  /** The value of the first `n` digits. */
  function ValueIn(s: string, n: nat): (v: nat)
    requires AllDigits(s) && n <= |s|
  {
    if n == 0 then 0 else 10 * ValueIn(s, n - 1) + DigitValue(s[n - 1])
  }

  function DigitsValue(s: string): (v: nat)
    requires AllDigits(s)
  {
    ValueIn(s, |s|)
  }

  /** `parse::<u16>`: an optional plus sign and at least one digit, not above 65535. */
  function ParseU16(s: string): (r: Parse<nat>)
    ensures r.Parsed? ==> r.value <= 0xFFFF
    ensures !r.Panic?
  {
    var digits := if s != "" && s[0] == '+' then s[1..] else s;
    if digits == "" || !AllDigits(digits) || DigitsValue(digits) > 0xFFFF then Invalid else Parsed(DigitsValue(digits))
  }

  /** `name[..1]` needs a first character of one byte. */
  function ExtractVersion(name: string): (r: Parse<nat>)
    ensures r.Panic? <==> name == "" || name[0] as int >= 0x80
    ensures r.Parsed? ==> r.value <= 0xFFFF
  {
    if name == "" || name[0] as int >= 0x80 then Panic
    else if name[0] == 'V' || name[0] == 'v' then ParseU16(name[1..])
    else Invalid
  }

  function Decimal(n: nat): (s: string)
    ensures |s| > 0 && AllDigits(s)
  {
    var last := ('0' as int + n % 10) as char;
    if n < 10 then [last] else Decimal(n / 10) + [last]
  }

  lemma {:induction false} ValueInPrefix(s: string, t: string, n: nat)
    requires AllDigits(s) && AllDigits(s + t) && n <= |s|
    ensures ValueIn(s + t, n) == ValueIn(s, n)
  {
    if n > 0 { ValueInPrefix(s, t, n - 1); }
  }

  lemma {:induction false} DecimalValue(n: nat)
    ensures DigitsValue(Decimal(n)) == n
  {
    var last := ('0' as int + n % 10) as char;
    assert DigitValue(last) == n % 10;
    if n < 10 {
      assert ValueIn([last], 1) == 10 * ValueIn([last], 0) + DigitValue(last);
    } else {
      DecimalValue(n / 10);
      var front := Decimal(n / 10);
      assert Decimal(n) == front + [last];
      ValueInPrefix(front, [last], |front|);
    }
  }

  lemma DecimalHasNoMarks(n: nat)
    ensures '.' !in Decimal(n) && '-' !in Decimal(n) && '+' !in Decimal(n)
  {
    assert forall i :: 0 <= i < |Decimal(n)| ==> IsDigit(Decimal(n)[i]);
  }

  /** `k` leading zeros. */
  function Noughts(k: nat): (s: string)
    ensures |s| == k && AllDigits(s)
  {
    seq(k, _ => '0')
  }

  lemma ValueOfSnoc(s: string, c: char)
    requires AllDigits(s) && IsDigit(c)
    ensures AllDigits(s + [c]) && DigitsValue(s + [c]) == 10 * DigitsValue(s) + DigitValue(c)
  {
    ValueInPrefix(s, [c], |s|);
  }

  lemma {:induction false} NoughtsValue(k: nat)
    ensures DigitsValue(Noughts(k)) == 0
  {
    if k > 0 {
      NoughtsValue(k - 1);
      assert Noughts(k) == Noughts(k - 1) + ['0'];
      ValueOfSnoc(Noughts(k - 1), '0');
    }
  }

  /** Leading zeros do not change the value. */
  lemma {:induction false} PaddedValue(k: nat, n: nat)
    ensures AllDigits(Noughts(k) + Decimal(n)) && DigitsValue(Noughts(k) + Decimal(n)) == n
  {
    var last := ('0' as int + n % 10) as char;
    assert DigitValue(last) == n % 10;
    if n < 10 {
      NoughtsValue(k);
      ValueOfSnoc(Noughts(k), last);
      assert Noughts(k) + Decimal(n) == Noughts(k) + [last];
    } else {
      PaddedValue(k, n / 10);
      ValueOfSnoc(Noughts(k) + Decimal(n / 10), last);
      assert Noughts(k) + Decimal(n) == (Noughts(k) + Decimal(n / 10)) + [last];
    }
  }

  /** Every digit string is the decimal form of its value behind leading zeros. */
  lemma {:induction false} DigitsAreDecimal(s: string) returns (k: nat)
    requires s != "" && AllDigits(s)
    ensures s == Noughts(k) + Decimal(DigitsValue(s))
    decreases |s|
  {
    var front, last := s[..|s| - 1], s[|s| - 1];
    assert s == front + [last];
    ValueOfSnoc(front, last);
    if front == "" {
      k := 0;
      assert DigitsValue(front) == 0;
    } else {
      k := DigitsAreDecimal(front);
      if DigitsValue(front) == 0 {
        assert Decimal(0) == ['0'];
        k := k + 1;
        assert front == Noughts(k);
      } else {
        assert Decimal(DigitsValue(s)) == Decimal(DigitsValue(front)) + [last];
      }
    }
  }

  /** A V in either case, an optional plus sign, any number of zeros and the version in decimal. */
  predicate Spells(text: string, letter: string, sign: string, k: nat, n: nat)
  {
    (letter == "V" || letter == "v") && (sign == "" || sign == "+") && text == letter + (sign + (Noughts(k) + Decimal(n)))
  }

  /** Parsing an unsigned number: the digits behind an optional plus sign. */
  lemma SignedParse(sign: string, digits: string)
    requires (sign == "" || sign == "+") && digits != "" && AllDigits(digits)
    ensures ParseU16(sign + digits) == if DigitsValue(digits) <= 0xFFFF then Parsed(DigitsValue(digits)) else Invalid
  {
    assert IsDigit(digits[0]);
    if sign == "" { assert sign + digits == digits; } else { assert (sign + digits)[1..] == digits; }
  }

  lemma ParsedDigits(s: string) returns (sign: string, k: nat)
    requires ParseU16(s).Parsed?
    ensures (sign == "" || sign == "+") && s == sign + (Noughts(k) + Decimal(ParseU16(s).value))
  {
    sign := if s != "" && s[0] == '+' then "+" else "";
    var digits := if s != "" && s[0] == '+' then s[1..] else s;
    k := DigitsAreDecimal(digits);
    assert s == sign + digits;
  }

  lemma SpelledReads(text: string, letter: string, sign: string, k: nat, n: nat)
    requires Spells(text, letter, sign, k, n) && n <= 0xFFFF
    ensures ExtractVersion(text) == Parsed(n)
  {
    var digits := Noughts(k) + Decimal(n);
    PaddedValue(k, n);
    SignedParse(sign, digits);
    Lettered(letter, sign + digits);
  }

  lemma Lettered(letter: string, rest: string)
    requires letter == "V" || letter == "v"
    ensures ExtractVersion(letter + rest) == ParseU16(rest)
  {
    assert (letter + rest)[1..] == rest;
  }

  lemma ReadIsSpelled(text: string) returns (letter: string, sign: string, k: nat)
    requires ExtractVersion(text).Parsed?
    ensures Spells(text, letter, sign, k, ExtractVersion(text).value)
  {
    letter := [text[0]];
    var rest := text[1..];
    assert text == letter + rest;
    sign, k := ParsedDigits(rest);
  }

  /** Exactly which texts read as which version, and which stop the program. */
  lemma VersionTexts(text: string, n: nat)
    ensures ExtractVersion(text) == Parsed(n) <==> n <= 0xFFFF && exists letter, sign, k :: Spells(text, letter, sign, k, n)
    ensures ExtractVersion(text).Panic? <==> text == "" || text[0] as int >= 0x80
  {
    if ExtractVersion(text) == Parsed(n) {
      var letter, sign, k := ReadIsSpelled(text);
    }
    if n <= 0xFFFF && exists letter, sign, k :: Spells(text, letter, sign, k, n) {
      var letter, sign, k :| Spells(text, letter, sign, k, n);
      SpelledReads(text, letter, sign, k, n);
    }
  }

  /** A version printed in decimal after a V, in either case and with or without a plus sign, reads back. */
  lemma VersionRoundTrip(n: nat, letter: string, sign: string)
    requires (letter == "V" || letter == "v") && (sign == "" || sign == "+")
    ensures ExtractVersion(letter + sign + Decimal(n)) == if n <= 0xFFFF then Parsed(n) else Invalid
    ensures '.' !in Decimal(n) && '-' !in Decimal(n)
  {
    DecimalHasNoMarks(n);
    DecimalValue(n);
    SignedParse(sign, Decimal(n));
    assert (letter + sign + Decimal(n))[1..] == sign + Decimal(n);
  }

  // ----- names -----

  /** Position of the last `c` among the first `n` characters, or -1. */
  function LastIndexIn(s: string, c: char, n: nat): (i: int)
    requires n <= |s|
    ensures -1 <= i < n
  {
    if n == 0 then -1 else if s[n - 1] == c then n - 1 else LastIndexIn(s, c, n - 1)
  }

  function LastIndex(s: string, c: char): (i: int)
    ensures -1 <= i < |s|
  {
    LastIndexIn(s, c, |s|)
  }

  lemma {:induction false} LastIndexSpec(s: string, c: char, n: nat)
    requires n <= |s|
    ensures var i := LastIndexIn(s, c, n);
            (i >= 0 ==> s[i] == c) && forall j :: i < j < n ==> s[j] != c
  {
    if n > 0 && s[n - 1] != c { LastIndexSpec(s, c, n - 1); }
  }

  function AfterLast(s: string, c: char): (t: string)
  {
    s[LastIndex(s, c) + 1..]
  }

  /** The stripped name and the version text, by splitting at the last dot and then at the last dash. */
  function SplitName(name: string): (r: Parse<(string, string)>)
  {
    if '.' !in name || name[0] == '.' then Invalid
    else
      var piece := AfterLast(name, '.');
      if '-' !in piece then Invalid
      else
        var text := AfterLast(piece, '-');
        SplitAtLast(piece, '-');
        Parsed((name[..|name| - |text| - 1], text))
  }

  function ExtractNameAndVersion(name: string): (r: Parse<(string, nat)>)
  {
    match SplitName(name)
    case Parsed((stripped, text)) =>
      (match ExtractVersion(text)
       case Parsed(version) => Parsed((stripped, version))
       case Invalid => Invalid
       case Panic => Panic)
    case _ => Invalid
  }

  /** The shape of a versioned name: a dotted name, a dash and a version text without dots or dashes. */
  predicate Versioned(name: string, stripped: string, text: string)
  {
    && name == stripped + "-" + text
    && '.' in stripped && stripped[0] != '.'
    && '.' !in text && '-' !in text
  }

  lemma LastIndexIs(s: string, c: char, i: nat)
    requires i < |s| && s[i] == c && forall j :: i < j < |s| ==> s[j] != c
    ensures LastIndex(s, c) == i
  {
    LastIndexSpec(s, c, |s|);
  }

  /** Splitting at the last `c`: what is before it, `c`, and what is after it, which has no `c`. */
  lemma SplitAtLast(s: string, c: char)
    requires c in s
    ensures 0 <= LastIndex(s, c) && s[LastIndex(s, c)] == c
    ensures s == s[..LastIndex(s, c)] + [c] + AfterLast(s, c) && c !in AfterLast(s, c)
  {
    LastIndexSpec(s, c, |s|);
  }

  lemma AfterLastIs(s: string, c: char, before: string, after: string)
    requires s == before + [c] + after && c !in after
    ensures AfterLast(s, c) == after && LastIndex(s, c) == |before|
  {
    LastIndexIs(s, c, |before|);
  }

  /** Every name of the versioned shape is taken apart as it was put together. */
  lemma SplitVersioned(name: string, stripped: string, text: string)
    requires Versioned(name, stripped, text)
    ensures SplitName(name) == Parsed((stripped, text))
  {
    SplitAtLast(stripped, '.');
    var dot, rest := LastIndex(stripped, '.'), AfterLast(stripped, '.');
    var piece := rest + "-" + text;
    OneString(stripped[..dot], rest, text);
    assert name == stripped[..dot] + ['.'] + piece;
    AfterLastIs(name, '.', stripped[..dot], piece);
    AfterLastIs(piece, '-', rest, text);
    assert name[..|name| - |text| - 1] == stripped;
    assert name[dot] == '.' && name[0] == stripped[0] && piece[|rest|] == '-';
  }

  lemma OneString(before: string, rest: string, text: string)
    requires '.' !in rest && '.' !in text
    ensures (before + ['.'] + rest) + "-" + text == before + ['.'] + (rest + "-" + text)
    ensures '.' !in rest + "-" + text
  {
  }

  /** Only names of that shape are taken apart. */
  lemma SplitOnlyVersioned(name: string)
    requires SplitName(name).Parsed?
    ensures Versioned(name, SplitName(name).value.0, SplitName(name).value.1)
  {
    SplitAtLast(name, '.');
    var dot, piece := LastIndex(name, '.'), AfterLast(name, '.');
    SplitAtLast(piece, '-');
    var dash, text := LastIndex(piece, '-'), AfterLast(piece, '-');
    TwoSplits(name, name[..dot], piece, piece[..dash], text);
    assert name[..|name| - |text| - 1][0] == name[0];
    assert forall c :: c in text ==> c in piece;
  }

  lemma TwoSplits(name: string, before: string, piece: string, middle: string, text: string)
    requires name == before + ['.'] + piece && piece == middle + ['-'] + text
    ensures name == name[..|name| - |text| - 1] + "-" + text
    ensures '.' in name[..|name| - |text| - 1]
  {
    var stripped := before + ['.'] + middle;
    assert name == stripped + "-" + text;
    assert stripped == name[..|name| - |text| - 1];
    assert stripped[|before|] == '.';
  }

  /** A key has a name and version just when it is a stripped name, a dash and a version text; that text is unique. */
  lemma VersionedNames(name: string, stripped: string, version: nat)
    ensures ExtractNameAndVersion(name) == Parsed((stripped, version))
            <==> exists text :: Versioned(name, stripped, text) && ExtractVersion(text) == Parsed(version)
  {
    if SplitName(name).Parsed? { SplitOnlyVersioned(name); }
    forall text | Versioned(name, stripped, text) ensures SplitName(name) == Parsed((stripped, text)) {
      SplitVersioned(name, stripped, text);
    }
  }

  /** A dotted name and a dash with no version text behind it, or a text whose first character takes several bytes. */
  ghost predicate Unreadable(name: string)
  {
    exists stripped, text :: Versioned(name, stripped, text) && (text == "" || text[0] as int >= 0x80)
  }

  /** Exactly the keys that stop the program. */
  lemma PanicNames(name: string)
    ensures ExtractNameAndVersion(name).Panic? <==> Unreadable(name)
  {
    if SplitName(name).Parsed? { SplitOnlyVersioned(name); }
    forall stripped, text | Versioned(name, stripped, text) ensures SplitName(name) == Parsed((stripped, text)) {
      SplitVersioned(name, stripped, text);
    }
  }

  /** One such key. */
  lemma PanicExample()
    ensures ExtractNameAndVersion("A.B-").Panic?
  {
    assert "A.B"[1] == '.';
    assert Versioned("A.B-", "A.B", "");
    PanicNames("A.B-");
  }

  /**
   * For every order of iteration: the program stops if some key ends in a dash or has a version text that starts with a
   * character of several bytes, and otherwise an index of latest versions is put over the destination.
   */
  method ReinsertLatestVersions<Key>(source: map<string, Key>, dest: map<string, string>) returns (panicked: bool, dest': map<string, string>)
    ensures panicked <==> exists key :: key in source && Unreadable(key)
    ensures panicked ==> dest' == dest
    ensures !panicked ==> Reinserted(ExtractNameAndVersion, source.Keys, dest, dest')
  {
    forall key: string ensures ExtractNameAndVersion(key).Panic? <==> Unreadable(key) { PanicNames(key); }
    panicked, dest' := Reinsert(source, dest, ExtractNameAndVersion);
  }
}
