/**
  The text operations that the coverage file reader and writer are built from: numbers, lines, splitting and trimming.
  Text is a sequence of characters.
 */
module DrCovText {
  import opened Common

  // ----- numbers -----

  function DigitChar(d: nat): char
    requires d < 16
  {
    if d < 10 then '0' + d as char else 'a' + (d - 10) as char
  }

  /** The value of a digit, in either case. */
  function DigitValue(c: char): Option<nat> {
    if '0' <= c <= '9' then Some(c as nat - '0' as nat)
    else if 'a' <= c <= 'f' then Some(c as nat - 'a' as nat + 10)
    else if 'A' <= c <= 'F' then Some(c as nat - 'A' as nat + 10)
    else None
  }

  /** A number in the given base, without leading zeros. */
  function ToDigits(n: nat, base: nat): (s: string)
    requires 2 <= base <= 16
    ensures s != ""
  {
    if n < base then [DigitChar(n)] else ToDigits(n / base, base) + [DigitChar(n % base)]
  }

  /** The value of a digit string, if it is one. */
  function ParseDigits(s: string, base: nat): Option<nat>
    requires 2 <= base <= 16
  {
    if s == "" then None
    else
      var last := |s| - 1;
      match DigitValue(s[last])
      case None => None
      case Some(d) =>
        if d >= base then None
        else if last == 0 then Some(d)
        else match ParseDigits(s[..last], base)
             case None => None
             case Some(n) => Some(n * base + d)
  }

  /** An unsigned number below `bound`: digits after an optional plus sign. */
  function ParseUnsigned(s: string, base: nat, bound: nat): Option<nat>
    requires 2 <= base <= 16
  {
    var digits := if |s| > 1 && s[0] == '+' then s[1..] else s;
    match ParseDigits(digits, base)
    case None => None
    case Some(n) => if n < bound then Some(n) else None
  }

  ghost predicate AllDigits(s: string) {
    forall i :: 0 <= i < |s| ==> DigitValue(s[i]).Some?
  }

  lemma DigitRoundTrip(d: nat)
    requires d < 16
    ensures DigitValue(DigitChar(d)) == Some(d)
  {
  }

  lemma {:induction false} DigitsRoundTrip(n: nat, base: nat)
    requires 2 <= base <= 16
    ensures ParseDigits(ToDigits(n, base), base) == Some(n)
    ensures AllDigits(ToDigits(n, base))
  {
    hide ParseDigits, DigitValue, DigitChar;
    if n < base {
      ParseOne(n, base);
    } else {
      var q, d := n / base, n % base;
      DivMod(n, base);
      DigitRoundTrip(d);
      DigitsRoundTrip(q, base);
      ParseSnoc(ToDigits(q, base), DigitChar(d), base, q, d);
    }
  }

  lemma DivMod(n: nat, base: nat)
    requires base > 0
    ensures n / base * base + n % base == n
  {
  }

  lemma ParseOne(d: nat, base: nat)
    requires 2 <= base <= 16 && d < base
    ensures ParseDigits([DigitChar(d)], base) == Some(d) && AllDigits([DigitChar(d)])
  {
    DigitRoundTrip(d);
  }

  lemma ParseSnoc(s: string, c: char, base: nat, n: nat, d: nat)
    requires 2 <= base <= 16 && s != ""
    requires ParseDigits(s, base) == Some(n) && DigitValue(c) == Some(d) && d < base
    ensures ParseDigits(s + [c], base) == Some(n * base + d)
  {
    assert (s + [c])[..|s|] == s;
  }

  /** Leading zeros do not change the value. */
  lemma {:induction false} LeadingZero(s: string, base: nat)
    requires 2 <= base <= 16 && s != ""
    ensures ParseDigits("0" + s, base) == ParseDigits(s, base)
  {
    var last := |s| - 1;
    var t := "0" + s;
    assert t[|t| - 1] == s[last];
    assert t[..|t| - 1] == "0" + s[..last];
    if last == 0 {
      assert t[..|t| - 1] == "0";
      assert ParseDigits("0", base) == Some(0);
    } else {
      LeadingZero(s[..last], base);
    }
  }

  /** `{:03}`: decimal digits, filled up with zeros to three places. */
  function Decimal3(n: nat): string {
    var s := ToDigits(n, 10);
    if |s| == 1 then "0" + ("0" + s) else if |s| == 2 then "0" + s else s
  }

  /** `0x{:x}`. */
  function Hex(n: nat): string {
    "0x" + ToDigits(n, 16)
  }

  lemma UnsignedRoundTrip(n: nat, base: nat, bound: nat)
    requires 2 <= base <= 16 && n < bound
    ensures ParseUnsigned(ToDigits(n, base), base, bound) == Some(n)
  {
    DigitsRoundTrip(n, base);
  }

  lemma Decimal3RoundTrip(n: nat, bound: nat)
    requires n < bound
    ensures ParseUnsigned(Decimal3(n), 10, bound) == Some(n) && AllDigits(Decimal3(n))
  {
    hide ParseDigits;
    var s := ToDigits(n, 10);
    DigitsRoundTrip(n, 10);
    LeadingZero(s, 10);
    LeadingZero("0" + s, 10);
  }

  // ----- searching and splitting -----

  predicate StartsWith(s: string, prefix: string) {
    |prefix| <= |s| && s[..|prefix|] == prefix
  }

  /** The position of the first occurrence. */
  function Find(s: string, sep: string): (r: Option<nat>)
    ensures r.Some? ==> r.value <= |s| && StartsWith(s[r.value..], sep)
  {
    if StartsWith(s, sep) then Some(0)
    else if s == "" then None
    else match Find(s[1..], sep)
         case None => None
         case Some(i) => assert s[1..][i..] == s[i + 1..]; Some(i + 1)
  }

  /** `str::split`: the pieces between the occurrences of a non-empty separator. */
  function Split(s: string, sep: string): (pieces: seq<string>)
    requires sep != ""
    ensures |pieces| > 0
    decreases |s|
  {
    match Find(s, sep)
    case None => [s]
    case Some(i) => [s[..i]] + Split(s[i + |sep|..], sep)
  }

  lemma FirstOfPrefix(s: string, prefix: string)
    requires prefix != ""
    ensures StartsWith(s, prefix) ==> s != "" && s[0] == prefix[0]
  {
    if |prefix| <= |s| {
      assert s[..|prefix|][0] == s[0];
    }
  }

  /** A separator does not occur where its first character does not. */
  lemma {:induction false} FindAbsent(s: string, sep: string)
    requires sep != "" && sep[0] !in s
    ensures Find(s, sep) == None
  {
    if s != "" {
      FindAbsent(s[1..], sep);
    }
    FirstOfPrefix(s, sep);
  }

  /** Right behind a field without the first character of the separator, the separator is found. */
  lemma {:induction false} FindField(field: string, sep: string, rest: string)
    requires sep != "" && sep[0] !in field
    ensures Find(field + sep + rest, sep) == Some(|field|)
  {
    var s := field + sep + rest;
    if field == "" {
      assert s[..|sep|] == sep;
    } else {
      assert s[0] == field[0];
      FirstOfPrefix(s, sep);
      FindField(field[1..], sep, rest);
      assert s[1..] == field[1..] + sep + rest;
    }
  }

  lemma SplitField(field: string, sep: string, rest: string)
    requires sep != "" && sep[0] !in field
    ensures Split(field + sep + rest, sep) == [field] + Split(rest, sep)
  {
    FindField(field, sep, rest);
    var s := field + sep + rest;
    assert s[..|field|] == field;
    assert s[|field| + |sep|..] == rest;
  }

  // ----- lines -----

  /** `read_line`: the text up to and with the next newline, and what follows. */
  function ReadLine(s: string): (r: (string, string))
    ensures s == r.0 + r.1
  {
    if s == "" then ("", "")
    else if s[0] == '\n' then (assert s == s[..1] + s[1..]; (s[..1], s[1..]))
    else
      var (line, rest) := ReadLine(s[1..]);
      assert s == [s[0]] + line + rest by { assert s == [s[0]] + s[1..]; }
      ([s[0]] + line, rest)
  }

  lemma {:induction false} ReadLineStops(line: string, rest: string)
    requires '\n' !in line
    ensures ReadLine(line + "\n" + rest) == (line + "\n", rest)
  {
    var s := line + "\n" + rest;
    if line == "" {
      assert s[..1] == "\n" && s[1..] == rest;
      assert line + "\n" == "\n";
    } else {
      ReadLineStops(line[1..], rest);
      assert s[1..] == line[1..] + "\n" + rest;
      assert [line[0]] + (line[1..] + "\n") == line + "\n";
    }
  }

  // ----- white space -----

  /** The characters with the property White_Space. */
  predicate IsWhitespace(c: char) {
    || c == ' ' || '\t' <= c <= '\r' || c == '\U{85}' || c == '\U{A0}' || c == '\U{1680}'
    || '\U{2000}' <= c <= '\U{200A}' || c == '\U{2028}' || c == '\U{2029}' || c == '\U{202F}' || c == '\U{205F}'
    || c == '\U{3000}'
  }

  function TrimStart(s: string): (r: string)
    ensures |r| <= |s|
  {
    if s != "" && IsWhitespace(s[0]) then TrimStart(s[1..]) else s
  }

  function TrimEnd(s: string): (r: string)
    ensures |r| <= |s|
  {
    if s != "" && IsWhitespace(s[|s| - 1]) then TrimEnd(s[..|s| - 1]) else s
  }

  function Trim(s: string): (r: string)
    ensures |r| <= |s|
  {
    TrimEnd(TrimStart(s))
  }

  /** No white space at either end. */
  predicate Trimmed(s: string) {
    s != "" ==> !IsWhitespace(s[0]) && !IsWhitespace(s[|s| - 1])
  }

  lemma {:induction false} TrimStartResult(s: string)
    ensures TrimStart(s) != "" ==> !IsWhitespace(TrimStart(s)[0]) && TrimStart(s)[|TrimStart(s)| - 1] == s[|s| - 1]
    ensures TrimStart(s) == s <==> s == "" || !IsWhitespace(s[0])
  {
    if s != "" && IsWhitespace(s[0]) {
      TrimStartResult(s[1..]);
    }
  }

  lemma {:induction false} TrimEndResult(s: string)
    ensures TrimEnd(s) != "" ==> !IsWhitespace(TrimEnd(s)[|TrimEnd(s)| - 1]) && TrimEnd(s)[0] == s[0]
    ensures TrimEnd(s) == s <==> s == "" || !IsWhitespace(s[|s| - 1])
  {
    if s != "" && IsWhitespace(s[|s| - 1]) {
      TrimEndResult(s[..|s| - 1]);
    }
  }

  /** Trimming gives trimmed text and changes nothing else. */
  lemma TrimIsTrimmed(s: string)
    ensures Trimmed(Trim(s))
    ensures Trim(s) == s <==> Trimmed(s)
  {
    TrimStartResult(s);
    TrimEndResult(TrimStart(s));
  }

  /** A newline at the end of trimmed text is all that trimming removes. */
  lemma TrimLine(s: string)
    requires Trimmed(s)
    ensures Trim(s + "\n") == s
  {
    var t := s + "\n";
    TrimStartResult(t);
    if s == "" {
      assert t == "\n" && t[1..] == "";
      assert TrimStart(t) == TrimStart(t[1..]) == "";
    } else {
      assert t[0] == s[0] && t[..|t| - 1] == s;
      TrimEndResult(s);
    }
  }

  /** What comes out of trimming does not grow when a newline is appended. */
  lemma {:induction false} TrimNewline(s: string)
    ensures Trim(s + "\n") == Trim(s)
  {
    var t := s + "\n";
    if s == "" {
      assert t == "\n" && t[1..] == "";
      assert TrimStart(t) == TrimStart(t[1..]) == "";
    } else if IsWhitespace(s[0]) {
      assert t[1..] == s[1..] + "\n";
      TrimNewline(s[1..]);
    } else {
      assert t[0] == s[0] && t[..|t| - 1] == s;
    }
  }

  lemma DigitsTrimmed(s: string)
    requires AllDigits(s)
    ensures Trimmed(s)
  {
    if s != "" {
      assert DigitValue(s[0]).Some? && DigitValue(s[|s| - 1]).Some?;
    }
  }

  /** A character that is no digit does not occur among digits. */
  lemma NotAmongDigits(s: string, c: char)
    requires AllDigits(s) && DigitValue(c).None?
    ensures c !in s
  {
  }

  // ----- case -----

  function UpperChar(c: char): char {
    if 'a' <= c <= 'z' then 'A' + (c - 'a') else c
  }

  function ToUppercase(s: string): (r: string)
    ensures |r| == |s|
  {
    seq(|s|, i requires 0 <= i < |s| => UpperChar(s[i]))
  }

  // ----- where newlines can be -----

  /** A newline can only be the last character. */
  ghost predicate OneLine(s: string) {
    forall i :: 0 <= i < |s| - 1 ==> s[i] != '\n'
  }

  lemma {:induction false} ReadLineIsOneLine(s: string)
    ensures OneLine(ReadLine(s).0)
  {
    if s != "" && s[0] != '\n' {
      ReadLineIsOneLine(s[1..]);
      var line := ReadLine(s[1..]).0;
      assert forall i :: 0 < i < |line| + 1 ==> ([s[0]] + line)[i] == line[i - 1];
    }
  }

  lemma {:induction false} PiecesAreOneLine(s: string, sep: string)
    requires sep != "" && OneLine(s)
    ensures forall i :: 0 <= i < |Split(s, sep)| ==> OneLine(Split(s, sep)[i])
    decreases |s|
  {
    match Find(s, sep)
    case None =>
    case Some(i) =>
      var rest := s[i + |sep|..];
      assert OneLine(rest) by {
        assert forall j :: 0 <= j < |rest| ==> rest[j] == s[i + |sep| + j];
      }
      assert OneLine(s[..i]);
      PiecesAreOneLine(rest, sep);
      hide OneLine;
  }

  /** Trimming one line leaves no newline. */
  lemma TrimmedIsOneLine(s: string)
    requires OneLine(s)
    ensures '\n' !in Trim(s)
  {
    TrimStartIsOneLine(s);
    TrimEndIsOneLine(TrimStart(s));
  }

  lemma {:induction false} TrimStartIsOneLine(s: string)
    requires OneLine(s)
    ensures OneLine(TrimStart(s))
  {
    if s != "" && IsWhitespace(s[0]) {
      TrimStartIsOneLine(s[1..]);
    }
  }

  lemma {:induction false} TrimEndIsOneLine(s: string)
    requires OneLine(s)
    ensures '\n' !in TrimEnd(s)
  {
    if s != "" && IsWhitespace(s[|s| - 1]) {
      TrimEndIsOneLine(s[..|s| - 1]);
    }
  }
}
