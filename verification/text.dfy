/** The pieces of string handling the parsers use, on ASCII text. */
module Text {
  import opened Wrappers
  import opened Arithmetic

  predicate IsSpace(c: char) {
    c == ' ' || '\t' <= c <= '\r'
  }

  /** The white space among the ASCII characters. */
  lemma SpacesAre(c: char)
    ensures IsSpace(c) <==> c in [' ', '\t', '\n', '\U{000B}', '\U{000C}', '\r']
  {
  }

  predicate AllSpace(s: string) { forall k | 0 <= k < |s| :: IsSpace(s[k]) }

  function TrimStart(s: string): string {
    if s != "" && IsSpace(s[0]) then TrimStart(s[1..]) else s
  }

  function TrimEnd(s: string): string {
    if s != "" && IsSpace(s[|s| - 1]) then TrimEnd(s[..|s| - 1]) else s
  }

  function Trim(s: string): string {
    TrimEnd(TrimStart(s))
  }

  /** No space at either end. */
  predicate Tight(s: string) {
    s == "" || (!IsSpace(s[0]) && !IsSpace(s[|s| - 1]))
  }

  lemma TightIsTrimmed(s: string)
    requires Tight(s)
    ensures Trim(s) == s
  {
  }

  lemma TrimmedIsTight(s: string)
    ensures Tight(Trim(s))
  {
    TrimStartIsTight(s);
    TrimEndIsTight(TrimStart(s));
  }

  lemma {:induction false} TrimStartIsTight(s: string)
    ensures TrimStart(s) == "" || !IsSpace(TrimStart(s)[0])
  {
    if s != "" && IsSpace(s[0]) {
      TrimStartIsTight(s[1..]);
    }
  }

  lemma {:induction false} TrimEndIsTight(s: string)
    requires s == "" || !IsSpace(s[0])
    ensures Tight(TrimEnd(s))
  {
    if s != "" && IsSpace(s[|s| - 1]) {
      TrimEndIsTight(s[..|s| - 1]);
    }
  }

  lemma {:induction false} TrimStartIs(s: string) returns (gap: string)
    ensures AllSpace(gap) && s == gap + TrimStart(s)
  {
    if s != "" && IsSpace(s[0]) {
      var rest := TrimStartIs(s[1..]);
      gap := [s[0]] + rest;
      assert s == [s[0]] + s[1..];
    } else {
      gap := "";
    }
  }

  lemma {:induction false} TrimEndIs(s: string) returns (gap: string)
    ensures AllSpace(gap) && s == TrimEnd(s) + gap
  {
    if s != "" && IsSpace(s[|s| - 1]) {
      var rest := TrimEndIs(s[..|s| - 1]);
      gap := rest + [s[|s| - 1]];
      assert s == s[..|s| - 1] + [s[|s| - 1]];
    } else {
      gap := "";
    }
  }

  /** Trimming takes away space, and nothing else, at both ends. */
  lemma TrimIs(s: string) returns (before: string, after: string)
    ensures AllSpace(before) && AllSpace(after) && s == before + Trim(s) + after && Tight(Trim(s))
  {
    before := TrimStartIs(s);
    after := TrimEndIs(TrimStart(s));
    TrimmedIsTight(s);
  }

  /** The parts between separators; there is always at least one. */
  function Split(s: string, sep: char): (parts: seq<string>)
    ensures |parts| > 0
  {
    if s == "" then [""]
    else
      var rest := Split(s[1..], sep);
      if s[0] == sep then [""] + rest else [[s[0]] + rest[0]] + rest[1..]
  }

  function Join(parts: seq<string>, sep: char): string {
    if |parts| == 0 then ""
    else if |parts| == 1 then parts[0]
    else parts[0] + [sep] + Join(parts[1..], sep)
  }

  lemma {:induction false} SplitPart(part: string, rest: string, sep: char)
    requires sep !in part
    ensures Split(part + [sep] + rest, sep) == [part] + Split(rest, sep)
    ensures Split(part, sep) == [part]
  {
    if part != "" {
      assert part == [part[0]] + part[1..];
      SplitPart(part[1..], rest, sep);
      assert (part + [sep] + rest)[1..] == part[1..] + [sep] + rest;
    } else {
      assert (part + [sep] + rest)[1..] == rest;
    }
  }

  /** Splitting undoes joining when no part holds the separator. */
  lemma {:induction false} SplitJoin(parts: seq<string>, sep: char)
    requires |parts| > 0 && forall p | p in parts :: sep !in p
    ensures Split(Join(parts, sep), sep) == parts
  {
    assert parts == [parts[0]] + parts[1..];
    if |parts| == 1 {
      SplitPart(parts[0], "", sep);
    } else {
      SplitPart(parts[0], Join(parts[1..], sep), sep);
      SplitJoin(parts[1..], sep);
    }
  }

  /** The text before and after the first `sep`. */
  function SplitOnce(s: string, sep: char): (r: Option<(string, string)>)
    ensures r.Some? ==> s == r.value.0 + [sep] + r.value.1 && sep !in r.value.0
    ensures r.None? <==> sep !in s
  {
    if s == "" then None
    else if s[0] == sep then Some(("", s[1..]))
    else
      match SplitOnce(s[1..], sep)
      case None => None
      case Some((before, after)) => Some(([s[0]] + before, after))
  }

  lemma {:induction false} SplitOnceAt(before: string, after: string, sep: char)
    requires sep !in before
    ensures SplitOnce(before + [sep] + after, sep) == Some((before, after))
  {
    var s := before + [sep] + after;
    if before != "" {
      assert before == [before[0]] + before[1..];
      assert s[1..] == before[1..] + [sep] + after;
      SplitOnceAt(before[1..], after, sep);
    } else {
      assert s[1..] == after;
    }
  }

  function StripPrefix(s: string, prefix: string): (r: Option<string>)
    ensures r.Some? ==> s == prefix + r.value
    ensures r.Some? <==> prefix <= s
  {
    if prefix <= s then Some(s[|prefix|..]) else None
  }

  lemma NoOtherSuffix(s: string, suffix: string)
    ensures (exists rest :: s == rest + suffix) ==> |suffix| <= |s| && s[|s| - |suffix|..] == suffix
  {
  }

  function StripSuffix(s: string, suffix: string): (r: Option<string>)
    ensures r.Some? ==> s == r.value + suffix
    ensures r.None? ==> forall rest :: s != rest + suffix
  {
    NoOtherSuffix(s, suffix);
    if |suffix| <= |s| && s[|s| - |suffix|..] == suffix then Some(s[..|s| - |suffix|]) else None
  }

  // ----- numbers --------------------------------------------------------------------

  /** The value of a digit, for radixes up to 16. */
  function Digit(c: char): Option<nat> {
    if '0' <= c <= '9' then Some(c as nat - '0' as nat)
    else if 'a' <= c <= 'f' then Some(c as nat - 'a' as nat + 10)
    else if 'A' <= c <= 'F' then Some(c as nat - 'A' as nat + 10)
    else None
  }

  /** The digits, in either case, and no other character. */
  lemma DigitsAre(c: char, d: nat)
    ensures Digit(c) == Some(d) <==> d < 16 && (c == "0123456789abcdef"[d] || c == "0123456789ABCDEF"[d])
  {
  }

  predicate IsDigit(c: char, radix: nat) {
    Digit(c).Some? && Digit(c).value < radix
  }

  predicate AllDigits(s: string, radix: nat) {
    forall k | 0 <= k < |s| :: IsDigit(s[k], radix)
  }

  function NumberOf(s: string, radix: nat): nat
    requires AllDigits(s, radix)
  {
    if s == "" then 0 else NumberOf(s[..|s| - 1], radix) * radix + Digit(s[|s| - 1]).value
  }

  function Unsigned(s: string): string {
    if s != "" && s[0] == '+' then s[1..] else s
  }

  /** `parse` and `from_str_radix` of an unsigned integer type with the given maximum. */
  function ParseUnsigned(s: string, radix: nat, max: nat): (n: Option<nat>)
    ensures n.Some? ==> n.value <= max
  {
    var digits := Unsigned(s);
    if digits == "" || !AllDigits(digits, radix) || NumberOf(digits, radix) > max then None
    else Some(NumberOf(digits, radix))
  }

  /** A numeral: digits only, at least one. */
  predicate IsNumeral(s: string, radix: nat, n: nat) {
    s != "" && AllDigits(s, radix) && NumberOf(s, radix) == n
  }

  /** What a numeral stands for: a digit for itself, and more digits at the end shift it up. */
  lemma {:induction false} NumeralValue(a: string, b: string, radix: nat)
    requires AllDigits(a, radix) && AllDigits(b, radix)
    ensures AllDigits(a + b, radix)
    ensures NumberOf(a + b, radix) == NumberOf(a, radix) * Power(radix, |b|) + NumberOf(b, radix)
    ensures |a| == 1 ==> NumberOf(a, radix) == Digit(a[0]).value
  {
    assert |a| == 1 ==> a[..0] == "";
    if b == "" {
      assert a + b == a;
    } else {
      var front, d := b[..|b| - 1], Digit(b[|b| - 1]).value;
      assert (a + b)[..|a + b| - 1] == a + front;
      NumeralValue(a, front, radix);
      ShiftUp(NumberOf(a, radix), Power(radix, |front|), NumberOf(front, radix), radix, d);
    }
  }

  lemma ShiftUp(x: nat, p: nat, y: nat, radix: nat, d: nat)
    ensures (x * p + y) * radix + d == x * (radix * p) + (y * radix + d)
  {
  }

  /** The numbers that are accepted: a numeral, perhaps after a plus sign, that fits. */
  lemma ParsesNumerals(s: string, radix: nat, max: nat, n: nat)
    requires radix <= 16
    ensures ParseUnsigned(s, radix, max) == Some(n) <==>
            n <= max && exists digits :: (s == digits || s == "+" + digits) && IsNumeral(digits, radix, n)
  {
    if ParseUnsigned(s, radix, max) == Some(n) {
      var digits := Unsigned(s);
      assert s == digits || s == "+" + digits;
      assert IsNumeral(digits, radix, n);
    }
    if n <= max && exists digits :: (s == digits || s == "+" + digits) && IsNumeral(digits, radix, n) {
      var digits :| (s == digits || s == "+" + digits) && IsNumeral(digits, radix, n);
      assert IsDigit(digits[0], radix);
      assert Unsigned(s) == digits;
    }
  }

  function DigitChar(d: nat): (c: char)
    requires d < 16
    ensures Digit(c) == Some(d) && !IsSpace(c) && c != '+' && c != ',' && c != '-' && c != 'x' && c != 'X'
  {
    "0123456789abcdef"[d]
  }

  /** `n` in exactly `width` digits. */
  function Digits(n: nat, radix: nat, width: nat): (s: string)
    requires 2 <= radix <= 16
    ensures |s| == width && AllDigits(s, radix)
    ensures forall k | 0 <= k < |s| :: !IsSpace(s[k]) && s[k] != '+' && s[k] != ',' && s[k] != '-' && s[k] != 'x' && s[k] != 'X'
  {
    if width == 0 then "" else Digits(n / radix, radix, width - 1) + [DigitChar(n % radix)]
  }

  lemma {:induction false} NumberOfDigits(n: nat, radix: nat, width: nat)
    requires 2 <= radix <= 16 && n < Power(radix, width)
    ensures NumberOf(Digits(n, radix, width), radix) == n
    decreases width
  {
    if width == 0 {
    } else {
      DivLess(n, radix, Power(radix, width - 1));
      hide Power;
      var front, last := Digits(n / radix, radix, width - 1), DigitChar(n % radix);
      assert (front + [last])[..width - 1] == front;
      NumberOfDigits(n / radix, radix, width - 1);
      DivMod(n, radix);
    }
  }

  /** Printed digits parse back. */
  lemma ParseDigits(n: nat, radix: nat, width: nat, max: nat)
    requires 2 <= radix <= 16 && width > 0 && n < Power(radix, width) && n <= max
    ensures ParseUnsigned(Digits(n, radix, width), radix, max) == Some(n)
  {
    NumberOfDigits(n, radix, width);
  }
}
