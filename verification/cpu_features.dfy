/** Cache sizes as sysfs spells them: a number, perhaps a space, perhaps a unit, in any case. */
module CpuFeatures {
  import opened Wrappers
  import opened Text

  function ToUpper(c: char): char {
    if 'a' <= c <= 'z' then (c as int - 'a' as int + 'A' as int) as char else c
  }

  function Upper(s: string): (u: string)
    ensures |u| == |s| && forall i | 0 <= i < |s| :: u[i] == ToUpper(s[i])
  {
    if s == "" then "" else [ToUpper(s[0])] + Upper(s[1..])
  }

  const LOWER := "abcdefghijklmnopqrstuvwxyz"
  const UPPER := "ABCDEFGHIJKLMNOPQRSTUVWXYZ"

  /** The same letter, or the same character that is no letter. */
  predicate SameLetter(c: char, d: char) {
    c == d || exists i :: 0 <= i < 26 && c in [LOWER[i], UPPER[i]] && d in [LOWER[i], UPPER[i]]
  }

  lemma LettersAt(i: int, c: char)
    requires 0 <= i < 26
    ensures c in [LOWER[i], UPPER[i]] <==> ToUpper(c) == UPPER[i]
    ensures UPPER[i] as int == 'A' as int + i
  {
    LetterCodes(i);
    hide LOWER, UPPER;
  }

  lemma LetterCodes(i: int)
    requires 0 <= i < 26
    ensures LOWER[i] as int == 'a' as int + i && UPPER[i] as int == 'A' as int + i
  {
  }

  lemma UpperIff(c: char, d: char)
    ensures ToUpper(c) == ToUpper(d) <==> SameLetter(c, d)
  {
    if 'A' <= ToUpper(c) <= 'Z' && ToUpper(c) == ToUpper(d) {
      var i := ToUpper(c) as int - 'A' as int;
      LettersAt(i, c);
      LettersAt(i, d);
    }
    if i :| 0 <= i < 26 && c in [LOWER[i], UPPER[i]] && d in [LOWER[i], UPPER[i]] {
      LettersAt(i, c);
      LettersAt(i, d);
    }
  }

  lemma {:induction false} TrimStartUpper(s: string)
    ensures TrimStart(Upper(s)) == Upper(TrimStart(s))
  {
    if s == "" {
    } else {
      assert Upper(s)[0] == ToUpper(s[0]) && Upper(s)[1..] == Upper(s[1..]);
      TrimStartUpper(s[1..]);
    }
  }

  lemma {:induction false} TrimEndUpper(s: string)
    ensures TrimEnd(Upper(s)) == Upper(TrimEnd(s))
  {
    if s == "" {
    } else {
      assert Upper(s)[..|s| - 1] == Upper(s[..|s| - 1]);
      TrimEndUpper(s[..|s| - 1]);
    }
  }

  /** Upper or lower case make no difference, letter by letter. */
  lemma CaseDoesNotMatter(a: string, b: string, usizeMax: nat)
    requires |a| == |b| && forall i | 0 <= i < |a| :: SameLetter(a[i], b[i])
    ensures ParseCacheValue(a, usizeMax) == ParseCacheValue(b, usizeMax)
  {
    hide ParseTrimmed, SameLetter, ToUpper;
    forall i | 0 <= i < |a| ensures Upper(a)[i] == Upper(b)[i] {
      UpperIff(a[i], b[i]);
    }
    assert Upper(a) == Upper(b);
    TrimStartUpper(a);
    TrimEndUpper(TrimStart(a));
    TrimStartUpper(b);
    TrimEndUpper(TrimStart(b));
  }

  function CheckedMul(v: Option<nat>, factor: nat, usizeMax: nat): Option<nat> {
    if v.Some? && v.value * factor <= usizeMax then Some(v.value * factor) else None
  }

  /** The first of three suffixes that is there, stripped. */
  function StripOne(s: string, first: string, second: string, third: string): Option<string> {
    if StripSuffix(s, first).Some? then StripSuffix(s, first)
    else if StripSuffix(s, second).Some? then StripSuffix(s, second)
    else StripSuffix(s, third)
  }

  /** `parse_cache_value`: suffix tests in a fixed order, each settling the matter. */
  function ParseCacheValue(raw: string, usizeMax: nat): Option<nat> {
    ParseTrimmed(Upper(Trim(raw)), usizeMax)
  }

  function ParseTrimmed(trimmed: string, usizeMax: nat): Option<nat> {
    if trimmed == "" then None
    else
      match StripOne(trimmed, "GIB", "GB", "G")
      case Some(val) =>
        var size := ParseUnsigned(Trim(val), 10, usizeMax);
        CheckedMul(CheckedMul(CheckedMul(size, 1024, usizeMax), 1024, usizeMax), 1024, usizeMax)
      case None =>
        match StripOne(trimmed, "MIB", "MB", "M")
        case Some(val) =>
          var size := ParseUnsigned(Trim(val), 10, usizeMax);
          CheckedMul(CheckedMul(size, 1024, usizeMax), 1024, usizeMax)
        case None =>
          match StripOne(trimmed, "KIB", "KB", "K")
          case Some(val) => CheckedMul(ParseUnsigned(Trim(val), 10, usizeMax), 1024, usizeMax)
          case None =>
            match StripOne(trimmed, "BYTES", "B", "B")
            case Some(val) => ParseUnsigned(Trim(val), 10, usizeMax)
            case None => ParseUnsigned(trimmed, 10, usizeMax)
  }

  // ----- the grammar ------------------------------------------------------------------

  datatype Unit = Plain | Bytes | B | K | KB | KIB | M | MB | MIB | G | GB | GIB
  {
    function Text(): string {
      match this
      case Plain => "" case Bytes => "BYTES" case B => "B"
      case K => "K" case KB => "KB" case KIB => "KIB"
      case M => "M" case MB => "MB" case MIB => "MIB"
      case G => "G" case GB => "GB" case GIB => "GIB"
    }

    function Size(): nat {
      match this
      case Plain => 1 case Bytes => 1 case B => 1
      case K => 1024 case KB => 1024 case KIB => 1024
      case M => 1024 * 1024 case MB => 1024 * 1024 case MIB => 1024 * 1024
      case G => 1024 * 1024 * 1024 case GB => 1024 * 1024 * 1024 case GIB => 1024 * 1024 * 1024
    }
  }

  /** `raw` is, but for case and outer space, a number that `usize` parsing accepts, optional space,
      and a unit. */
  predicate Spells(raw: string, number: string, unit: Unit, n: nat, usizeMax: nat) {
    Upper(Trim(raw)) == number + unit.Text() && ParseUnsigned(Trim(number), 10, usizeMax) == Some(n)
  }

  predicate IsLetter(c: char) { 'A' <= c <= 'Z' }

  predicate Ends(s: string, suffix: string) { StripSuffix(s, suffix).Some? }

  /** Two strings that differ at a distance from the end do not end alike. */
  lemma EndsDiffer(s: string, suffix: string, k: nat)
    requires k < |suffix| && k < |s| && s[|s| - 1 - k] != suffix[|suffix| - 1 - k]
    ensures !Ends(s, suffix)
  {
    if |suffix| <= |s| {
      assert s[|s| - |suffix|..][|suffix| - 1 - k] == s[|s| - 1 - k];
    }
  }

  lemma EndsInItself(s: string)
    ensures Ends(s, s)
  {
    assert s[|s| - |s|..] == s;
  }

  /** After something that does not end in a letter, only the unit decides which suffixes fit. */
  lemma EndsInUnit(number: string, unit: string, suffix: string)
    requires number != "" && !IsLetter(number[|number| - 1])
    requires forall k | 0 <= k < |suffix| :: IsLetter(suffix[k])
    ensures Ends(number + unit, suffix) <==> Ends(unit, suffix)
  {
    var s := number + unit;
    if |unit| < |suffix| <= |s| {
      var k := |suffix| - |unit| - 1;
      assert s[|s| - |suffix|..][k] == number[|number| - 1] && IsLetter(suffix[k]);
    } else if |suffix| <= |unit| {
      assert s[|s| - |suffix|..] == unit[|unit| - |suffix|..];
    }
  }

  lemma {:induction false} TrimStartKeepsLast(s: string)
    requires TrimStart(s) != ""
    ensures s != "" && TrimStart(s)[|TrimStart(s)| - 1] == s[|s| - 1]
  {
    if IsSpace(s[0]) {
      TrimStartKeepsLast(s[1..]);
    }
  }

  /** What is parsed as a number ends in a digit, and what it is trimmed from in no letter. */
  lemma NumberEndsInNoLetter(number: string, usizeMax: nat)
    requires ParseUnsigned(Trim(number), 10, usizeMax).Some?
    ensures number != "" && !IsLetter(number[|number| - 1])
  {
    var t, digits := Trim(number), Unsigned(Trim(number));
    assert IsDigit(digits[|digits| - 1], 10);
    assert t[|t| - 1] == digits[|digits| - 1];
    TrimStartKeepsLast(number);
  }

  /** The unit a string ends in, by the order of the tests. */
  function UnitOf(s: string): Unit {
    if Ends(s, GIB.Text()) then GIB else if Ends(s, GB.Text()) then GB else if Ends(s, G.Text()) then G
    else if Ends(s, MIB.Text()) then MIB else if Ends(s, MB.Text()) then MB else if Ends(s, M.Text()) then M
    else if Ends(s, KIB.Text()) then KIB else if Ends(s, KB.Text()) then KB else if Ends(s, K.Text()) then K
    else if Ends(s, Bytes.Text()) then Bytes else if Ends(s, B.Text()) then B else Plain
  }

  /** The order of the tests never picks a wrong unit. */
  lemma UnitIsFound(number: string, unit: Unit)
    requires number != "" && !IsLetter(number[|number| - 1])
    ensures UnitOf(number + unit.Text()) == unit
  {
    hide StripSuffix, Ends;
    UnitOfItself(unit);
    forall other: Unit ensures Ends(number + unit.Text(), other.Text()) <==> Ends(unit.Text(), other.Text()) {
      EndsInUnit(number, unit.Text(), other.Text());
    }
    SameEndsSameUnit(number + unit.Text(), unit.Text());
  }

  /** Among the unit texts, only "B" ends another one. */
  lemma OtherDoesNotEnd(unit: Unit, other: Unit)
    requires other != unit && other != Plain && (other == B ==> |unit.Text()| < 2)
    ensures !Ends(unit.Text(), other.Text())
  {
    hide StripSuffix, Ends;
    var s, t := unit.Text(), other.Text();
    if |t| <= |s| {
      if s[|s| - 1] != t[|t| - 1] {
        EndsDiffer(s, t, 0);
      } else if s[|s| - 2] != t[|t| - 2] {
        EndsDiffer(s, t, 1);
      } else {
        EndsDiffer(s, t, 2);
      }
    } else {
      LongerDoesNotEnd(s, t);
    }
  }

  lemma LongerDoesNotEnd(s: string, suffix: string)
    requires |suffix| > |s|
    ensures !Ends(s, suffix)
  {
  }

  /** A shorter unit text ends a longer one only if it is tried later. */
  lemma UnitOfItself(unit: Unit)
    ensures UnitOf(unit.Text()) == unit
  {
    EndsInItself(unit.Text());
    assert unit.Plain? || unit.B? ==> |unit.Text()| < 2;
    hide StripSuffix, Ends, Unit.Text;
    NotEndedBy(unit, GIB); NotEndedBy(unit, GB); NotEndedBy(unit, G);
    NotEndedBy(unit, MIB); NotEndedBy(unit, MB); NotEndedBy(unit, M);
    NotEndedBy(unit, KIB); NotEndedBy(unit, KB); NotEndedBy(unit, K);
    NotEndedBy(unit, Bytes); NotEndedBy(unit, B);
  }

  lemma NotEndedBy(unit: Unit, other: Unit)
    requires other != Plain
    ensures other != unit && (other == B ==> |unit.Text()| < 2) ==> !Ends(unit.Text(), other.Text())
  {
    hide StripSuffix, Ends, Unit.Text;
    if other != unit && (other == B ==> |unit.Text()| < 2) {
      OtherDoesNotEnd(unit, other);
    }
  }

  lemma SameEndsSameUnit(s: string, t: string)
    requires forall other: Unit :: Ends(s, other.Text()) <==> Ends(t, other.Text())
    ensures UnitOf(s) == UnitOf(t)
  {
    hide StripSuffix, Ends;
    assert Ends(s, GIB.Text()) <==> Ends(t, GIB.Text());
    assert Ends(s, GB.Text()) <==> Ends(t, GB.Text());
    assert Ends(s, G.Text()) <==> Ends(t, G.Text());
    assert Ends(s, MIB.Text()) <==> Ends(t, MIB.Text());
    assert Ends(s, MB.Text()) <==> Ends(t, MB.Text());
    assert Ends(s, M.Text()) <==> Ends(t, M.Text());
    assert Ends(s, KIB.Text()) <==> Ends(t, KIB.Text());
    assert Ends(s, KB.Text()) <==> Ends(t, KB.Text());
    assert Ends(s, K.Text()) <==> Ends(t, K.Text());
    assert Ends(s, Bytes.Text()) <==> Ends(t, Bytes.Text());
    assert Ends(s, B.Text()) <==> Ends(t, B.Text());
  }

  lemma UnitEnds(t: string)
    ensures Ends(t, UnitOf(t).Text())
  {
    hide Ends;
    assert Ends(t, "") by { EndSplits(t, ""); }
  }

  lemma EndSplits(t: string, suffix: string)
    requires |suffix| <= |t|
    ensures Ends(t, suffix) ==> t == t[..|t| - |suffix|] + suffix && StripSuffix(t, suffix) == Some(t[..|t| - |suffix|])
    ensures suffix == "" ==> Ends(t, suffix) && t[..|t| - |suffix|] == t
  {
  }

  /** What stands before the unit. */
  function NumberPart(t: string): (number: string)
    ensures t == number + UnitOf(t).Text()
  {
    UnitEnds(t);
    EndSplits(t, UnitOf(t).Text());
    t[..|t| - |UnitOf(t).Text()|]
  }

  /** The code, by the unit it finds. */
  lemma ParsesByUnit(t: string, usizeMax: nat)
    requires Tight(t)
    ensures ParseTrimmed(t, usizeMax) ==
            CheckedMul(ParseUnsigned(Trim(NumberPart(t)), 10, usizeMax), UnitOf(t).Size(), usizeMax)
  {
    var n := ParseUnsigned(Trim(NumberPart(t)), 10, usizeMax);
    StepwiseProducts(n, usizeMax);
    TightIsTrimmed(t);
    if t == "" {
      EmptyIsRefused(usizeMax);
    } else {
      StripsToNumber(t);
      hide Trim, ParseUnsigned, Tight, StripSuffix, Ends, NumberPart, CheckedMul, Unit.Text;
    }
  }

  /** The three tests of a group find the unit, when it is in the group. */
  lemma StripsToNumber(t: string)
    ensures var u, number := UnitOf(t), Some(NumberPart(t));
            && StripOne(t, "GIB", "GB", "G") == (if u.GIB? || u.GB? || u.G? then number else None)
            && (u.Size() < 1024 * 1024 * 1024 ==>
                  StripOne(t, "MIB", "MB", "M") == if u.MIB? || u.MB? || u.M? then number else None)
            && (u.Size() < 1024 * 1024 ==>
                  StripOne(t, "KIB", "KB", "K") == if u.KIB? || u.KB? || u.K? then number else None)
            && (u.Size() < 1024 ==>
                  StripOne(t, "BYTES", "B", "B") == if u.Bytes? || u.B? then number else None)
            && (u.Plain? ==> NumberPart(t) == t)
  {
    StripsUnit(t);
    hide StripSuffix, NumberPart;
  }

  lemma StripsUnit(t: string)
    ensures StripSuffix(t, UnitOf(t).Text()) == Some(NumberPart(t))
    ensures UnitOf(t).Plain? ==> NumberPart(t) == t
  {
    UnitEnds(t);
    EndSplits(t, UnitOf(t).Text());
    hide StripSuffix, UnitOf;
  }

  lemma EmptyIsRefused(usizeMax: nat)
    ensures UnitOf("") == Plain && ParseUnsigned(Trim(""), 10, usizeMax) == None
  {
  }

  /** Checking after each factor refuses exactly what checking the product refuses. */
  lemma StepwiseProducts(n: Option<nat>, usizeMax: nat)
    requires n.Some? ==> n.value <= usizeMax
    ensures CheckedMul(n, 1, usizeMax) == n
    ensures CheckedMul(CheckedMul(n, 1024, usizeMax), 1024, usizeMax) == CheckedMul(n, 1024 * 1024, usizeMax)
    ensures CheckedMul(CheckedMul(CheckedMul(n, 1024, usizeMax), 1024, usizeMax), 1024, usizeMax) ==
            CheckedMul(n, 1024 * 1024 * 1024, usizeMax)
  {
  }

  /** Sound and complete for the grammar: the value is the number times its unit exactly when that
      fits `usize`, and everything else is refused. */
  lemma ParsesTheGrammar(raw: string, usizeMax: nat, v: nat)
    ensures ParseCacheValue(raw, usizeMax) == Some(v) <==>
            v <= usizeMax && exists number, unit, n: nat ::
              Spells(raw, number, unit, n, usizeMax) && v == n * unit.Size()
  {
    var t := Upper(Trim(raw));
    TrimmedIsTight(raw);
    ParsesByUnit(t, usizeMax);
    hide ParseTrimmed, UnitOf, ParseUnsigned, Trim, Upper, Unit.Text;
    if v <= usizeMax && exists number, unit, n: nat :: Spells(raw, number, unit, n, usizeMax) && v == n * unit.Size() {
      var number, unit, n: nat :| Spells(raw, number, unit, n, usizeMax) && v == n * unit.Size();
      NumberEndsInNoLetter(number, usizeMax);
      UnitIsFound(number, unit);
      assert NumberPart(t) == number;
    }
    if ParseCacheValue(raw, usizeMax) == Some(v) {
      var unit := UnitOf(t);
      var number := NumberPart(t);
      assert Spells(raw, number, unit, ParseUnsigned(Trim(number), 10, usizeMax).value, usizeMax);
    }
  }
}
