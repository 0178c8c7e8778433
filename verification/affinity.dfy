/** CPU affinity masks: parsing the kernel's hexadecimal group notation. */
module Affinity {
  import opened Wrappers
  import opened Arithmetic
  import opened Bits
  import opened Text

  const GROUP_BITS: nat := 32
  const U32_LIMIT: nat := 0x1_0000_0000

  datatype AffinityError = MalformedChunk | CoreOverflow

  /** One group of the mask, with or without a hexadecimal prefix. */
  function GroupValue(chunk: string): Option<nat> {
    var clean := Trim(chunk);
    var hex :=
      match StripPrefix(clean, "0x")
      case Some(rest) => rest
      case None =>
        match StripPrefix(clean, "0X")
        case Some(rest) => rest
        case None => clean;
    ParseUnsigned(hex, 16, U64_MAX)
  }

  predicate IsPrefix(prefix: string) { prefix == "" || prefix == "0x" || prefix == "0X" }

  /** But for space around it the chunk is the prefix and a hexadecimal numeral, perhaps with a plus sign. */
  ghost predicate SpellsGroup(chunk: string, v: nat, prefix: string, digits: string) {
    && IsPrefix(prefix) && IsNumeral(digits, 16, v)
    && (Trim(chunk) == prefix + digits || Trim(chunk) == prefix + "+" + digits)
  }

  /** Exactly the numerals that fit 64 bits are accepted, whatever their number of digits, and read as
      what they spell; anything else is refused. */
  lemma GroupIff(chunk: string, v: nat)
    ensures GroupValue(chunk) == Some(v) <==> v <= U64_MAX && exists prefix, digits :: SpellsGroup(chunk, v, prefix, digits)
  {
    hide GroupValue, SpellsGroup;
    if GroupValue(chunk) == Some(v) {
      var prefix, digits := AcceptedIsSpelled(chunk, v);
    }
    if v <= U64_MAX && exists prefix, digits :: SpellsGroup(chunk, v, prefix, digits) {
      var prefix, digits :| SpellsGroup(chunk, v, prefix, digits);
      SpelledIsAccepted(chunk, v, prefix, digits);
    }
  }

  lemma AcceptedIsSpelled(chunk: string, v: nat) returns (prefix: string, digits: string)
    requires GroupValue(chunk) == Some(v)
    ensures v <= U64_MAX && SpellsGroup(chunk, v, prefix, digits)
  {
    GroupValueIs(chunk);
    var clean := Trim(chunk);
    prefix := PrefixOf(clean);
    var hex := clean[|prefix|..];
    hide Trim, IsNumeral, ParseUnsigned, GroupValue, IsPrefix, PrefixOf;
    ParsesNumerals(hex, 16, U64_MAX, v);
    digits :| (hex == digits || hex == "+" + digits) && IsNumeral(digits, 16, v);
    Rejoin(clean, prefix);
    JoinThree(prefix, "+", digits);
  }

  lemma Rejoin(s: string, prefix: string)
    requires prefix <= s
    ensures s == prefix + s[|prefix|..]
  {
  }

  lemma JoinThree(a: string, b: string, c: string)
    ensures a + b + c == a + (b + c)
  {
  }

  lemma SpelledIsAccepted(chunk: string, v: nat, prefix: string, digits: string)
    requires SpellsGroup(chunk, v, prefix, digits) && v <= U64_MAX
    ensures GroupValue(chunk) == Some(v)
  {
    GroupValueIs(chunk);
    var clean := Trim(chunk);
    hide Trim, IsNumeral, ParseUnsigned, GroupValue, IsPrefix, PrefixOf;
    OnePrefix(clean, prefix, digits, v);
    ParsesNumerals(clean[|prefix|..], 16, U64_MAX, v);
  }

  lemma GroupValueIs(chunk: string)
    ensures var clean := Trim(chunk);
            GroupValue(chunk) == ParseUnsigned(clean[|PrefixOf(clean)|..], 16, U64_MAX)
  {
    hide Trim, ParseUnsigned;
    assert Trim(chunk)[0..] == Trim(chunk);
  }

  function PrefixOf(clean: string): (prefix: string)
    ensures IsPrefix(prefix) && prefix <= clean
  {
    if "0x" <= clean then "0x" else if "0X" <= clean then "0X" else ""
  }

  /** A numeral does not begin like a prefix, so there is one way to take one off. */
  lemma OnePrefix(clean: string, p: string, d: string, v: nat)
    requires IsPrefix(p) && IsNumeral(d, 16, v) && (clean == p + d || clean == p + "+" + d)
    ensures PrefixOf(clean) == p && (clean[|p|..] == d || clean[|p|..] == "+" + d)
  {
    assert IsDigit(d[0], 16) && (|d| > 1 ==> IsDigit(d[1], 16));
    assert p + "+" + d == p + ("+" + d);
    var rest := if clean == p + d then d else "+" + d;
    assert clean == p + rest && rest[0] != 'x' && (|rest| > 1 ==> rest[1] != 'x' && rest[1] != 'X');
    if p == "" {
      assert clean == rest;
    } else {
      assert clean[0] == p[0] && clean[1] == p[1];
    }
  }

  /** The groups from the right, least significant first. */
  function GroupValues(content: string): seq<Option<nat>> {
    ValuesOf(Split(Trim(content), ','))
  }

  function ValuesOf(parts: seq<string>): (values: seq<Option<nat>>)
    ensures |values| == |parts|
  {
    if parts == [] then [] else [GroupValue(parts[|parts| - 1])] + ValuesOf(parts[..|parts| - 1])
  }

  lemma {:induction false} ValueAt(parts: seq<string>, g: nat)
    requires g < |parts|
    ensures ValuesOf(parts)[g] == GroupValue(parts[|parts| - 1 - g])
  {
    hide GroupValue;
    if g == 0 {
    } else {
      ValueAt(parts[..|parts| - 1], g - 1);
    }
  }

  lemma ValuesOfAppend(higher: seq<string>, last: string)
    ensures ValuesOf(higher + [last]) == [GroupValue(last)] + ValuesOf(higher)
  {
    hide GroupValue;
    assert (higher + [last])[..|higher|] == higher;
  }

  /** The number the groups spell out: each counts modulo 2^32, in its place. */
  function MaskValue(values: seq<Option<nat>>): nat {
    if values == [] then 0
    else (if values[0].Some? then values[0].value % U32_LIMIT else 0) + U32_LIMIT * MaskValue(values[1..])
  }

  lemma Power32()
    ensures Power(2, GROUP_BITS) == U32_LIMIT
  {
    assert Power(2, 8) == 256;
    PowerSplit(8, 8);
    PowerSplit(16, 16);
  }

  /** A bit of the whole mask is a bit of its group. */
  lemma {:induction false} BitOfGroup(values: seq<Option<nat>>, g: nat, b: nat)
    requires g < |values| && b < GROUP_BITS && values[g].Some?
    ensures Bit(MaskValue(values), GROUP_BITS * g + b) <==> Bit(values[g].value, b)
  {
    Power32();
    var rest := MaskValue(values[1..]);
    if g == 0 {
      var v := values[0].value;
      LowBitUnchanged(v % U32_LIMIT, GROUP_BITS, rest, b);
      LowBitUnchanged(v % U32_LIMIT, GROUP_BITS, v / U32_LIMIT, b);
    } else {
      var low := if values[0].Some? then values[0].value % U32_LIMIT else 0;
      HighBitShifts(low, GROUP_BITS, rest, GROUP_BITS * (g - 1) + b);
      BitOfGroup(values[1..], g - 1, b);
    }
  }

  lemma {:induction false} MaskIsBounded(values: seq<Option<nat>>)
    ensures MaskValue(values) < Power(2, GROUP_BITS * |values|)
  {
    if values == [] {
    } else {
      MaskIsBounded(values[1..]);
      Power32();
      PowerSplit(GROUP_BITS, GROUP_BITS * |values[1..]|);
      assert MaskValue(values[1..]) + 1 <= Power(2, GROUP_BITS * |values[1..]|);
    }
  }

  predicate AllParse(values: seq<Option<nat>>) {
    forall g | 0 <= g < |values| :: values[g].Some?
  }

  /** The cores of a mask: the one bits of the number it spells out. */
  function CoresOf(values: seq<Option<nat>>): seq<nat> {
    BitsBelow(MaskValue(values), GROUP_BITS * |values|)
  }

  /** Every core number fits 32 bits. */
  predicate CoresFit(cores: seq<nat>) {
    forall c | c in cores :: c < U32_LIMIT
  }

  /** What parsing a mask comes to. */
  predicate Parses(content: string, cores: seq<nat>) {
    var values := GroupValues(content);
    AllParse(values) && cores == CoresOf(values) && CoresFit(cores)
  }

  /** The first `g` groups raise no error. */
  predicate Reads(values: seq<Option<nat>>, g: nat) {
    && g <= |values|
    && (forall h | 0 <= h < g :: values[h].Some?)
    && CoresFit(BitsBelow(MaskValue(values), GROUP_BITS * g))
  }

  /** Group `g` is the first to raise an error, and which. */
  predicate FailsAt(values: seq<Option<nat>>, g: nat, e: AffinityError) {
    g < |values| && Reads(values, g) && !Reads(values, g + 1) && (e == MalformedChunk <==> values[g].None?)
  }

  /** Which error is reported is settled too: that of the first group, from the right, with one. */
  method ParseIrqAffinity(content: string) returns (r: Result<seq<nat>, AffinityError>)
    ensures r.Ok? ==> Parses(content, r.value)
    ensures r.Err? ==> exists g :: FailsAt(GroupValues(content), g, r.error)
  {
    r := ParseGroups(Split(Trim(content), ','));
    assert GroupValues(content) == ValuesOf(Split(Trim(content), ','));
    hide FailsAt, GroupValues;
  }

  /** The outer loop: the groups from the right. */
  method ParseGroups(parts: seq<string>) returns (r: Result<seq<nat>, AffinityError>)
    ensures r.Ok? ==> AllParse(ValuesOf(parts)) && r.value == CoresOf(ValuesOf(parts)) && CoresFit(r.value)
    ensures r.Err? ==> exists g :: FailsAt(ValuesOf(parts), g, r.error)
  {
    ghost var values := ValuesOf(parts);
    var cores: seq<nat> := [];
    hide GroupValue, ValuesOf, MaskValue, CoresFit;
    assert CoresFit(cores) by { NoCoresFit(); }
    for groupIdx := 0 to |parts|
      invariant forall g | 0 <= g < groupIdx :: values[g].Some?
      invariant cores == BitsBelow(MaskValue(values), GROUP_BITS * groupIdx)
      invariant CoresFit(cores)
    {
      ValueAt(parts, groupIdx);
      var value := GroupValue(parts[|parts| - 1 - groupIdx]);
      if value.None? {
        assert FailsAt(values, groupIdx, MalformedChunk);
        return Err(MalformedChunk);
      }
      var pushed := PushGroup(values, groupIdx, value.value, cores);
      if pushed.None? {
        assert FailsAt(values, groupIdx, CoreOverflow);
        return Err(CoreOverflow);
      }
      cores := pushed.value;
    }
    return Ok(cores);
  }

  lemma NoCoresFit()
    ensures CoresFit([])
  {
  }

  /** The inner loop: the set bits of one group, as cores; `None` when one is beyond 32 bits. */
  method PushGroup(ghost values: seq<Option<nat>>, groupIdx: nat, mask: nat, before: seq<nat>)
    returns (r: Option<seq<nat>>)
    requires groupIdx < |values| && values[groupIdx] == Some(mask)
    requires before == BitsBelow(MaskValue(values), GROUP_BITS * groupIdx)
    requires CoresFit(before)
    ensures r.Some? ==> r.value == BitsBelow(MaskValue(values), GROUP_BITS * (groupIdx + 1))
    ensures r.Some? ==> CoresFit(r.value)
    ensures r.None? ==> !CoresFit(BitsBelow(MaskValue(values), GROUP_BITS * (groupIdx + 1)))
  {
    var cores := before;
    for bit := 0 to GROUP_BITS
      invariant cores == BitsBelow(MaskValue(values), GROUP_BITS * groupIdx + bit)
      invariant CoresFit(cores)
    {
      BitOfGroup(values, groupIdx, bit);
      if Bit(mask, bit) {
        var core := GROUP_BITS * groupIdx + bit;
        if core >= U32_LIMIT {
          BitsBelowAre(MaskValue(values), GROUP_BITS * (groupIdx + 1));
          assert core in BitsBelow(MaskValue(values), GROUP_BITS * (groupIdx + 1));
          return None;
        }
        cores := cores + [core];
      }
    }
    return Some(cores);
  }

  /** An error excludes success: a group that fails is never made good by those left of it. */
  lemma FailureIsFinal(content: string, cores: seq<nat>, g: nat, e: AffinityError)
    requires FailsAt(GroupValues(content), g, e)
    ensures !Parses(content, cores)
  {
    var values := GroupValues(content);
    BitsBelowAre(MaskValue(values), GROUP_BITS * (g + 1));
    BitsBelowAre(MaskValue(values), GROUP_BITS * |values|);
    hide MaskValue, GroupValues;
    var below := BitsBelow(MaskValue(values), GROUP_BITS * (g + 1));
    if CoresFit(CoresOf(values)) {
      forall c | c in below ensures c < U32_LIMIT {
        assert c in CoresOf(values);
      }
    }
  }

  /** A parsed mask is the binary expansion of the whole number, in strictly increasing order. */
  lemma ParsedMaskIsExpansion(content: string, cores: seq<nat>)
    requires Parses(content, cores)
    ensures Ascending(cores) && SumOfPowers(cores) == MaskValue(GroupValues(content))
  {
    MaskIsBounded(GroupValues(content));
    SumOfAllBits(MaskValue(GroupValues(content)), GROUP_BITS * |GroupValues(content)|);
    BitsBelowAre(MaskValue(GroupValues(content)), GROUP_BITS * |GroupValues(content)|);
  }

  /** The number the groups spell out when none of their digits is thrown away. */
  function FullValue(values: seq<Option<nat>>): nat {
    if values == [] then 0
    else (if values[0].Some? then values[0].value else 0) + U32_LIMIT * FullValue(values[1..])
  }

  predicate AllShort(values: seq<Option<nat>>) {
    forall g | 0 <= g < |values| :: values[g].Some? ==> values[g].value < U32_LIMIT
  }

  lemma {:induction false} ReductionIff(values: seq<Option<nat>>)
    ensures MaskValue(values) <= FullValue(values)
    ensures MaskValue(values) == FullValue(values) <==> AllShort(values)
  {
    if values == [] {
    } else {
      ReductionIff(values[1..]);
      assert forall g | 0 < g < |values| :: values[g] == values[1..][g - 1];
      assert AllShort(values) <==> AllShort(values[..1]) && AllShort(values[1..]);
    }
  }

  /** Nothing of a mask that parses is lost exactly when every group is below 2^32. */
  lemma NothingLostIff(content: string, cores: seq<nat>)
    requires Parses(content, cores)
    ensures SumOfPowers(cores) == FullValue(GroupValues(content)) <==> AllShort(GroupValues(content))
  {
    ParsedMaskIsExpansion(content, cores);
    ReductionIff(GroupValues(content));
  }

  /** For instance: core 32, spelled in one group of nine digits, is lost without an error. */
  lemma LongGroupIsCut()
    ensures Parses("100000000", []) && FullValue(GroupValues("100000000")) == U32_LIMIT
  {
    NineDigits();
    OneGroup("100000000");
    hide GroupValue, GroupValues;
    OneLargeGroup();
    NoBitsInZero(GROUP_BITS);
    NoCoresFit();
  }

  lemma OneGroup(content: string)
    requires Tight(content) && ',' !in content
    ensures GroupValues(content) == [GroupValue(content)]
  {
    TightIsTrimmed(content);
    SplitPart(content, "", ',');
    hide GroupValue, ValuesOf, Split, Trim;
    ValuesOfAppend([], content);
    assert [] + [content] == [content];
    assert ValuesOf([]) == [] && [GroupValue(content)] + [] == [GroupValue(content)];
  }

  lemma OneLargeGroup()
    ensures MaskValue([Some(U32_LIMIT)]) == 0 && FullValue([Some(U32_LIMIT)]) == U32_LIMIT && AllParse([Some(U32_LIMIT)])
  {
    assert [Some(U32_LIMIT)][1..] == [];
  }

  lemma NineDigits()
    ensures GroupValue("100000000") == Some(U32_LIMIT)
  {
    var content := "100000000";
    Power16();
    assert Power(16, 9) == 16 * Power(16, 8);
    hide Power;
    ParseDigits(U32_LIMIT, 16, 9, U64_MAX);
    NineDigitsPrinted();
    TightIsTrimmed(content);
    hide Digits, ParseUnsigned;
  }

  lemma NineDigitsPrinted()
    ensures Digits(U32_LIMIT, 16, 9) == "100000000"
  {
    assert Digits(0x1, 16, 1) == "1";
    assert Digits(0x10, 16, 2) == "10";
    assert Digits(0x100, 16, 3) == "100";
    assert Digits(0x1000, 16, 4) == "1000";
    assert Digits(0x1_0000, 16, 5) == "10000";
    assert Digits(0x10_0000, 16, 6) == "100000";
    assert Digits(0x100_0000, 16, 7) == "1000000";
    assert Digits(0x1000_0000, 16, 8) == "10000000";
  }

  lemma {:induction false} NoBitsInZero(k: nat)
    ensures BitsBelow(0, k) == []
  {
    if k == 0 {
    } else {
      ZeroHasNoBits(k - 1);
      NoBitsInZero(k - 1);
    }
  }

  // ----- printing --------------------------------------------------------------------

  /** The lowest `n` groups of a mask, least significant first. */
  function Groups(mask: nat, n: nat): (groups: seq<Option<nat>>)
    ensures |groups| == n && forall g | 0 <= g < n :: groups[g].Some? && groups[g].value < U32_LIMIT
  {
    if n == 0 then [] else [Some(mask % U32_LIMIT)] + Groups(mask / U32_LIMIT, n - 1)
  }

  lemma {:induction false} GroupsSpellMask(mask: nat, n: nat)
    requires mask < Power(2, GROUP_BITS * n)
    ensures MaskValue(Groups(mask, n)) == mask
    decreases n
  {
    if n == 0 {
    } else {
      Power32();
      PowerSplit(GROUP_BITS, GROUP_BITS * (n - 1));
      hide Power;
      DivLess(mask, U32_LIMIT, Power(2, GROUP_BITS * (n - 1)));
      GroupsSpellMask(mask / U32_LIMIT, n - 1);
      var rest := Groups(mask / U32_LIMIT, n - 1);
      assert ([Some(mask % U32_LIMIT)] + rest)[1..] == rest;
    }
  }

  /** The groups in hexadecimal, most significant first, each in so many digits: the kernel uses eight,
      and for the leading group only as many as are needed. */
  function PrintGroups(groups: seq<Option<nat>>, widths: seq<nat>, prefix: string): seq<string>
    requires AllParse(groups) && |widths| == |groups|
  {
    if groups == [] then []
    else PrintGroups(groups[1..], widths[1..], prefix) + [prefix + Digits(groups[0].value, 16, widths[0])]
  }

  function PrintMask(cores: seq<nat>, widths: seq<nat>, prefix: string): string {
    Join(PrintGroups(Groups(SumOfPowers(cores), |widths|), widths, prefix), ',')
  }

  /** The digits suffice for the groups. */
  predicate Wide(groups: seq<Option<nat>>, widths: seq<nat>) {
    && |widths| == |groups|
    && forall g | 0 <= g < |groups| ::
         groups[g].Some? && groups[g].value < U32_LIMIT && widths[g] > 0 && groups[g].value < Power(16, widths[g])
  }

  lemma Power16()
    ensures Power(16, 8) == U32_LIMIT
  {
    assert Power(16, 4) == 0x1_0000;
    assert Power(16, 8) == 16 * (16 * (16 * (16 * Power(16, 4))));
  }

  /** Eight digits always do. */
  lemma EightDigitsAreWide(groups: seq<Option<nat>>, widths: seq<nat>)
    requires |widths| == |groups| && forall g | 0 <= g < |groups| :: groups[g].Some? && groups[g].value < U32_LIMIT
    requires forall g | 0 <= g < |widths| :: widths[g] == 8
    ensures Wide(groups, widths)
  {
    Power16();
    hide Power;
  }

  predicate CleanPart(p: string) { ',' !in p && Tight(p) && p != "" }

  /** A number printed in hexadecimal, in however many digits, is read back. */
  lemma PrintedGroup(v: nat, width: nat, prefix: string)
    requires width > 0 && v < Power(16, width) && v <= U64_MAX && IsPrefix(prefix)
    ensures var s := prefix + Digits(v, 16, width);
            GroupValue(s) == Some(v) && CleanPart(s)
  {
    var digits := Digits(v, 16, width);
    NumberOfDigits(v, 16, width);
    hide Digits, GroupValue, Power;
    PrefixIsClean(digits, prefix);
    TightIsTrimmed(prefix + digits);
    assert IsNumeral(digits, 16, v);
    GroupIff(prefix + digits, v);
    hide Trim, Tight;
    assert SpellsGroup(prefix + digits, v, prefix, digits);
  }

  lemma PrefixIsClean(digits: string, prefix: string)
    requires IsPrefix(prefix) && CleanPart(digits)
    ensures CleanPart(prefix + digits)
  {
    var s := prefix + digits;
    assert s[|s| - 1] == digits[|digits| - 1];
    assert prefix == "" ==> s == digits;
  }

  lemma {:induction false} JoinIsTight(parts: seq<string>)
    requires |parts| > 0 && forall p | p in parts :: CleanPart(p)
    ensures Tight(Join(parts, ',')) && Join(parts, ',') != ""
  {
    if |parts| > 1 {
      JoinIsTight(parts[1..]);
      assert parts[0] in parts;
    } else {
      assert parts[0] in parts;
    }
  }

  lemma TrimLine(s: string, end: string)
    requires Tight(s) && s != "" && (end == "" || end == "\n")
    ensures Trim(s + end) == s
  {
    TightIsTrimmed(s);
    if end == "\n" {
      assert TrimStart(s + end) == s + end;
      assert (s + end)[..|s + end| - 1] == s;
      assert TrimEnd(s + end) == TrimEnd(s);
    } else {
      assert s + end == s;
    }
  }

  /** Any set of cores, printed in groups of enough digits with or without a prefix, parses back to
      itself in order; the line end the kernel adds makes no difference. */
  lemma PrintThenParse(cores: seq<nat>, widths: seq<nat>, prefix: string, end: string)
    requires Ascending(cores) && widths != [] && Wide(Groups(SumOfPowers(cores), |widths|), widths)
    requires CoresFit(cores) && forall c | c in cores :: c < GROUP_BITS * |widths|
    requires IsPrefix(prefix) && (end == "" || end == "\n")
    ensures forall other :: Parses(PrintMask(cores, widths, prefix) + end, other) <==> other == cores
  {
    var n := |widths|;
    var groups := Groups(SumOfPowers(cores), n);
    PrintedGroups(groups, widths, prefix, end);
    SumIsBounded(cores, GROUP_BITS * n);
    GroupsSpellMask(SumOfPowers(cores), n);
    ExpansionIsUnique(cores, GROUP_BITS * n);
  }

  lemma PrintedGroups(groups: seq<Option<nat>>, widths: seq<nat>, prefix: string, end: string)
    requires groups != [] && Wide(groups, widths) && IsPrefix(prefix) && (end == "" || end == "\n")
    ensures GroupValues(Join(PrintGroups(groups, widths, prefix), ',') + end) == groups
  {
    var parts := PrintGroups(groups, widths, prefix);
    PartsParse(groups, widths, prefix);
    PartsAreClean(groups, widths, prefix);
    JoinIsTight(parts);
    TrimLine(Join(parts, ','), end);
    SplitJoin(parts, ',');
  }

  lemma {:induction false} PartsParse(groups: seq<Option<nat>>, widths: seq<nat>, prefix: string)
    requires Wide(groups, widths) && IsPrefix(prefix)
    ensures ValuesOf(PrintGroups(groups, widths, prefix)) == groups
  {
    if groups == [] {
    } else {
      PartsParse(groups[1..], widths[1..], prefix);
      PrintedGroup(groups[0].value, widths[0], prefix);
      hide GroupValue, Digits, IsPrefix, CleanPart, ValuesOf;
      ValuesOfAppend(PrintGroups(groups[1..], widths[1..], prefix), prefix + Digits(groups[0].value, 16, widths[0]));
    }
  }

  lemma {:induction false} PartsAreClean(groups: seq<Option<nat>>, widths: seq<nat>, prefix: string)
    requires Wide(groups, widths) && IsPrefix(prefix)
    ensures forall p | p in PrintGroups(groups, widths, prefix) :: CleanPart(p)
  {
    if groups == [] {
    } else {
      PartsAreClean(groups[1..], widths[1..], prefix);
      PrintedGroup(groups[0].value, widths[0], prefix);
      hide GroupValue, Digits, CleanPart;
    }
  }
}
