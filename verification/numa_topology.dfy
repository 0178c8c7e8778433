/** Counting NUMA nodes, accepting node numbers, and the one-bit masks handed to the kernel. */
module NumaTopology {
  import opened Wrappers
  import opened Arithmetic
  import opened Bits
  import opened Text

  // ----- the online list -------------------------------------------------------------

  /** The index an item of the list stands for: the end of a range, or a single number. */
  function ItemIndex(item: string, usizeMax: nat): Option<nat> {
    var range := Trim(item);
    match SplitOnce(range, '-')
    case Some((_, end)) => ParseUnsigned(end, 10, usizeMax)
    case None => ParseUnsigned(range, 10, usizeMax)
  }

  /** `text` is a decimal number, perhaps with a plus sign. */
  ghost predicate SpellsIndex(text: string, n: nat, digits: string) {
    IsNumeral(digits, 10, n) && (text == digits || text == "+" + digits)
  }

  /** An item has an index exactly when it is a number, or anything up to a first dash and then a number,
      but for space around the whole; and that number fits. */
  lemma IndexIff(item: string, usizeMax: nat, n: nat)
    ensures ItemIndex(item, usizeMax) == Some(n) <==>
            n <= usizeMax &&
            ((exists digits :: SpellsIndex(Trim(item), n, digits)) ||
             (exists start, end, digits :: Trim(item) == start + "-" + end && '-' !in start && SpellsIndex(end, n, digits)))
  {
    var range := Trim(item);
    hide Trim, ParseUnsigned, IsNumeral;
    ParsesNumerals(range, 10, usizeMax, n);
    forall digits | SpellsIndex(range, n, digits) ensures '-' !in range {
      NoDash(digits, n);
    }
    forall start, end | range == start + "-" + end && '-' !in start ensures SplitOnce(range, '-') == Some((start, end)) {
      SplitOnceAt(start, end, '-');
    }
    match SplitOnce(range, '-')
    case None =>
      if ItemIndex(item, usizeMax) == Some(n) {
        var digits :| (range == digits || range == "+" + digits) && IsNumeral(digits, 10, n);
        assert SpellsIndex(range, n, digits);
      }
    case Some((start, end)) =>
      ParsesNumerals(end, 10, usizeMax, n);
      if ItemIndex(item, usizeMax) == Some(n) {
        var digits :| (end == digits || end == "+" + digits) && IsNumeral(digits, 10, n);
        assert range == start + "-" + end && '-' !in start && SpellsIndex(end, n, digits);
      }
  }

  lemma NoDash(digits: string, n: nat)
    requires IsNumeral(digits, 10, n)
    ensures '-' !in digits && '-' !in "+" + digits
  {
    forall k | 0 <= k < |digits| ensures digits[k] != '-' {
      assert IsDigit(digits[k], 10);
    }
  }

  /** `m` is the largest index among the items that have one. */
  predicate IsLargest(items: seq<string>, usizeMax: nat, m: nat) {
    && (exists i :: 0 <= i < |items| && ItemIndex(items[i], usizeMax) == Some(m))
    && (forall i | 0 <= i < |items| && ItemIndex(items[i], usizeMax).Some? :: ItemIndex(items[i], usizeMax).value <= m)
  }

  predicate NoIndex(items: seq<string>, usizeMax: nat) {
    forall i | 0 <= i < |items| :: ItemIndex(items[i], usizeMax).None?
  }

  function SaturatingSucc(n: nat, max: nat): nat {
    if n < max then n + 1 else max
  }

  predicate IsNodeName(name: string) {
    "node" <= name && forall k | 4 <= k < |name| :: '0' <= name[k] <= '9'
  }

  function CountNodes(names: seq<string>): nat {
    if names == [] then 0
    else CountNodes(names[..|names| - 1]) + if IsNodeName(names[|names| - 1]) then 1 else 0
  }

  /** The names that count: "node" and then decimal digits, if any. */
  lemma NodeNameIff(name: string)
    ensures IsNodeName(name) <==> exists digits :: name == "node" + digits && AllDigits(digits, 10)
  {
    if IsNodeName(name) {
      var digits := name[4..];
      assert name == "node" + digits;
      forall k | 0 <= k < |digits| ensures IsDigit(digits[k], 10) {
        assert digits[k] == name[k + 4];
      }
    }
    if digits :| name == "node" + digits && AllDigits(digits, 10) {
      forall k | 4 <= k < |name| ensures '0' <= name[k] <= '9' {
        assert name[k] == digits[k - 4] && IsDigit(digits[k - 4], 10);
      }
    }
  }

  lemma {:induction false} CountIsExact(names: seq<string>)
    ensures CountNodes(names) == |set i: nat | i < |names| && IsNodeName(names[i])|
  {
    var all := set i: nat | i < |names| && IsNodeName(names[i]);
    if names == [] {
      assert all == {};
    } else {
      var n := |names| - 1;
      var front := set i: nat | i < n && IsNodeName(names[..n][i]);
      CountIsExact(names[..n]);
      assert all == if IsNodeName(names[n]) then front + {n} else front;
    }
  }

  /** One more than the largest index when the list holds one, otherwise the number of node directories. */
  ghost predicate SysfsGives(content: Option<string>, names: Option<seq<string>>, usizeMax: nat, r: Option<nat>) {
    if content.Some? && !NoIndex(Split(Trim(content.value), ','), usizeMax) then
      exists m :: IsLargest(Split(Trim(content.value), ','), usizeMax, m) && r == Some(SaturatingSucc(m, usizeMax))
    else
      r == if names.Some? && CountNodes(names.value) > 0 then Some(CountNodes(names.value)) else None
  }

  /** The online list when it holds an index, otherwise the node directories, if there are any.
      `None` stands for a file or directory that cannot be read. */
  method SysfsNodeCount(content: Option<string>, names: Option<seq<string>>, usizeMax: nat) returns (r: Option<nat>)
    ensures SysfsGives(content, names, usizeMax, r)
  {
    if content.Some? {
      var maxNode := LargestIndex(Split(Trim(content.value), ','), usizeMax);
      if maxNode.Some? {
        return Some(SaturatingSucc(maxNode.value, usizeMax));
      }
    }
    if names.Some? {
      var count := CountNodeNames(names.value);
      if count > 0 {
        return Some(count);
      }
    }
    return None;
  }

  /** `best` is what the items come to: their largest index, or nothing when none has one. */
  predicate BestOf(items: seq<string>, usizeMax: nat, best: Option<nat>) {
    match best
    case None => NoIndex(items, usizeMax)
    case Some(m) => IsLargest(items, usizeMax, m) && !NoIndex(items, usizeMax)
  }

  method LargestIndex(items: seq<string>, usizeMax: nat) returns (maxNode: Option<nat>)
    ensures BestOf(items, usizeMax, maxNode)
  {
    hide ItemIndex, BestOf;
    maxNode := None;
    NoItems(usizeMax);
    assert items[..0] == [];
    for i := 0 to |items|
      invariant BestOf(items[..i], usizeMax, maxNode)
    {
      OneMoreItem(items, i, usizeMax, maxNode);
      var index := ItemIndex(items[i], usizeMax);
      if index.Some? {
        maxNode := if maxNode.Some? && maxNode.value >= index.value then maxNode else index;
      }
    }
    assert items[..|items|] == items;
  }

  method CountNodeNames(names: seq<string>) returns (count: nat)
    ensures count == CountNodes(names)
  {
    count := 0;
    for i := 0 to |names|
      invariant count == CountNodes(names[..i])
    {
      assert names[..i + 1][..i] == names[..i];
      if IsNodeName(names[i]) {
        count := count + 1;
      }
    }
    assert names[..|names|] == names;
  }

  lemma NoItems(usizeMax: nat)
    ensures BestOf([], usizeMax, None)
  {
  }

  lemma OneMoreItem(items: seq<string>, i: nat, usizeMax: nat, best: Option<nat>)
    requires i < |items| && BestOf(items[..i], usizeMax, best)
    ensures var index := ItemIndex(items[i], usizeMax);
            BestOf(items[..i + 1], usizeMax,
                   if index.None? || (best.Some? && best.value >= index.value) then best else index)
  {
    hide ItemIndex;
    var before, now := items[..i], items[..i + 1];
    assert now[i] == items[i] && forall k | 0 <= k < i :: now[k] == before[k];
    if best.Some? {
      var k :| 0 <= k < |before| && ItemIndex(before[k], usizeMax) == best;
      assert now[k] == before[k];
    }
  }

  // ----- what the list means --------------------------------------------------------------

  function TrimEach(parts: seq<string>): (trimmed: seq<string>)
    ensures |trimmed| == |parts| && forall i | 0 <= i < |parts| :: trimmed[i] == Trim(parts[i])
  {
    if parts == [] then [] else [Trim(parts[0])] + TrimEach(parts[1..])
  }

  lemma {:induction false} LeadingSpace(s: string)
    ensures TrimEach(Split(TrimStart(s), ',')) == TrimEach(Split(s, ','))
  {
    if s != "" && IsSpace(s[0]) {
      LeadingSpace(s[1..]);
      var rest := Split(s[1..], ',');
      assert ([s[0]] + rest[0])[1..] == rest[0];
      assert Trim([s[0]] + rest[0]) == Trim(rest[0]);
    }
  }

  /** A character at the end goes to the last part. */
  lemma {:induction false} SplitAtEnd(s: string, c: char)
    requires c != ','
    ensures var parts := Split(s, ',');
            Split(s + [c], ',') == parts[..|parts| - 1] + [parts[|parts| - 1] + [c]]
  {
    if s == "" {
      assert s + [c] == [c];
      assert [c][1..] == "" && Split("", ',') == [""];
      assert Split([c], ',') == [[c] + ""];
      assert [c] + "" == [c];
    } else {
      SplitStep(s);
      SplitStep(s + [c]);
      SplitAtEnd(s[1..], c);
      assert (s + [c])[1..] == s[1..] + [c];
      hide Split;
      LastGrows(Split(s[1..], ','), s[0], c);
    }
  }

  lemma SplitStep(s: string)
    requires s != ""
    ensures var rest := Split(s[1..], ',');
            Split(s, ',') == if s[0] == ',' then [""] + rest else [[s[0]] + rest[0]] + rest[1..]
  {
  }

  /** Growing the last part goes with putting something before the first one, also when they are the same. */
  lemma LastGrows(rest: seq<string>, first: char, c: char)
    requires rest != []
    ensures var n := |rest| - 1;
            var grown := rest[..n] + [rest[n] + [c]];
            && [""] + grown == ([""] + rest)[..n + 1] + [([""] + rest)[n + 1] + [c]]
            && var parts := [[first] + rest[0]] + rest[1..];
               [[first] + grown[0]] + grown[1..] == parts[..n] + [parts[n] + [c]]
  {
    if |rest| == 1 {
      assert [first] + (rest[0] + [c]) == ([first] + rest[0]) + [c];
    }
  }

  lemma TrimEndSpace(s: string, c: char)
    requires IsSpace(c)
    ensures Trim(s + [c]) == Trim(s)
  {
    TrimStartAppend(s, c);
    if TrimStart(s) != "" {
      assert (TrimStart(s) + [c])[..|TrimStart(s)|] == TrimStart(s);
    }
  }

  lemma {:induction false} TrimStartAppend(s: string, c: char)
    requires IsSpace(c)
    ensures TrimStart(s + [c]) == if TrimStart(s) == "" then "" else TrimStart(s) + [c]
  {
    if s == "" {
      assert s + [c] == [c];
      assert TrimStart([c]) == TrimStart([c][1..]) == "";
    } else if IsSpace(s[0]) {
      assert (s + [c])[1..] == s[1..] + [c];
      TrimStartAppend(s[1..], c);
    }
  }

  lemma {:induction false} TrimEachAppend(parts: seq<string>, last: string)
    ensures TrimEach(parts + [last]) == TrimEach(parts) + [Trim(last)]
  {
    hide Trim;
    if parts == [] {
      assert [] + [last] == [last];
    } else {
      assert (parts + [last])[1..] == parts[1..] + [last];
      TrimEachAppend(parts[1..], last);
    }
  }

  lemma LastTrimmed(parts: seq<string>, last: string)
    requires parts != [] && Trim(last) == Trim(parts[|parts| - 1])
    ensures TrimEach(parts[..|parts| - 1] + [last]) == TrimEach(parts)
  {
    hide Trim, TrimEach;
    var front := parts[..|parts| - 1];
    assert parts == front + [parts[|parts| - 1]];
    TrimEachAppend(front, last);
    TrimEachAppend(front, parts[|parts| - 1]);
  }

  lemma {:induction false} TrailingSpace(s: string)
    ensures TrimEach(Split(TrimEnd(s), ',')) == TrimEach(Split(s, ','))
  {
    if s != "" && IsSpace(s[|s| - 1]) {
      var front, c := s[..|s| - 1], s[|s| - 1];
      assert s == front + [c];
      TrailingSpace(front);
      SplitAtEnd(front, c);
      var parts := Split(front, ',');
      TrimEndSpace(parts[|parts| - 1], c);
      LastTrimmed(parts, parts[|parts| - 1] + [c]);
    }
  }

  /** The items the code goes through are the comma-separated ones, up to space around them. */
  lemma ItemsOfContent(items: seq<string>)
    requires items != [] && forall item | item in items :: ',' !in item
    ensures TrimEach(Split(Trim(Join(items, ',')), ',')) == TrimEach(items)
  {
    LeadingSpace(Join(items, ','));
    TrailingSpace(TrimStart(Join(items, ',')));
    SplitJoin(items, ',');
  }

  lemma IndexIgnoresSpace(a: seq<string>, b: seq<string>, usizeMax: nat, i: nat)
    requires TrimEach(a) == TrimEach(b) && i < |a|
    ensures i < |b| && ItemIndex(a[i], usizeMax) == ItemIndex(b[i], usizeMax)
  {
    assert |TrimEach(a)| == |TrimEach(b)|;
    assert TrimEach(a)[i] == TrimEach(b)[i];
  }

  /** The largest index does not depend on the order of the items, nor on space around them. */
  lemma OrderDoesNotMatter(a: seq<string>, b: seq<string>, usizeMax: nat, m: nat)
    requires a != [] && b != [] && forall item :: item in a <==> item in b
    requires forall item | item in a :: ',' !in item
    ensures IsLargest(Split(Trim(Join(a, ',')), ','), usizeMax, m) <==> IsLargest(Split(Trim(Join(b, ',')), ','), usizeMax, m)
    ensures NoIndex(Split(Trim(Join(a, ',')), ','), usizeMax) <==> NoIndex(Split(Trim(Join(b, ',')), ','), usizeMax)
  {
    ItemsOfContent(a);
    ItemsOfContent(b);
    SameIndexes(Split(Trim(Join(a, ',')), ','), a, usizeMax, m);
    SameIndexes(Split(Trim(Join(b, ',')), ','), b, usizeMax, m);
    SameItems(a, b, usizeMax, m);
  }

  lemma SameIndexes(a: seq<string>, b: seq<string>, usizeMax: nat, m: nat)
    requires TrimEach(a) == TrimEach(b)
    ensures IsLargest(a, usizeMax, m) <==> IsLargest(b, usizeMax, m)
    ensures NoIndex(a, usizeMax) <==> NoIndex(b, usizeMax)
  {
    assert |TrimEach(a)| == |TrimEach(b)|;
    forall i: nat | i < |a| ensures ItemIndex(a[i], usizeMax) == ItemIndex(b[i], usizeMax) {
      IndexIgnoresSpace(a, b, usizeMax, i);
    }
    hide ItemIndex;
  }

  lemma SameItems(a: seq<string>, b: seq<string>, usizeMax: nat, m: nat)
    requires forall item :: item in a <==> item in b
    ensures IsLargest(a, usizeMax, m) <==> IsLargest(b, usizeMax, m)
    ensures NoIndex(a, usizeMax) <==> NoIndex(b, usizeMax)
  {
    hide ItemIndex;
    forall i | 0 <= i < |a| ensures exists j :: 0 <= j < |b| && b[j] == a[i] {
      assert a[i] in b;
    }
    forall i | 0 <= i < |b| ensures exists j :: 0 <= j < |a| && a[j] == b[i] {
      assert b[i] in a;
    }
  }

  /** `item` writes the range from `lo` to `hi` in decimal: one number, or two with a dash. */
  ghost predicate Writes(item: string, lo: nat, hi: nat) {
    || (lo == hi && IsNumeral(item, 10, lo))
    || exists a, b :: item == a + "-" + b && IsNumeral(a, 10, lo) && IsNumeral(b, 10, hi)
  }

  lemma NumeralParses(s: string, n: nat, usizeMax: nat)
    requires IsNumeral(s, 10, n) && n <= usizeMax
    ensures ParseUnsigned(s, 10, usizeMax) == Some(n) && Tight(s) && '-' !in s
  {
    assert IsDigit(s[0], 10) && IsDigit(s[|s| - 1], 10);
    forall k | 0 <= k < |s| ensures s[k] != '-' {
      assert IsDigit(s[k], 10);
    }
  }

  lemma RangeIndex(item: string, lo: nat, hi: nat, usizeMax: nat)
    requires Writes(item, lo, hi) && lo <= hi <= usizeMax
    ensures ItemIndex(item, usizeMax) == Some(hi)
  {
    if lo == hi && IsNumeral(item, 10, lo) {
      NumeralParses(item, lo, usizeMax);
      TightIsTrimmed(item);
    } else {
      var a, b :| item == a + "-" + b && IsNumeral(a, 10, lo) && IsNumeral(b, 10, hi);
      NumeralParses(a, lo, usizeMax);
      NumeralParses(b, hi, usizeMax);
      TightIsTrimmed(item);
      SplitOnceAt(a, b, '-');
    }
  }

  /** The nodes a list of ranges names. */
  predicate Names(ranges: seq<(nat, nat)>, node: nat) {
    exists i :: 0 <= i < |ranges| && ranges[i].0 <= node <= ranges[i].1
  }

  /** A list of ranges as the kernel writes it. */
  ghost predicate WritesAll(items: seq<string>, ranges: seq<(nat, nat)>, usizeMax: nat) {
    && items != [] && |items| == |ranges|
    && forall i | 0 <= i < |items| ::
         Writes(items[i], ranges[i].0, ranges[i].1) && ranges[i].0 <= ranges[i].1 <= usizeMax && ',' !in items[i]
  }

  /** For a well-formed list the index found is the largest node it names. */
  lemma WellFormedList(items: seq<string>, ranges: seq<(nat, nat)>, usizeMax: nat, m: nat)
    requires WritesAll(items, ranges, usizeMax)
    ensures !NoIndex(Split(Trim(Join(items, ',')), ','), usizeMax)
    ensures IsLargest(Split(Trim(Join(items, ',')), ','), usizeMax, m) <==>
            Names(ranges, m) && forall node: nat | Names(ranges, node) :: node <= m
  {
    ItemsOfContent(items);
    SameIndexes(Split(Trim(Join(items, ',')), ','), items, usizeMax, m);
    forall i | 0 <= i < |items| ensures ItemIndex(items[i], usizeMax) == Some(ranges[i].1) {
      RangeIndex(items[i], ranges[i].0, ranges[i].1, usizeMax);
    }
    LargestOfRanges(items, ranges, usizeMax, m);
  }

  lemma LargestOfRanges(items: seq<string>, ranges: seq<(nat, nat)>, usizeMax: nat, m: nat)
    requires EndsAt(items, ranges, usizeMax)
    ensures IsLargest(items, usizeMax, m) <==> Names(ranges, m) && forall node: nat | Names(ranges, node) :: node <= m
  {
    if IsLargest(items, usizeMax, m) {
      LargestIsNamed(items, ranges, usizeMax, m);
    }
    if Names(ranges, m) && forall node: nat | Names(ranges, node) :: node <= m {
      NamedIsLargest(items, ranges, usizeMax, m);
    }
  }

  predicate EndsAt(items: seq<string>, ranges: seq<(nat, nat)>, usizeMax: nat) {
    && |items| == |ranges|
    && forall i | 0 <= i < |items| :: ItemIndex(items[i], usizeMax) == Some(ranges[i].1) && ranges[i].0 <= ranges[i].1
  }

  lemma LargestIsNamed(items: seq<string>, ranges: seq<(nat, nat)>, usizeMax: nat, m: nat)
    requires EndsAt(items, ranges, usizeMax) && IsLargest(items, usizeMax, m)
    ensures Names(ranges, m) && forall node: nat | Names(ranges, node) :: node <= m
  {
    hide ItemIndex;
    var i :| 0 <= i < |items| && ItemIndex(items[i], usizeMax) == Some(m);
    assert ranges[i].1 == m;
    forall node: nat | Names(ranges, node) ensures node <= m {
      var j :| 0 <= j < |ranges| && ranges[j].0 <= node <= ranges[j].1;
      assert ItemIndex(items[j], usizeMax).value <= m;
    }
  }

  lemma NamedIsLargest(items: seq<string>, ranges: seq<(nat, nat)>, usizeMax: nat, m: nat)
    requires EndsAt(items, ranges, usizeMax)
    requires Names(ranges, m) && forall node: nat | Names(ranges, node) :: node <= m
    ensures IsLargest(items, usizeMax, m)
  {
    hide ItemIndex;
    var i :| 0 <= i < |ranges| && ranges[i].0 <= m <= ranges[i].1;
    forall j | 0 <= j < |ranges| ensures ranges[j].1 <= m {
      assert Names(ranges, ranges[j].1);
    }
    assert ItemIndex(items[i], usizeMax) == Some(m);
  }

  // ----- node counts and node numbers ----------------------------------------------------

  /** What loading the library and asking for its highest node came to. */
  datatype LibraryAnswer = NotLoaded | MaxNode(node: int)

  const I32_MAX: int := 0x7FFF_FFFF

  /** The library's highest node plus one, else the count from sysfs, else one. */
  function NodeCount(library: LibraryAnswer, sysfs: Option<nat>, usizeMax: nat): nat {
    if library.MaxNode? && library.node >= 0 then
      var count := if library.node + 1 <= I32_MAX then library.node + 1 else I32_MAX;
      if count > usizeMax then 1 else Max(count, 1)
    else if sysfs.Some? then Max(sysfs.value, 1)
    else 1
  }

  datatype NodeError = InvalidNode(node: nat, available: nat)

  const U32_MAX: nat := 0xFFFF_FFFF

  type U32 = n: nat | n <= U32_MAX

  function ValidateNode(node: U32, library: LibraryAnswer, sysfs: Option<nat>, usizeMax: nat): Option<NodeError> {
    var available := NodeCount(library, sysfs, usizeMax);
    if node <= usizeMax && node < available then None else Some(InvalidNode(node, available))
  }

  /** The library answers with a highest node. */
  predicate Usable(library: LibraryAnswer) { library.MaxNode? && library.node >= 0 }

  /** Some item of the list stands for an index that is not below `node`. */
  ghost predicate Reached(items: seq<string>, usizeMax: nat, node: nat) {
    exists i :: 0 <= i < |items| && ItemIndex(items[i], usizeMax).Some? && node <= ItemIndex(items[i], usizeMax).value
  }

  lemma ReachedIsBelowLargest(items: seq<string>, usizeMax: nat, m: nat, node: nat)
    requires IsLargest(items, usizeMax, m)
    ensures Reached(items, usizeMax, node) <==> node <= m
    ensures m <= usizeMax
  {
    hide ItemIndex, ParseUnsigned;
    var i :| 0 <= i < |items| && ItemIndex(items[i], usizeMax) == Some(m);
    IndexFits(items[i], usizeMax);
  }

  lemma IndexFits(item: string, usizeMax: nat)
    ensures ItemIndex(item, usizeMax).Some? ==> ItemIndex(item, usizeMax).value <= usizeMax
  {
  }

  /** Which nodes are accepted, from what the library says and the text of the online list, or the
      names in the node directory, whichever is the first to be usable.  Node 0 always is. */
  lemma CountAndValidationAgree(library: LibraryAnswer, content: Option<string>, names: Option<seq<string>>,
                                sysfs: Option<nat>, usizeMax: nat, node: U32)
    requires usizeMax >= U32_MAX
    requires library.MaxNode? ==> -I32_MAX - 1 <= library.node <= I32_MAX
    requires SysfsGives(content, names, usizeMax, sysfs)
    ensures NodeCount(library, sysfs, usizeMax) >= 1
    ensures var r := ValidateNode(node, library, sysfs, usizeMax);
            && (r.None? <==> node < NodeCount(library, sysfs, usizeMax))
            && (r.Some? ==> r.value == InvalidNode(node, NodeCount(library, sysfs, usizeMax)))
    ensures var accepted := ValidateNode(node, library, sysfs, usizeMax).None?;
            if Usable(library) then accepted <==> node == 0 || (node <= library.node && node < I32_MAX)
            else if content.Some? && !NoIndex(Split(Trim(content.value), ','), usizeMax) then
              accepted <==> node < usizeMax && Reached(Split(Trim(content.value), ','), usizeMax, node)
            else accepted <==> node == 0 || (names.Some? && node < CountNodes(names.value))
  {
    hide ItemIndex, NoIndex, Trim, Split, IsLargest, Reached, CountNodes;
    if content.Some? && !NoIndex(Split(Trim(content.value), ','), usizeMax) {
      var items := Split(Trim(content.value), ',');
      var m :| IsLargest(items, usizeMax, m) && sysfs == Some(SaturatingSucc(m, usizeMax));
      ReachedIsBelowLargest(items, usizeMax, m, node);
    }
  }

  /** Without the library and with a well-formed online list, the nodes accepted are those up to the
      largest one named, named or not; only the largest index of all is refused even when named. */
  lemma AcceptedNodes(content: string, items: seq<string>, ranges: seq<(nat, nat)>,
                      names: Option<seq<string>>, usizeMax: nat, sysfs: Option<nat>, node: U32)
    requires usizeMax > 0 && WritesAll(items, ranges, usizeMax) && Trim(content) == Trim(Join(items, ','))
    requires SysfsGives(Some(content), names, usizeMax, sysfs)
    ensures ValidateNode(node, NotLoaded, sysfs, usizeMax).None? <==>
            node < usizeMax && exists k: nat :: node <= k && Names(ranges, k)
  {
    hide IsLargest, NoIndex, Split, Trim, Join;
    var parts := Split(Trim(content), ',');
    forall m ensures !NoIndex(parts, usizeMax)
             ensures IsLargest(parts, usizeMax, m) <==> Names(ranges, m) && forall k: nat | Names(ranges, k) :: k <= m {
      WellFormedList(items, ranges, usizeMax, m);
    }
    var m :| IsLargest(parts, usizeMax, m) && sysfs == Some(SaturatingSucc(m, usizeMax));
    assert Names(ranges, m);
  }

  /** Every number up to an online node is an online node. */
  ghost predicate NoGap(ranges: seq<(nat, nat)>) {
    forall node: U32, k: nat | node <= k && Names(ranges, k) :: Names(ranges, node)
  }

  /** So the nodes accepted are the online ones exactly when these leave no gap, and the list does not
      name the largest index of all where that is a node number. */
  lemma AcceptedNodesAreOnline(content: string, items: seq<string>, ranges: seq<(nat, nat)>,
                               names: Option<seq<string>>, usizeMax: nat, sysfs: Option<nat>)
    requires usizeMax > 0 && WritesAll(items, ranges, usizeMax) && Trim(content) == Trim(Join(items, ','))
    requires SysfsGives(Some(content), names, usizeMax, sysfs)
    ensures (forall node: U32 :: ValidateNode(node, NotLoaded, sysfs, usizeMax).None? <==> Names(ranges, node)) <==>
            NoGap(ranges) && (usizeMax <= U32_MAX ==> !Names(ranges, usizeMax))
  {
    forall node: U32
      ensures ValidateNode(node, NotLoaded, sysfs, usizeMax).None? <==>
              node < usizeMax && exists k: nat :: node <= k && Names(ranges, k)
    {
      AcceptedNodes(content, items, ranges, names, usizeMax, sysfs, node);
    }
    forall k: nat | Names(ranges, k) ensures k <= usizeMax {
      WritesBound(items, ranges, usizeMax, k);
    }
    hide ValidateNode, Names;
    forall node: U32 | Names(ranges, node) ensures exists k: nat :: node <= k && Names(ranges, k) {
      assert node <= node && Names(ranges, node);
    }
    if forall node: U32 :: ValidateNode(node, NotLoaded, sysfs, usizeMax).None? <==> Names(ranges, node) {
      forall node: U32, k: nat | node <= k && Names(ranges, k) ensures Names(ranges, node) {
        WritesBound(items, ranges, usizeMax, k);
      }
    }
  }

  lemma WritesBound(items: seq<string>, ranges: seq<(nat, nat)>, usizeMax: nat, k: nat)
    requires WritesAll(items, ranges, usizeMax) && Names(ranges, k)
    ensures k <= usizeMax
  {
  }

  /** For instance, of the nodes 0 and 2 online, node 1 is accepted too. */
  lemma GapIsAccepted(names: Option<seq<string>>, sysfs: Option<nat>)
    requires SysfsGives(Some("0,2"), names, U64_MAX, sysfs)
    ensures ValidateNode(1, NotLoaded, sysfs, U64_MAX).None? && !Names([(0, 0), (2, 2)], 1)
  {
    var items, ranges := ["0", "2"], [(0, 0), (2, 2)];
    TwoItems();
    assert Names(ranges, 2);
    hide IsNumeral, WritesAll, Join, SysfsGives;
    AcceptedNodes("0,2", items, ranges, names, U64_MAX, sysfs, 1);
  }

  lemma TwoItems()
    ensures Join(["0", "2"], ',') == "0,2" && WritesAll(["0", "2"], [(0, 0), (2, 2)], U64_MAX)
  {
    OneDigit('0');
    OneDigit('2');
    hide IsNumeral;
    assert ["0", "2"][1..] == ["2"] && Join(["2"], ',') == "2";
  }

  lemma OneDigit(c: char)
    requires '0' <= c <= '9'
    ensures IsNumeral([c], 10, c as nat - '0' as nat)
  {
    assert [c][..0] == "";
    assert NumberOf([c], 10) == NumberOf([c][..0], 10) * 10 + Digit(c).value;
  }

  // ----- masks ---------------------------------------------------------------------------

  /** Bit `k` of a row of words of `bits` bits each, read as one long string. */
  predicate LongBit(words: seq<nat>, bits: nat, k: nat)
    requires bits > 0
  {
    k / bits < |words| && Bit(words[k / bits], k % bits)
  }

  /** The number a row of words spells, the first word lowest. */
  function WordsValue(words: seq<nat>, bits: nat): nat {
    if words == [] then 0 else words[0] + Power(2, bits) * WordsValue(words[1..], bits)
  }

  /** The bits of the row are those of that number. */
  lemma {:induction false} LongBitIs(words: seq<nat>, bits: nat, k: nat)
    requires bits > 0 && forall i | 0 <= i < |words| :: words[i] < Power(2, bits)
    ensures LongBit(words, bits, k) <==> Bit(WordsValue(words, bits), k)
  {
    hide Bit, Power, LongBit;
    if words == [] {
      ZeroHasNoBits(k);
      NoLongBit(bits, k);
    } else if k < bits {
      LongBitInFirst(words, bits, k);
      LowBitUnchanged(words[0], bits, WordsValue(words[1..], bits), k);
    } else {
      HighBitShifts(words[0], bits, WordsValue(words[1..], bits), k - bits);
      LongBitIs(words[1..], bits, k - bits);
      LongBitShifts(words, bits, k);
    }
  }

  lemma NoLongBit(bits: nat, k: nat)
    requires bits > 0
    ensures !LongBit([], bits, k)
  {
    DivMod(k, bits);
  }

  lemma LongBitInFirst(words: seq<nat>, bits: nat, k: nat)
    requires k < bits && words != []
    ensures LongBit(words, bits, k) <==> Bit(words[0], k)
  {
    hide Bit;
    FirstWord(k, bits);
  }

  lemma LongBitShifts(words: seq<nat>, bits: nat, k: nat)
    requires 0 < bits <= k && words != []
    ensures LongBit(words, bits, k) <==> LongBit(words[1..], bits, k - bits)
  {
    hide Bit;
    NextWord(k, bits);
    var w := (k - bits) / bits;
    assert w + 1 < |words| ==> words[1..][w] == words[w + 1];
  }

  lemma FirstWord(k: nat, bits: nat)
    requires k < bits
    ensures k / bits == 0 && k % bits == k
  {
    DivModUnique(k, bits, 0, k);
  }

  lemma NextWord(k: nat, bits: nat)
    requires bits > 0 && k >= bits
    ensures k / bits == (k - bits) / bits + 1 && k % bits == (k - bits) % bits
  {
    DivMod(k - bits, bits);
    Distribute((k - bits) / bits, 1, bits);
    DivModUnique(k, bits, (k - bits) / bits + 1, (k - bits) % bits);
  }

  /** Exactly one bit is set, at position `k`, and every word has at most `bits` bits. */
  ghost predicate OnlyBit(words: seq<nat>, bits: nat, k: nat)
    requires bits > 0
  {
    && (forall j: nat :: LongBit(words, bits, j) <==> j == k)
    && (forall i | 0 <= i < |words| :: words[i] < Power(2, bits))
  }

  lemma OneWordSet(words: seq<nat>, bits: nat, k: nat)
    requires bits > 0 && k / bits < |words| && words[k / bits] == Power(2, k % bits)
    requires forall i | 0 <= i < |words| && i != k / bits :: words[i] == 0
    ensures OnlyBit(words, bits, k)
  {
    PowerLess(k % bits, bits);
    PowerPositive(2, bits);
    hide Power;
    forall j: nat ensures LongBit(words, bits, j) <==> j == k {
      OneWordBit(words, bits, k, j);
    }
    hide LongBit;
  }

  lemma OneWordBit(words: seq<nat>, bits: nat, k: nat, j: nat)
    requires bits > 0 && k / bits < |words| && words[k / bits] == Power(2, k % bits)
    requires forall i | 0 <= i < |words| && i != k / bits :: words[i] == 0
    ensures LongBit(words, bits, j) <==> j == k
  {
    OneWordAt(words, k / bits, k % bits, j / bits, j % bits);
    hide Bit, Power;
    SamePlace(j, k, bits);
  }

  lemma OneWordAt(words: seq<nat>, w: nat, p: nat, i: nat, j: nat)
    requires w < |words| && words[w] == Power(2, p)
    requires forall i | 0 <= i < |words| && i != w :: words[i] == 0
    ensures i < |words| && Bit(words[i], j) <==> i == w && j == p
  {
    hide Bit, Power;
    ZeroHasNoBits(j);
    OnePower(p, j);
  }

  lemma PowerLess(m: nat, n: nat)
    requires m < n
    ensures Power(2, m) < Power(2, n)
  {
    PowerPositive(2, m);
    PowerMono(m + 1, n);
  }

  lemma OnePower(p: nat, j: nat)
    ensures Bit(Power(2, p), j) <==> j == p
  {
    assert SumOfPowers([p]) == SumOfPowers([p][..0]) + Power(2, p);
    hide Bit, Power;
    BitsOfSum([p], j);
  }

  lemma SamePlace(j: nat, k: nat, bits: nat)
    requires bits > 0
    ensures j == k <==> j / bits == k / bits && j % bits == k % bits
  {
    DivMod(j, bits);
    DivMod(k, bits);
  }

  /** The mask for one node and the number of bits the kernel is to read from it. */
  method NodemaskForNode(node: nat, bitsPerUlong: nat) returns (nodemask: array<nat>, maxnode: nat)
    requires bitsPerUlong > 0
    ensures fresh(nodemask) && maxnode == node + 1
    ensures nodemask.Length == (maxnode + bitsPerUlong - 1) / bitsPerUlong
    ensures OnlyBit(nodemask[..], bitsPerUlong, node)
  {
    var maskIndex, bitPosition := node / bitsPerUlong, node % bitsPerUlong;
    var maskLen := maskIndex + 1;
    nodemask := new nat[maskLen](i => 0);
    nodemask[maskIndex] := Power(2, bitPosition);
    maxnode := node + 1;
    OneWordSet(nodemask[..], bitsPerUlong, node);
    WordsFor(node, bitsPerUlong);
  }

  lemma WordsFor(node: nat, bits: nat)
    requires bits > 0
    ensures (node + 1 + bits - 1) / bits == node / bits + 1
  {
    DivMod(node, bits);
    Distribute(node / bits, 1, bits);
    DivModUnique(node + bits, bits, node / bits + 1, node % bits);
  }

  const CPU_SETSIZE: nat := 1024

  /** The mask `pin_to_core` hands to the kernel; cores beyond the mask are refused. */
  method CoreMask(coreId: nat, usizeBits: nat) returns (mask: Option<array<nat>>)
    requires usizeBits > 0
    ensures var words := (CPU_SETSIZE + usizeBits - 1) / usizeBits;
            && (mask.Some? <==> coreId < words * usizeBits)
            && (mask.Some? ==> fresh(mask.value) && mask.value.Length == words && OnlyBit(mask.value[..], usizeBits, coreId))
  {
    var cpuSetWords := (CPU_SETSIZE + usizeBits - 1) / usizeBits;
    var maxCore := cpuSetWords * usizeBits;
    if coreId >= maxCore {
      return None;
    }
    DivMod(coreId, usizeBits);
    if coreId / usizeBits >= cpuSetWords {
      MulMono(cpuSetWords, coreId / usizeBits, usizeBits);
    }
    var words := new nat[cpuSetWords](i => 0);
    words[coreId / usizeBits] := Power(2, coreId % usizeBits);
    OneWordSet(words[..], usizeBits, coreId);
    return Some(words);
  }
}
