/** Reading memory counters from the lines of `/proc/meminfo`. */
module Memory {
  import opened Wrappers
  import opened Text
  import opened Arithmetic

  const KIB_TO_BYTES: nat := 1024

  datatype MemoryStatus = MemoryStatus(availableBytes: nat, totalBytes: nat)

  function KibToBytes(kib: nat): nat {
    if kib * KIB_TO_BYTES > U64_MAX then U64_MAX else kib * KIB_TO_BYTES
  }

  function LeadingDigits(s: string): string {
    if s != "" && '0' <= s[0] <= '9' then [s[0]] + LeadingDigits(s[1..]) else ""
  }

  function FirstToken(s: string): Option<string> {
    if s == "" then None
    else if IsSpace(s[0]) then FirstToken(s[1..])
    else Some(UpToSpace(s))
  }

  function UpToSpace(s: string): string {
    if s == "" || IsSpace(s[0]) then "" else [s[0]] + UpToSpace(s[1..])
  }

  function ParseKibValue(line: string): Option<nat> {
    match SplitOnce(line, ':')
    case None => None
    case Some((_, rest)) =>
      match FirstToken(Trim(rest))
      case None => None
      case Some(token) => ParseUnsigned(LeadingDigits(token), 10, U64_MAX)
  }

  // ----- which line is which -----------------------------------------------------------

  datatype Key = MemTotal | MemAvailable | MemFree | Buffers | Cached
  {
    function Text(): string {
      match this
      case MemTotal => "MemTotal:"
      case MemAvailable => "MemAvailable:"
      case MemFree => "MemFree:"
      case Buffers => "Buffers:"
      case Cached => "Cached:"
    }

    predicate Starts(line: string) { Text() <= line }
  }

  /** No line starts with two keys. */
  lemma KeysExclude(k1: Key, k2: Key, line: string)
    requires k1.Starts(line) && k2.Starts(line)
    ensures k1 == k2
  {
    assert line[0] == k1.Text()[0] == k2.Text()[0];
    assert line[3] == k1.Text()[3] == k2.Text()[3];
  }

  /** What the lines say about a key when nothing is skipped: the value of the last line with it. */
  function Lookup(lines: seq<string>, key: Key): Option<nat> {
    if lines == [] then None
    else
      var n := |lines| - 1;
      if key.Starts(lines[n]) then ParseKibValue(lines[n]) else Lookup(lines[..n], key)
  }

  /** The five counters collected so far. */
  datatype Counters = Counters(total: Option<nat>, available: Option<nat>, free: Option<nat>,
                               buffers: Option<nat>, cached: Option<nat>)
  {
    /** Free, buffers and cached memory together, when that is a 64-bit number. */
    function Fallback(): Option<nat> {
      if free.None? then None
      else
        var sum := free.value + (if buffers.Some? then buffers.value else 0) + (if cached.Some? then cached.value else 0);
        if sum > U64_MAX then None else Some(sum)
    }

    function AvailableKib(): Option<nat> {
      if available.Some? then available else Fallback()
    }

    function Status(): Option<MemoryStatus> {
      if total.None? || AvailableKib().None? then None
      else Some(MemoryStatus(KibToBytes(AvailableKib().value), KibToBytes(total.value)))
    }
  }

  /** The counters when every line is read. */
  function AllCounters(lines: seq<string>): Counters {
    Counters(Lookup(lines, MemTotal), Lookup(lines, MemAvailable), Lookup(lines, MemFree),
             Lookup(lines, Buffers), Lookup(lines, Cached))
  }

  /** The value in the last line that begins with a text. */
  function LastWith(lines: seq<string>, text: string): Option<nat> {
    if lines == [] then None
    else
      var n := |lines| - 1;
      if text <= lines[n] then ParseKibValue(lines[n]) else LastWith(lines[..n], text)
  }

  /** The counters, by what the kernel calls them. */
  lemma {:induction false} CountersAre(lines: seq<string>)
    ensures AllCounters(lines) ==
            Counters(LastWith(lines, "MemTotal:"), LastWith(lines, "MemAvailable:"), LastWith(lines, "MemFree:"),
                     LastWith(lines, "Buffers:"), LastWith(lines, "Cached:"))
  {
    hide ParseKibValue;
    if lines == [] {
    } else {
      CountersAre(lines[..|lines| - 1]);
    }
  }

  /** How many lines are read: up to the first after which both main counters are known. */
  function ReadTo(lines: seq<string>, from: nat): (n: nat)
    requires from <= |lines|
    ensures from <= n <= |lines|
    decreases |lines| - from
  {
    if from == |lines| then from
    else
      var seen := lines[..from + 1];
      if (MemTotal.Starts(lines[from]) || MemAvailable.Starts(lines[from]))
         && Lookup(seen, MemTotal).Some? && Lookup(seen, MemAvailable).Some?
      then from + 1
      else ReadTo(lines, from + 1)
  }

  /** The lines the scan gets to see. */
  function Read(lines: seq<string>): seq<string> { lines[..ReadTo(lines, 0)] }

  function Unread(lines: seq<string>): seq<string> { lines[ReadTo(lines, 0)..] }

  /** Loop with early exit. `None` is the parse error. */
  method ReadFromMeminfo(lines: seq<string>) returns (r: Option<MemoryStatus>)
    ensures r == AllCounters(Read(lines)).Status()
  {
    hide ParseKibValue, Lookup, ReadTo, Key.Starts;
    NothingRead(lines);
    var total: Option<nat>, available: Option<nat> := None, None;
    var free: Option<nat>, buffers: Option<nat>, cached: Option<nat> := None, None, None;
    var i := 0;
    while i < |lines|
      invariant i <= |lines|
      invariant Counters(total, available, free, buffers, cached) == AllCounters(lines[..i])
      invariant ReadTo(lines, i) == ReadTo(lines, 0)
    {
      var line := lines[i];
      LookupStep(lines, i);
      i := i + 1;
      if MemTotal.Starts(line) {
        total := ParseKibValue(line);
        if total.Some? && available.Some? {
          break;
        }
      } else if MemAvailable.Starts(line) {
        available := ParseKibValue(line);
        if total.Some? && available.Some? {
          break;
        }
      } else if MemFree.Starts(line) {
        free := ParseKibValue(line);
      } else if Buffers.Starts(line) {
        buffers := ParseKibValue(line);
      } else if Cached.Starts(line) {
        cached := ParseKibValue(line);
      }
    }
    ghost var counters := Counters(total, available, free, buffers, cached);
    assert counters == AllCounters(Read(lines));
    if total.None? {
      return None;
    }
    var availableKib := available;
    if availableKib.None? && free.Some? {
      var b := if buffers.Some? then buffers.value else 0;
      var c := if cached.Some? then cached.value else 0;
      if free.value + b <= U64_MAX && free.value + b + c <= U64_MAX {
        availableKib := Some(free.value + b + c);
      }
    }
    assert availableKib == counters.AvailableKib();
    if availableKib.None? {
      return None;
    }
    return Some(MemoryStatus(KibToBytes(availableKib.value), KibToBytes(total.value)));
  }

  lemma NothingRead(lines: seq<string>)
    ensures AllCounters(lines[..0]) == Counters(None, None, None, None, None)
  {
  }

  /** One more line: the counter of its key takes its value, the others stay. */
  lemma LookupStep(lines: seq<string>, i: nat)
    requires i < |lines|
    ensures forall key :: Lookup(lines[..i + 1], key) ==
                          if key.Starts(lines[i]) then ParseKibValue(lines[i]) else Lookup(lines[..i], key)
    ensures forall k1: Key, k2: Key :: k1.Starts(lines[i]) && k2.Starts(lines[i]) ==> k1 == k2
    ensures ReadTo(lines, i) ==
              if (MemTotal.Starts(lines[i]) || MemAvailable.Starts(lines[i]))
                 && Lookup(lines[..i + 1], MemTotal).Some? && Lookup(lines[..i + 1], MemAvailable).Some?
              then i + 1 else ReadTo(lines, i + 1)
  {
    assert lines[..i + 1][..i] == lines[..i];
    forall k1: Key, k2: Key | k1.Starts(lines[i]) && k2.Starts(lines[i]) ensures k1 == k2 {
      KeysExclude(k1, k2, lines[i]);
    }
  }

  // ----- when stopping early, and the order of the lines, do not matter -------------------

  /** Lines with the same key say the same; in particular when each key occurs at most once. */
  predicate Consistent(lines: seq<string>) {
    forall key: Key, i, j | 0 <= i < |lines| && 0 <= j < |lines| ::
      key.Starts(lines[i]) && key.Starts(lines[j]) ==> ParseKibValue(lines[i]) == ParseKibValue(lines[j])
  }

  lemma {:induction false} LookupAny(lines: seq<string>, key: Key) returns (i: int)
    ensures i == -1 ==> Lookup(lines, key) == None && forall j | 0 <= j < |lines| :: !key.Starts(lines[j])
    ensures i != -1 ==> 0 <= i < |lines| && key.Starts(lines[i]) && Lookup(lines, key) == ParseKibValue(lines[i])
  {
    if lines == [] {
      return -1;
    }
    var n := |lines| - 1;
    if key.Starts(lines[n]) {
      return n;
    }
    i := LookupAny(lines[..n], key);
  }

  /** The lookup of a key only depends on which lines there are. */
  lemma LookupIsOrderFree(a: seq<string>, b: seq<string>, key: Key)
    requires Consistent(a) && forall line | line in b :: line in a
    requires (exists i :: 0 <= i < |a| && key.Starts(a[i])) ==> exists j :: 0 <= j < |b| && key.Starts(b[j])
    ensures Lookup(a, key) == Lookup(b, key)
  {
    var i := LookupAny(a, key);
    var j := LookupAny(b, key);
    if j != -1 {
      assert b[j] in a;
      var k :| 0 <= k < |a| && a[k] == b[j];
      assert key.Starts(a[k]);
    }
  }

  /** Where reading stops, both main counters are known. */
  lemma {:induction false} StopsWhenKnown(lines: seq<string>, from: nat)
    requires from <= |lines| && ReadTo(lines, from) < |lines|
    ensures var read := lines[..ReadTo(lines, from)];
            Lookup(read, MemTotal).Some? && Lookup(read, MemAvailable).Some?
    decreases |lines| - from
  {
    var seen := lines[..from + 1];
    if !((MemTotal.Starts(lines[from]) || MemAvailable.Starts(lines[from]))
         && Lookup(seen, MemTotal).Some? && Lookup(seen, MemAvailable).Some?) {
      StopsWhenKnown(lines, from + 1);
    }
  }

  predicate BothKnown(lines: seq<string>) {
    Lookup(lines, MemTotal).Some? && Lookup(lines, MemAvailable).Some?
  }

  /** Reading stops at the first moment at which both main counters are known, and else at the end. */
  lemma {:induction false} ReadToIsFirst(lines: seq<string>, from: nat)
    requires from <= |lines| && forall j | 0 <= j <= from :: !BothKnown(lines[..j])
    ensures var n := ReadTo(lines, from);
            && (forall j | 0 <= j < n :: !BothKnown(lines[..j]))
            && (BothKnown(lines[..n]) || n == |lines|)
    decreases |lines| - from
  {
    hide ParseKibValue;
    if from == |lines| {
    } else {
      LookupStep(lines, from);
      if !BothKnown(lines[..from + 1]) {
        ReadToIsFirst(lines, from + 1);
      }
    }
  }

  ghost predicate Mentions(lines: seq<string>, key: Key) {
    exists i :: 0 <= i < |lines| && key.Starts(lines[i])
  }

  /** The last line with a key decides, wherever the lines are cut. */
  lemma {:induction false} LookupAcrossCut(a: seq<string>, b: seq<string>, key: Key)
    ensures Lookup(a + b, key) == if Mentions(b, key) then Lookup(b, key) else Lookup(a, key)
  {
    hide ParseKibValue, Key.Starts;
    if b == [] {
      assert a + b == a;
    } else {
      var n := |b| - 1;
      assert (a + b)[..|a + b| - 1] == a + b[..n];
      LookupAcrossCut(a, b[..n], key);
      if key.Starts(b[n]) {
        assert Mentions(b, key);
      } else {
        assert Mentions(b, key) ==> Mentions(b[..n], key) by {
          if i :| 0 <= i < |b| && key.Starts(b[i]) {
            assert b[..n][i] == b[i];
          }
        }
        assert Mentions(b[..n], key) ==> Mentions(b, key) by {
          if i :| 0 <= i < |b[..n]| && key.Starts(b[..n][i]) {
            assert b[i] == b[..n][i];
          }
        }
      }
    }
  }

  /** The lines that are not read repeat a key only with the value already known. */
  ghost predicate RepeatsAgree(lines: seq<string>, key: Key) {
    Mentions(Unread(lines), key) ==> Lookup(Unread(lines), key) == Lookup(Read(lines), key)
  }

  lemma ReadAndUnread(lines: seq<string>)
    ensures Read(lines) + Unread(lines) == lines
  {
  }

  /** Stopping early leaves the two main counters as a full reading finds them exactly when the
      lines left unread say nothing else about them. */
  lemma EarlyExitKeepsCounter(lines: seq<string>, key: Key)
    ensures Lookup(Read(lines), key) == Lookup(lines, key) <==> RepeatsAgree(lines, key)
  {
    hide Read, Unread, Lookup, Mentions;
    ReadAndUnread(lines);
    LookupAcrossCut(Read(lines), Unread(lines), key);
  }

  /** Two counters that are reported as the same number of bytes: the same, or both so large
      that they saturate. */
  predicate SameBytes(a: Option<nat>, b: Option<nat>) {
    a.Some? && b.Some? && (a == b || (a.value > U64_MAX / KIB_TO_BYTES && b.value > U64_MAX / KIB_TO_BYTES))
  }

  /** What the unread lines make of the available memory: their own value, and where that cannot be
      parsed, the sum the code falls back to. */
  function AvailableFromRest(lines: seq<string>): Option<nat> {
    var rest := Lookup(Unread(lines), MemAvailable);
    if rest.Some? then rest else AllCounters(lines).Fallback()
  }

  /** The exact condition: each main key that occurs among the unread lines gives, there, the
      number of bytes already known. */
  ghost predicate EarlyExitIsExact(lines: seq<string>) {
    && (Mentions(Unread(lines), MemTotal) ==>
          SameBytes(Lookup(Unread(lines), MemTotal), Lookup(Read(lines), MemTotal)))
    && (Mentions(Unread(lines), MemAvailable) ==>
          SameBytes(AvailableFromRest(lines), Lookup(Read(lines), MemAvailable)))
  }

  lemma SaturatesAlike(a: nat, b: nat)
    ensures KibToBytes(a) == KibToBytes(b) <==> SameBytes(Some(a), Some(b))
  {
  }

  /** Counters whose status is known give the same status exactly when both numbers do. */
  lemma SameStatus(c: Counters, d: Counters)
    requires c.total.Some? && c.available.Some?
    ensures c.Status() == d.Status() <==> SameBytes(d.total, c.total) && SameBytes(d.AvailableKib(), c.available)
  {
    if d.total.Some? && d.AvailableKib().Some? {
      SaturatesAlike(d.total.value, c.total.value);
      SaturatesAlike(d.AvailableKib().value, c.available.value);
    }
    hide KibToBytes, SameBytes;
  }

  /** The scan with early exit reports what a full reading of all lines reports, exactly then. */
  lemma EarlyExitIff(lines: seq<string>)
    ensures AllCounters(Read(lines)).Status() == AllCounters(lines).Status() <==> EarlyExitIsExact(lines)
  {
    hide ParseKibValue;
    var n := ReadTo(lines, 0);
    if n < |lines| {
      StopsWhenKnown(lines, 0);
      LookupAcrossCut(Read(lines), Unread(lines), MemTotal);
      LookupAcrossCut(Read(lines), Unread(lines), MemAvailable);
      ReadAndUnread(lines);
      SameStatus(AllCounters(Read(lines)), AllCounters(lines));
    } else {
      assert Read(lines) == lines && Unread(lines) == [];
    }
  }

  lemma UnreadAgrees(lines: seq<string>, key: Key)
    requires Consistent(lines) && Mentions(Read(lines), key) && Mentions(Unread(lines), key)
    ensures Lookup(Unread(lines), key) == Lookup(Read(lines), key)
  {
    hide ParseKibValue, Key.Starts, ReadTo;
    var n := ReadTo(lines, 0);
    var i := LookupAny(Read(lines), key);
    var j := LookupAny(Unread(lines), key);
    assert Read(lines)[i] == lines[i] && Unread(lines)[j] == lines[n + j];
  }

  /** In particular when lines with the same key agree. */
  lemma EarlyExitIsHarmless(lines: seq<string>)
    requires Consistent(lines)
    ensures AllCounters(Read(lines)).Status() == AllCounters(lines).Status()
  {
    EarlyExitIff(lines);
    if ReadTo(lines, 0) < |lines| {
      StopsWhenKnown(lines, 0);
      forall key | key == MemTotal || key == MemAvailable
        ensures Mentions(Unread(lines), key) ==> Lookup(Unread(lines), key) == Lookup(Read(lines), key)
      {
        var i := LookupAny(Read(lines), key);
        assert Mentions(Read(lines), key);
        if Mentions(Unread(lines), key) {
          UnreadAgrees(lines, key);
        }
      }
    }
  }

  /** So the outcome is the same for any order of the lines. */
  lemma ResultIsOrderFree(a: seq<string>, b: seq<string>)
    requires Consistent(a) && multiset(a) == multiset(b)
    ensures AllCounters(Read(a)).Status() == AllCounters(Read(b)).Status()
  {
    assert forall line :: line in a <==> line in multiset(a);
    assert forall line :: line in b <==> line in multiset(b);
    SameLinesConsistent(a, b);
    forall key ensures Lookup(a, key) == Lookup(b, key) {
      SameKeys(a, b, key);
      LookupIsOrderFree(a, b, key);
    }
    EarlyExitIsHarmless(a);
    EarlyExitIsHarmless(b);
  }

  lemma SameKeys(a: seq<string>, b: seq<string>, key: Key)
    requires forall line :: line in a <==> line in b
    ensures (exists i :: 0 <= i < |a| && key.Starts(a[i])) ==> exists j :: 0 <= j < |b| && key.Starts(b[j])
  {
    if i :| 0 <= i < |a| && key.Starts(a[i]) {
      assert a[i] in b;
    }
  }

  lemma SameLinesConsistent(a: seq<string>, b: seq<string>)
    requires Consistent(a) && forall line :: line in a <==> line in b
    ensures Consistent(b)
  {
    forall key: Key, i, j | 0 <= i < |b| && 0 <= j < |b| && key.Starts(b[i]) && key.Starts(b[j])
      ensures ParseKibValue(b[i]) == ParseKibValue(b[j])
    {
      assert b[i] in a && b[j] in a;
      var p :| 0 <= p < |a| && a[p] == b[i];
      var q :| 0 <= q < |a| && a[q] == b[j];
      assert key.Starts(a[p]) && key.Starts(a[q]);
    }
  }

  /** A second total after both counters are known is the plainest way to tell the two apart. */
  lemma RepeatedKeyShows(a: string, b: string, c: string)
    requires MemTotal.Starts(a) && MemAvailable.Starts(b) && MemTotal.Starts(c)
    requires ParseKibValue(a).Some? && ParseKibValue(b).Some? && ParseKibValue(c).Some?
    ensures var lines := [a, b, c];
            && AllCounters(Read(lines)).total == ParseKibValue(a) && AllCounters(lines).total == ParseKibValue(c)
            && AllCounters(Read(lines)).available == AllCounters(lines).available == ParseKibValue(b)
  {
    var lines := [a, b, c];
    assert lines[..0] == [] && lines[..3] == lines;
    hide ParseKibValue;
    LookupStep(lines, 0);
    LookupStep(lines, 1);
    LookupStep(lines, 2);
  }

  // ----- a line as the kernel prints it ---------------------------------------------------

  lemma {:induction false} GapIsTrimmed(gap: string, s: string)
    requires AllSpace(gap) && s != "" && !IsSpace(s[0])
    ensures TrimStart(gap + s) == s
  {
    if gap == "" {
      assert gap + s == s;
    } else {
      assert (gap + s)[1..] == gap[1..] + s;
      GapIsTrimmed(gap[1..], s);
    }
  }

  lemma {:induction false} TokenStartsWith(digits: string, tail: string)
    requires forall k | 0 <= k < |digits| :: '0' <= digits[k] <= '9'
    ensures UpToSpace(digits + tail) == digits + UpToSpace(tail)
    ensures LeadingDigits(digits + tail) == digits + LeadingDigits(tail)
  {
    if digits == "" {
      assert digits + tail == tail;
    } else {
      assert (digits + tail)[1..] == digits[1..] + tail;
      TokenStartsWith(digits[1..], tail);
      assert digits == [digits[0]] + digits[1..];
    }
  }

  predicate AllDecimal(s: string) { forall k | 0 <= k < |s| :: '0' <= s[k] <= '9' }

  lemma DecimalDigits(s: string)
    requires AllDigits(s, 10)
    ensures AllDecimal(s)
  {
    forall k | 0 <= k < |s| ensures '0' <= s[k] <= '9' {
      assert IsDigit(s[k], 10);
    }
  }

  lemma {:induction false} TokenIgnoresEnd(s: string)
    ensures UpToSpace(TrimEnd(s)) == UpToSpace(s)
  {
    if s != "" && IsSpace(s[|s| - 1]) {
      var front, c := s[..|s| - 1], s[|s| - 1];
      assert s == front + [c];
      SpaceEndsToken(front, c);
      TokenIgnoresEnd(front);
    }
  }

  lemma {:induction false} SpaceEndsToken(s: string, c: char)
    requires IsSpace(c)
    ensures UpToSpace(s + [c]) == UpToSpace(s)
  {
    if s == "" {
      assert s + [c] == [c];
    } else {
      assert (s + [c])[1..] == s[1..] + [c];
      SpaceEndsToken(s[1..], c);
    }
  }

  lemma {:induction false} DigitsOfToken(s: string)
    ensures LeadingDigits(UpToSpace(s)) == LeadingDigits(s)
  {
    if s == "" {
    } else {
      DigitsOfToken(s[1..]);
      if !IsSpace(s[0]) {
        assert ([s[0]] + UpToSpace(s[1..]))[1..] == UpToSpace(s[1..]);
      }
    }
  }

  predicate NoDigitFirst(s: string) { s == "" || !('0' <= s[0] <= '9') }

  lemma {:induction false} LeadingDigitsAre(s: string) returns (rest: string)
    ensures s == LeadingDigits(s) + rest && AllDecimal(LeadingDigits(s)) && NoDigitFirst(rest)
  {
    if s != "" && '0' <= s[0] <= '9' {
      rest := LeadingDigitsAre(s[1..]);
      assert s == [s[0]] + s[1..];
    } else {
      rest := s;
    }
  }

  lemma {:induction false} FirstStays(s: string)
    requires s != "" && !IsSpace(s[0])
    ensures TrimEnd(s) != "" && TrimEnd(s)[0] == s[0]
  {
    if IsSpace(s[|s| - 1]) {
      FirstStays(s[..|s| - 1]);
    }
  }

  /** The first token of what follows the colon, and the digits it begins with. */
  lemma ValueOfRest(line: string)
    ensures ParseKibValue(line) ==
            match SplitOnce(line, ':')
            case None => None
            case Some((_, rest)) => ParseUnsigned(LeadingDigits(TrimStart(rest)), 10, U64_MAX)
  {
    match SplitOnce(line, ':')
    case None =>
    case Some((_, rest)) =>
      var y := TrimStart(rest);
      TrimStartIsTight(rest);
      TokenIgnoresEnd(y);
      DigitsOfToken(y);
      hide ParseUnsigned;
      if y != "" {
        FirstStays(y);
      }
  }

  /** A key without colon, a colon, space, a decimal numeral, and then anything that is no digit. */
  ghost predicate SpellsLine(line: string, n: nat, name: string, gap: string, digits: string, rest: string) {
    && line == name + [':'] + (gap + (digits + rest))
    && ':' !in name && AllSpace(gap) && AllDecimal(digits) && IsNumeral(digits, 10, n) && NoDigitFirst(rest)
  }

  /** Exactly such lines have a value, the numeral, when it fits 64 bits. */
  lemma KibIff(line: string, n: nat)
    ensures ParseKibValue(line) == Some(n) <==>
            n <= U64_MAX && exists name, gap, digits, rest :: SpellsLine(line, n, name, gap, digits, rest)
  {
    ValueOfRest(line);
    if ParseKibValue(line) == Some(n) {
      KibSpells(line, n);
    }
    if n <= U64_MAX && exists name, gap, digits, rest :: SpellsLine(line, n, name, gap, digits, rest) {
      var name, gap, digits, rest :| SpellsLine(line, n, name, gap, digits, rest);
      SpelledParses(line, n, name, gap, digits, rest);
    }
  }

  lemma KibSpells(line: string, n: nat)
    requires ParseKibValue(line) == Some(n)
    ensures n <= U64_MAX && exists name, gap, digits, rest :: SpellsLine(line, n, name, gap, digits, rest)
  {
    ValueOfRest(line);
    var (name, after) := SplitOnce(line, ':').value;
    hide ParseKibValue, TrimStart;
    var gap := TrimStartIs(after);
    var digits := LeadingDigits(TrimStart(after));
    var rest := LeadingDigitsAre(TrimStart(after));
    DecimalNumeral(digits, n);
    assert SpellsLine(line, n, name, gap, digits, rest);
  }

  lemma DecimalNumeral(digits: string, n: nat)
    requires AllDecimal(digits)
    ensures ParseUnsigned(digits, 10, U64_MAX) == Some(n) <==> IsNumeral(digits, 10, n) && n <= U64_MAX
  {
    forall k | 0 <= k < |digits| ensures IsDigit(digits[k], 10) {
    }
  }

  lemma SpelledParses(line: string, n: nat, name: string, gap: string, digits: string, rest: string)
    requires SpellsLine(line, n, name, gap, digits, rest) && n <= U64_MAX
    ensures ParseKibValue(line) == Some(n)
  {
    ValueOfRest(line);
    hide ParseKibValue, ParseUnsigned, TrimStart;
    SplitOnceAt(name, gap + (digits + rest), ':');
    assert (digits + rest)[0] == digits[0];
    GapIsTrimmed(gap, digits + rest);
    TokenStartsWith(digits, rest);
    assert LeadingDigits(rest) == "" && digits + "" == digits;
    DecimalNumeral(digits, n);
  }

  /** In particular the lines the kernel prints, with any unit after the number. */
  lemma PrintedLineParses(name: string, gap: string, n: nat, width: nat, unit: string)
    requires ':' !in name && AllSpace(gap) && NoDigitFirst(unit)
    requires width > 0 && n < Power(10, width) && n <= U64_MAX
    ensures ParseKibValue(name + [':'] + (gap + (Digits(n, 10, width) + unit))) == Some(n)
  {
    var digits := Digits(n, 10, width);
    NumberOfDigits(n, 10, width);
    DecimalDigits(digits);
    hide Digits, ParseKibValue;
    KibIff(name + [':'] + (gap + (digits + unit)), n);
    assert SpellsLine(name + [':'] + (gap + (digits + unit)), n, name, gap, digits, unit);
  }

  /** On this text the two readings report different totals. */
  lemma RepeatedTotal()
    ensures var lines := ["MemTotal:1", "MemAvailable:1", "MemTotal:2"];
            && AllCounters(Read(lines)).Status() == Some(MemoryStatus(1024, 1024))
            && AllCounters(lines).Status() == Some(MemoryStatus(1024, 2048))
  {
    ExampleLines();
    hide ParseKibValue, ReadTo, Lookup;
    RepeatedKeyShows("MemTotal:1", "MemAvailable:1", "MemTotal:2");
  }

  lemma ExampleLines()
    ensures ParseKibValue("MemTotal:1") == Some(1) && MemTotal.Starts("MemTotal:1")
    ensures ParseKibValue("MemTotal:2") == Some(2) && MemTotal.Starts("MemTotal:2")
    ensures ParseKibValue("MemAvailable:1") == Some(1) && MemAvailable.Starts("MemAvailable:1")
  {
    hide ParseKibValue, Digits, Power;
    assert ParseKibValue("MemTotal:1") == Some(1) by {
      OneDigitLine("MemTotal", 1);
      assert "MemTotal" + [':'] + [DigitChar(1)] == "MemTotal:1";
    }
    assert ParseKibValue("MemTotal:2") == Some(2) by {
      OneDigitLine("MemTotal", 2);
      assert "MemTotal" + [':'] + [DigitChar(2)] == "MemTotal:2";
    }
    assert ParseKibValue("MemAvailable:1") == Some(1) by {
      OneDigitLine("MemAvailable", 1);
      assert "MemAvailable" + [':'] + [DigitChar(1)] == "MemAvailable:1";
    }
  }

  lemma OneDigitLine(name: string, n: nat)
    requires ':' !in name && n < 10
    ensures ParseKibValue(name + [':'] + [DigitChar(n)]) == Some(n)
  {
    assert Power(10, 1) == 10;
    assert Digits(n, 10, 1) == [DigitChar(n)];
    assert "" + ([DigitChar(n)] + "") == [DigitChar(n)];
    hide ParseKibValue;
    PrintedLineParses(name, "", n, 1, "");
  }

  /** There is no status exactly when the total is missing, or the available memory is and cannot be made
      up from the free memory, which has to be there, and buffers and cache, which count as 0 if not. */
  lemma NoStatusIff(c: Counters)
    ensures c.Status().None? <==>
            || c.total.None?
            || (c.available.None? &&
                match (c.free, c.buffers, c.cached)
                case (None, _, _) => true
                case (Some(f), Some(b), Some(h)) => f + b + h > U64_MAX
                case (Some(f), Some(b), None) => f + b > U64_MAX
                case (Some(f), None, Some(h)) => f + h > U64_MAX
                case (Some(f), None, None) => f > U64_MAX)
  {
  }

  /** What the counters come to: bytes, saturated; and an available amount that does not exceed the
      total in KiB does not exceed it in bytes. */
  lemma StatusInBytes(c: Counters)
    requires c.Status().Some?
    ensures var s, a, t := c.Status().value, c.AvailableKib().value, c.total.value;
            && s.availableBytes == (if 1024 * a < U64_MAX then 1024 * a else U64_MAX)
            && s.totalBytes == (if 1024 * t < U64_MAX then 1024 * t else U64_MAX)
            && (a <= t ==> s.availableBytes <= s.totalBytes)
            && (c.available.None? ==> a == c.free.value + (if c.buffers.Some? then c.buffers.value else 0)
                                           + (if c.cached.Some? then c.cached.value else 0) <= U64_MAX)
  {
  }
}
