/**
Opening a file as a read-only mapping while other processes may change it: stat, map, re-stat.
The environment moves between any two of these steps.  The two opening functions compare
different lengths after mapping, and so promise different things.
*/
module MappedOpen {
  import opened Wrappers
  import opened FileIdentities

  /** A file that others change too. */
  class SharedFile {
    var now: FileIdentity
    ghost var history: seq<FileIdentity>

    ghost predicate Valid()
      reads this
    {
      |history| > 0 && history[|history| - 1] == now
    }

    constructor (now: FileIdentity)
      ensures Valid() && history == [now]
    {
      this.now, history := now, [now];
    }

    /** Other processes take the file through `moves`. */
    method Interfere(moves: seq<FileIdentity>)
      requires Valid()
      modifies this
      ensures Valid() && history == old(history) + moves && now == Last(old(now), moves)
    {
      now := Last(now, moves);
      history := history + moves;
    }
  }

  function Last(start: FileIdentity, moves: seq<FileIdentity>): FileIdentity {
    if |moves| == 0 then start else moves[|moves| - 1]
  }

  /** Which system calls fail. */
  datatype Faults = Faults(open: bool, stat: bool, map_: bool, restat: bool, advise: bool)
  {
    /** The first call that fails, up to the second stat. */
    function First(): Option<OpenError> {
      if open then Some(OpenRefused)
      else if stat then Some(StatRefused)
      else if map_ then Some(MapRefused)
      else if restat then Some(RestatRefused)
      else None
    }
  }

  /** What the other processes do before each step of the opening function. */
  datatype Schedule = Schedule(beforeStat: seq<FileIdentity>, beforeMap: seq<FileIdentity>, beforeRestat: seq<FileIdentity>)
  {
    function AtStat(start: FileIdentity): FileIdentity { Last(start, beforeStat) }

    function AtMap(start: FileIdentity): FileIdentity { Last(AtStat(start), beforeMap) }

    function AtRestat(start: FileIdentity): FileIdentity { Last(AtMap(start), beforeRestat) }

    function Moves(): seq<FileIdentity> { beforeStat + beforeMap + beforeRestat }
  }

  /** No call that is made fails; there is nothing to advise on an empty mapping. */
  predicate Undisturbed(f: Faults, mapLen: nat) {
    !f.open && !f.stat && !f.map_ && !f.restat && (f.advise ==> mapLen == 0)
  }

  /** `open_with_advice`: re-checks against the length of the mapping itself.  Whatever others do
      between the steps, it succeeds exactly when all three lengths it could see agree. */
  method OpenWithAdvice(file: SharedFile, s: Schedule, f: Faults) returns (r: Result<nat, OpenError>)
    requires file.Valid()
    modifies file
    ensures file.Valid() && old(file.history) <= file.history <= old(file.history) + s.Moves()
    ensures var start := old(file.now);
            r.Ok? <==> && Undisturbed(f, s.AtMap(start).len)
                       && s.AtStat(start).len == s.AtMap(start).len == s.AtRestat(start).len
                       && SameInode(s.AtStat(start), s.AtRestat(start))
    ensures var start := old(file.now);
            r.Ok? ==> r.value == s.AtStat(start).len == s.AtMap(start).len == s.AtRestat(start).len
    ensures f.First().Some? ==> r == Err(f.First().value)
    ensures f.First().None? && r.Err? ==>
              var start := old(file.now);
              r.error == if s.AtStat(start).len == s.AtMap(start).len == s.AtRestat(start).len
                            && SameInode(s.AtStat(start), s.AtRestat(start)) then AdviseRefused else Changed
  {
    if f.open {
      return Err(OpenRefused);
    }
    file.Interfere(s.beforeStat);
    if f.stat {
      return Err(StatRefused);
    }
    var expected := file.now;
    file.Interfere(s.beforeMap);
    if f.map_ {
      return Err(MapRefused);
    }
    var mapLen := file.now.len;
    file.Interfere(s.beforeRestat);
    var failed := ValidateFileIdentity(if f.restat then None else Some(file.now), expected, mapLen);
    if failed.Some? {
      return Err(failed.value);
    }
    if mapLen != 0 && f.advise {
      return Err(AdviseRefused);
    }
    return Ok(mapLen);
  }

  /** When `open_read_with_size` and the corpus path succeed: the two stats agree with the
      expected size, but the mapping was taken in between. */
  predicate SizedSucceeds(start: FileIdentity, s: Schedule, f: Faults, expectedSize: nat) {
    && Undisturbed(f, s.AtMap(start).len)
    && s.AtStat(start).len == s.AtRestat(start).len == expectedSize
    && SameInode(s.AtStat(start), s.AtRestat(start))
  }

  method OpenReadWithSize(file: SharedFile, s: Schedule, f: Faults, expectedSize: nat) returns (r: Result<nat, OpenError>)
    requires file.Valid()
    modifies file
    ensures file.Valid() && old(file.history) <= file.history <= old(file.history) + s.Moves()
    ensures r.Ok? <==> SizedSucceeds(old(file.now), s, f, expectedSize)
    ensures r.Ok? ==> r.value == s.AtMap(old(file.now)).len
    ensures r == Err(SizeMismatch) <==> !f.open && !f.stat && s.AtStat(old(file.now)).len != expectedSize
    ensures f.First().Some? && r != Err(SizeMismatch) ==> r == Err(f.First().value)
    ensures f.First().None? && r.Err? && r.error != SizeMismatch ==>
              var start := old(file.now);
              r.error == if s.AtRestat(start).len == expectedSize && SameInode(s.AtStat(start), s.AtRestat(start))
                         then AdviseRefused else Changed
  {
    if f.open {
      return Err(OpenRefused);
    }
    file.Interfere(s.beforeStat);
    if f.stat {
      return Err(StatRefused);
    }
    var expected := file.now;
    if expected.len != expectedSize {
      return Err(SizeMismatch);
    }
    file.Interfere(s.beforeMap);
    if f.map_ {
      return Err(MapRefused);
    }
    var mapLen := file.now.len;
    file.Interfere(s.beforeRestat);
    var failed := ValidateFileIdentity(if f.restat then None else Some(file.now), expected, expectedSize);
    if failed.Some? {
      return Err(failed.value);
    }
    if mapLen != 0 && f.advise {
      return Err(AdviseRefused);
    }
    return Ok(mapLen);
  }

  // ----- which environments make the sized opening exact -------------------------

  /** A rule says which single changes other processes may make. */
  type Rule = (FileIdentity, FileIdentity) -> bool

  ghost predicate Obeys(rule: Rule, start: FileIdentity, moves: seq<FileIdentity>) {
    forall k | 0 <= k < |moves| :: rule(Last(start, moves[..k]), moves[k])
  }

  ghost predicate ScheduleObeys(rule: Rule, start: FileIdentity, s: Schedule) {
    && Obeys(rule, start, s.beforeStat)
    && Obeys(rule, s.AtStat(start), s.beforeMap)
    && Obeys(rule, s.AtMap(start), s.beforeRestat)
  }

  ghost predicate Reaches(rule: Rule, a: FileIdentity, b: FileIdentity) {
    exists moves :: Obeys(rule, a, moves) && Last(a, moves) == b
  }

  /** The file never leaves a length and then comes back to it. */
  ghost predicate NoExcursion(rule: Rule) {
    forall a, b, c | Reaches(rule, a, b) && Reaches(rule, b, c) :: a.len == c.len && SameInode(a, c) ==> b.len == a.len
  }

  /** Under `rule`, every successful sized opening maps exactly the expected size. */
  ghost predicate AlwaysExact(rule: Rule) {
    forall start, s, f, expectedSize | ScheduleObeys(rule, start, s) && SizedSucceeds(start, s, f, expectedSize) ::
      s.AtMap(start).len == expectedSize
  }

  /** The sized opening is exact in exactly the environments without excursions. */
  lemma ExactIffNoExcursion(rule: Rule)
    ensures AlwaysExact(rule) <==> NoExcursion(rule)
  {
    if NoExcursion(rule) {
      forall start, s, f, expectedSize | ScheduleObeys(rule, start, s) && SizedSucceeds(start, s, f, expectedSize)
        ensures s.AtMap(start).len == expectedSize
      {
        var a, b, c := s.AtStat(start), s.AtMap(start), s.AtRestat(start);
        assert Reaches(rule, a, b) && Reaches(rule, b, c);
      }
    }
    if AlwaysExact(rule) {
      forall a, b, c | Reaches(rule, a, b) && Reaches(rule, b, c) && a.len == c.len && SameInode(a, c)
        ensures b.len == a.len
      {
        var there :| Obeys(rule, a, there) && Last(a, there) == b;
        var back :| Obeys(rule, b, back) && Last(b, back) == c;
        var s, f := Schedule([], there, back), Faults(false, false, false, false, false);
        assert ScheduleObeys(rule, a, s) && SizedSucceeds(a, s, f, a.len);
      }
    }
  }

  ghost predicate Grows(rule: Rule) {
    forall a, b | rule(a, b) :: a.len <= b.len
  }

  ghost predicate Shrinks(rule: Rule) {
    forall a, b | rule(a, b) :: b.len <= a.len
  }

  lemma {:induction false} PathIsMonotone(rule: Rule, start: FileIdentity, moves: seq<FileIdentity>)
    requires Obeys(rule, start, moves)
    ensures Grows(rule) ==> start.len <= Last(start, moves).len
    ensures Shrinks(rule) ==> Last(start, moves).len <= start.len
  {
    if |moves| == 0 {
    } else {
      var front := moves[..|moves| - 1];
      forall k | 0 <= k < |front|
        ensures rule(Last(start, front[..k]), front[k])
      {
        assert front[..k] == moves[..k] && front[k] == moves[k];
      }
      PathIsMonotone(rule, start, front);
      assert rule(Last(start, front), moves[|moves| - 1]);
    }
  }

  /** A file that only grows, or only shrinks, is mapped at its expected size. */
  lemma MonotoneIsExact(rule: Rule)
    requires Grows(rule) || Shrinks(rule)
    ensures AlwaysExact(rule)
  {
    forall a, b | Reaches(rule, a, b)
      ensures Grows(rule) ==> a.len <= b.len
      ensures Shrinks(rule) ==> b.len <= a.len
    {
      var moves :| Obeys(rule, a, moves) && Last(a, moves) == b;
      PathIsMonotone(rule, a, moves);
    }
    ExactIffNoExcursion(rule);
  }

  /** Without such a hypothesis it fails: grow, map, shrink back. */
  lemma ChangeAndChangeBack(small: nat, large: nat, f: Faults)
    requires small < large && Undisturbed(f, large)
    ensures var start, s := FileIdentity(small, 0, 0), Schedule([], [FileIdentity(large, 0, 0)], [FileIdentity(small, 0, 0)]);
            SizedSucceeds(start, s, f, small) && s.AtMap(start).len == large
    ensures !AlwaysExact((a, b) => true)
  {
    var start, s := FileIdentity(small, 0, 0), Schedule([], [FileIdentity(large, 0, 0)], [FileIdentity(small, 0, 0)]);
    var rule: Rule := (a, b) => true;
    assert ScheduleObeys(rule, start, s) && SizedSucceeds(start, s, f, small);
  }
}
