/**
The once-only libnuma loader: double-checked locking over a static `OnceLock`
and a `Mutex` whose poison flag is ignored.  Every call of `load` is a small
program counter; a run interleaves the steps of any number of calls, and each
attempt to load the library may succeed, fail or panic.
*/
module NumaLoader {
  import opened Wrappers

  /** The cached value; that no usable library exists is itself a cacheable answer. */
  datatype Library = NoLibrary | Loaded(handle: nat)

  datatype Failure = SymbolMissing(symbol: nat) | InitializationFailed

  datatype Outcome = Returned(result: Result<Library, Failure>) | Panicked

  // ----- try_load ---------------------------------------------------------

  /** What opening one candidate library name led to. */
  datatype Candidate = Opened(handle: nat) | Unavailable | NotFound | BadSymbol(symbol: nat)
  {
    /** A candidate that is passed over in favour of the next name. */
    predicate Skipped() { Unavailable? || NotFound? }

    /** What a candidate that is not passed over decides. */
    function Decision(): Result<Library, Failure>
      requires !Skipped()
    {
      if Opened? then Ok(Loaded(handle)) else Err(SymbolMissing(symbol))
    }
  }

  /** The first candidate that is not passed over decides; when all are, there is no library. */
  method TryLoad(candidates: seq<Candidate>) returns (r: Result<Library, Failure>)
    ensures (forall k | 0 <= k < |candidates| :: candidates[k].Skipped()) ==> r == Ok(NoLibrary)
    ensures forall k | 0 <= k < |candidates| && !candidates[k].Skipped() ::
              (forall j | 0 <= j < k :: candidates[j].Skipped()) ==> r == candidates[k].Decision()
  {
    for i := 0 to |candidates|
      invariant forall j | 0 <= j < i :: candidates[j].Skipped()
    {
      match candidates[i]
      case Opened(handle) => return Ok(Loaded(handle));
      case Unavailable => {}
      case NotFound => {}
      case BadSymbol(symbol) => return Err(SymbolMissing(symbol));
    }
    return Ok(NoLibrary);
  }

  // ----- the protocol -----------------------------------------------------

  /** Where one call of `load` stands. */
  datatype Pc =
    | FirstGet                    // before the unlocked look at the cell
    | Locking                     // waiting for the mutex
    | SecondGet                   // lock held, before the second look
    | Loading                     // lock held, inside try_load
    | Setting(library: Library)   // lock held, try_load succeeded
    | FinalGet                    // lock held, set was called
    | Returning(outcome: Outcome) // lock held, leaving (or unwinding): the guard drops next
    | Done(outcome: Outcome)
  {
    predicate HoldsGuard() { SecondGet? || Loading? || Setting? || FinalGet? || Returning? }

    /** The number of steps this call still has to take, at most. */
    function Rank(): nat {
      match this
      case FirstGet => 7
      case Locking => 6
      case SecondGet => 5
      case Loading => 4
      case Setting(_) => 3
      case FinalGet => 2
      case Returning(_) => 1
      case Done(_) => 0
    }
  }

  datatype State = State(cell: Option<Library>, holder: Option<nat>, poisoned: bool, calls: seq<Pc>)

  datatype Action =
    | Call
    | LookUnlocked(t: nat)
    | Lock(t: nat)
    | LookLocked(t: nat)
    | LoadSucceeds(t: nat, library: Library)
    | LoadFails(t: nat, failure: Failure)
    | LoadPanics(t: nat)
    | SetCell(t: nat)
    | LookAgain(t: nat)
    | Unlock(t: nat)

  const INITIAL := State(None, None, false, [])

  /** The call an action belongs to stands where the action starts; only locking can block. */
  predicate Enabled(s: State, a: Action) {
    a.Call? || (a.t < |s.calls| &&
                match a
                case LookUnlocked(t) => s.calls[t].FirstGet?
                case Lock(t) => s.calls[t].Locking? && s.holder.None?
                case LookLocked(t) => s.calls[t].SecondGet?
                case LoadSucceeds(t, _) => s.calls[t].Loading?
                case LoadFails(t, failure) => s.calls[t].Loading? && failure.SymbolMissing?
                case LoadPanics(t) => s.calls[t].Loading?
                case SetCell(t) => s.calls[t].Setting?
                case LookAgain(t) => s.calls[t].FinalGet?
                case Unlock(t) => s.calls[t].Returning?)
  }

  function At(s: State, t: nat, pc: Pc): State
    requires t < |s.calls|
  {
    s.(calls := s.calls[t := pc])
  }

  function Apply(s: State, a: Action): State
    requires Enabled(s, a)
  {
    match a
    case Call => s.(calls := s.calls + [FirstGet])
    case LookUnlocked(t) =>
      if s.cell.Some? then At(s, t, Done(Returned(Ok(s.cell.value)))) else At(s, t, Locking)
    case Lock(t) => At(s, t, SecondGet).(holder := Some(t)) // a poisoned lock is taken all the same
    case LookLocked(t) =>
      if s.cell.Some? then At(s, t, Returning(Returned(Ok(s.cell.value)))) else At(s, t, Loading)
    case LoadSucceeds(t, library) => At(s, t, Setting(library))
    case LoadFails(t, failure) => At(s, t, Returning(Returned(Err(failure))))
    case LoadPanics(t) => At(s, t, Returning(Panicked))
    case SetCell(t) =>
      // `OnceLock::set` on a full cell is refused and the new value dropped
      var written := if s.cell.None? then Some(s.calls[t].library) else s.cell;
      At(s, t, FinalGet).(cell := written)
    case LookAgain(t) =>
      if s.cell.Some? then At(s, t, Returning(Returned(Ok(s.cell.value))))
      else At(s, t, Returning(Returned(Err(InitializationFailed))))
    case Unlock(t) =>
      var outcome := s.calls[t].outcome;
      At(s, t, Done(outcome)).(holder := None, poisoned := s.poisoned || outcome.Panicked?)
  }

  /** `states[i]` becomes `states[i + 1]` by `actions[i]`. */
  predicate IsPath(states: seq<State>, actions: seq<Action>) {
    && |states| == |actions| + 1
    && forall i | 0 <= i < |actions| ::
         Enabled(states[i], actions[i]) && states[i + 1] == Apply(states[i], actions[i])
  }

  predicate IsRun(states: seq<State>, actions: seq<Action>) {
    IsPath(states, actions) && states[0] == INITIAL
  }

  // ----- the inductive invariant -------------------------------------------

  predicate OutcomeFits(o: Outcome, cell: Option<Library>) {
    && (o.Returned? && o.result.Ok? ==> cell == Some(o.result.value))
    && (o.Returned? && o.result.Err? ==> o.result.error.SymbolMissing?)
  }

  /** What a call knows about the cell at each program point. */
  predicate PcFits(pc: Pc, cell: Option<Library>) {
    match pc
    case Loading => cell.None?
    case Setting(_) => cell.None?
    case FinalGet => cell.Some?
    case Returning(o) =>
      OutcomeFits(o, cell) && (cell.Some? <==> o.Returned? && o.result.Ok?)
    case Done(o) => OutcomeFits(o, cell)
    case _ => true
  }

  predicate Inv(s: State) {
    && (s.holder.Some? ==> s.holder.value < |s.calls|)
    && (forall t | 0 <= t < |s.calls| :: s.calls[t].HoldsGuard() <==> s.holder == Some(t))
    && (forall t | 0 <= t < |s.calls| :: PcFits(s.calls[t], s.cell))
  }

  lemma InvIsInductive(s: State, a: Action)
    requires Inv(s) && Enabled(s, a)
    ensures Inv(Apply(s, a))
  {
    var s' := Apply(s, a);
    forall t | 0 <= t < |s'.calls|
      ensures s'.calls[t].HoldsGuard() <==> s'.holder == Some(t)
      ensures PcFits(s'.calls[t], s'.cell)
    {
      if t < |s.calls| {
        assert s.calls[t].HoldsGuard() <==> s.holder == Some(t);
        assert PcFits(s.calls[t], s.cell);
      }
    }
  }

  lemma {:induction false} InvHolds(states: seq<State>, actions: seq<Action>, i: nat)
    requires IsRun(states, actions) && i < |states|
    ensures Inv(states[i])
  {
    if i == 0 {
    } else {
      InvHolds(states, actions, i - 1);
      InvIsInductive(states[i - 1], actions[i - 1]);
    }
  }

  // ----- safety over whole runs ---------------------------------------------

  /** Once written, the cell never changes. */
  lemma {:induction false} CellIsWrittenOnce(states: seq<State>, actions: seq<Action>, i: nat, j: nat)
    requires IsRun(states, actions) && i <= j < |states|
    requires states[i].cell.Some?
    ensures states[j].cell == states[i].cell
  {
    if i == j {
    } else {
      CellIsWrittenOnce(states, actions, i, j - 1);
    }
  }

  /** Every successful call, at any time and in any thread, returned the same library. */
  lemma AllCallsAgree(states: seq<State>, actions: seq<Action>, i: nat, t: nat, j: nat, u: nat)
    requires IsRun(states, actions) && i <= j < |states|
    requires t < |states[i].calls| && states[i].calls[t].Done? && states[i].calls[t].outcome.Returned?
    requires u < |states[j].calls| && states[j].calls[u].Done? && states[j].calls[u].outcome.Returned?
    requires states[i].calls[t].outcome.result.Ok? && states[j].calls[u].outcome.result.Ok?
    ensures states[i].calls[t].outcome == states[j].calls[u].outcome
    ensures states[j].cell == Some(states[j].calls[u].outcome.result.value)
  {
    InvHolds(states, actions, i);
    InvHolds(states, actions, j);
    assert PcFits(states[i].calls[t], states[i].cell) && PcFits(states[j].calls[u], states[j].cell);
    CellIsWrittenOnce(states, actions, i, j);
  }

  /** A library has been obtained: it is in the cell or about to be put there. */
  predicate Committed(s: State) {
    s.cell.Some? || exists t | 0 <= t < |s.calls| :: s.calls[t].Setting?
  }

  /** The step on which a call enters `try_load`. */
  predicate StartsLoad(s: State, a: Action) {
    a.LookLocked? && s.cell.None?
  }

  lemma CommittedIsFinal(s: State, a: Action)
    requires Inv(s) && Enabled(s, a)
    requires Committed(s)
    ensures Committed(Apply(s, a))
    ensures !a.LoadSucceeds? && !StartsLoad(s, a)
  {
    assert !a.Call? ==> PcFits(s.calls[a.t], s.cell);
    if s.cell.None? {
      var t :| 0 <= t < |s.calls| && s.calls[t].Setting?;
      assert s.calls[t].HoldsGuard();
      var s' := Apply(s, a);
      if !a.Call? {
        assert a.t == t || (a.t < |s.calls| && !s.calls[a.t].HoldsGuard());
      }
      assert a != SetCell(t) ==> s'.calls[t].Setting?;
    }
  }

  lemma {:induction false} CommittedPersists(states: seq<State>, actions: seq<Action>, i: nat, j: nat)
    requires IsRun(states, actions) && i <= j < |states|
    requires Committed(states[i])
    ensures Committed(states[j])
  {
    if i == j {
    } else {
      hide Apply, Enabled, Inv, Committed;
      CommittedPersists(states, actions, i, j - 1);
      InvHolds(states, actions, j - 1);
      CommittedIsFinal(states[j - 1], actions[j - 1]);
    }
  }

  /** At most one `try_load` of a run succeeds, and after it none even starts. */
  lemma AtMostOneLoadSucceeds(states: seq<State>, actions: seq<Action>, i: nat, j: nat)
    requires IsRun(states, actions) && i < j < |actions|
    requires actions[i].LoadSucceeds? || states[i].cell.Some?
    ensures !actions[j].LoadSucceeds? && !StartsLoad(states[j], actions[j])
  {
    if actions[i].LoadSucceeds? {
      assert states[i + 1].calls[actions[i].t].Setting?;
      CommittedPersists(states, actions, i + 1, j);
    } else {
      CommittedPersists(states, actions, i, j);
    }
    InvHolds(states, actions, j);
    CommittedIsFinal(states[j], actions[j]);
  }

  /** The library obtained, wherever it is. */
  predicate Carries(s: State, library: Library) {
    && (s.cell.Some? ==> s.cell.value == library)
    && forall t | 0 <= t < |s.calls| && s.calls[t].Setting? :: s.calls[t].library == library
  }

  lemma CarriedOn(s: State, a: Action, library: Library)
    requires Inv(s) && Enabled(s, a) && Committed(s) && Carries(s, library)
    ensures Carries(Apply(s, a), library)
  {
    CommittedIsFinal(s, a);
  }

  lemma CommitsByLoading(s: State, a: Action)
    requires Enabled(s, a) && !Committed(s) && Committed(Apply(s, a))
    ensures a.LoadSucceeds? && Carries(Apply(s, a), a.library)
  {
    assert forall t | 0 <= t < |s.calls| :: !s.calls[t].Setting?;
  }

  /** The cached library is the one a `try_load` of this run produced. */
  lemma {:induction false} CachedLibraryWasLoaded(states: seq<State>, actions: seq<Action>, n: nat) returns (i: nat)
    requires IsRun(states, actions) && n < |states|
    requires Committed(states[n])
    ensures i < n && actions[i].LoadSucceeds? && Carries(states[n], actions[i].library)
  {
    assert n > 0;
    var s, a := states[n - 1], actions[n - 1];
    hide Apply, Enabled, Inv, Committed, Carries;
    if Committed(s) {
      i := CachedLibraryWasLoaded(states, actions, n - 1);
      InvHolds(states, actions, n - 1);
      CarriedOn(s, a, actions[i].library);
    } else {
      i := n - 1;
      CommitsByLoading(s, a);
    }
  }

  /** `set` never meets a full cell, and the final look never finds an empty one. */
  lemma FallbackErrorsUnreachable(states: seq<State>, actions: seq<Action>, i: nat)
    requires IsRun(states, actions) && i < |actions|
    ensures actions[i].SetCell? ==> states[i].cell.None?
    ensures actions[i].LookAgain? ==> states[i].cell.Some?
    ensures forall t | 0 <= t < |states[i].calls| ::
              states[i].calls[t] != Done(Returned(Err(InitializationFailed)))
  {
    InvHolds(states, actions, i);
    if actions[i].SetCell? || actions[i].LookAgain? {
      assert PcFits(states[i].calls[actions[i].t], states[i].cell);
    }
    forall t | 0 <= t < |states[i].calls|
      ensures states[i].calls[t] != Done(Returned(Err(InitializationFailed)))
    {
      assert PcFits(states[i].calls[t], states[i].cell);
    }
  }

  /** A failed or panicked attempt leaves the cell empty, and its exit leaves the lock free. */
  lemma FailureIsNotCached(states: seq<State>, actions: seq<Action>, i: nat)
    requires IsRun(states, actions) && i < |actions|
    ensures actions[i].LoadFails? || actions[i].LoadPanics? ==> states[i + 1].cell.None?
    ensures actions[i].Unlock? && (var o := states[i].calls[actions[i].t].outcome; o.Panicked? || o.result.Err?) ==>
              states[i + 1].cell.None? && states[i + 1].holder.None?
  {
    InvHolds(states, actions, i);
    if !actions[i].Call? {
      assert PcFits(states[i].calls[actions[i].t], states[i].cell);
    }
  }

  /** The call is on its way out, or out, without a library. */
  predicate HasFailed(s: State, t: nat) {
    && t < |s.calls| && (s.calls[t].Done? || s.calls[t].Returning?)
    && (s.calls[t].outcome.Panicked? || s.calls[t].outcome.result.Err?)
  }

  lemma FailsByItself(s: State, a: Action, t: nat)
    requires Inv(s) && Enabled(s, a) && HasFailed(Apply(s, a), t)
    ensures HasFailed(s, t) ==> Apply(s, a).calls[t].outcome == s.calls[t].outcome
    ensures !HasFailed(s, t) ==> a == match Apply(s, a).calls[t].outcome
                                      case Panicked => LoadPanics(t)
                                      case Returned(result) => LoadFails(t, result.error)
  {
    assert a.Call? || PcFits(s.calls[a.t], s.cell);
  }

  /** An error or a panic is a call's own: it went through `try_load` itself, which so ended. */
  lemma {:induction false} FailureIsOwn(states: seq<State>, actions: seq<Action>, n: nat, t: nat) returns (i: nat)
    requires IsRun(states, actions) && n < |states| && HasFailed(states[n], t)
    ensures i < n && actions[i] == match states[n].calls[t].outcome
                                   case Panicked => LoadPanics(t)
                                   case Returned(result) => LoadFails(t, result.error)
  {
    assert n > 0;
    hide Apply, Enabled, Inv, HasFailed;
    InvHolds(states, actions, n - 1);
    FailsByItself(states[n - 1], actions[n - 1], t);
    if HasFailed(states[n - 1], t) {
      i := FailureIsOwn(states, actions, n - 1, t);
    } else {
      i := n - 1;
    }
  }

  /** Once the cell is full a call is over with its first look, whatever the others are doing. */
  lemma FastPath(s: State, t: nat)
    requires t < |s.calls| && s.calls[t].FirstGet? && s.cell.Some?
    ensures Enabled(s, LookUnlocked(t))
    ensures Apply(s, LookUnlocked(t)) == s.(calls := s.calls[t := Done(Returned(Ok(s.cell.value)))])
  {
  }

  /** So a later call tries again: with the cell empty and the lock free, poisoned or not,
      a fresh call run on its own gets into `try_load`. */
  lemma LaterCallRetries(s: State)
    requires Inv(s) && s.cell.None? && s.holder.None?
    ensures var t := |s.calls|;
            var s1 := Apply(s, Call);
            Enabled(s1, LookUnlocked(t)) && var s2 := Apply(s1, LookUnlocked(t));
            Enabled(s2, Lock(t)) && var s3 := Apply(s2, Lock(t));
            Enabled(s3, LookLocked(t)) && StartsLoad(s3, LookLocked(t)) &&
            Apply(s3, LookLocked(t)).calls[t].Loading?
  {
  }

  // ----- progress ------------------------------------------------------------

  function Remaining(calls: seq<Pc>): nat {
    if |calls| == 0 then 0 else Remaining(calls[..|calls| - 1]) + calls[|calls| - 1].Rank()
  }

  lemma {:induction false} RemainingUpdate(calls: seq<Pc>, t: nat, pc: Pc)
    requires t < |calls|
    ensures Remaining(calls[t := pc]) == Remaining(calls) - calls[t].Rank() + pc.Rank()
  {
    var front := calls[..|calls| - 1];
    if t < |calls| - 1 {
      assert calls[t := pc][..|calls| - 1] == front[t := pc];
      RemainingUpdate(front, t, pc);
    } else {
      assert calls[t := pc][..|calls| - 1] == front;
    }
  }

  /** A step moves one call, and forward. */
  lemma StepMovesForward(s: State, a: Action)
    requires Enabled(s, a)
    ensures a.Call? ==> Apply(s, a).calls == s.calls + [FirstGet]
    ensures !a.Call? ==> a.t < |s.calls| && |Apply(s, a).calls| == |s.calls|
                         && Apply(s, a).calls == s.calls[a.t := Apply(s, a).calls[a.t]]
                         && Apply(s, a).calls[a.t].Rank() < s.calls[a.t].Rank()
  {
  }

  /** Every interleaving is short: a run that has seen k calls has at most 8k steps. */
  lemma {:induction false} RunsTerminate(states: seq<State>, actions: seq<Action>, n: nat)
    requires IsRun(states, actions) && n < |states|
    ensures n + Remaining(states[n].calls) <= 8 * |states[n].calls|
  {
    if n == 0 {
    } else {
      RunsTerminate(states, actions, n - 1);
      var s, a := states[n - 1], actions[n - 1];
      StepMovesForward(s, a);
      hide Enabled, Apply;
      if a.Call? {
        assert (s.calls + [FirstGet])[..|s.calls|] == s.calls;
      } else {
        RemainingUpdate(s.calls, a.t, states[n].calls[a.t]);
      }
    }
  }

  /** A call can be held up in one way only: by the lock, while another call has it. */
  lemma OnlyTheLockBlocks(s: State, t: nat)
    requires Inv(s) && t < |s.calls| && !s.calls[t].Done?
    ensures (exists a: Action :: !a.Call? && a.t == t && Enabled(s, a)) <==> !(s.calls[t].Locking? && s.holder.Some?)
    ensures s.calls[t].Locking? ==> s.holder != Some(t)
  {
    match s.calls[t]
    case FirstGet => assert Enabled(s, LookUnlocked(t));
    case Locking => assert s.holder.None? ==> Enabled(s, Lock(t));
    case SecondGet => assert Enabled(s, LookLocked(t));
    case Loading => assert Enabled(s, LoadPanics(t));
    case Setting(_) => assert Enabled(s, SetCell(t));
    case FinalGet => assert Enabled(s, LookAgain(t));
    case Returning(_) => assert Enabled(s, Unlock(t));
  }

  /** No deadlock: while some call has not finished, some call can move. */
  lemma SomeCallCanMove(s: State, t: nat) returns (a: Action)
    requires Inv(s) && t < |s.calls| && !s.calls[t].Done?
    ensures !a.Call? && Enabled(s, a)
  {
    var u := if s.holder.Some? then s.holder.value else t;
    assert s.calls[u].HoldsGuard() <==> s.holder == Some(u);
    match s.calls[u]
    case FirstGet => a := LookUnlocked(u);
    case Locking => a := Lock(u);
    case SecondGet => a := LookLocked(u);
    case Loading => a := LoadPanics(u);
    case Setting(_) => a := SetCell(u);
    case FinalGet => a := LookAgain(u);
    case Returning(_) => a := Unlock(u);
    case Done(_) => assert false;
  }

  // ----- one call on its own ---------------------------------------------------

  /** What `try_load` does when a call reaches it. */
  datatype Attempt = Succeeds(library: Library) | Fails(symbol: nat) | Panics

  /** The two statics of `load`, as a single-threaded caller sees them. */
  class Statics {
    var library: Option<Library>
    var poisoned: bool

    /** The protocol state when at most one call has been made and it is outside the lock. */
    ghost function Quiet(calls: seq<Pc>): State
      reads this
    {
      State(library, None, poisoned, calls)
    }

    /** `load` run without interference: it takes a path of the protocol from the quiet state to
        the quiet state, consults `try_load` only on an empty cell, and caches only a success. */
    method Load(attempt: Attempt) returns (outcome: Outcome)
      modifies this
      ensures Leads(old(Quiet([FirstGet])), Quiet([Done(outcome)]))
      ensures old(library).Some? ==> unchanged(this) && outcome == Returned(Ok(library.value))
      ensures old(library).None? ==>
                match attempt
                case Succeeds(value) =>
                  library == Some(value) && outcome == Returned(Ok(value)) && poisoned == old(poisoned)
                case Fails(symbol) =>
                  unchanged(this) && outcome == Returned(Err(SymbolMissing(symbol)))
                case Panics => library == None && poisoned && outcome == Panicked
    {
      ghost var start := Quiet([FirstGet]);
      ghost var p := poisoned;
      if library.Some? {
        outcome := Returned(Ok(library.value));
        SoloStep(start, start, LookUnlocked(0), start.(calls := [Done(outcome)]));
        return;
      }
      SoloStep(start, start, LookUnlocked(0), State(None, None, p, [Locking]));
      SoloStep(start, State(None, None, p, [Locking]), Lock(0), State(None, Some(0), p, [SecondGet]));
      SoloStep(start, State(None, Some(0), p, [SecondGet]), LookLocked(0), State(None, Some(0), p, [Loading]));
      match attempt {
        case Succeeds(value) =>
          library := Some(value);
          outcome := Returned(Ok(value));
          SoloSuccess(start, p, value);
        case Fails(symbol) =>
          outcome := Returned(Err(SymbolMissing(symbol)));
          SoloFailure(start, p, LoadFails(0, SymbolMissing(symbol)), outcome);
        case Panics =>
          poisoned := true;
          outcome := Panicked;
          SoloFailure(start, p, LoadPanics(0), outcome);
      }
    }
  }

  /** Some path of the protocol leads from `s` to `s'`. */
  ghost predicate Leads(s: State, s': State) {
    exists states, actions :: IsPath(states, actions) && states[0] == s && states[|actions|] == s'
  }

  lemma SoloStep(start: State, s: State, a: Action, s': State)
    requires s == start || Leads(start, s)
    requires Enabled(s, a) && s' == Apply(s, a)
    ensures Leads(start, s')
  {
    if s == start {
      assert IsPath([s, s'], [a]);
    } else {
      var states, actions :| IsPath(states, actions) && states[0] == start && states[|actions|] == s;
      assert IsPath(states + [s'], actions + [a]);
    }
  }

  lemma SoloSuccess(start: State, p: bool, value: Library)
    requires Leads(start, State(None, Some(0), p, [Loading]))
    ensures Leads(start, State(Some(value), None, p, [Done(Returned(Ok(value)))]))
  {
    var outcome := Returned(Ok(value));
    var s1 := State(None, Some(0), p, [Setting(value)]);
    var s2 := State(Some(value), Some(0), p, [FinalGet]);
    var s3 := State(Some(value), Some(0), p, [Returning(outcome)]);
    SoloStep(start, State(None, Some(0), p, [Loading]), LoadSucceeds(0, value), s1);
    SoloStep(start, s1, SetCell(0), s2);
    SoloStep(start, s2, LookAgain(0), s3);
    SoloStep(start, s3, Unlock(0), State(Some(value), None, p, [Done(outcome)]));
  }

  lemma SoloFailure(start: State, p: bool, a: Action, outcome: Outcome)
    requires Leads(start, State(None, Some(0), p, [Loading]))
    requires if outcome.Panicked? then a == LoadPanics(0)
             else a.LoadFails? && a.t == 0 && a.failure.SymbolMissing? && outcome == Returned(Err(a.failure))
    ensures Leads(start, State(None, None, p || outcome.Panicked?, [Done(outcome)]))
  {
    var s1 := State(None, Some(0), p, [Returning(outcome)]);
    SoloStep(start, State(None, Some(0), p, [Loading]), a, s1);
    SoloStep(start, s1, Unlock(0), State(None, None, p || outcome.Panicked?, [Done(outcome)]));
  }
}
