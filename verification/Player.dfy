/** The audio player of player.go, as its locked sections and as all their interleavings.

    Play, Stop and nextFrame release the mutex before they close a source, and nextFrame
    also while it reads one, so the steps of several callers mix. */
module Player {
  import opened Bytes

  type Source = nat
  type Callback = nat

  datatype PlayerState = Idle | Playing | Paused

  /** The fields under the mutex. */
  datatype Core = Core(src: Option<Source>, state: PlayerState, onFinish: Option<Callback>)

  // ---- The locked sections, as functions ----

  function Swapped(c: Core, src: Option<Source>): Core {
    c.(src := src, state := Playing)
  }

  function Stopped(c: Core): Core {
    c.(src := None, state := Idle)
  }

  function PausedCore(c: Core): Core {
    if c.state == Playing then c.(state := Paused) else c
  }

  function ResumedCore(c: Core): Core {
    if c.state == Paused then c.(state := Playing) else c
  }

  /** What nextFrame goes on to read, if anything. */
  function ToRead(c: Core): Option<Source> {
    if c.state == Playing then c.src else None
  }

  /** After a failed read of s: idle, unless s was replaced in the meantime. */
  function AfterFailure(c: Core, s: Source): Core {
    if c.src == Some(s) then Stopped(c) else c
  }

  function ToCall(c: Core, s: Source): Option<Callback> {
    if c.src == Some(s) then c.onFinish else None
  }

  // ---- The locked sections, as the source runs them ----

  class Player {
    var src: Option<Source>
    var state: PlayerState
    var onFinish: Option<Callback>

    constructor ()
      ensures Fields() == Core(None, Idle, None)
    {
      src, state, onFinish := None, Idle, None;
    }

    ghost function Fields(): Core
      reads this
    {
      Core(src, state, onFinish)
    }

    /** The caller closes what it gets back, after unlocking. */
    method Play(src: Option<Source>) returns (toClose: Option<Source>)
      modifies this
      ensures Fields() == Swapped(old(Fields()), src) && toClose == old(this.src)
    {
      toClose := this.src;
      this.src := src;
      state := Playing;
    }

    method Pause()
      modifies this
      ensures Fields() == PausedCore(old(Fields()))
    {
      if state == Playing {
        state := Paused;
      }
    }

    method Resume()
      modifies this
      ensures Fields() == ResumedCore(old(Fields()))
    {
      if state == Paused {
        state := Playing;
      }
    }

    method Stop() returns (toClose: Option<Source>)
      modifies this
      ensures Fields() == Stopped(old(Fields())) && toClose == old(src)
    {
      toClose := src;
      src := None;
      state := Idle;
    }

    method OnFinish(fn: Option<Callback>)
      modifies this
      ensures Fields() == old(Fields()).(onFinish := fn)
    {
      onFinish := fn;
    }

    /** nextFrame up to its first unlock. */
    method BeginFrame() returns (toRead: Option<Source>)
      ensures toRead == ToRead(Fields())
      ensures forall s :: toRead == Some(s) <==> state == Playing && src == Some(s)
    {
      if state != Playing || src == None {
        return None;
      }
      toRead := src;
    }

    /** nextFrame's second locked section, entered when the read of s failed. */
    method EndFrame(s: Source) returns (finish: Option<Callback>)
      modifies this
      ensures Fields() == AfterFailure(old(Fields()), s) && finish == ToCall(old(Fields()), s)
    {
      finish := None;
      if src == Some(s) {
        src := None;
        state := Idle;
        finish := onFinish;
      }
    }
  }

  // ---- All interleavings ----

  /** The core, what every caller in mid-call still has to do, and what happened so far. */
  datatype World = World(
    core: Core,
    reading: multiset<Source>,    // nextFrame calls inside ReadFrame
    dropping: multiset<Source>,   // calls about to close and return
    ending: multiset<Source>,     // nextFrame calls about to close and then call OnFinish
    finishing: multiset<Source>,  // nextFrame calls about to call OnFinish
    closed: multiset<Source>,     // Close calls made
    fired: multiset<Source>,      // OnFinish calls made, by the source that ended
    failures: multiset<Source>,   // reads that returned an error or end of file
    played: set<Source>,
    retired: set<Source>,         // replaced or stopped while active
    ended: set<Source>,           // failed while active
    announced: set<Source>)       // of those, the ones with a callback registered at that moment

  const INITIAL := World(Core(None, Idle, None), multiset{}, multiset{}, multiset{}, multiset{},
    multiset{}, multiset{}, multiset{}, {}, {}, {}, {})

  datatype Action =
    | Play(src: Option<Source>)
    | Stop
    | Pause
    | Resume
    | Register(fn: Option<Callback>)
    | Begin
    | GotFrame(s: Source)
    | ReadFailed(s: Source)
    | Drop(s: Source)
    | CloseEnded(s: Source)
    | Fire(s: Source)

  predicate Enabled(w: World, a: Action) {
    match a
    case GotFrame(s) => s in w.reading
    case ReadFailed(s) => s in w.reading
    case Drop(s) => s in w.dropping
    case CloseEnded(s) => s in w.ending
    case Fire(s) => s in w.finishing
    case _ => true
  }

  function Active(c: Core): set<Source> {
    if c.src.Some? then {c.src.value} else {}
  }

  /** The active source leaves: it is to be closed. */
  function Retire(w: World): World {
    w.(dropping := w.dropping + multiset(Active(w.core)), retired := w.retired + Active(w.core))
  }

  function Failing(w: World, s: Source): World
    requires s in w.reading
  {
    var v := w.(reading := w.reading - multiset{s}, failures := w.failures + multiset{s},
                core := AfterFailure(w.core, s));
    var u := if w.core.src == Some(s) then v.(ended := v.ended + {s}) else v;
    if ToCall(w.core, s).Some?
    then u.(ending := u.ending + multiset{s}, announced := u.announced + {s})
    else u.(dropping := u.dropping + multiset{s})
  }

  function Next(w: World, a: Action): World
    requires Enabled(w, a)
  {
    match a
    case Play(src) =>
      Retire(w).(core := Swapped(w.core, src), played := w.played + Active(Swapped(w.core, src)))
    case Stop => Retire(w).(core := Stopped(w.core))
    case Pause => w.(core := PausedCore(w.core))
    case Resume => w.(core := ResumedCore(w.core))
    case Register(fn) => w.(core := w.core.(onFinish := fn))
    case Begin => if ToRead(w.core).Some? then w.(reading := w.reading + multiset{ToRead(w.core).value}) else w
    case GotFrame(s) => w.(reading := w.reading - multiset{s})
    case ReadFailed(s) => Failing(w, s)
    case Drop(s) => w.(dropping := w.dropping - multiset{s}, closed := w.closed + multiset{s})
    case CloseEnded(s) =>
      w.(ending := w.ending - multiset{s}, closed := w.closed + multiset{s}, finishing := w.finishing + multiset{s})
    case Fire(s) => w.(finishing := w.finishing - multiset{s}, fired := w.fired + multiset{s})
  }

  // ---- What every step keeps ----

  /** Every source played is the active one, retired or ended, and only one of these. */
  predicate Partitioned(w: World) {
    && w.played == Active(w.core) + w.retired + w.ended
    && w.retired !! w.ended && Active(w.core) !! w.retired && Active(w.core) !! w.ended
  }

  /** Closes made or owed: one for each retirement, one for each failed read. */
  predicate ClosesConserved(w: World) {
    w.closed + w.dropping + w.ending == multiset(w.retired) + w.failures
  }

  predicate ReadsAccounted(w: World) {
    && (forall s :: s in w.reading ==> s in w.played)
    && (forall s :: s in w.failures ==> s in w.retired + w.ended)
    && (forall s :: s in w.ended ==> s in w.failures)
  }

  /** Callbacks made or owed: one for each announced ending, made only after a close. */
  predicate CallsConserved(w: World) {
    && w.fired + w.finishing + w.ending == multiset(w.announced)
    && w.announced <= w.ended
    && (forall s :: s in w.finishing + w.fired ==> s in w.closed)
  }

  predicate Inv(w: World) {
    Partitioned(w) && ClosesConserved(w) && ReadsAccounted(w) && CallsConserved(w)
  }

  /** No source is played that was played before. */
  predicate New(w: World, a: Action) {
    a.Play? && a.src.Some? ==> a.src.value !in w.played
  }

  lemma StepKeepsInv(w: World, a: Action)
    requires Inv(w) && Enabled(w, a) && New(w, a)
    ensures Inv(Next(w, a))
  {
    match a {
      case Play(src) => RetireKeeps(w, Swapped(w.core, src));
      case Stop => RetireKeeps(w, Stopped(w.core));
      case ReadFailed(s) => FailingKeeps(w, s);
      case Drop(_) => HandOverKeeps(w, a);
      case CloseEnded(_) => HandOverKeeps(w, a);
      case Fire(_) => HandOverKeeps(w, a);
      case _ =>
    }
  }

  /** A caller does the next thing it owes. */
  lemma HandOverKeeps(w: World, a: Action)
    requires Inv(w) && Enabled(w, a) && (a.Drop? || a.CloseEnded? || a.Fire?)
    ensures Inv(Next(w, a))
  {
    var v := Next(w, a);
    assert v.closed + v.dropping + v.ending == w.closed + w.dropping + w.ending;
    assert v.fired + v.finishing + v.ending == w.fired + w.finishing + w.ending;
  }

  lemma DisjointUnion(a: set<Source>, b: set<Source>)
    requires a !! b
    ensures multiset(a + b) == multiset(a) + multiset(b)
  {
  }

  lemma RetireKeeps(w: World, c: Core)
    requires Inv(w) && Active(c) !! w.played
    ensures Inv(Retire(w).(core := c, played := w.played + Active(c)))
  {
    hide ClosesConserved;
    var v := Retire(w).(core := c, played := w.played + Active(c));
    assert ClosesConserved(v) by {
      RetireConserves(w, v);
    }
    assert v.played == Active(c) + v.retired + v.ended;
    assert Partitioned(v);
  }

  lemma RetireConserves(w: World, v: World)
    requires ClosesConserved(w) && Active(w.core) !! w.retired
    requires v.closed == w.closed && v.dropping == w.dropping + multiset(Active(w.core)) && v.ending == w.ending
    requires v.retired == w.retired + Active(w.core) && v.failures == w.failures
    ensures ClosesConserved(v)
  {
    DisjointUnion(w.retired, Active(w.core));
    assert v.closed + v.dropping + v.ending == (w.closed + w.dropping + w.ending) + multiset(Active(w.core));
  }

  /** The two conservation laws, one source at a time. */
  lemma Counted(w: World, s: Source)
    requires Inv(w)
    ensures w.closed[s] + w.dropping[s] + w.ending[s] == (if s in w.retired then 1 else 0) + w.failures[s]
    ensures w.fired[s] + w.finishing[s] + w.ending[s] == if s in w.announced then 1 else 0
  {
    assert (w.closed + w.dropping + w.ending)[s] == (multiset(w.retired) + w.failures)[s];
    assert (w.fired + w.finishing + w.ending)[s] == multiset(w.announced)[s];
  }

  lemma FailingKeeps(w: World, s: Source)
    requires Inv(w) && s in w.reading
    ensures Inv(Failing(w, s))
  {
    var v := Failing(w, s);
    assert v.closed + v.dropping + v.ending == (w.closed + w.dropping + w.ending) + multiset{s};
    if ToCall(w.core, s).Some? {
      DisjointUnion(w.announced, {s});
      assert multiset({s}) == multiset{s};
      assert v.fired + v.finishing + v.ending == (w.fired + w.finishing + w.ending) + multiset{s};
    }
  }

  // ---- Every run ----

  predicate Legal(w: World, run: seq<Action>)
    decreases |run|
  {
    run != [] ==> Enabled(w, run[0]) && Legal(Next(w, run[0]), run[1..])
  }

  function After(w: World, run: seq<Action>): World
    requires Legal(w, run)
    decreases |run|
  {
    if run == [] then w else After(Next(w, run[0]), run[1..])
  }

  /** No source is played twice. */
  predicate PlayedOnce(w: World, run: seq<Action>)
    requires Legal(w, run)
    decreases |run|
  {
    run != [] ==> New(w, run[0]) && PlayedOnce(Next(w, run[0]), run[1..])
  }

  lemma {:induction false} RunKeepsInv(w: World, run: seq<Action>)
    requires Inv(w) && Legal(w, run) && PlayedOnce(w, run)
    ensures Inv(After(w, run))
    decreases |run|
  {
    if run != [] {
      StepKeepsInv(w, run[0]);
      RunKeepsInv(Next(w, run[0]), run[1..]);
    }
  }

  /** On every interleaving no source leaks: each is active, closed, or about to be closed. */
  lemma NoLeak(run: seq<Action>, s: Source)
    requires Legal(INITIAL, run) && PlayedOnce(INITIAL, run)
    requires s in After(INITIAL, run).played
    ensures var w := After(INITIAL, run); w.core.src == Some(s) || s in w.closed + w.dropping + w.ending
  {
    RunKeepsInv(INITIAL, run);
    var w := After(INITIAL, run);
    if s in w.ended {
      assert s in w.failures;
    }
  }

  /** The active source is neither closed nor about to be. */
  lemma ActiveStaysOpen(run: seq<Action>, s: Source)
    requires Legal(INITIAL, run) && PlayedOnce(INITIAL, run)
    requires After(INITIAL, run).core.src == Some(s)
    ensures var w := After(INITIAL, run); s !in w.closed + w.dropping + w.ending
  {
    RunKeepsInv(INITIAL, run);
    var w := After(INITIAL, run);
    assert s in Active(w.core);
    assert s !in w.failures && s !in w.retired;
    assert s !in w.closed + w.dropping + w.ending;
  }

  /** OnFinish fires at most once per source, only for a source that ended by itself and is
      already closed, never for one that was replaced or stopped. */
  lemma FiresOnce(run: seq<Action>, s: Source)
    requires Legal(INITIAL, run) && PlayedOnce(INITIAL, run)
    ensures var w := After(INITIAL, run);
      && w.fired[s] <= 1
      && (s in w.retired ==> w.fired[s] == 0)
      && (s in w.fired ==> s in w.ended && s in w.closed && w.core.src != Some(s))
  {
    RunKeepsInv(INITIAL, run);
    var w := After(INITIAL, run);
    Counted(w, s);
  }

  /** Once every caller has returned, all but the active source are closed, a source as often
      as it was retired and failed to read, and every announced ending has fired exactly once. */
  lemma Quiescent(run: seq<Action>, s: Source)
    requires Legal(INITIAL, run) && PlayedOnce(INITIAL, run)
    requires var w := After(INITIAL, run); w.dropping == w.ending == w.finishing == multiset{}
    ensures var w := After(INITIAL, run);
      && w.closed[s] == (if s in w.retired then 1 else 0) + w.failures[s]
      && w.fired[s] == (if s in w.announced then 1 else 0)
      && (s in w.played && w.core.src != Some(s) ==> w.closed[s] >= 1)
  {
    RunKeepsInv(INITIAL, run);
    var w := After(INITIAL, run);
    Counted(w, s);
    hide ClosesConserved, CallsConserved;
    if s in w.played && w.core.src != Some(s) {
      assert s in w.retired || s in w.failures;
    }
  }

  // ---- When the call pulls from a source ----

  /** A read of s begins only at the start of a nextFrame that finds s active and the player playing. */
  lemma ReadsBeginIff(w: World, a: Action, s: Source)
    requires Enabled(w, a)
    ensures Next(w, a).reading[s] > w.reading[s] <==> a == Begin && w.core.state == Playing && w.core.src == Some(s)
  {
  }

  lemma {:induction false} AfterLast(w: World, run: seq<Action>, a: Action)
    requires Legal(w, run + [a])
    ensures Legal(w, run) && Enabled(After(w, run), a) && After(w, run + [a]) == Next(After(w, run), a)
    decreases |run|
  {
    if run != [] {
      assert (run + [a])[1..] == run[1..] + [a];
      AfterLast(Next(w, run[0]), run[1..], a);
    } else {
      assert run + [a] == [a] && [a][1..] == [];
    }
  }

  /** Action k plays s, and s is neither replaced, stopped nor exhausted later. */
  predicate Lasts(run: seq<Action>, k: nat, s: Source) {
    k < |run| && run[k] == Play(Some(s))
    && forall j :: k < j < |run| ==> !run[j].Play? && !run[j].Stop? && run[j] != ReadFailed(s)
  }

  /** Paused after action k and not resumed since. */
  predicate Held(run: seq<Action>, k: nat) {
    exists p :: k < p < |run| && run[p] == Pause && NotResumed(run, p)
  }

  predicate NotResumed(run: seq<Action>, p: nat) {
    forall j :: p < j < |run| ==> !run[j].Resume?
  }

  lemma LastsStep(run: seq<Action>, a: Action, k: nat, s: Source)
    ensures Lasts(run + [a], k, s) <==>
            if k == |run| then a == Play(Some(s))
            else Lasts(run, k, s) && !a.Play? && !a.Stop? && a != ReadFailed(s)
  {
    var all := run + [a];
    assert all[|run|] == a;
    assert forall j :: 0 <= j < |run| ==> all[j] == run[j];
  }

  lemma HeldStep(run: seq<Action>, a: Action, k: nat)
    requires k < |run|
    ensures Held(run + [a], k) <==> a.Pause? || (!a.Resume? && Held(run, k))
  {
    var all := run + [a];
    assert all[|run|] == a;
    assert forall j :: 0 <= j < |run| ==> all[j] == run[j];
    if a.Pause? {
      assert NotResumed(all, |run|);
    }
    if !a.Resume? && Held(run, k) {
      var p :| k < p < |run| && run[p] == Pause && NotResumed(run, p);
      assert all[p] == Pause && NotResumed(all, p);
    }
    if Held(all, k) {
      var p :| k < p < |all| && all[p] == Pause && NotResumed(all, p);
      assert p < |run| ==> run[p] == Pause && NotResumed(run, p);
    }
  }

  lemma NotHeldYet(run: seq<Action>, a: Action)
    ensures !Held(run + [a], |run|)
  {
  }

  /** s is active, paused or not. */
  ghost predicate Shows(c: Core, run: seq<Action>, k: nat, s: Source) {
    c.src == Some(s) && c.state == if Held(run, k) then Paused else Playing
  }

  /** The core tells who was played last, and whether it is paused. */
  ghost predicate Tracks(c: Core, run: seq<Action>) {
    && (c.src.Some? ==> exists k: nat :: Lasts(run, k, c.src.value))
    && (forall k: nat, s: Source :: Lasts(run, k, s) ==> Shows(c, run, k, s))
  }

  lemma {:induction false} RunTracks(run: seq<Action>)
    requires Legal(INITIAL, run)
    ensures Tracks(After(INITIAL, run).core, run)
    decreases |run|
  {
    if run != [] {
      var before, a := run[..|run| - 1], run[|run| - 1];
      assert run == before + [a];
      AfterLast(INITIAL, before, a);
      RunTracks(before);
      TracksStep(After(INITIAL, before), before, a);
    }
  }

  lemma TracksStep(w: World, run: seq<Action>, a: Action)
    requires Enabled(w, a) && Tracks(w.core, run)
    ensures Tracks(Next(w, a).core, run + [a])
  {
    hide Lasts, Held, Next, Shows;
    var c, all := Next(w, a).core, run + [a];
    if c.src.Some? {
      var k := ActiveLasts(w, run, a);
      assert Lasts(all, k, c.src.value);
    }
    forall k: nat, s: Source | Lasts(all, k, s) ensures Shows(c, all, k, s) {
      LastsStep(run, a, k, s);
      if k != |run| {
        assert Shows(w.core, run, k, s);
      }
      ShowsStep(w, run, a, k, s);
    }
  }

  lemma ActiveLasts(w: World, run: seq<Action>, a: Action) returns (k: nat)
    requires Enabled(w, a) && Tracks(w.core, run) && Next(w, a).core.src.Some?
    ensures Lasts(run + [a], k, Next(w, a).core.src.value)
  {
    hide Lasts, Held, Shows;
    var s := Next(w, a).core.src.value;
    k := |run|;
    LastsStep(run, a, k, s);
    if !a.Play? {
      k :| Lasts(run, k, s);
      LastsWithin(run, k, s);
      LastsStep(run, a, k, s);
    }
  }

  lemma ShowsStep(w: World, run: seq<Action>, a: Action, k: nat, s: Source)
    requires Enabled(w, a) && Lasts(run + [a], k, s) && (k != |run| ==> Shows(w.core, run, k, s))
    ensures Shows(Next(w, a).core, run + [a], k, s)
  {
    hide Lasts, Held;
    LastsWithin(run + [a], k, s);
    LastsStep(run, a, k, s);
    if k == |run| {
      NotHeldYet(run, a);
    } else {
      HeldStep(run, a, k);
    }
  }

  lemma LastsWithin(run: seq<Action>, k: nat, s: Source)
    requires Lasts(run, k, s)
    ensures k < |run|
  {
  }

  /** After any interleaving, the next nextFrame reads s exactly when s was played, was not replaced, stopped
      or exhausted since, and no pause since was left without a resume; nobody else's read begins. */
  lemma PullsIff(run: seq<Action>, s: Source)
    requires Legal(INITIAL, run)
    ensures var w := After(INITIAL, run);
            Next(w, Begin).reading == w.reading + multiset{s} <==>
            exists k: nat :: Lasts(run, k, s) && !Held(run, k)
  {
    hide Lasts, Held;
    var w := After(INITIAL, run);
    RunTracks(run);
    ReadsBeginIff(w, Begin, s);
    if Next(w, Begin).reading == w.reading + multiset{s} {
      assert Next(w, Begin).reading[s] == w.reading[s] + 1;
    }
  }

  /** No call to Play or Resume. */
  predicate Undisturbed(run: seq<Action>) {
    forall k :: 0 <= k < |run| ==> !run[k].Play? && !run[k].Resume?
  }

  lemma {:induction false} StaysPaused(w: World, run: seq<Action>)
    requires w.core.state != Playing && Legal(w, run) && Undisturbed(run)
    ensures After(w, run).core.state != Playing && After(w, run).reading <= w.reading
    ensures w.core.state == Paused || w.core.src == None ==>
              After(w, run).core.state == Paused || After(w, run).core.src == None
    decreases |run|
  {
    if run != [] {
      assert forall k :: 0 <= k < |run| - 1 ==> run[1..][k] == run[k + 1];
      var v := Next(w, run[0]);
      assert v.reading <= w.reading;
      StaysPaused(v, run[1..]);
    }
  }

  /** From a Pause on, with no Play and no Resume among all that is interleaved, no read begins. */
  lemma PausedPullsNothing(w: World, run: seq<Action>, a: Action, v: World)
    requires Legal(Next(w, Pause), run) && v == After(Next(w, Pause), run)
    requires Enabled(v, a) && Undisturbed(run) && a != Resume && !a.Play?
    ensures Next(v, a).reading <= v.reading <= w.reading && Next(v, a).core.state != Playing
  {
    StaysPaused(Next(w, Pause), run);
  }

  /** If the source is still there after such a stretch, a Resume and the next nextFrame read it again. */
  lemma ResumeReads(w: World, run: seq<Action>, v: World, s: Source)
    requires w.core.state == Playing && Legal(Next(w, Pause), run) && v == After(Next(w, Pause), run)
    requires Undisturbed(run) && v.core.src == Some(s)
    ensures Next(Next(v, Resume), Begin).reading == v.reading + multiset{s}
  {
    StaysPaused(Next(w, Pause), run);
  }

  /** The callback registered last, whatever else went on. */
  function LastRegistered(fn: Option<Callback>, run: seq<Action>): Option<Callback> {
    if run == [] then fn
    else
      var a := run[|run| - 1];
      if a.Register? then a.fn else LastRegistered(fn, run[..|run| - 1])
  }

  lemma {:induction false} CallbackIsLast(w: World, run: seq<Action>)
    requires Legal(w, run)
    ensures After(w, run).core.onFinish == LastRegistered(w.core.onFinish, run)
    decreases |run|
  {
    if run != [] {
      var before, a := run[..|run| - 1], run[|run| - 1];
      assert run == before + [a];
      AfterLast(w, before, a);
      CallbackIsLast(w, before);
    }
  }

  /** A failed read of s ends playback and owes a callback exactly when s was played, was not replaced, stopped
      or exhausted since, and the callback registered last is not nil. */
  lemma EndingCallsIff(run: seq<Action>, s: Source)
    requires Legal(INITIAL, run) && s in After(INITIAL, run).reading
    ensures var w := After(INITIAL, run);
            Next(w, ReadFailed(s)).ending == w.ending + multiset{s} <==>
            LastRegistered(None, run).Some? && exists k: nat :: Lasts(run, k, s)
  {
    hide Lasts, Held, LastRegistered;
    var w, v := After(INITIAL, run), Next(After(INITIAL, run), ReadFailed(s));
    RunTracks(run);
    CallbackIsLast(INITIAL, run);
    if v.ending == w.ending + multiset{s} {
      assert v.ending[s] == w.ending[s] + 1;
    }
  }

  // ---- What playing a source again, or no source, breaks ----

  /** Playing s makes a source active that is closed or about to be, exactly when s was played before. */
  lemma ReplayIff(w: World, s: Source)
    requires Inv(w)
    ensures var v := Next(w, Play(Some(s)));
      s in v.closed + v.dropping + v.ending <==> s in w.played
  {
    var v := Next(w, Play(Some(s)));
    Counted(w, s);
    hide ClosesConserved, CallsConserved;
    assert s in v.closed + v.dropping + v.ending <==>
      w.closed[s] + w.dropping[s] + w.ending[s] + multiset(Active(w.core))[s] > 0;
    assert s in Active(w.core) <==> w.core.src == Some(s);
    if s in w.ended {
      assert s in w.failures;
    }
    if s in w.failures {
      assert s in w.retired + w.ended;
    }
  }

  predicate IdleMatches(w: World) {
    w.core.state == Idle <==> w.core.src == None
  }

  /** IdleMatches after every step of the run. */
  predicate AlwaysMatches(w: World, run: seq<Action>)
    requires Legal(w, run)
    decreases |run|
  {
    IdleMatches(w) && (run != [] ==> AlwaysMatches(Next(w, run[0]), run[1..]))
  }

  /** The state is idle exactly when no source is set, throughout a run, if and only if the run never plays nil. */
  lemma {:induction false} IdleIff(w: World, run: seq<Action>)
    requires Legal(w, run) && IdleMatches(w)
    ensures AlwaysMatches(w, run) <==> Play(None) !in run
    decreases |run|
  {
    if run != [] {
      var v := Next(w, run[0]);
      assert IdleMatches(v) <==> run[0] != Play(None);
      if run[0] != Play(None) {
        IdleIff(v, run[1..]);
      }
      assert Play(None) in run <==> run[0] == Play(None) || Play(None) in run[1..];
    }
  }
}
