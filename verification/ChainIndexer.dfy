/**
 core/chain_indexer.go: the section indexer. The updater drops its lock while it processes a
 section, racing with reorganisation notices and with rewrites of the canonical chain; when the
 backend's reset fails it even shrinks the section count without the lock. The machine below
 interleaves their steps, and in that loop every single read and write of the count. A hash is
 an optional block, None being the zero hash.
 */
module ChainIndexers {
  import opened Wrappers
  import opened Chains

  type Hash = Option<Block>

  function ParentOf(b: Block): Hash {
    if b.Root? then None else Some(b.parent)
  }

  /** k parents back from a hash. */
  function Back(h: Hash, k: nat): Hash
    decreases k
  {
    if k == 0 then h else if h.None? then None else Back(ParentOf(h.value), k - 1)
  }

  /** The number of a section's first block. */
  function FirstOf(section: nat, size: nat): nat {
    section * size
  }

  lemma FirstOfNext(section: nat, size: nat)
    ensures FirstOf(section + 1, size) == FirstOf(section, size) + size
  {
  }

  const MAX_UINT64: nat := 0xFFFF_FFFF_FFFF_FFFF

  /** The updater: it holds the lock only to start and to commit. */
  datatype Updater =
    | Waiting
    | Processing(section: nat, oldHead: Hash, number: nat, lastHead: Hash)
    | RollingBack(section: nat, oldHead: Hash)            // backend reset failed: setValidSections(0), without the lock
    | Finished(section: nat, oldHead: Hash, result: Hash) // result None: processing failed

  /**
   Where a call of setValidSections has got to. `own` is what it last wrote to the count: the
   section whose head it is about to remove.
   */
  datatype Worker =
    | Off
    | Testing(target: nat)                       // the loop condition
    | Loading(target: nat)                       // the decrement: read the count
    | Storing(target: nat, read: nat)            // the decrement: write it back
    | Reading(target: nat, own: nat)             // read the count again: the head to remove
    | Removing(target: nat, own: nat, key: nat)
    | Assigning(target: nat)                     // the assignment after the loop

  /** The notice shrinks inside its lock, the rollback of a failed reset without it. */
  datatype Who = Noticer | Roller

  datatype Indexer = Indexer(size: nat, confirms: nat, heads: map<nat, Block>, stored: nat, known: nat,
                             canon: map<nat, Block>, updater: Updater, notice: Worker, rollback: Worker)

  function Init(size: nat, confirms: nat): Indexer {
    Indexer(size, confirms, map[], 0, 0, map[], Waiting, Off, Off)
  }

  /** SectionHead(section - 1): for section 0 the key wraps around and is never stored. */
  function HeadBefore(x: Indexer, section: nat): Hash {
    if section > 0 && section - 1 in x.heads then Some(x.heads[section - 1]) else None
  }

  function WorkerOf(x: Indexer, who: Who): Worker {
    if who.Noticer? then x.notice else x.rollback
  }

  function With(x: Indexer, who: Who, w: Worker): Indexer {
    if who.Noticer? then x.(notice := w) else x.(rollback := w)
  }

  datatype Step =
    | Rewrite(canon: map<nat, Block>)           // the chain changes under the indexer
    | NewHead(head: nat)
    | ReorgNotice(head: nat)
    | Advance(who: Who)                         // one step of setValidSections
    | Start(resetOk: bool)                      // capture section and head under the lock, reset the backend
    | Read(found: bool, committed: bool)        // read one canonical header, and commit the backend after the last
    | Commit                                    // take the lock again and store the section, or not

  /** A notice in progress holds the lock. */
  predicate Enabled(x: Indexer, s: Step) {
    match s
    case Rewrite(_) => true
    case NewHead(_) => x.notice.Off?
    case ReorgNotice(_) => x.notice.Off?
    case Advance(who) => !WorkerOf(x, who).Off?
    case Start(_) => x.notice.Off? && x.updater.Waiting? && x.known > x.stored
    case Read(_, _) => x.updater.Processing?
    case Commit => x.notice.Off? && x.updater.Finished?
  }

  /** processSection: the header must be known and continue the last one. */
  function ReadOne(x: Indexer, found: bool, committed: bool): Updater
    requires x.updater.Processing?
  {
    var u := x.updater;
    if u.number !in x.canon || !found
        || ParentOf(x.canon[u.number]) != u.lastHead then Finished(u.section, u.oldHead, None)
    else
      var head := Some(x.canon[u.number]);
      if u.number + 1 < FirstOf(u.section + 1, x.size) then Processing(u.section, u.oldHead, u.number + 1, head)
      else Finished(u.section, u.oldHead, if committed then head else None)
  }

  /** One less, as an unsigned 64-bit number. */
  function Decrement(n: nat): nat {
    if n == 0 then MAX_UINT64 else n - 1
  }

  /** One read or write of a call of setValidSections. */
  function AdvanceOne(x: Indexer, who: Who): Indexer
    requires !WorkerOf(x, who).Off?
  {
    match WorkerOf(x, who)
    case Testing(t) => With(x, who, if x.stored > t then Loading(t) else Assigning(t))
    case Loading(t) => With(x, who, Storing(t, x.stored))
    case Storing(t, read) => With(x, who, Reading(t, Decrement(read))).(stored := Decrement(read))
    case Reading(t, own) => With(x, who, Removing(t, own, x.stored))
    case Removing(t, own, key) => With(x, who, Testing(t)).(heads := x.heads - {key})
    case Assigning(t) => Returned(With(x, who, Off).(stored := t), who)
  }

  /** After its rollback the updater reports the failed reset. */
  function Returned(x: Indexer, who: Who): Indexer {
    if who.Roller? && x.updater.RollingBack? then x.(updater := Finished(x.updater.section, x.updater.oldHead, None))
        else x
  }

  /** setValidSections while nothing else is at work on the count. */
  function SetValid(x: Indexer, sections: nat): Indexer {
    x.(heads := (map s | s in x.heads && !(sections <= s < x.stored) :: x.heads[s]), stored := sections)
  }

  function Do(x: Indexer, s: Step): Indexer
    requires Enabled(x, s) && x.size > 0
  {
    match s
    case Rewrite(canon) => x.(canon := canon)
    case NewHead(head) =>
      if head < x.confirms then x
      else
        var sections := (head + 1 - x.confirms) / x.size;
        if sections > x.known then x.(known := sections) else x
    case ReorgNotice(head) =>
      var changed := head / x.size;
      var y := if changed < x.known then x.(known := changed) else x;
      if changed < x.stored then y.(notice := Testing(changed)) else y
    case Advance(who) => AdvanceOne(x, who)
    case Start(resetOk) =>
      var section, oldHead := x.stored, HeadBefore(x, x.stored);
      if resetOk then x.(updater := Processing(section, oldHead, FirstOf(section, x.size), oldHead))
      else x.(updater := RollingBack(section, oldHead), rollback := Testing(0))
    case Read(found, committed) => x.(updater := ReadOne(x, found, committed))
    case Commit =>
      var u := x.updater;
      var y := x.(updater := Waiting);
      if u.result.Some? && u.oldHead == HeadBefore(x, u.section) then
        SetValid(y.(heads := x.heads[u.section := u.result.value]), u.section + 1)
      else y.(known := x.stored)
  }

  // ---- The invariant ----

  /** Section heads are stored exactly below the section count. */
  ghost predicate HeadsExact(x: Indexer) {
    forall s: nat :: s in x.heads <==> s < x.stored
  }

  /** The section a worker has taken off the count and whose head it has still to remove. */
  predicate Claims(w: Worker, s: nat) {
    (w.Reading? || w.Removing?) && w.own == s
  }

  /** With rounds in flight: the heads below the count, and those taken off it, each by one worker. */
  ghost predicate HeadsOwned(x: Indexer) {
    && (forall s: nat :: s in x.heads <==> s < x.stored || Claims(x.notice, s) || Claims(x.rollback, s))
    && (forall s: nat :: Claims(x.notice, s) || Claims(x.rollback, s) ==> x.stored <= s)
    && (forall s: nat :: !(Claims(x.notice, s) && Claims(x.rollback, s)))
  }

  /** What a worker has read can only have been lowered since. */
  ghost predicate ReadBefore(x: Indexer, w: Worker) {
    w.Storing? ==> x.stored <= w.read
  }

  ghost predicate Workers(x: Indexer) {
    && ReadBefore(x, x.notice) && ReadBefore(x, x.rollback)
    && (x.rollback.Off? <==> !x.updater.RollingBack?)
  }

  /** One section's parents back from a head lies the head before it, the zero hash before the first. */
  ghost predicate LinkedAt(x: Indexer, s: nat) {
    s in x.heads && s < x.stored ==> Back(Some(x.heads[s]), x.size) == HeadBefore(x, s)
  }

  ghost predicate Linked(x: Indexer) {
    forall s: nat :: LinkedAt(x, s)
  }

  /** What the updater captured is still stored, or has been rolled back; what it read hangs together. */
  ghost predicate Captured(x: Indexer) {
    match x.updater
    case Waiting => true
    case Processing(section, oldHead, number, lastHead) =>
      && Kept(x, section, oldHead) && FirstOf(section, x.size) <= number < FirstOf(section + 1, x.size)
      && Back(lastHead, number - FirstOf(section, x.size)) == oldHead
    case RollingBack(section, oldHead) => Kept(x, section, oldHead)
    case Finished(section, oldHead, result) =>
      Kept(x, section, oldHead) && (result.Some? ==> Back(result, x.size) == oldHead)
  }

  ghost predicate Kept(x: Indexer, section: nat, oldHead: Hash) {
    && x.stored <= section && (section > 0 <==> oldHead.Some?)
    && (section > 0 && section - 1 in x.heads ==> oldHead == Some(x.heads[section - 1]))
  }

  ghost predicate Inv(x: Indexer) {
    x.size > 0 && HeadsOwned(x) && Workers(x) && Linked(x) && Captured(x)
  }

  predicate AtRest(x: Indexer) {
    x.notice.Off? && x.rollback.Off?
  }

  /** With nothing in flight the invariant is what is promised: heads exactly below the count, linked. */
  lemma RestIsExact(x: Indexer)
    requires Inv(x) && AtRest(x)
    ensures HeadsExact(x)
    ensures forall s: nat :: s < x.stored ==> Back(Some(x.heads[s]), x.size) == HeadBefore(x, s)
  {
    forall s: nat | s < x.stored
      ensures Back(Some(x.heads[s]), x.size) == HeadBefore(x, s)
    {
      assert LinkedAt(x, s);
    }
  }

  // ---- Which steps keep it ----

  lemma {:induction false} BackMore(h: Block, k: nat, last: Hash, origin: Hash)
    requires ParentOf(h) == last && Back(last, k) == origin
    ensures Back(Some(h), k + 1) == origin
  {
  }

  /** Heads that stay below the count stay linked. */
  lemma LinksStay(x: Indexer, y: Indexer)
    requires Linked(x) && y.size == x.size && y.stored <= x.stored
    requires forall s: nat :: s < y.stored ==> (s in y.heads <==> s in x.heads)
    requires forall s: nat :: s in y.heads ==> s in x.heads && y.heads[s] == x.heads[s]
    ensures Linked(y)
  {
    hide Back;
    forall s: nat ensures LinkedAt(y, s) { assert LinkedAt(x, s); }
  }

  lemma CapturedStays(x: Indexer, y: Indexer)
    requires Captured(x) && y.updater == x.updater && y.size == x.size && y.stored <= x.stored
    requires forall s: nat :: s in y.heads ==> s in x.heads && y.heads[s] == x.heads[s]
    ensures Captured(y)
  {
    hide Back, FirstOf;
  }

  lemma ReadKeeps(x: Indexer, found: bool, committed: bool)
    requires Inv(x) && x.updater.Processing?
    ensures Inv(x.(updater := ReadOne(x, found, committed)))
  {
    hide FirstOf, HeadsOwned;
    var u := x.updater;
    var y := x.(updater := ReadOne(x, found, committed));
    FirstOfNext(u.section, x.size);
    if u.number in x.canon && found && ParentOf(x.canon[u.number]) == u.lastHead {
      BackMore(x.canon[u.number], u.number - FirstOf(u.section, x.size), u.lastHead, u.oldHead);
    }
    SameHeads(x, y);
    LinksStay(x, y);
  }

  lemma SameHeads(x: Indexer, y: Indexer)
    requires HeadsOwned(x) && y.heads == x.heads && y.stored == x.stored && y.notice == x.notice
               && y.rollback == x.rollback
    ensures HeadsOwned(y)
  {
  }

  /** A commit finds its predecessor's head in place only if nothing was rolled back under it. */
  lemma CommitKeeps(x: Indexer)
    requires Inv(x) && Enabled(x, Commit)
    ensures Inv(Do(x, Commit))
  {
    hide Back, FirstOf;
    var u := x.updater;
    var y := Do(x, Commit);
    if u.result.Some? && u.oldHead == HeadBefore(x, u.section) {
      assert x.stored == u.section;
      assert y.heads == x.heads[u.section := u.result.value];
      forall s: nat ensures LinkedAt(y, s) { assert LinkedAt(x, s); }
    } else {
      LinksStay(x, y);
    }
  }

  lemma StartKeeps(x: Indexer, resetOk: bool)
    requires Inv(x) && Enabled(x, Start(resetOk))
    ensures Inv(Do(x, Start(resetOk)))
  {
    hide FirstOf;
    FirstOfNext(x.stored, x.size);
    LinksStay(x, Do(x, Start(resetOk)));
  }

  /**
   The count is no longer what the worker relies on: it would write back from an outdated or an
   empty count, remove the head of a section it did not take, or end at another count.
   */
  predicate Stale(x: Indexer, s: Step) {
    s.Advance? &&
    match WorkerOf(x, s.who)
    case Storing(_, read) => read != x.stored || read == 0
    case Removing(_, own, key) => key != own
    case Assigning(t) => x.stored != t
    case _ => false
  }

  lemma StoreKeepsIff(x: Indexer, who: Who)
    requires Inv(x) && WorkerOf(x, who).Storing?
    ensures Inv(AdvanceOne(x, who)) <==> !Stale(x, Advance(who))
  {
    hide Back, FirstOf;
    var y := AdvanceOne(x, who);
    if Stale(x, Advance(who)) {
      assert Claims(WorkerOf(y, who), y.stored);
      assert !(y.stored < x.stored);
    } else {
      LinksStay(x, y);
      CapturedStays(x, y);
    }
  }

  lemma RemoveKeepsIff(x: Indexer, who: Who)
    requires Inv(x) && WorkerOf(x, who).Removing?
    ensures Inv(AdvanceOne(x, who)) <==> !Stale(x, Advance(who))
  {
    hide Back, FirstOf;
    var w, y := WorkerOf(x, who), AdvanceOne(x, who);
    assert Claims(w, w.own);
    if Stale(x, Advance(who)) {
      assert w.own in y.heads;
    } else {
      LinksStay(x, y);
      CapturedStays(x, y);
    }
  }

  lemma AssignKeepsIff(x: Indexer, who: Who)
    requires Inv(x) && WorkerOf(x, who).Assigning?
    ensures Inv(AdvanceOne(x, who)) <==> !Stale(x, Advance(who))
  {
    hide Back, FirstOf;
    var t, y := WorkerOf(x, who).target, AdvanceOne(x, who);
    if t > x.stored {
      assert x.stored in y.heads <==> Claims(x.notice, x.stored) || Claims(x.rollback, x.stored);
      assert x.stored < y.stored;
    } else if t < x.stored {
      assert t in y.heads && !Claims(x.notice, t) && !Claims(x.rollback, t);
    } else {
      LinksStay(x, y);
    }
  }

  /** One step of a shrinking loop keeps the invariant exactly if what it relies on still holds. */
  lemma AdvanceKeepsIff(x: Indexer, who: Who)
    requires Inv(x) && Enabled(x, Advance(who))
    ensures Inv(Do(x, Advance(who))) <==> !Stale(x, Advance(who))
  {
    hide Back, FirstOf, Inv;
    match WorkerOf(x, who)
    case Storing(_, _) => StoreKeepsIff(x, who);
    case Removing(_, _, _) => RemoveKeepsIff(x, who);
    case Assigning(_) => AssignKeepsIff(x, who);
    case Testing(_) => LookKeeps(x, who);
    case Loading(_) => LookKeeps(x, who);
    case Reading(_, _) => LookKeeps(x, who);
  }

  /** Reading the count changes nothing. */
  lemma LookKeeps(x: Indexer, who: Who)
    requires Inv(x) && (WorkerOf(x, who).Testing? || WorkerOf(x, who).Loading? || WorkerOf(x, who).Reading?)
    ensures Inv(AdvanceOne(x, who))
  {
    hide Back, FirstOf;
    var y := AdvanceOne(x, who);
    forall s: nat
      ensures Claims(y.notice, s) == Claims(x.notice, s) && Claims(y.rollback, s) == Claims(x.rollback, s)
    {
    }
    assert HeadsOwned(y);
    LinksStay(x, y);
    CapturedStays(x, y);
  }

  /** New heads, the start of a notice and changes of the chain touch neither heads nor count. */
  lemma NewsKeeps(x: Indexer, s: Step)
    requires Inv(x) && Enabled(x, s) && (s.Rewrite? || s.NewHead? || s.ReorgNotice?)
    ensures Inv(Do(x, s))
  {
    hide Back, FirstOf;
    LinksStay(x, Do(x, s));
  }

  /** Every step keeps the invariant, but exactly the stale ones. */
  lemma StepKeepsIff(x: Indexer, s: Step)
    requires x.size > 0 && Inv(x) && Enabled(x, s)
    ensures Inv(Do(x, s)) <==> !Stale(x, s)
  {
    hide Back, FirstOf, Inv, AdvanceOne;
    match s
    case Rewrite(_) => NewsKeeps(x, s);
    case NewHead(_) => NewsKeeps(x, s);
    case ReorgNotice(_) => NewsKeeps(x, s);
    case Advance(who) => AdvanceKeepsIff(x, who);
    case Start(resetOk) => StartKeeps(x, resetOk);
    case Read(found, committed) => ReadKeeps(x, found, committed);
    case Commit => CommitKeeps(x);
  }

  // ---- Whole runs ----

  ghost predicate IsRun(x: Indexer, steps: seq<Step>)
    requires x.size > 0
    decreases steps
  {
    steps != [] ==> Enabled(x, steps[0]) && IsRun(Do(x, steps[0]), steps[1..])
  }

  ghost function After(x: Indexer, steps: seq<Step>): (y: Indexer)
    requires x.size > 0 && IsRun(x, steps)
    ensures y.size == x.size
    decreases steps
  {
    if steps == [] then x else After(Do(x, steps[0]), steps[1..])
  }

  /** No step of the run relies on an outdated count. */
  ghost predicate NeverStale(x: Indexer, steps: seq<Step>)
    requires x.size > 0 && IsRun(x, steps)
    decreases steps
  {
    steps != [] ==> !Stale(x, steps[0]) && NeverStale(Do(x, steps[0]), steps[1..])
  }

  /** The invariant holds all along a run. */
  ghost predicate Throughout(x: Indexer, steps: seq<Step>)
    requires x.size > 0 && IsRun(x, steps)
    decreases steps
  {
    Inv(x) && (steps != [] ==> Throughout(Do(x, steps[0]), steps[1..]))
  }

  /** Under every interleaving the section heads stay owned and linked, if and only if no step is stale. */
  lemma {:induction false} RunKeepsIff(x: Indexer, steps: seq<Step>)
    requires x.size > 0 && Inv(x) && IsRun(x, steps)
    ensures Throughout(x, steps) <==> NeverStale(x, steps)
    decreases steps
  {
    hide Inv, Stale;
    if steps != [] {
      StepKeepsIff(x, steps[0]);
      if !Stale(x, steps[0]) {
        RunKeepsIff(Do(x, steps[0]), steps[1..]);
      }
    }
  }

  lemma {:induction false} ThroughoutEnd(x: Indexer, steps: seq<Step>)
    requires x.size > 0 && IsRun(x, steps) && Throughout(x, steps)
    ensures Inv(After(x, steps))
    decreases steps
  {
    if steps != [] {
      ThroughoutEnd(Do(x, steps[0]), steps[1..]);
    }
  }

  // ---- Runs without overlap ----

  /** A notice and a rollback are never at work at the same time. */
  ghost predicate NeverOverlap(x: Indexer, steps: seq<Step>)
    requires x.size > 0 && IsRun(x, steps)
    decreases steps
  {
    && (x.notice.Off? || x.rollback.Off?)
    && (steps != [] ==> NeverOverlap(Do(x, steps[0]), steps[1..]))
  }

  /** What holds inside the loop of setValidSections when nobody else touches the count. */
  predicate Undisturbed(x: Indexer, w: Worker) {
    match w
    case Off => true
    case Testing(t) => x.stored >= t
    case Loading(t) => x.stored > t
    case Storing(t, read) => read == x.stored > t
    case Reading(t, own) => own == x.stored >= t
    case Removing(t, own, key) => key == own == x.stored >= t
    case Assigning(t) => x.stored == t
  }

  ghost predicate Alone(x: Indexer) {
    && (x.rollback.Off? <==> !x.updater.RollingBack?)
    && Undisturbed(x, x.notice) && Undisturbed(x, x.rollback)
  }

  lemma AloneStays(x: Indexer, s: Step)
    requires x.size > 0 && Enabled(x, s) && Alone(x) && (x.notice.Off? || x.rollback.Off?)
    ensures Alone(Do(x, s)) && !Stale(x, s)
  {
    hide FirstOf;
  }

  lemma {:induction false} NoOverlapNoRace(x: Indexer, steps: seq<Step>)
    requires x.size > 0 && Alone(x) && IsRun(x, steps) && NeverOverlap(x, steps)
    ensures NeverStale(x, steps)
    decreases steps
  {
    hide Alone, Stale;
    if steps != [] {
      AloneStays(x, steps[0]);
      NoOverlapNoRace(Do(x, steps[0]), steps[1..]);
    }
  }

  /** From a new indexer on, every interleaving without such an overlap keeps the invariant. */
  lemma EveryRun(size: nat, confirms: nat, steps: seq<Step>)
    requires size > 0 && IsRun(Init(size, confirms), steps) && NeverOverlap(Init(size, confirms), steps)
    ensures Throughout(Init(size, confirms), steps) && Inv(After(Init(size, confirms), steps))
  {
    NoOverlapNoRace(Init(size, confirms), steps);
    RunKeepsIff(Init(size, confirms), steps);
    ThroughoutEnd(Init(size, confirms), steps);
  }

  ghost predicate ResetsSucceed(steps: seq<Step>) {
    forall s :: s in steps ==> s != Start(false)
  }

  /** While backend resets succeed there is no rollback, so no overlap. */
  lemma {:induction false} NoFailureNoOverlap(x: Indexer, steps: seq<Step>)
    requires x.size > 0 && x.rollback.Off? && IsRun(x, steps) && ResetsSucceed(steps)
    ensures NeverOverlap(x, steps)
    decreases steps
  {
    hide FirstOf;
    if steps != [] {
      assert steps[0] in steps && forall s :: s in steps[1..] ==> s in steps;
      assert Do(x, steps[0]).rollback.Off?;
      NoFailureNoOverlap(Do(x, steps[0]), steps[1..]);
    }
  }

  // ---- Which runs end with exact heads ----

  /** The sections whose heads a run removes. */
  ghost function Dropped(x: Indexer, steps: seq<Step>): set<nat>
    requires x.size > 0 && IsRun(x, steps)
    decreases steps
  {
    if steps == [] then {}
    else
      var rest := Dropped(Do(x, steps[0]), steps[1..]);
      if steps[0].Advance? && WorkerOf(x, steps[0].who).Removing? then {WorkerOf(x, steps[0].who).key} + rest else rest
  }

  lemma {:induction false} HeadsLeft(x: Indexer, steps: seq<Step>)
    requires x.size > 0 && IsRun(x, steps) && Commit !in steps
    ensures After(x, steps).heads.Keys == x.heads.Keys - Dropped(x, steps)
    decreases steps
  {
    hide FirstOf;
    if steps != [] {
      assert steps[0] != Commit && forall s :: s in steps[1..] ==> s in steps;
      HeadsLeft(Do(x, steps[0]), steps[1..]);
    }
  }

  /**
   Whatever the overlaps between two commits, the heads end exact if and only if the count ends no
   higher than it began and exactly the sections from it on were removed, be it once or twice.
   */
  lemma EndsExactIff(x: Indexer, steps: seq<Step>)
    requires x.size > 0 && HeadsExact(x) && IsRun(x, steps) && Commit !in steps
    ensures HeadsExact(After(x, steps)) <==>
            && After(x, steps).stored <= x.stored
            && forall s: nat :: s < x.stored ==> (s in Dropped(x, steps) <==> After(x, steps).stored <= s)
  {
    hide IsRun, After, Dropped;
    HeadsLeft(x, steps);
    var y, gone := After(x, steps), Dropped(x, steps);
    assert forall s: nat :: s in y.heads <==> s < x.stored && s !in gone;
    if y.stored > x.stored {
      assert x.stored !in y.heads;
    }
  }

  // ---- Each kind of stale step leaves wrong heads behind ----

  lemma {:induction false} Concat(x: Indexer, a: seq<Step>, b: seq<Step>)
    requires x.size > 0 && IsRun(x, a) && IsRun(After(x, a), b)
    ensures IsRun(x, a + b) && After(x, a + b) == After(After(x, a), b)
    decreases a
  {
    if a == [] {
      assert a + b == b;
    } else {
      Concat(Do(x, a[0]), a[1..], b);
      assert (a + b)[1..] == a[1..] + b;
    }
  }

  lemma Once(x: Indexer, s: Step)
    requires x.size > 0 && Enabled(x, s)
    ensures IsRun(x, [s]) && After(x, [s]) == Do(x, s)
  {
    assert [s][1..] == [];
  }

  /** A run and one more step. */
  lemma Then(x: Indexer, steps: seq<Step>, s: Step)
    requires x.size > 0 && IsRun(x, steps) && Enabled(After(x, steps), s)
    ensures IsRun(x, steps + [s]) && After(x, steps + [s]) == Do(After(x, steps), s)
  {
    Once(After(x, steps), s);
    Concat(x, steps, [s]);
  }

  /** Two steps of one worker. */
  lemma Twice(x: Indexer, who: Who)
    requires x.size > 0 && !WorkerOf(x, who).Off? && !WorkerOf(AdvanceOne(x, who), who).Off?
    ensures IsRun(x, [Advance(who), Advance(who)])
    ensures After(x, [Advance(who), Advance(who)]) == AdvanceOne(AdvanceOne(x, who), who)
  {
    hide IsRun, After;
    Once(x, Advance(who));
    Then(x, [Advance(who)], Advance(who));
    assert [Advance(who)] + [Advance(who)] == [Advance(who), Advance(who)];
  }

  /** The first half of a round takes a section off the count. */
  lemma Take(x: Indexer, who: Who) returns (steps: seq<Step>)
    requires x.size > 0 && WorkerOf(x, who).Testing? && x.stored > WorkerOf(x, who).target
    ensures IsRun(x, steps)
    ensures After(x, steps) == With(x, who, Reading(WorkerOf(x, who).target, x.stored - 1)).(stored := x.stored - 1)
  {
    hide IsRun, After;
    Twice(x, who);
    steps := [Advance(who), Advance(who)];
    Then(x, steps, Advance(who));
    steps := steps + [Advance(who)];
  }

  /** The second half removes the head at whatever the count is by then. */
  lemma Drop(x: Indexer, who: Who) returns (steps: seq<Step>)
    requires x.size > 0 && WorkerOf(x, who).Reading?
    ensures IsRun(x, steps)
    ensures After(x, steps) == With(x, who, Testing(WorkerOf(x, who).target)).(heads := x.heads - {x.stored})
  {
    hide IsRun, After;
    Twice(x, who);
    steps := [Advance(who), Advance(who)];
  }

  lemma Round(x: Indexer, who: Who) returns (steps: seq<Step>)
    requires x.size > 0 && WorkerOf(x, who).Testing? && x.stored > WorkerOf(x, who).target
    ensures IsRun(x, steps)
    ensures After(x, steps) == x.(stored := x.stored - 1, heads := x.heads - {x.stored - 1})
  {
    hide IsRun, After;
    steps := Take(x, who);
    var more := Drop(After(x, steps), who);
    Concat(x, steps, more);
    steps := steps + more;
  }

  lemma Finish(x: Indexer, who: Who) returns (steps: seq<Step>)
    requires x.size > 0 && WorkerOf(x, who).Testing? && x.stored <= WorkerOf(x, who).target
    ensures IsRun(x, steps)
    ensures After(x, steps) == Returned(With(x, who, Off).(stored := WorkerOf(x, who).target), who)
  {
    hide IsRun, After;
    Twice(x, who);
    steps := [Advance(who), Advance(who)];
  }

  /** Two sections of one block each are stored; a rollback and a notice are about to shrink the count. */
  ghost predicate Racing(x: Indexer, target: nat) {
    && x.size == 1 && x.stored == 2 && x.heads.Keys == {0, 1} && target < 2
    && x.notice == Testing(target) && x.rollback == Testing(0) && x.updater.RollingBack?
  }

  /** The rollback, undisturbed: it removes both heads and sets the count to zero. */
  lemma RollBackAll(x: Indexer) returns (steps: seq<Step>)
    requires x.size > 0 && x.stored == 2 && x.heads.Keys == {0, 1} && x.rollback == Testing(0) && x.updater.RollingBack?
    ensures IsRun(x, steps)
    ensures var y := After(x, steps); y.stored == 0 && y.heads == map[] && y.notice == x.notice && y.rollback.Off?
  {
    hide IsRun, After;
    steps := Round(x, Roller);
    var x1 := After(x, steps);
    var more := Round(x1, Roller);
    Concat(x, steps, more);
    steps := steps + more;
    more := Finish(After(x, steps), Roller);
    Concat(x, steps, more);
    steps := steps + more;
  }

  /** The final assignment: the rollback ends below the notice's target, and the notice sets the count back up. */
  lemma StaleAssignment(x: Indexer) returns (steps: seq<Step>)
    requires Racing(x, 1)
    ensures IsRun(x, steps)
    ensures var y := After(x, steps); AtRest(y) && y.stored == 1 && y.heads == map[]
  {
    hide IsRun, After;
    steps := RollBackAll(x);
    var more := Finish(After(x, steps), Noticer);
    Concat(x, steps, more);
    steps := steps + more;
  }

  /** The decrement: the notice reads the count before the rollback and writes it back after. */
  lemma StaleDecrement(x: Indexer) returns (steps: seq<Step>)
    requires Racing(x, 1)
    ensures IsRun(x, steps)
    ensures var y := After(x, steps); AtRest(y) && y.stored == 1 && y.heads == map[]
  {
    hide IsRun, After;
    Twice(x, Noticer);
    steps := [Advance(Noticer), Advance(Noticer)];
    var more := RollBackAll(After(x, steps));
    Concat(x, steps, more);
    steps := steps + more;
    Then(x, steps, Advance(Noticer));
    steps := steps + [Advance(Noticer)];
    more := Drop(After(x, steps), Noticer);
    Concat(x, steps, more);
    steps := steps + more;
    more := Finish(After(x, steps), Noticer);
    Concat(x, steps, more);
    steps := steps + more;
  }

  /** The removal: both take a section before either removes a head, so one head is removed twice and one stays. */
  lemma StaleRemoval(x: Indexer) returns (steps: seq<Step>)
    requires Racing(x, 0)
    ensures IsRun(x, steps)
    ensures var y := After(x, steps); AtRest(y) && y.stored == 0 && y.heads.Keys == {1}
  {
    hide IsRun, After;
    steps := Take(x, Roller);
    var more := Take(After(x, steps), Noticer);
    Concat(x, steps, more);
    steps := steps + more;
    more := Drop(After(x, steps), Roller);
    Concat(x, steps, more);
    steps := steps + more;
    more := Drop(After(x, steps), Noticer);
    Concat(x, steps, more);
    steps := steps + more;
    more := Finish(After(x, steps), Roller);
    Concat(x, steps, more);
    steps := steps + more;
    more := Finish(After(x, steps), Noticer);
    Concat(x, steps, more);
    steps := steps + more;
  }

  /** The rollback's test passes just before the notice takes the count to zero: the decrement wraps around. */
  lemma Underflow(x: Indexer) returns (steps: seq<Step>)
    requires Racing(x, 0)
    ensures IsRun(x, steps) && After(x, steps).stored == MAX_UINT64
  {
    hide IsRun, After;
    Once(x, Advance(Roller));
    steps := [Advance(Roller)];
    var more := Round(After(x, steps), Noticer);
    Concat(x, steps, more);
    steps := steps + more;
    more := Round(After(x, steps), Noticer);
    Concat(x, steps, more);
    steps := steps + more;
    Twice(After(x, steps), Roller);
    Concat(x, steps, [Advance(Roller), Advance(Roller)]);
    steps := steps + [Advance(Roller), Advance(Roller)];
  }

  /** With sections of one block, three steps store the next one. */
  lemma StoreSection(x: Indexer, b: Block) returns (steps: seq<Step>)
    requires x.size == 1 && AtRest(x) && x.updater.Waiting? && x.known > x.stored && HeadsExact(x)
    requires x.stored in x.canon && x.canon[x.stored] == b && ParentOf(b) == HeadBefore(x, x.stored)
    ensures IsRun(x, steps)
    ensures After(x, steps) == x.(heads := x.heads[x.stored := b], stored := x.stored + 1)
  {
    hide IsRun, After;
    Once(x, Start(true));
    steps := [Start(true)];
    Then(x, steps, Read(true, true));
    steps := steps + [Read(true, true)];
    Then(x, steps, Commit);
    steps := steps + [Commit];
    assert After(x, steps).heads == x.heads[x.stored := b];
  }

  /** A new indexer can get into such a race. */
  lemma ReachRace(target: nat) returns (steps: seq<Step>)
    requires target < 2
    ensures IsRun(Init(1, 0), steps) && Racing(After(Init(1, 0), steps), target)
  {
    hide IsRun, After;
    var g0 := Root(0, 0);
    var g1 := Child(g0, 0, [], 0);
    var x := Init(1, 0);
    Once(x, Rewrite(map[0 := g0, 1 := g1]));
    steps := [Rewrite(map[0 := g0, 1 := g1])];
    Then(x, steps, NewHead(2));
    steps := steps + [NewHead(2)];
    var more := StoreSection(After(x, steps), g0);
    Concat(x, steps, more);
    steps := steps + more;
    more := StoreSection(After(x, steps), g1);
    Concat(x, steps, more);
    steps := steps + more;
    Then(x, steps, Start(false));
    steps := steps + [Start(false)];
    Then(x, steps, ReorgNotice(target));
    steps := steps + [ReorgNotice(target)];
  }

  /** So whole runs from a new indexer end at rest with wrong heads: one for each kind of stale step. */
  lemma RaceBreaks() returns (assignment: seq<Step>, decrement: seq<Step>, removal: seq<Step>)
    ensures forall steps :: steps in [assignment, decrement, removal] ==>
              IsRun(Init(1, 0), steps) && AtRest(After(Init(1, 0), steps)) && !HeadsExact(After(Init(1, 0), steps))
  {
    hide IsRun, After;
    var x := Init(1, 0);
    var one := ReachRace(1);
    var zero := ReachRace(0);
    var more := StaleAssignment(After(x, one));
    Concat(x, one, more);
    assignment := one + more;
    more := StaleDecrement(After(x, one));
    Concat(x, one, more);
    decrement := one + more;
    more := StaleRemoval(After(x, zero));
    Concat(x, zero, more);
    removal := zero + more;
    assert 0 !in After(x, assignment).heads && 0 !in After(x, decrement).heads && 1 in After(x, removal).heads;
  }
}
