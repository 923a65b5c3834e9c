/**
 event/feed.go: one-to-many delivery. The select cases live in one slice, of which a running
 Send keeps an active prefix; unsubscribing interrupts it. The in-place slice operations are
 proved against functions on sequences, and the protocol is a state machine over the atomic
 steps of Subscribe, Unsubscribe and Send, whose every interleaving is covered.
 */
module Feeds {

  /** A channel: the feed's own removeSub channel, or a subscriber's. */
  datatype Chan = RemoveSub | User(id: nat)

  const FIRST_SUB_SEND_CASE := 1

  // ---- caseList ----

  /** The first position of a channel, or -1. */
  function IndexOf(cs: seq<Chan>, ch: Chan): (i: int)
    ensures -1 <= i < |cs|
    ensures i == -1 <==> ch !in cs
    ensures i >= 0 ==> cs[i] == ch && forall j :: 0 <= j < i ==> cs[j] != ch
  {
    if cs == [] then -1
    else if cs[0] == ch then 0
    else var i := IndexOf(cs[1..], ch); if i == -1 then -1 else i + 1
  }

  function RemoveAt(cs: seq<Chan>, i: nat): (r: seq<Chan>)
    requires i < |cs|
    ensures |r| == |cs| - 1 && multiset(r) == multiset(cs) - multiset{cs[i]}
  {
    assert cs == cs[..i] + [cs[i]] + cs[i + 1..];
    cs[..i] + cs[i + 1..]
  }

  /** Swaps a case with the last of the first n, which the active prefix then loses. */
  function Deactivated(cs: seq<Chan>, n: nat, i: nat): (r: seq<Chan>)
    requires i < n <= |cs|
    ensures |r| == |cs| && multiset(r) == multiset(cs)
  {
    cs[i := cs[n - 1]][n - 1 := cs[i]]
  }

  /** find */
  method Find(cs: array<Chan>, n: nat, ch: Chan) returns (i: int)
    requires n <= cs.Length
    ensures i == IndexOf(cs[..n], ch)
  {
    i := 0;
    while i < n
      invariant 0 <= i <= n
      invariant forall j :: 0 <= j < i ==> cs[j] != ch
    {
      if cs[i] == ch {
        return;
      }
      i := i + 1;
    }
    i := -1;
  }

  /** delete: the later cases move down one place. */
  method Delete(cs: array<Chan>, n: nat, index: nat)
    requires index < n <= cs.Length
    modifies cs
    ensures cs[..n - 1] == RemoveAt(old(cs[..n]), index)
    ensures cs[n..] == old(cs[n..])
  {
    hide RemoveAt;
    for i := index to n - 1
      invariant forall j :: 0 <= j < index ==> cs[j] == old(cs[j])
      invariant forall j :: index <= j < i ==> cs[j] == old(cs[j + 1])
      invariant forall j :: i <= j < cs.Length ==> cs[j] == old(cs[j])
    {
      cs[i] := cs[i + 1];
    }
    RemovedAt(old(cs[..n]), index, cs[..n - 1]);
  }

  lemma RemovedAt(cs: seq<Chan>, i: nat, r: seq<Chan>)
    requires i < |cs| && |r| == |cs| - 1
    requires forall j :: 0 <= j < i ==> r[j] == cs[j]
    requires forall j :: i <= j < |r| ==> r[j] == cs[j + 1]
    ensures r == RemoveAt(cs, i)
  {
  }

  /** deactivate */
  method Deactivate(cs: array<Chan>, n: nat, index: nat)
    requires index < n <= cs.Length
    modifies cs
    ensures cs[..] == Deactivated(old(cs[..]), n, index)
  {
    cs[index], cs[n - 1] := cs[n - 1], cs[index];
  }

  // ---- The protocol ----

  /** Where the Send that holds the lock, if any, has got to. */
  datatype Phase =
    | Idle                                // the send lock is free
    | Locked                              // holding the lock, inbox not merged yet
    | Trying(active: nat, i: nat)         // fast path at case i of the active prefix
    | Selecting(active: nat)              // blocked on the active prefix
    | Panicked

  /**
   The feed and its users. `live` counts the subscriptions whose removal has not finished,
   `removing` those past the inbox, waiting for Send or the lock. `started`, `delivered` and
   `dropped` are the history of the current or last Send: the cases it began with, those it
   delivered to, and those removed while still active.
   */
  datatype Feed = Feed(inbox: seq<Chan>, sendCases: seq<Chan>, phase: Phase,
                       live: multiset<Chan>, removing: multiset<Chan>,
                       started: multiset<Chan>, delivered: multiset<Chan>, dropped: multiset<Chan>, nsent: nat)

  function Init(): Feed {
    Feed([], [RemoveSub], Idle, multiset{}, multiset{}, multiset{}, multiset{}, multiset{}, 0)
  }

  datatype Step =
    | Subscribe(id: nat)
    | Unsubscribe(id: nat)      // remove, under mu: the inbox
    | RemoveUnlocked(id: nat)   // remove: took the send lock
    | TakeLock                  // Send
    | Merge                     // Send, under mu: inbox into sendCases
    | TrySend(accepted: bool)   // Send: one fast-path attempt
    | EndFastPath               // Send: past the active prefix
    | SelectRemove(id: nat)     // Send: select received from removeSub
    | SelectSend(k: nat)        // Send: select sent on case k

  predicate Enabled(f: Feed, s: Step) {
    match s
    case Subscribe(_) => true
    case Unsubscribe(id) => f.removing[User(id)] < f.live[User(id)]
    case RemoveUnlocked(id) => f.phase.Idle? && User(id) in f.removing
    case TakeLock => f.phase.Idle?
    case Merge => f.phase.Locked?
    case TrySend(_) => f.phase.Trying? && f.phase.i < f.phase.active
    case EndFastPath => f.phase.Trying? && f.phase.i >= f.phase.active
    case SelectRemove(id) => f.phase.Selecting? && User(id) in f.removing
    case SelectSend(k) => f.phase.Selecting? && FIRST_SUB_SEND_CASE <= k < f.phase.active
  }

  /** The cases of subscribers among the first n. */
  function Users(cs: seq<Chan>, n: nat): multiset<Chan> {
    if 1 <= n <= |cs| then multiset(cs[1..n]) else multiset{}
  }

  /** Takes channel ch out of sendCases; deleting at index -1 would panic. */
  function DropCase(f: Feed, ch: Chan): Feed {
    var index := IndexOf(f.sendCases, ch);
    if index < 0 then f.(phase := Panicked)
    else f.(sendCases := RemoveAt(f.sendCases, index), live := f.live - multiset{ch},
        removing := f.removing - multiset{ch})
  }

  /** Records a delivery to case k of the active prefix and deactivates it. */
  function Deliver(f: Feed, active: nat, k: nat, next: nat): Feed {
    if !(k < active <= |f.sendCases|) then f.(phase := Panicked)
    else f.(sendCases := Deactivated(f.sendCases, active, k), phase := Trying(active - 1, next),
            delivered := f.delivered + multiset{f.sendCases[k]}, nsent := f.nsent + 1)
  }

  /** One atomic step; an index out of range panics. */
  function Do(f: Feed, s: Step): Feed
    requires Enabled(f, s)
  {
    match s
    case Subscribe(id) => f.(inbox := f.inbox + [User(id)], live := f.live + multiset{User(id)})
    case Unsubscribe(id) =>
      var index := IndexOf(f.inbox, User(id));
      if index != -1 then f.(inbox := RemoveAt(f.inbox, index), live := f.live - multiset{User(id)})
      else f.(removing := f.removing + multiset{User(id)})
    case RemoveUnlocked(id) => DropCase(f, User(id))
    case TakeLock => f.(phase := Locked)
    case Merge =>
      var cs := f.sendCases + f.inbox;
      f.(sendCases := cs, inbox := [], phase := Trying(|cs|, FIRST_SUB_SEND_CASE),
         started := Users(cs, |cs|), delivered := multiset{}, dropped := multiset{}, nsent := 0)
    case TrySend(accepted) =>
      if accepted then Deliver(f, f.phase.active, f.phase.i, f.phase.i)
      else f.(phase := Trying(f.phase.active, f.phase.i + 1))
    case EndFastPath =>
      if f.phase.active == FIRST_SUB_SEND_CASE then f.(phase := Idle) else f.(phase := Selecting(f.phase.active))
    case SelectRemove(id) =>
      var g := DropCase(f, User(id));
      if g.phase.Panicked? then g
      else if IndexOf(f.sendCases, User(id)) < f.phase.active then
        g.(phase := Trying(f.phase.active - 1, FIRST_SUB_SEND_CASE), dropped := f.dropped + multiset{User(id)})
      else g.(phase := Trying(f.phase.active, FIRST_SUB_SEND_CASE))
    case SelectSend(k) =>
      Deliver(f, f.phase.active, k, FIRST_SUB_SEND_CASE)
  }

  /** The active prefix of a running Send; outside one, nothing is active. */
  function Active(f: Feed): nat {
    match f.phase
    case Trying(active, _) => active
    case Selecting(active) => active
    case _ => FIRST_SUB_SEND_CASE
  }

  /** Case 0 is removeSub and no other. */
  ghost predicate Shape(cs: seq<Chan>) {
    |cs| >= 1 && cs[0] == RemoveSub && RemoveSub !in cs[1..]
  }

  /** Inbox and cases together hold each live subscription once; a waiting removal is in the cases. */
  ghost predicate Accounts(f: Feed) {
    && RemoveSub !in f.inbox
    && multiset(f.inbox) + Users(f.sendCases, |f.sendCases|) == f.live
    && f.removing <= Users(f.sendCases, |f.sendCases|)
  }

  /** Each case a Send began with was delivered to, dropped while active, or is still active. */
  ghost predicate History(f: Feed) {
    && 1 <= Active(f) <= |f.sendCases|
    && (f.phase.Trying? ==> 1 <= f.phase.i)
    && (f.phase.Selecting? ==> 1 < f.phase.active)
    && f.delivered + f.dropped + Users(f.sendCases, Active(f)) == f.started
    && f.nsent == |f.delivered|
  }

  ghost predicate Inv(f: Feed) {
    !f.phase.Panicked? && Shape(f.sendCases) && Accounts(f) && History(f)
  }

  // ---- Every step keeps the invariant ----

  /** Deleting a subscriber's case takes one occurrence off a prefix that holds it. */
  lemma RemoveWithin(cs: seq<Chan>, index: nat, n: nat)
    requires 1 <= index < n <= |cs|
    ensures Users(RemoveAt(cs, index), n - 1) + multiset{cs[index]} == Users(cs, n)
  {
    assert cs[1..n] == cs[1..index] + [cs[index]] + cs[index + 1..n];
    assert RemoveAt(cs, index)[1..n - 1] == cs[1..index] + cs[index + 1..n];
  }

  /** A prefix that ends before it does not change. */
  lemma RemoveBeyond(cs: seq<Chan>, index: nat, n: nat)
    requires 1 <= n <= index < |cs|
    ensures Users(RemoveAt(cs, index), n) == Users(cs, n)
  {
    assert RemoveAt(cs, index)[1..n] == cs[1..n];
  }

  lemma RemoveShape(cs: seq<Chan>, index: nat)
    requires Shape(cs) && 1 <= index < |cs|
    ensures Shape(RemoveAt(cs, index))
  {
    assert RemoveAt(cs, index)[1..] == cs[1..index] + cs[index + 1..];
    assert forall c :: c in cs[1..index] || c in cs[index + 1..] ==> c in cs[1..];
  }

  /** Deactivating keeps the cases and takes the delivered one off the active prefix. */
  lemma DeactivateUsers(cs: seq<Chan>, n: nat, k: nat)
    requires Shape(cs) && 1 <= k < n <= |cs|
    ensures var r := Deactivated(cs, n, k);
            && Shape(r) && Users(r, |r|) == Users(cs, |cs|)
            && Users(cs, n) == Users(r, n - 1) + multiset{cs[k]}
  {
    var r := Deactivated(cs, n, k);
    TailSame(cs, r);
    assert r[1..|r|] == r[1..] && cs[1..|cs|] == cs[1..];
    PrefixLoses(cs, n, k);
  }

  /** Permuting the subscribers' cases keeps the shape. */
  lemma TailSame(cs: seq<Chan>, r: seq<Chan>)
    requires Shape(cs) && |r| == |cs| && r[0] == cs[0] && multiset(r) == multiset(cs)
    ensures Shape(r) && multiset(r[1..]) == multiset(cs[1..])
  {
    assert cs == [cs[0]] + cs[1..] && r == [r[0]] + r[1..];
    assert multiset(r[1..]) == multiset(r) - multiset{r[0]};
    assert multiset(cs[1..]) == multiset(cs) - multiset{cs[0]};
    assert RemoveSub !in multiset(cs[1..]);
    assert RemoveSub !in multiset(r[1..]);
  }

  lemma PrefixLoses(cs: seq<Chan>, n: nat, k: nat)
    requires 1 <= k < n <= |cs|
    ensures multiset(cs[1..n]) == multiset(Deactivated(cs, n, k)[1..n - 1]) + multiset{cs[k]}
  {
    var r := Deactivated(cs, n, k);
    if k == n - 1 {
      assert cs[1..n] == cs[1..k] + [cs[k]];
      assert r[1..n - 1] == cs[1..k];
    } else {
      assert cs[1..n] == cs[1..k] + [cs[k]] + cs[k + 1..n - 1] + [cs[n - 1]];
      assert r[1..n - 1] == cs[1..k] + [cs[n - 1]] + cs[k + 1..n - 1];
    }
  }

  /** A waiting removal always finds its channel among the subscribers' cases. */
  lemma FindHits(f: Feed, id: nat)
    requires Inv(f) && User(id) in f.removing
    ensures 1 <= IndexOf(f.sendCases, User(id)) < |f.sendCases|
  {
    var cs := f.sendCases;
    assert User(id) in Users(cs, |cs|);
    assert User(id) in cs[1..|cs|];
    assert User(id) in cs;
  }

  lemma DropCaseKeeps(f: Feed, id: nat)
    requires Inv(f) && User(id) in f.removing
    ensures var g := DropCase(f, User(id));
            g.phase == f.phase && Shape(g.sendCases) && Accounts(g)
  {
    hide Shape, Users, RemoveAt;
    FindHits(f, id);
    RemoveShape(f.sendCases, IndexOf(f.sendCases, User(id)));
    RemoveWithin(f.sendCases, IndexOf(f.sendCases, User(id)), |f.sendCases|);
  }

  lemma RemoveUnlockedKeeps(f: Feed, id: nat)
    requires Inv(f) && Enabled(f, RemoveUnlocked(id))
    ensures Inv(Do(f, RemoveUnlocked(id)))
  {
    hide Shape, Accounts, Users, RemoveAt;
    FindHits(f, id);
    DropCaseKeeps(f, id);
    RemoveBeyond(f.sendCases, IndexOf(f.sendCases, User(id)), 1);
  }

  lemma SameAccounts(f: Feed, g: Feed)
    requires Accounts(f)
    requires g.inbox == f.inbox && g.sendCases == f.sendCases && g.live == f.live && g.removing == f.removing
    ensures Accounts(g)
  {
  }

  /** Dropping an active case moves it from the active ones to the dropped ones. */
  lemma DropActive(f: Feed, id: nat, index: nat)
    requires History(f) && 1 <= index < Active(f) && f.phase.Selecting? && f.sendCases[index] == User(id)
    ensures var g := f.(sendCases := RemoveAt(f.sendCases, index), phase := Trying(Active(f) - 1, FIRST_SUB_SEND_CASE),
                        dropped := f.dropped + multiset{User(id)});
            History(g)
  {
    hide Users, RemoveAt;
    RemoveWithin(f.sendCases, index, Active(f));
    MoveDropped(f.delivered, f.dropped, f.started, Users(f.sendCases, Active(f)),
                Users(RemoveAt(f.sendCases, index), Active(f) - 1), User(id));
  }

  /** Dropping another case leaves the active ones alone. */
  lemma DropInactive(f: Feed, index: nat)
    requires History(f) && Active(f) <= index < |f.sendCases| && f.phase.Selecting?
    ensures var g := f.(sendCases := RemoveAt(f.sendCases, index), phase := Trying(Active(f), FIRST_SUB_SEND_CASE));
            History(g)
  {
    hide Users, RemoveAt;
    RemoveBeyond(f.sendCases, index, Active(f));
  }

  lemma SameHistory(f: Feed, g: Feed)
    requires History(f) && f.sendCases == g.sendCases && f.phase == g.phase && f.started == g.started
    requires f.delivered == g.delivered && f.dropped == g.dropped && f.nsent == g.nsent
    ensures History(g)
  {
  }

  lemma SelectRemoveKeeps(f: Feed, id: nat)
    requires Inv(f) && Enabled(f, SelectRemove(id))
    ensures Inv(Do(f, SelectRemove(id)))
  {
    hide Shape, Users, RemoveAt, Accounts, History, IndexOf;
    FindHits(f, id);
    DropCaseKeeps(f, id);
    var g := Do(f, SelectRemove(id));
    SameAccounts(DropCase(f, User(id)), g);
    var index := IndexOf(f.sendCases, User(id));
    if index < f.phase.active {
      DropActive(f, id, index);
      SameHistory(f.(sendCases := g.sendCases, phase := g.phase, dropped := g.dropped), g);
    } else {
      DropInactive(f, index);
      SameHistory(f.(sendCases := g.sendCases, phase := g.phase), g);
    }
  }

  lemma DeliverKeeps(f: Feed, k: nat, next: nat)
    requires Inv(f) && (f.phase.Trying? || f.phase.Selecting?) && 1 <= k < Active(f) && 1 <= next
    ensures Inv(Deliver(f, Active(f), k, next))
  {
    hide Shape, Users, Deactivated;
    DeactivateUsers(f.sendCases, Active(f), k);
    MoveDelivered(f.delivered, f.dropped, f.started, Users(f.sendCases, Active(f)),
                  Users(Deactivated(f.sendCases, Active(f), k), Active(f) - 1), f.sendCases[k]);
  }

  lemma MoveDelivered(delivered: multiset<Chan>, dropped: multiset<Chan>, started: multiset<Chan>,
                      active: multiset<Chan>, left: multiset<Chan>, ch: Chan)
    requires delivered + dropped + active == started && active == left + multiset{ch}
    ensures (delivered + multiset{ch}) + dropped + left == started
  {
  }

  lemma MoveDropped(delivered: multiset<Chan>, dropped: multiset<Chan>, started: multiset<Chan>,
                    active: multiset<Chan>, left: multiset<Chan>, ch: Chan)
    requires delivered + dropped + active == started && active == left + multiset{ch}
    ensures delivered + (dropped + multiset{ch}) + left == started
  {
  }

  lemma MergeCases(cs: seq<Chan>, inbox: seq<Chan>)
    requires Shape(cs) && RemoveSub !in inbox
    ensures Shape(cs + inbox) && Users(cs + inbox, |cs + inbox|) == Users(cs, |cs|) + multiset(inbox)
  {
    assert (cs + inbox)[1..] == cs[1..] + inbox;
    assert (cs + inbox)[1..|cs + inbox|] == cs[1..] + inbox && cs[1..|cs|] == cs[1..];
  }

  lemma MergeKeeps(f: Feed)
    requires Inv(f) && Enabled(f, Merge)
    ensures Inv(Do(f, Merge)) && Do(f, Merge).started == f.live
  {
    hide Shape, Users;
    var cs := f.sendCases + f.inbox;
    MergeCases(f.sendCases, f.inbox);
  }

  lemma InboxLoses(inbox: seq<Chan>, i: nat, users: multiset<Chan>, live: multiset<Chan>)
    requires i < |inbox| && multiset(inbox) + users == live
    ensures multiset(RemoveAt(inbox, i)) + users == live - multiset{inbox[i]}
    ensures forall c :: c in RemoveAt(inbox, i) ==> c in inbox
  {
  }

  lemma OneMoreWaits(inbox: seq<Chan>, users: multiset<Chan>, live: multiset<Chan>, removing: multiset<Chan>, ch: Chan)
    requires multiset(inbox) + users == live && removing <= users && ch !in inbox && removing[ch] < live[ch]
    ensures removing + multiset{ch} <= users
  {
    assert multiset(inbox)[ch] == 0;
  }

  lemma UnsubscribeKeeps(f: Feed, id: nat)
    requires Inv(f) && Enabled(f, Unsubscribe(id))
    ensures Inv(Do(f, Unsubscribe(id)))
  {
    hide Shape, Users, RemoveAt, History;
    var index, users := IndexOf(f.inbox, User(id)), Users(f.sendCases, |f.sendCases|);
    if index == -1 {
      OneMoreWaits(f.inbox, users, f.live, f.removing, User(id));
    } else {
      InboxLoses(f.inbox, index, users, f.live);
    }
    SameHistory(f, Do(f, Unsubscribe(id)));
  }

  lemma SubscribeKeeps(f: Feed, id: nat)
    requires Inv(f)
    ensures Inv(Do(f, Subscribe(id)))
  {
  }

  lemma TakeLockKeeps(f: Feed)
    requires Inv(f) && Enabled(f, TakeLock)
    ensures Inv(Do(f, TakeLock))
  {
  }

  lemma EndFastPathKeeps(f: Feed)
    requires Inv(f) && Enabled(f, EndFastPath)
    ensures Inv(Do(f, EndFastPath))
  {
  }

  lemma TrySendKeeps(f: Feed, accepted: bool)
    requires Inv(f) && Enabled(f, TrySend(accepted))
    ensures Inv(Do(f, TrySend(accepted)))
  {
    hide Shape, Users;
    if accepted { DeliverKeeps(f, f.phase.i, f.phase.i); }
  }

  lemma SelectSendKeeps(f: Feed, k: nat)
    requires Inv(f) && Enabled(f, SelectSend(k))
    ensures Inv(Do(f, SelectSend(k)))
  {
    hide Inv;
    DeliverKeeps(f, k, FIRST_SUB_SEND_CASE);
  }

  /** Whatever step comes next, the invariant is kept; in particular nothing panics. */
  lemma StepKeeps(f: Feed, s: Step)
    requires Inv(f) && Enabled(f, s)
    ensures Inv(Do(f, s))
  {
    hide Inv, Do, Enabled;
    match s
    case Subscribe(id) => SubscribeKeeps(f, id);
    case Unsubscribe(id) => UnsubscribeKeeps(f, id);
    case RemoveUnlocked(id) => RemoveUnlockedKeeps(f, id);
    case TakeLock => TakeLockKeeps(f);
    case Merge => MergeKeeps(f);
    case TrySend(accepted) => TrySendKeeps(f, accepted);
    case EndFastPath => EndFastPathKeeps(f);
    case SelectRemove(id) => SelectRemoveKeeps(f, id);
    case SelectSend(k) => SelectSendKeeps(f, k);
  }

  // ---- Whole runs ----

  /** The steps of a run are possible one after the other. */
  ghost predicate IsRun(f: Feed, steps: seq<Step>)
    decreases steps
  {
    steps != [] ==> Enabled(f, steps[0]) && IsRun(Do(f, steps[0]), steps[1..])
  }

  ghost function After(f: Feed, steps: seq<Step>): Feed
    requires IsRun(f, steps)
    decreases steps
  {
    if steps == [] then f else After(Do(f, steps[0]), steps[1..])
  }

  /**
   Under every interleaving: inbox and cases hold exactly the live subscriptions, a removal
   never misses its channel, and each case a Send began with is delivered to once, was removed
   while active, or is still active.
   */
  lemma {:induction false} RunKeeps(f: Feed, steps: seq<Step>)
    requires Inv(f) && IsRun(f, steps)
    ensures Inv(After(f, steps))
    decreases steps
  {
    if steps != [] {
      StepKeeps(f, steps[0]);
      RunKeeps(Do(f, steps[0]), steps[1..]);
    }
  }

  lemma EveryRun(steps: seq<Step>)
    requires IsRun(Init(), steps)
    ensures Inv(After(Init(), steps))
    ensures var f := After(Init(), steps);
            forall ch :: multiset(f.inbox)[ch] + Users(f.sendCases, |f.sendCases|)[ch] == f.live[ch]
  {
    RunKeeps(Init(), steps);
  }

  /** A Send ends exactly when each case it began with is delivered to or dropped; it has counted the deliveries. */
  lemma SendDelivers(f: Feed)
    requires Inv(f) && Enabled(f, EndFastPath)
    ensures Do(f, EndFastPath).phase.Idle? <==> f.delivered + f.dropped == f.started
    ensures Do(f, EndFastPath).phase.Idle? ==> f.nsent == |f.started| - |f.dropped|
  {
    var active := f.sendCases[1..Active(f)];
    assert |multiset(active)| == |active|;
    assert f.delivered + f.dropped + multiset(active) == f.started;
    assert |f.delivered + f.dropped + multiset(active)| == |f.delivered + f.dropped| + |active|;
    assert active == [] ==> multiset(active) == multiset{};
  }

  lemma {:induction false} StartedStays(f: Feed, steps: seq<Step>)
    requires IsRun(f, steps) && Merge !in steps
    ensures After(f, steps).started == f.started
    decreases steps
  {
    if steps != [] {
      assert steps[0] != Merge;
      StartedStays(Do(f, steps[0]), steps[1..]);
    }
  }

  /**
   A whole Send, with any other steps in between: it delivers once to each subscription that
   was live when it merged the inbox, except those removed while still active.
   */
  lemma SendOutcome(f: Feed, between: seq<Step>)
    requires Inv(f) && Enabled(f, Merge) && IsRun(Do(f, Merge), between) && Merge !in between
    requires var g := After(Do(f, Merge), between); Enabled(g, EndFastPath) && Do(g, EndFastPath).phase.Idle?
    ensures var g := Do(After(Do(f, Merge), between), EndFastPath);
            g.delivered + g.dropped == f.live && g.nsent == |f.live| - |g.dropped|
  {
    MergeKeeps(f);
    RunKeeps(Do(f, Merge), between);
    StartedStays(Do(f, Merge), between);
    SendDelivers(After(Do(f, Merge), between));
  }

  // ---- What the steps themselves say ----

  /** One, if the condition holds. */
  function One(b: bool): nat {
    if b then 1 else 0
  }

  /** The step at which a removal of the channel is over. */
  predicate Finishes(f: Feed, s: Step, id: nat) {
    || (s == Unsubscribe(id) && User(id) in f.inbox)
    || s == RemoveUnlocked(id)
    || s == SelectRemove(id)
  }

  ghost function Finished(f: Feed, steps: seq<Step>, id: nat): nat
    requires IsRun(f, steps)
    decreases steps
  {
    if steps == [] then 0
    else One(Finishes(f, steps[0], id)) + Finished(Do(f, steps[0]), steps[1..], id)
  }

  /** The channel a step sends the value on, if it does. */
  ghost function Sending(f: Feed, s: Step): multiset<Chan> {
    if s == TrySend(true) && f.phase.Trying? && f.phase.i < |f.sendCases| then multiset{f.sendCases[f.phase.i]}
    else if s.SelectSend? && s.k < |f.sendCases| then multiset{f.sendCases[s.k]}
    else multiset{}
  }

  /** All the sends of a run. */
  ghost function Sent(f: Feed, steps: seq<Step>): multiset<Chan>
    requires IsRun(f, steps)
    decreases steps
  {
    if steps == [] then multiset{}
    else Sending(f, steps[0]) + Sent(Do(f, steps[0]), steps[1..])
  }

  lemma WaitingIsLive(f: Feed, id: nat)
    requires Inv(f)
    ensures f.removing[User(id)] <= f.live[User(id)]
    ensures User(id) in f.inbox ==> f.removing[User(id)] < f.live[User(id)]
  {
    assert f.removing[User(id)] <= Users(f.sendCases, |f.sendCases|)[User(id)];
    assert User(id) in f.inbox ==> multiset(f.inbox)[User(id)] > 0;
  }

  /** From f to g, so many subscriptions of the channel were made, finished and asked to be removed. */
  ghost predicate Counted(f: Feed, g: Feed, id: nat, subscribed: nat, finished: nat, asked: nat) {
    && g.live[User(id)] == f.live[User(id)] + subscribed - finished
    && g.removing[User(id)] == f.removing[User(id)] + asked - finished
  }

  lemma DropCounts(f: Feed, id: nat, removed: nat)
    requires Inv(f) && User(removed) in f.removing
    ensures Counted(f, DropCase(f, User(removed)), id, 0, One(removed == id), 0)
  {
    hide Shape, Users, History, Accounts, IndexOf, RemoveAt;
    FindHits(f, removed);
    WaitingIsLive(f, removed);
  }

  lemma UnsubscribeCounts(f: Feed, id: nat, asked: nat)
    requires Inv(f) && Enabled(f, Unsubscribe(asked))
    ensures Counted(f, Do(f, Unsubscribe(asked)), id, 0, One(asked == id && User(id) in f.inbox), One(asked == id))
  {
    hide Shape, Users, History, Accounts, RemoveAt;
  }

  lemma OtherCounts(f: Feed, s: Step, id: nat)
    requires Enabled(f, s) && !s.Unsubscribe? && !s.RemoveUnlocked? && !s.SelectRemove?
    ensures Counted(f, Do(f, s), id, One(s == Subscribe(id)), 0, 0)
  {
    hide Users, Deactivated;
  }

  lemma SelectRemoveCounts(f: Feed, id: nat, removed: nat)
    requires Inv(f) && Enabled(f, SelectRemove(removed))
    ensures Counted(f, Do(f, SelectRemove(removed)), id, 0, One(removed == id), 0)
  {
    hide Inv, DropCase, IndexOf;
    DropCounts(f, id, removed);
  }

  /** Subscriptions and removals are counted as the steps say. */
  lemma StepCounts(f: Feed, s: Step, id: nat)
    requires Inv(f) && Enabled(f, s)
    ensures Counted(f, Do(f, s), id, One(s == Subscribe(id)), One(Finishes(f, s, id)), One(s == Unsubscribe(id)))
  {
    hide Inv, Do, Counted;
    match s
    case Unsubscribe(asked) => UnsubscribeCounts(f, id, asked);
    case RemoveUnlocked(removed) =>
      DropCounts(f, id, removed);
      RemoveUnlockedDrops(f, removed);
    case SelectRemove(removed) => SelectRemoveCounts(f, id, removed);
    case _ => OtherCounts(f, s, id);
  }

  lemma RemoveUnlockedDrops(f: Feed, id: nat)
    requires Enabled(f, RemoveUnlocked(id))
    ensures Do(f, RemoveUnlocked(id)) == DropCase(f, User(id))
  {
    hide DropCase;
  }

  /** From f to g, within one Send, these channels were sent to, and no drop came without being asked for. */
  ghost predicate Sends(f: Feed, g: Feed, id: nat, sent: multiset<Chan>, asked: nat) {
    && g.delivered == f.delivered + sent && g.nsent == f.nsent + |sent|
    && g.dropped[User(id)] + g.removing[User(id)] <= f.dropped[User(id)] + f.removing[User(id)] + asked
  }

  lemma DropSends(f: Feed, id: nat, removed: nat)
    requires Inv(f) && User(removed) in f.removing
    ensures var g := DropCase(f, User(removed));
            && g.removing[User(id)] == f.removing[User(id)] - One(removed == id)
            && g.dropped == f.dropped && g.delivered == f.delivered && g.nsent == f.nsent
  {
    hide Shape, Users, History, Accounts, IndexOf, RemoveAt;
    FindHits(f, removed);
  }

  lemma DeliverSends(f: Feed, k: nat, next: nat, id: nat)
    requires Inv(f) && (f.phase.Trying? || f.phase.Selecting?) && 1 <= k < Active(f)
    ensures k < |f.sendCases| && Sends(f, Deliver(f, Active(f), k, next), id, multiset{f.sendCases[k]}, 0)
  {
    hide Shape, Users, Accounts, Deactivated;
  }

  lemma RemovalSends(f: Feed, s: Step, id: nat)
    requires Inv(f) && Enabled(f, s) && (s.RemoveUnlocked? || s.SelectRemove?)
    ensures Sends(f, Do(f, s), id, multiset{}, 0)
  {
    hide Inv, DropCase, IndexOf;
    DropSends(f, id, s.id);
  }

  lemma OtherSends(f: Feed, s: Step, id: nat)
    requires Enabled(f, s) && (s.Subscribe? || s.Unsubscribe? || s.TakeLock? || s == TrySend(false) || s.EndFastPath?)
    ensures Sends(f, Do(f, s), id, multiset{}, One(s == Unsubscribe(id)))
  {
    hide IndexOf, RemoveAt;
  }

  lemma StepSends(f: Feed, s: Step, id: nat)
    requires Inv(f) && Enabled(f, s) && !s.Merge?
    ensures Sends(f, Do(f, s), id, Sending(f, s), One(s == Unsubscribe(id)))
  {
    hide Inv, Sends, Deliver, DropCase, RemoveAt, IndexOf;
    match s
    case RemoveUnlocked(_) => RemovalSends(f, s, id);
    case SelectRemove(_) => RemovalSends(f, s, id);
    case SelectSend(k) => DeliverSends(f, k, FIRST_SUB_SEND_CASE, id);
    case TrySend(accepted) =>
      if accepted {
        TryingFromOne(f);
        DeliverSends(f, f.phase.i, f.phase.i, id);
      } else {
        OtherSends(f, s, id);
      }
    case _ => OtherSends(f, s, id);
  }

  lemma TryingFromOne(f: Feed)
    requires Inv(f) && f.phase.Trying?
    ensures 1 <= f.phase.i
  {
  }

  lemma CountFirst(steps: seq<Step>, s: Step)
    requires steps != []
    ensures multiset(steps)[s] == One(steps[0] == s) + multiset(steps[1..])[s]
  {
    assert steps == [steps[0]] + steps[1..];
  }

  lemma {:induction false} RunCounts(f: Feed, steps: seq<Step>, id: nat)
    requires Inv(f) && IsRun(f, steps)
    ensures Counted(f, After(f, steps), id, multiset(steps)[Subscribe(id)], Finished(f, steps, id),
                    multiset(steps)[Unsubscribe(id)])
    decreases steps
  {
    hide Inv, Do, Enabled, Finishes;
    if steps != [] {
      StepKeeps(f, steps[0]);
      StepCounts(f, steps[0], id);
      RunCounts(Do(f, steps[0]), steps[1..], id);
      CountFirst(steps, Subscribe(id));
      CountFirst(steps, Unsubscribe(id));
    }
  }

  lemma {:induction false} RunSends(f: Feed, steps: seq<Step>, id: nat)
    requires Inv(f) && IsRun(f, steps) && Merge !in steps
    ensures Sends(f, After(f, steps), id, Sent(f, steps), multiset(steps)[Unsubscribe(id)])
    decreases steps
  {
    hide Inv, Do, Enabled, Sending;
    if steps != [] {
      assert steps[0] != Merge && Merge !in steps[1..];
      StepKeeps(f, steps[0]);
      StepSends(f, steps[0], id);
      RunSends(Do(f, steps[0]), steps[1..], id);
      CountFirst(steps, Unsubscribe(id));
    }
  }

  /**
   For every run of a new feed: the live subscriptions of a channel are the Subscribe steps for it
   less the removals that are over, and the removals still waiting are the rest of those asked for.
   */
  lemma LiveIsSubscribed(steps: seq<Step>, id: nat)
    requires IsRun(Init(), steps)
    ensures var f, subscribed, asked := After(Init(), steps), multiset(steps)[Subscribe(id)],
                                        multiset(steps)[Unsubscribe(id)];
            && f.live[User(id)] == subscribed - Finished(Init(), steps, id)
            && f.removing[User(id)] == asked - Finished(Init(), steps, id)
            && multiset(f.inbox)[User(id)] + multiset(f.sendCases)[User(id)]
               == subscribed - Finished(Init(), steps, id)
  {
    RunKeeps(Init(), steps);
    RunCounts(Init(), steps, id);
    var f := After(Init(), steps);
    UsersAreCases(f.sendCases, id);
  }

  lemma UsersAreCases(cs: seq<Chan>, id: nat)
    requires Shape(cs)
    ensures Users(cs, |cs|)[User(id)] == multiset(cs)[User(id)]
  {
    assert cs == [cs[0]] + cs[1..|cs|];
  }

  /**
   A whole Send of a feed, told by the steps alone. The value goes to a channel at most once for
   each subscription not over when the Send began, and at least once for each that was not asked
   to be removed by its end; a channel subscribed k times and never unsubscribed gets it k times.
   The number returned is the number of sends.
   */
  lemma SendReaches(before: seq<Step>, between: seq<Step>, id: nat)
    requires IsRun(Init(), before) && Enabled(After(Init(), before), Merge)
    requires IsRun(Do(After(Init(), before), Merge), between) && Merge !in between
    requires var g := After(Do(After(Init(), before), Merge), between);
             Enabled(g, EndFastPath) && Do(g, EndFastPath).phase.Idle?
    ensures var f := Do(After(Init(), before), Merge);
            var sent, subscribed := Sent(f, between)[User(id)], multiset(before)[Subscribe(id)];
            && sent <= subscribed - Finished(Init(), before, id)
            && sent >= subscribed - multiset(before + between)[Unsubscribe(id)]
            && (Unsubscribe(id) !in before + between ==> sent == subscribed)
            && After(f, between).nsent == |Sent(f, between)|
  {
    hide Inv, Enabled, Do;
    var f := After(Init(), before);
    InitInv();
    RunKeeps(Init(), before);
    LiveIsSubscribed(before, id);
    MergeKeeps(f);
    MergeClears(f);
    RunKeeps(Do(f, Merge), between);
    StartedStays(Do(f, Merge), between);
    RunSends(Do(f, Merge), between, id);
    SendDelivers(After(Do(f, Merge), between));
    var g := After(Do(f, Merge), between);
    assert g.delivered[User(id)] + g.dropped[User(id)] == (g.delivered + g.dropped)[User(id)];
    assert multiset(before + between)[Unsubscribe(id)]
        == multiset(before)[Unsubscribe(id)] + multiset(between)[Unsubscribe(id)];
    assert Unsubscribe(id) !in before + between ==> multiset(before + between)[Unsubscribe(id)] == 0;
  }

  lemma InitInv()
    ensures Inv(Init())
  {
  }

  lemma MergeClears(f: Feed)
    requires Enabled(f, Merge)
    ensures var g := Do(f, Merge);
            && g.delivered == multiset{} && g.dropped == multiset{} && g.nsent == 0
            && g.live == f.live && g.removing == f.removing
  {
  }

  /** Every blocking round shortens the cases or the active prefix, so a Send with answering receivers ends. */
  lemma RoundShrinks(f: Feed, s: Step)
    requires Inv(f) && f.phase.Selecting? && Enabled(f, s) && (s.SelectRemove? || s.SelectSend?)
    ensures var g := Do(f, s);
            |g.sendCases| + Active(g) < |f.sendCases| + Active(f)
  {
    if s.SelectRemove? { FindHits(f, s.id); }
  }

  /** However far a Send has got, it can go on, and it ends once its receivers take the value. */
  lemma {:induction false} SendEnds(f: Feed) returns (steps: seq<Step>)
    requires Inv(f) && !f.phase.Idle?
    ensures IsRun(f, steps) && After(f, steps).phase.Idle?
    ensures forall s :: s in steps ==> s == Merge || s == TrySend(true) || s == EndFastPath || s.SelectSend?
    ensures !f.phase.Locked? ==> Merge !in steps
    decreases if f.phase.Locked? then |f.sendCases| + |f.inbox| + 1 else Active(f), f.phase.Trying?
  {
    hide Shape, Accounts, Users;
    var s := if f.phase.Locked? then Merge
             else if f.phase.Selecting? then SelectSend(1)
             else if f.phase.i < f.phase.active then TrySend(true)
             else EndFastPath;
    StepKeeps(f, s);
    var g := Do(f, s);
    var rest: seq<Step> := [];
    if !g.phase.Idle? {
      rest := SendEnds(g);
    }
    steps := [s] + rest;
    assert steps[0] == s && steps[1..] == rest;
  }

  lemma {:induction false} DroppedStays(f: Feed, steps: seq<Step>)
    requires IsRun(f, steps) && forall s :: s in steps ==> !s.Merge? && !s.SelectRemove?
    ensures After(f, steps).dropped == f.dropped
    decreases steps
  {
    if steps != [] {
      assert !steps[0].Merge? && !steps[0].SelectRemove?;
      DroppedStays(Do(f, steps[0]), steps[1..]);
    }
  }

  /** A Send that nobody disturbs and whose receivers all take the value reaches each live subscription exactly once. */
  lemma CompleteSend(f: Feed) returns (steps: seq<Step>)
    requires Inv(f) && f.phase.Idle?
    ensures IsRun(f, [TakeLock, Merge] + steps) && Sent(f, [TakeLock, Merge] + steps) == f.live
    ensures var g := After(f, [TakeLock, Merge] + steps); g.phase.Idle? && g.nsent == |f.live|
  {
    hide Inv, IsRun, After, Sent;
    TakeLockKeeps(f);
    var g := Do(f, TakeLock);
    MergeKeeps(g);
    MergeClears(g);
    var h := Do(g, Merge);
    steps := SendEnds(h);
    StartedStays(h, steps);
    DroppedStays(h, steps);
    RunSends(h, steps, 0);
    RunKeeps(h, steps);
    EndedDelivers(After(h, steps));
    Twofold(f, steps);
  }

  lemma EndedDelivers(f: Feed)
    requires Inv(f) && f.phase.Idle?
    ensures f.delivered + f.dropped == f.started
  {
    assert f.sendCases[1..1] == [];
  }

  lemma Twofold(f: Feed, steps: seq<Step>)
    requires Enabled(f, TakeLock) && Enabled(Do(f, TakeLock), Merge) && IsRun(Do(Do(f, TakeLock), Merge), steps)
    ensures IsRun(f, [TakeLock, Merge] + steps)
    ensures After(f, [TakeLock, Merge] + steps) == After(Do(Do(f, TakeLock), Merge), steps)
    ensures Sent(f, [TakeLock, Merge] + steps) == Sent(Do(Do(f, TakeLock), Merge), steps)
  {
    hide Do, Enabled;
    var all := [TakeLock, Merge] + steps;
    assert all[0] == TakeLock && all[1..][0] == Merge && all[1..][1..] == steps;
    assert IsRun(Do(f, TakeLock), all[1..]);
  }
}
