/**
 core/chain_indexer.go: what the indexer owes to the chain. Notices roll back exactly the sections
 they affect, only sections with enough blocks above them become known, and the stored heads are
 those of the canonical chain on exactly the runs where no head goes stale before its commit.
 */
module IndexerLaws {
  import opened Wrappers
  import opened Chains
  import opened ChainIndexers

  // ---- A notice, from its first step to its last ----

  lemma DivIff(n: nat, h: nat, size: nat)
    requires size > 0
    ensures n <= h / size <==> n * size <= h
  {
    var q := h / size;
    assert q * size <= h < (q + 1) * size;
    if n <= q {
      MulMonotone(n, q, size);
    } else {
      MulMonotone(q + 1, n, size);
    }
  }

  lemma MulMonotone(a: nat, b: nat, k: nat)
    requires a <= b
    ensures a * k <= b * k
  {
  }

  /** A notice for head h that came to x is on its way, or done, at y. */
  ghost predicate Lowering(x: Indexer, h: nat, y: Indexer)
    requires x.size > 0
  {
    && y.size == x.size && y.rollback.Off? && Undisturbed(y, y.notice)
    && y.known == (if h / x.size < x.known then h / x.size else x.known)
    && (if y.notice.Off? then y.stored == (if h / x.size < x.stored then h / x.size else x.stored)
        else y.notice.target == h / x.size < x.stored && y.stored <= x.stored)
    && (forall s: nat :: s in y.heads <==> s < y.stored || Claims(y.notice, s))
    && (forall s: nat :: s in y.heads ==> s in x.heads && y.heads[s] == x.heads[s])
  }

  /** While the notice holds the lock only the chain and the updater's reading go on. */
  predicate Beside(s: Step) {
    s == Advance(Noticer) || s.Rewrite? || s.Read?
  }

  lemma LoweringSame(x: Indexer, h: nat, y: Indexer, z: Indexer)
    requires x.size > 0 && Lowering(x, h, y)
    requires z == y.(canon := z.canon, updater := z.updater)
    ensures Lowering(x, h, z)
  {
  }

  /** Testing and reading the count change nothing else. */
  lemma LoweringLooks(x: Indexer, h: nat, y: Indexer)
    requires x.size > 0 && Lowering(x, h, y) && (y.notice.Testing? || y.notice.Loading? || y.notice.Reading?)
    ensures Lowering(x, h, AdvanceOne(y, Noticer))
  {
    var z := AdvanceOne(y, Noticer);
    assert forall s: nat :: Claims(z.notice, s) == Claims(y.notice, s);
  }

  lemma LoweringStores(x: Indexer, h: nat, y: Indexer)
    requires x.size > 0 && Lowering(x, h, y) && y.notice.Storing?
    ensures Lowering(x, h, AdvanceOne(y, Noticer))
  {
    var z := AdvanceOne(y, Noticer);
    assert forall s: nat :: s < y.stored <==> s < z.stored || Claims(z.notice, s);
  }

  lemma LoweringRemoves(x: Indexer, h: nat, y: Indexer)
    requires x.size > 0 && Lowering(x, h, y) && y.notice.Removing?
    ensures Lowering(x, h, AdvanceOne(y, Noticer))
  {
    var z := AdvanceOne(y, Noticer);
    assert forall s: nat :: s in z.heads <==> s in y.heads && s != y.notice.key;
  }

  lemma LoweringAssigns(x: Indexer, h: nat, y: Indexer)
    requires x.size > 0 && Lowering(x, h, y) && y.notice.Assigning?
    ensures Lowering(x, h, AdvanceOne(y, Noticer))
  {
  }

  lemma LoweringGoesOn(x: Indexer, h: nat, y: Indexer, s: Step)
    requires x.size > 0 && y.size == x.size && Lowering(x, h, y) && Enabled(y, s) && Beside(s)
    ensures Lowering(x, h, Do(y, s))
  {
    hide Lowering, AdvanceOne, ReadOne;
    if s.Advance? {
      match y.notice
      case Storing(_, _) => LoweringStores(x, h, y);
      case Removing(_, _, _) => LoweringRemoves(x, h, y);
      case Assigning(_) => LoweringAssigns(x, h, y);
      case _ => LoweringLooks(x, h, y);
    } else {
      LoweringSame(x, h, y, Do(y, s));
    }
  }

  lemma {:induction false} LoweringLasts(x: Indexer, h: nat, y: Indexer, steps: seq<Step>)
    requires x.size > 0 && y.size == x.size && Lowering(x, h, y)
    requires IsRun(y, steps) && forall s :: s in steps ==> Beside(s)
    ensures Lowering(x, h, After(y, steps))
    decreases steps
  {
    hide Lowering;
    if steps != [] {
      assert steps[0] in steps && forall s :: s in steps[1..] ==> s in steps;
      LoweringGoesOn(x, h, y, steps[0]);
      LoweringLasts(x, h, Do(y, steps[0]), steps[1..]);
    }
  }

  /**
   A notice of a reorganisation down to block h, from rest to rest: a section stays known, counted
   and stored exactly if it was and all its blocks lie below h.
   */
  lemma NoticeRollsBack(x: Indexer, h: nat, steps: seq<Step>, n: nat)
    requires x.size > 0 && Inv(x) && AtRest(x) && IsRun(x, [ReorgNotice(h)] + steps)
    requires forall s :: s in steps ==> Beside(s)
    requires After(x, [ReorgNotice(h)] + steps).notice.Off?
    ensures var y := After(x, [ReorgNotice(h)] + steps);
            && (n <= y.known <==> n <= x.known && n * x.size <= h)
            && (n <= y.stored <==> n <= x.stored && n * x.size <= h)
            && (n in y.heads <==> n in x.heads && (n + 1) * x.size <= h)
            && (n in y.heads ==> y.heads[n] == x.heads[n])
  {
    hide Inv, Lowering;
    var first := Do(x, ReorgNotice(h));
    assert ([ReorgNotice(h)] + steps)[1..] == steps;
    LoweringStarts(x, h);
    LoweringLasts(x, h, first, steps);
    LoweringEnds(x, h, After(first, steps), n);
  }

  lemma LoweringStarts(x: Indexer, h: nat)
    requires x.size > 0 && Inv(x) && AtRest(x)
    ensures Lowering(x, h, Do(x, ReorgNotice(h)))
  {
    hide Back;
    RestIsExact(x);
  }

  lemma LoweringEnds(x: Indexer, h: nat, y: Indexer, n: nat)
    requires x.size > 0 && Inv(x) && AtRest(x) && Lowering(x, h, y) && y.notice.Off?
    ensures n <= y.known <==> n <= x.known && n * x.size <= h
    ensures n <= y.stored <==> n <= x.stored && n * x.size <= h
    ensures n in y.heads <==> n in x.heads && (n + 1) * x.size <= h
    ensures n in y.heads ==> y.heads[n] == x.heads[n]
  {
    hide Inv;
    RestIsExact(x);
    DivIff(n, h, x.size);
    DivIff(n + 1, h, x.size);
  }

  function Rank(w: Worker): nat {
    match w
    case Reading(_, _) => 6
    case Removing(_, _, _) => 5
    case Testing(_) => 4
    case Loading(_) => 3
    case Storing(_, _) => 2
    case Assigning(_) => 1
    case Off => 0
  }

  /** Left alone, the notice comes to its end. */
  lemma {:induction false} NoticeEnds(x: Indexer, h: nat, y: Indexer) returns (steps: seq<Step>)
    requires x.size > 0 && y.size == x.size && Lowering(x, h, y)
    ensures IsRun(y, steps) && After(y, steps).notice.Off? && forall s :: s in steps ==> s == Advance(Noticer)
    decreases y.stored, Rank(y.notice)
  {
    steps := [];
    if !y.notice.Off? {
      LoweringGoesOn(x, h, y, Advance(Noticer));
      var rest := NoticeEnds(x, h, Do(y, Advance(Noticer)));
      steps := [Advance(Noticer)] + rest;
      assert steps[0] == Advance(Noticer) && steps[1..] == rest;
    }
  }

  // ---- Which sections become known ----

  /** A new head makes exactly the sections known whose last block has enough blocks above it. */
  lemma NewHeadCovers(x: Indexer, head: nat, n: nat)
    requires x.size > 0 && Enabled(x, NewHead(head))
    ensures n <= Do(x, NewHead(head)).known <==> n <= x.known || n * x.size + x.confirms <= head + 1
    ensures Do(x, NewHead(head)) == x.(known := Do(x, NewHead(head)).known)
  {
    if head >= x.confirms {
      DivIff(n, head + 1 - x.confirms, x.size);
    } else if n > 0 {
      MulMonotone(1, n, x.size);
    }
  }

  function Announced(steps: seq<Step>): set<nat> {
    set i | 0 <= i < |steps| && steps[i].NewHead? :: steps[i].head
  }

  /** Every block of the first n sections had its confirmations at one of the announced heads. */
  ghost predicate Confirmed(n: nat, size: nat, confirms: nat, heads: set<nat>) {
    n == 0 || exists head :: head in heads && n * size - 1 + confirms <= head
  }

  lemma ConfirmedLess(n: nat, m: nat, size: nat, confirms: nat, heads: set<nat>, more: set<nat>)
    requires Confirmed(n, size, confirms, heads) && m <= n && heads <= more
    ensures Confirmed(m, size, confirms, more)
  {
    if m > 0 {
      var head :| head in heads && n * size - 1 + confirms <= head;
      MulMonotone(m, n, size);
      assert head in more;
    }
  }

  lemma ConfirmedNow(n: nat, size: nat, confirms: nat, head: nat, heads: set<nat>)
    requires head in heads && n * size + confirms <= head + 1
    ensures Confirmed(n, size, confirms, heads)
  {
  }

  /** Of known sections, stored ones and the one being processed, none is unconfirmed. */
  ghost predicate AllConfirmed(x: Indexer, heads: set<nat>) {
    && Confirmed(x.known, x.size, x.confirms, heads) && Confirmed(x.stored, x.size, x.confirms, heads)
    && (!x.updater.Waiting? ==> Confirmed(x.updater.section + 1, x.size, x.confirms, heads))
  }

  function HeardIn(s: Step): set<nat> {
    if s.NewHead? then {s.head} else {}
  }

  lemma NewHeadConfirmed(x: Indexer, heads: set<nat>, head: nat)
    requires x.size > 0 && Enabled(x, NewHead(head)) && AllConfirmed(x, heads)
    ensures AllConfirmed(Do(x, NewHead(head)), heads + {head})
  {
    hide Confirmed;
    var y := Do(x, NewHead(head));
    NewHeadCovers(x, head, y.known);
    if y.known <= x.known {
      ConfirmedLess(x.known, y.known, x.size, x.confirms, heads, heads + {head});
    } else {
      ConfirmedNow(y.known, x.size, x.confirms, head, heads + {head});
    }
    ConfirmedLess(x.stored, x.stored, x.size, x.confirms, heads, heads + {head});
    if !x.updater.Waiting? {
      ConfirmedLess(x.updater.section + 1, x.updater.section + 1, x.size, x.confirms, heads, heads + {head});
    }
  }

  lemma AdvanceConfirmed(x: Indexer, heads: set<nat>, who: Who)
    requires x.size > 0 && Enabled(x, Advance(who)) && AllConfirmed(x, heads)
    requires Alone(x) && (x.notice.Off? || x.rollback.Off?)
    ensures AllConfirmed(Do(x, Advance(who)), heads)
  {
    hide Confirmed, Alone;
    AloneStays(x, Advance(who));
    var y := Do(x, Advance(who));
    assert y.stored <= x.stored by {
      AdvanceLowers(x, who);
    }
    ConfirmedLess(x.stored, y.stored, x.size, x.confirms, heads, heads);
  }

  lemma AdvanceLowers(x: Indexer, who: Who)
    requires x.size > 0 && Enabled(x, Advance(who)) && Alone(x)
    ensures Do(x, Advance(who)).stored <= x.stored
  {
  }

  lemma StepConfirmed(x: Indexer, heads: set<nat>, s: Step)
    requires x.size > 0 && Enabled(x, s) && AllConfirmed(x, heads)
    requires Alone(x) && (x.notice.Off? || x.rollback.Off?)
    ensures AllConfirmed(Do(x, s), heads + HeardIn(s))
  {
    hide Confirmed, Alone, FirstOf, AdvanceOne;
    assert !s.NewHead? ==> heads + HeardIn(s) == heads;
    match s
    case NewHead(head) => NewHeadConfirmed(x, heads, head);
    case Advance(who) => AdvanceConfirmed(x, heads, who);
    case ReorgNotice(head) => ConfirmedLess(x.known, Do(x, s).known, x.size, x.confirms, heads, heads);
    case Start(_) => ConfirmedLess(x.known, x.stored + 1, x.size, x.confirms, heads, heads);
    case _ =>
  }

  lemma {:induction false} RunConfirmed(x: Indexer, heads: set<nat>, steps: seq<Step>)
    requires x.size > 0 && Alone(x) && AllConfirmed(x, heads) && IsRun(x, steps) && NeverOverlap(x, steps)
    ensures AllConfirmed(After(x, steps), heads + Announced(steps))
    decreases steps
  {
    hide Alone, AllConfirmed;
    if steps == [] {
      assert heads + Announced(steps) == heads;
    } else {
      AloneStays(x, steps[0]);
      StepConfirmed(x, heads, steps[0]);
      RunConfirmed(Do(x, steps[0]), heads + HeardIn(steps[0]), steps[1..]);
      AnnouncedFirst(steps);
      assert heads + HeardIn(steps[0]) + Announced(steps[1..]) == heads + Announced(steps);
    }
  }

  lemma AnnouncedFirst(steps: seq<Step>)
    requires steps != []
    ensures Announced(steps) == HeardIn(steps[0]) + Announced(steps[1..])
  {
    assert steps == [steps[0]] + steps[1..];
    forall h | h in Announced(steps) ensures h in HeardIn(steps[0]) + Announced(steps[1..]) {
      var i :| 0 <= i < |steps| && steps[i].NewHead? && steps[i].head == h;
      assert i > 0 ==> steps[1..][i - 1] == steps[i];
    }
    forall h | h in Announced(steps[1..]) ensures h in Announced(steps) {
      var i :| 0 <= i < |steps[1..]| && steps[1..][i].NewHead? && steps[1..][i].head == h;
      assert steps[i + 1] == steps[1..][i];
    }
  }

  /** After every run without overlap, each block of a known or stored section was announced with its confirmations. */
  lemma EveryRunConfirmed(size: nat, confirms: nat, steps: seq<Step>)
    requires size > 0 && IsRun(Init(size, confirms), steps) && NeverOverlap(Init(size, confirms), steps)
    ensures var x := After(Init(size, confirms), steps);
            && (x.known > 0 ==> exists head :: NewHead(head) in steps && x.known * size - 1 + confirms <= head)
            && (x.stored > 0 ==> exists head :: NewHead(head) in steps && x.stored * size - 1 + confirms <= head)
  {
    hide Confirmed;
    var x := After(Init(size, confirms), steps);
    NothingConfirmed(size, confirms);
    RunConfirmed(Init(size, confirms), {}, steps);
    SameSettings(Init(size, confirms), steps);
    assert {} + Announced(steps) == Announced(steps);
    if x.known > 0 {
      ConfirmedBy(x.known, size, confirms, steps);
    }
    if x.stored > 0 {
      ConfirmedBy(x.stored, size, confirms, steps);
    }
  }

  lemma NothingConfirmed(size: nat, confirms: nat)
    ensures AllConfirmed(Init(size, confirms), {})
  {
  }

  lemma ConfirmedBy(n: nat, size: nat, confirms: nat, steps: seq<Step>)
    requires n > 0 && Confirmed(n, size, confirms, Announced(steps))
    ensures exists head :: NewHead(head) in steps && n * size - 1 + confirms <= head
  {
    var head :| head in Announced(steps) && n * size - 1 + confirms <= head;
    assert NewHead(head) in steps;
  }

  lemma {:induction false} SameSettings(x: Indexer, steps: seq<Step>)
    requires x.size > 0 && IsRun(x, steps)
    ensures After(x, steps).confirms == x.confirms
    decreases steps
  {
    hide FirstOf;
    if steps != [] {
      SameSettings(Do(x, steps[0]), steps[1..]);
    }
  }

  // ---- What is stored, and what stops the updater ----

  /** A read yields the section's head exactly if it is of the last block, continues the one before and is committed. */
  lemma ReadYields(x: Indexer, found: bool, committed: bool, b: Block)
    requires x.size > 0 && Inv(x) && x.updater.Processing?
    ensures var u, v := x.updater, Do(x, Read(found, committed)).updater;
            && (v.Finished? && v.result == Some(b) <==>
                && u.number == (u.section + 1) * x.size - 1 && found && committed
                && u.number in x.canon && x.canon[u.number] == b
                && (if b.Child? then u.lastHead == Some(b.parent) else u.lastHead.None?))
            && (v.Processing? ==>
                && u.number + 1 < (u.section + 1) * x.size && found && u.number in x.canon
                && v == u.(number := u.number + 1, lastHead := Some(x.canon[u.number])))
  {
    hide Back, HeadsOwned, Linked;
    assert FirstOf(x.updater.section + 1, x.size) == (x.updater.section + 1) * x.size;
  }

  /** A commit stores one section more, or gives up everything known that is not stored. */
  lemma CommitStores(x: Indexer)
    requires x.size > 0 && Inv(x) && Enabled(x, Commit)
    ensures var u, y := x.updater, Do(x, Commit);
            if u.result.Some? && u.section == x.stored then
              y == x.(updater := Waiting, stored := x.stored + 1, heads := x.heads[x.stored := u.result.value])
            else y == x.(updater := Waiting, known := x.stored)
  {
    hide Back, FirstOf, Linked;
    var u, y := x.updater, Do(x, Commit);
    if u.result.Some? && u.oldHead == HeadBefore(x, u.section) {
      assert y.heads == x.heads[u.section := u.result.value];
    }
  }

  // ---- The heads and the canonical chain ----

  /** The numbers whose block a rewrite replaces or takes away. */
  function Changed(before: map<nat, Block>, after: map<nat, Block>): set<nat> {
    set n | n in before && (n !in after || after[n] != before[n])
  }

  /** The changed numbers the indexer has not been told of: a notice for head h tells of all above h. */
  function Untold(x: Indexer, s: Step, owed: set<nat>): set<nat> {
    match s
    case Rewrite(canon) => owed + Changed(x.canon, canon)
    case ReorgNotice(h) => set n | n in owed && n <= h
    case _ => owed
  }

  ghost predicate IsCanonical(x: Indexer, s: nat, b: Block)
    requires x.size > 0
  {
    (s + 1) * x.size - 1 in x.canon && x.canon[(s + 1) * x.size - 1] == b
  }

  /** A stored section's head is its last canonical block, unless that changed untold or is being rolled back. */
  ghost predicate CanonicalAt(x: Indexer, owed: set<nat>, s: nat)
    requires x.size > 0
  {
    s < x.stored && s in x.heads && (x.notice.Off? || s < x.notice.target) && (s + 1) * x.size - 1 !in owed ==>
      IsCanonical(x, s, x.heads[s])
  }

  ghost predicate Canonical(x: Indexer, owed: set<nat>)
    requires x.size > 0
  {
    forall s: nat :: CanonicalAt(x, owed, s)
  }

  /** A commit about to store a head that is no longer canonical, with nothing more to be told of it. */
  ghost predicate Stray(x: Indexer, s: Step, owed: set<nat>)
    requires x.size > 0
  {
    && s == Commit && x.updater.Finished? && x.updater.result.Some?
    && x.updater.oldHead == HeadBefore(x, x.updater.section)
    && (x.updater.section + 1) * x.size - 1 !in owed
    && !IsCanonical(x, x.updater.section, x.updater.result.value)
  }

  lemma RewriteKeepsCanon(x: Indexer, canon: map<nat, Block>, owed: set<nat>)
    requires x.size > 0 && Canonical(x, owed)
    ensures Canonical(Do(x, Rewrite(canon)), Untold(x, Rewrite(canon), owed))
  {
    var y := Do(x, Rewrite(canon));
    forall s: nat ensures CanonicalAt(y, Untold(x, Rewrite(canon), owed), s) {
      assert CanonicalAt(x, owed, s);
    }
  }

  lemma NoticeKeepsCanon(x: Indexer, h: nat, owed: set<nat>)
    requires x.size > 0 && Enabled(x, ReorgNotice(h)) && Canonical(x, owed)
    ensures Canonical(Do(x, ReorgNotice(h)), Untold(x, ReorgNotice(h), owed))
  {
    var y := Do(x, ReorgNotice(h));
    forall s: nat ensures CanonicalAt(y, Untold(x, ReorgNotice(h), owed), s) {
      assert CanonicalAt(x, owed, s);
      DivIff(s + 1, h, x.size);
    }
  }

  lemma AdvanceKeepsCanon(x: Indexer, who: Who, owed: set<nat>)
    requires x.size > 0 && Enabled(x, Advance(who)) && Canonical(x, owed)
    requires Alone(x) && (x.notice.Off? || x.rollback.Off?)
    ensures Canonical(Do(x, Advance(who)), owed)
  {
    hide IsCanonical;
    var y := Do(x, Advance(who));
    assert y.stored <= x.stored;
    SameCanon(x, y);
    forall s: nat ensures CanonicalAt(y, owed, s) {
      assert CanonicalAt(x, owed, s);
    }
  }

  lemma SameCanon(x: Indexer, y: Indexer)
    requires x.size > 0 && y.size == x.size && y.canon == x.canon
    ensures forall s: nat, b :: IsCanonical(y, s, b) == IsCanonical(x, s, b)
  {
  }

  /** A commit keeps the heads canonical exactly if the one it stores is. */
  lemma CommitKeepsCanonIff(x: Indexer, owed: set<nat>)
    requires x.size > 0 && Inv(x) && Enabled(x, Commit) && Canonical(x, owed)
    ensures Canonical(Do(x, Commit), owed) <==> !Stray(x, Commit, owed)
  {
    hide Back, FirstOf, IsCanonical, Linked;
    var u, y := x.updater, Do(x, Commit);
    SameCanon(x, y);
    if u.result.Some? && u.oldHead == HeadBefore(x, u.section) {
      assert x.stored == u.section && y.heads == x.heads[u.section := u.result.value];
      if Stray(x, Commit, owed) {
        assert !CanonicalAt(y, owed, u.section);
      } else {
        forall s: nat ensures CanonicalAt(y, owed, s) {
          assert CanonicalAt(x, owed, s);
        }
      }
    } else {
      forall s: nat ensures CanonicalAt(y, owed, s) {
        assert CanonicalAt(x, owed, s);
      }
    }
  }

  lemma OtherKeepsCanon(x: Indexer, s: Step, owed: set<nat>)
    requires x.size > 0 && Enabled(x, s) && (s.NewHead? || s.Start? || s.Read?) && Canonical(x, owed)
    ensures Canonical(Do(x, s), owed)
  {
    hide FirstOf, ReadOne, IsCanonical;
    var y := Do(x, s);
    SameCanon(x, y);
    forall k: nat ensures CanonicalAt(y, owed, k) {
      assert CanonicalAt(x, owed, k);
    }
  }

  lemma StepKeepsCanonIff(x: Indexer, s: Step, owed: set<nat>)
    requires x.size > 0 && Inv(x) && Alone(x) && (x.notice.Off? || x.rollback.Off?)
    requires Enabled(x, s) && Canonical(x, owed)
    ensures Canonical(Do(x, s), Untold(x, s, owed)) <==> !Stray(x, s, owed)
  {
    hide Inv, Alone, Canonical, Do, Enabled;
    match s
    case Rewrite(canon) => RewriteKeepsCanon(x, canon, owed);
    case ReorgNotice(h) => NoticeKeepsCanon(x, h, owed);
    case Advance(who) => AdvanceKeepsCanon(x, who, owed);
    case Commit => CommitKeepsCanonIff(x, owed);
    case NewHead(_) => OtherKeepsCanon(x, s, owed);
    case Start(_) => OtherKeepsCanon(x, s, owed);
    case Read(_, _) => OtherKeepsCanon(x, s, owed);
  }

  ghost predicate CanonicalThroughout(x: Indexer, steps: seq<Step>, owed: set<nat>)
    requires x.size > 0 && IsRun(x, steps)
    decreases steps
  {
    Canonical(x, owed) && (steps != [] ==> CanonicalThroughout(Do(x, steps[0]), steps[1..], Untold(x, steps[0], owed)))
  }

  ghost predicate NeverStray(x: Indexer, steps: seq<Step>, owed: set<nat>)
    requires x.size > 0 && IsRun(x, steps)
    decreases steps
  {
    steps != [] ==> !Stray(x, steps[0], owed) && NeverStray(Do(x, steps[0]), steps[1..], Untold(x, steps[0], owed))
  }

  /** What is still untold after a run. */
  ghost function UntoldAfter(x: Indexer, steps: seq<Step>, owed: set<nat>): set<nat>
    requires x.size > 0 && IsRun(x, steps)
    decreases steps
  {
    if steps == [] then owed else UntoldAfter(Do(x, steps[0]), steps[1..], Untold(x, steps[0], owed))
  }

  /**
   Without overlap, told and unchanged sections have their canonical heads all along a run, if and
   only if no commit stores a head that has ceased to be canonical since it was read.
   */
  lemma {:induction false} CanonicalIff(x: Indexer, steps: seq<Step>, owed: set<nat>)
    requires x.size > 0 && Inv(x) && Alone(x) && Canonical(x, owed) && IsRun(x, steps) && NeverOverlap(x, steps)
    ensures CanonicalThroughout(x, steps, owed) <==> NeverStray(x, steps, owed)
    decreases steps
  {
    hide Inv, Alone, Canonical, Stray, Stale;
    if steps != [] {
      AloneStays(x, steps[0]);
      StepKeepsIff(x, steps[0]);
      StepKeepsCanonIff(x, steps[0], owed);
      if !Stray(x, steps[0], owed) {
        CanonicalIff(Do(x, steps[0]), steps[1..], Untold(x, steps[0], owed));
      }
    }
  }

  lemma {:induction false} CanonicalEnd(x: Indexer, steps: seq<Step>, owed: set<nat>)
    requires x.size > 0 && IsRun(x, steps) && CanonicalThroughout(x, steps, owed)
    ensures Canonical(After(x, steps), UntoldAfter(x, steps, owed))
    decreases steps
  {
    hide Canonical;
    if steps != [] {
      CanonicalEnd(Do(x, steps[0]), steps[1..], Untold(x, steps[0], owed));
    }
  }

  lemma NewIsFine(size: nat, confirms: nat)
    requires size > 0
    ensures Inv(Init(size, confirms)) && Alone(Init(size, confirms)) && Canonical(Init(size, confirms), {})
  {
  }

  /**
   From a new indexer on, without overlap and stray commits: at rest, with every change told, each
   stored section's head is the canonical block that ends it.
   */
  lemma EndsCanonical(size: nat, confirms: nat, steps: seq<Step>, s: nat)
    requires size > 0 && IsRun(Init(size, confirms), steps) && NeverOverlap(Init(size, confirms), steps)
    requires NeverStray(Init(size, confirms), steps, {}) && UntoldAfter(Init(size, confirms), steps, {}) == {}
    requires AtRest(After(Init(size, confirms), steps)) && s < After(Init(size, confirms), steps).stored
    ensures var x := After(Init(size, confirms), steps);
            s in x.heads && (s + 1) * size - 1 in x.canon && x.heads[s] == x.canon[(s + 1) * size - 1]
  {
    hide Inv, Alone, IsRun, After, NeverStray, NeverOverlap, UntoldAfter, CanonicalThroughout, Throughout, Canonical;
    NewIsFine(size, confirms);
    EveryRun(size, confirms, steps);
    CanonicalIff(Init(size, confirms), steps, {});
    CanonicalEnd(Init(size, confirms), steps, {});
    CanonicalRest(After(Init(size, confirms), steps), s);
  }

  lemma CanonicalRest(x: Indexer, s: nat)
    requires x.size > 0 && Inv(x) && AtRest(x) && Canonical(x, {}) && s < x.stored
    ensures s in x.heads && (s + 1) * x.size - 1 in x.canon && x.heads[s] == x.canon[(s + 1) * x.size - 1]
  {
    hide Inv;
    RestIsExact(x);
    assert CanonicalAt(x, {}, s);
  }

  // ---- When no commit strays ----

  /** The head read for the section being processed is still canonical. */
  ghost predicate StillCanonical(x: Indexer)
    requires x.size > 0
  {
    x.updater.Finished? && x.updater.result.Some? ==> IsCanonical(x, x.updater.section, x.updater.result.value)
  }

  /** A rewrite of the block that ends a section already read. */
  ghost predicate Overtakes(x: Indexer, s: Step) {
    && s.Rewrite? && x.updater.Finished? && x.updater.result.Some?
    && (x.updater.section + 1) * x.size - 1 in Changed(x.canon, s.canon)
  }

  lemma ReadsCanonical(x: Indexer, found: bool, committed: bool)
    requires x.size > 0 && Inv(x) && x.updater.Processing?
    ensures StillCanonical(Do(x, Read(found, committed)))
  {
    hide Back, HeadsOwned, Linked;
    assert FirstOf(x.updater.section + 1, x.size) == (x.updater.section + 1) * x.size;
  }

  lemma StepStays(x: Indexer, s: Step)
    requires x.size > 0 && Inv(x) && Enabled(x, s) && StillCanonical(x) && !Overtakes(x, s)
    ensures StillCanonical(Do(x, s))
  {
    hide Inv, ReadOne, FirstOf;
    if s.Read? {
      ReadsCanonical(x, s.found, s.committed);
    }
  }

  ghost predicate NeverOvertaken(x: Indexer, steps: seq<Step>)
    requires x.size > 0 && IsRun(x, steps)
    decreases steps
  {
    steps != [] ==> !Overtakes(x, steps[0]) && NeverOvertaken(Do(x, steps[0]), steps[1..])
  }

  /** While no reorganisation overtakes a section between its last read and its commit, no commit strays. */
  lemma {:induction false} NeverOvertakenNeverStray(x: Indexer, steps: seq<Step>, owed: set<nat>)
    requires x.size > 0 && Inv(x) && Alone(x) && StillCanonical(x) && IsRun(x, steps) && NeverOverlap(x, steps)
    requires NeverOvertaken(x, steps)
    ensures NeverStray(x, steps, owed)
    decreases steps
  {
    hide Inv, Alone, Overtakes, Stale, IsCanonical;
    if steps != [] {
      AloneStays(x, steps[0]);
      StepKeepsIff(x, steps[0]);
      StepStays(x, steps[0]);
      NeverOvertakenNeverStray(Do(x, steps[0]), steps[1..], Untold(x, steps[0], owed));
    }
  }

  // ---- A run on which one does ----

  /** The steps lead from x to y without overlap, leaving so much untold. */
  ghost predicate Leads(x: Indexer, steps: seq<Step>, owed: set<nat>, y: Indexer, left: set<nat>) {
    && x.size > 0 && IsRun(x, steps) && After(x, steps) == y
    && UntoldAfter(x, steps, owed) == left && NeverOverlap(x, steps)
  }

  lemma LeadsNowhere(x: Indexer, owed: set<nat>)
    requires x.size > 0 && AtRest(x)
    ensures Leads(x, [], owed, x, owed)
  {
  }

  lemma SizeStays(x: Indexer, s: Step)
    requires x.size > 0 && Enabled(x, s)
    ensures Do(x, s).size == x.size
  {
    Once(x, s);
  }

  lemma {:induction false} LeadsOn(x: Indexer, steps: seq<Step>, owed: set<nat>, y: Indexer, left: set<nat>, s: Step)
    requires Leads(x, steps, owed, y, left) && y.size > 0 && Enabled(y, s)
    requires Do(y, s).notice.Off? || Do(y, s).rollback.Off?
    ensures Leads(x, steps + [s], owed, Do(y, s), Untold(y, s, left))
    decreases steps
  {
    hide Do, Enabled, Untold;
    SizeStays(y, s);
    if steps == [] {
      var z := Do(y, s);
      assert [s][0] == s && [s][1..] == [] && steps + [s] == [s];
      assert IsRun(z, []) && NeverOverlap(z, []) && UntoldAfter(z, [], Untold(y, s, owed)) == Untold(y, s, owed);
      Once(y, s);
    } else {
      LeadsOn(Do(x, steps[0]), steps[1..], Untold(x, steps[0], owed), y, left, s);
      assert (steps + [s])[1..] == steps[1..] + [s];
    }
  }

  /** With sections of two blocks, three steps read the next one. */
  lemma ReadSection(x: Indexer, y: Indexer, steps: seq<Step>, b: Block, c: Block) returns (more: seq<Step>)
    requires Leads(x, steps, {}, y, {}) && y.size == 2 && AtRest(y) && y.updater.Waiting? && y.known > y.stored
    requires 2 * y.stored in y.canon && y.canon[2 * y.stored] == b && ParentOf(b) == HeadBefore(y, y.stored)
    requires 2 * y.stored + 1 in y.canon && y.canon[2 * y.stored + 1] == c && ParentOf(c) == Some(b)
    ensures Leads(x, more, {}, y.(updater := Finished(y.stored, HeadBefore(y, y.stored), Some(c))), {})
  {
    hide Leads;
    more := steps + [Start(true)];
    LeadsOn(x, steps, {}, y, {}, Start(true));
    var y1 := Do(y, Start(true));
    LeadsOn(x, more, {}, y1, {}, Read(true, true));
    var y2 := Do(y1, Read(true, true));
    assert y2.updater == Processing(y.stored, HeadBefore(y, y.stored), 2 * y.stored + 1, Some(b));
    more := more + [Read(true, true)];
    LeadsOn(x, more, {}, y2, {}, Read(true, true));
    more := more + [Read(true, true)];
  }

  /** Two sections' worth of blocks, and another block for the last one. */
  function Trunk(): map<nat, Block> {
    map[0 := Root(0, 0), 1 := Child(Root(0, 0), 0, [], 0), 2 := Child(Child(Root(0, 0), 0, [], 0), 0, [], 0)]
  }

  function Tip(salt: nat): Block {
    Child(Trunk()[2], 0, [], salt)
  }

  /**
   Sections of two blocks. The second is read when its last block is replaced. The notice is for the
   block before, so no stored section is rolled back and the commit finds its predecessor in place:
   at rest, with every change told, the head stored is off the canonical chain.
   */
  lemma StrayCommit() returns (steps: seq<Step>)
    ensures IsRun(Init(2, 0), steps) && NeverOverlap(Init(2, 0), steps)
    ensures UntoldAfter(Init(2, 0), steps, {}) == {}
    ensures var x := After(Init(2, 0), steps);
            AtRest(x) && HeadsExact(x) && x.stored == 2 && 3 in x.canon && x.heads[1] != x.canon[3]
  {
    var x, y := Init(2, 0), Init(2, 0);
    y, steps := FirstSection();
    steps := ReadSection(x, y, steps, Trunk()[2], Tip(0));
    y := y.(updater := Finished(1, Some(Trunk()[1]), Some(Tip(0))));
    steps := Overtaken(x, y, steps);
  }

  lemma FirstSection() returns (y: Indexer, steps: seq<Step>)
    ensures y == Indexer(2, 0, map[0 := Trunk()[1]], 1, 2, Trunk()[3 := Tip(0)], Waiting, Off, Off)
    ensures Leads(Init(2, 0), steps, {}, y, {})
  {
    hide Leads;
    var x := Init(2, 0);
    LeadsNowhere(x, {});
    LeadsOn(x, [], {}, x, {}, Rewrite(Trunk()[3 := Tip(0)]));
    y, steps := Do(x, Rewrite(Trunk()[3 := Tip(0)])), [] + [Rewrite(Trunk()[3 := Tip(0)])];
    assert Untold(x, Rewrite(Trunk()[3 := Tip(0)]), {}) == {};
    LeadsOn(x, steps, {}, y, {}, NewHead(3));
    y, steps := Do(y, NewHead(3)), steps + [NewHead(3)];
    steps := ReadSection(x, y, steps, Trunk()[0], Trunk()[1]);
    y := y.(updater := Finished(0, None, Some(Trunk()[1])));
    LeadsOn(x, steps, {}, y, {}, Commit);
    y, steps := Do(y, Commit), steps + [Commit];
  }

  lemma Overtaken(x: Indexer, y: Indexer, steps: seq<Step>) returns (more: seq<Step>)
    requires y == Indexer(2, 0, map[0 := Trunk()[1]], 1, 2, Trunk()[3 := Tip(0)],
                          Finished(1, Some(Trunk()[1]), Some(Tip(0))), Off, Off)
    requires Leads(x, steps, {}, y, {})
    ensures Leads(x, more, {}, Indexer(2, 0, map[0 := Trunk()[1], 1 := Tip(0)], 2, 1, Trunk()[3 := Tip(1)],
                                       Waiting, Off, Off), {})
  {
    hide Leads;
    var rewrite := Rewrite(Trunk()[3 := Tip(1)]);
    LeadsOn(x, steps, {}, y, {}, rewrite);
    var y1, owed := Do(y, rewrite), Untold(y, rewrite, {});
    more := steps + [rewrite];
    assert owed == {3};
    LeadsOn(x, more, {}, y1, owed, ReorgNotice(2));
    assert Untold(y1, ReorgNotice(2), owed) == {};
    var y2 := Do(y1, ReorgNotice(2));
    more := more + [ReorgNotice(2)];
    LeadsOn(x, more, {}, y2, {}, Commit);
    more := more + [Commit];
    assert Do(y2, Commit).heads == map[0 := Trunk()[1], 1 := Tip(0)];
  }
}
