/** What becomes of readers, requests and replies in the runs of `Sessions`. */
module SessionFates {
  import opened Wrappers
  import opened JsonRpc
  import opened Sessions

  lemma RunSnoc(digest: seq<Reply> -> string, events: seq<Event>, e: Event)
    ensures Run(digest, events + [e]) == Step(digest, Run(digest, events), e)
  {
    assert (events + [e])[..|events|] == events;
  }

  // ---- when a reader dies ----

  predicate HoldsFor(s: State, b: nat, c: nat) {
    b < |s.readers| && s.readers[b].Holding? && s.readers[b].chan == c
  }

  predicate IsDead(s: State, b: nat) {
    b < |s.readers| && s.readers[b].Dead?
  }

  /** At event k reader b sends what it holds on channel c, which is closed. */
  predicate SendsClosed(digest: seq<Reply> -> string, events: seq<Event>, b: nat, c: nat, k: nat) {
    k < |events| && events[k] == Send(b) && HoldsFor(Run(digest, events[..k]), b, c) && Closed(Run(digest, events[..k]), c)
  }

  lemma SendsClosedLater(digest: seq<Reply> -> string, before: seq<Event>, e: Event, b: nat, c: nat, k: nat)
    ensures SendsClosed(digest, before + [e], b, c, k) <==>
      SendsClosed(digest, before, b, c, k) || (k == |before| && e == Send(b) && HoldsFor(Run(digest, before), b, c) && Closed(Run(digest, before), c))
  {
    var events := before + [e];
    assert k <= |before| ==> events[..k] == before[..k];
    assert before[..|before|] == before;
  }

  lemma StepKills(digest: seq<Reply> -> string, s: State, e: Event, b: nat)
    ensures IsDead(Step(digest, s, e), b) <==>
      IsDead(s, b) || (e == Send(b) && b < |s.readers| && s.readers[b].Holding? && Closed(s, s.readers[b].chan))
  {
  }

  /** A reader is dead exactly when it once sent on a closed channel. */
  lemma {:induction false} DeadExactly(digest: seq<Reply> -> string, events: seq<Event>, b: nat)
    ensures IsDead(Run(digest, events), b) <==> exists c: nat, k: nat :: SendsClosed(digest, events, b, c, k)
  {
    if events != [] {
      var before, e := events[..|events| - 1], events[|events| - 1];
      var s := Run(digest, before);
      assert before + [e] == events;
      DeadExactly(digest, before, b);
      StepKills(digest, s, e, b);
      if IsDead(s, b) {
        var c: nat, k: nat :| SendsClosed(digest, before, b, c, k);
        SendsClosedLater(digest, before, e, b, c, k);
      } else if IsDead(Run(digest, events), b) {
        SendsClosedLater(digest, before, e, b, s.readers[b].chan, |before|);
      }
      if exists c: nat, k: nat :: SendsClosed(digest, events, b, c, k) {
        var c: nat, k: nat :| SendsClosed(digest, events, b, c, k);
        SendsClosedLater(digest, before, e, b, c, k);
      }
    }
  }

  /** The event is reader b reading a batch for the request c, which is in flight. */
  predicate Reads(digest: seq<Reply> -> string, s: State, e: Event, b: nat, c: nat) {
    && e.Read? && e.b == b && b < |s.readers| && s.readers[b].Reading?
    && digest(e.letter.batch) in s.sessions && s.sessions[digest(e.letter.batch)] == c
    && c < |s.all| && InFlight(s.all[c])
  }

  predicate ReadsFor(digest: seq<Reply> -> string, events: seq<Event>, b: nat, c: nat, j: nat) {
    j < |events| && Reads(digest, Run(digest, events[..j]), events[j], b, c)
  }

  lemma StepHolds(digest: seq<Reply> -> string, s: State, e: Event, b: nat, c: nat)
    requires Exclusive(s) && HoldsFor(Step(digest, s, e), b, c) && !HoldsFor(s, b, c)
    ensures Reads(digest, s, e, b, c)
  {
  }

  lemma DistinctPrefix(digest: seq<Reply> -> string, events: seq<Event>, k: nat)
    requires DistinctRun(digest, events) && k <= |events|
    ensures DistinctRun(digest, events[..k])
  {
    assert forall j :: 0 <= j <= k ==> events[..k][..j] == events[..j];
  }

  /** What a reader holds it has read for a request that was in flight then. */
  lemma {:induction false} HeldWasRead(digest: seq<Reply> -> string, events: seq<Event>, b: nat, c: nat) returns (j: nat)
    requires DistinctRun(digest, events) && HoldsFor(Run(digest, events), b, c)
    ensures ReadsFor(digest, events, b, c, j)
  {
    var before, e := events[..|events| - 1], events[|events| - 1];
    DistinctPrefix(digest, events, |before|);
    if HoldsFor(Run(digest, before), b, c) {
      j := HeldWasRead(digest, before, b, c);
      assert before[..j] == events[..j];
    } else {
      j := |before|;
      assert events[..j] == before;
      DistinctKeysAreExclusive(digest, before);
      StepHolds(digest, Run(digest, before), e, b, c);
    }
  }

  /** Reader b read a batch for request c at event j, while c was in flight, and sent it at event k, when
      c was gone. */
  predicate ArrivesTooLate(digest: seq<Reply> -> string, events: seq<Event>, b: nat, c: nat, j: nat, k: nat) {
    && j < k < |events| && ReadsFor(digest, events, b, c, j) && events[k] == Send(b)
    && HoldsFor(Run(digest, events[..k]), b, c) && In(Run(digest, events[..k]), c, Gone)
  }

  lemma ClosedIsGone(digest: seq<Reply> -> string, events: seq<Event>, c: nat, k: nat)
    requires DistinctRun(digest, events) && k <= |events|
    ensures Closed(Run(digest, events[..k]), c) <==> In(Run(digest, events[..k]), c, Gone)
  {
    DistinctPrefix(digest, events, k);
    DistinctKeysAreExclusive(digest, events[..k]);
    var s := Run(digest, events[..k]);
    assert c < |s.all| ==> OwnChannel(s.all[c], c);
  }

  lemma SentTooLate(digest: seq<Reply> -> string, events: seq<Event>, b: nat, c: nat, k: nat) returns (j: nat)
    requires DistinctRun(digest, events) && SendsClosed(digest, events, b, c, k)
    ensures ArrivesTooLate(digest, events, b, c, j, k)
  {
    ClosedIsGone(digest, events, c, k);
    DistinctPrefix(digest, events, k);
    j := HeldWasRead(digest, events[..k], b, c);
    assert events[..k][..j] == events[..j];
  }

  /** Main result: while in-flight keys are distinct, a reader is dead exactly when it once sent a batch,
      read for a request in flight, after that request was gone. */
  lemma DeadExactlyWhenTooLate(digest: seq<Reply> -> string, events: seq<Event>, b: nat)
    requires DistinctRun(digest, events)
    ensures IsDead(Run(digest, events), b) <==>
      exists c: nat, j: nat, k: nat :: ArrivesTooLate(digest, events, b, c, j, k)
  {
    DeadExactly(digest, events, b);
    forall c: nat, k: nat | SendsClosed(digest, events, b, c, k)
      ensures exists j: nat :: ArrivesTooLate(digest, events, b, c, j, k)
    {
      var j := SentTooLate(digest, events, b, c, k);
    }
    forall c: nat, j: nat, k: nat | ArrivesTooLate(digest, events, b, c, j, k)
      ensures SendsClosed(digest, events, b, c, k)
    {
      ClosedIsGone(digest, events, c, k);
    }
  }

  // ---- when a reader stops for good ----

  function After(digest: seq<Reply> -> string, s: State, more: seq<Event>): State {
    if more == [] then s else Step(digest, After(digest, s, more[..|more| - 1]), more[|more| - 1])
  }

  lemma Rejoin(events: seq<Event>, more: seq<Event>)
    requires more != []
    ensures events + more == events + more[..|more| - 1] + [more[|more| - 1]]
  {
  }

  lemma {:induction false} RunThen(digest: seq<Reply> -> string, events: seq<Event>, more: seq<Event>)
    ensures Run(digest, events + more) == After(digest, Run(digest, events), more)
  {
    if more == [] {
      assert events + more == events;
    } else {
      var front := more[..|more| - 1];
      RunThen(digest, events, front);
      Rejoin(events, more);
      RunSnoc(digest, events + front, more[|more| - 1]);
    }
  }

  lemma {:induction false} AfterFirst(digest: seq<Reply> -> string, s: State, e: Event, more: seq<Event>)
    ensures After(digest, s, [e] + more) == After(digest, Step(digest, s, e), more)
  {
    var all := [e] + more;
    if more == [] {
      assert all[..0] == [] && After(digest, s, all[..0]) == s;
    } else {
      assert all[..|all| - 1] == [e] + more[..|more| - 1];
      AfterFirst(digest, s, e, more[..|more| - 1]);
    }
  }

  /** The request waits on its channel, which is open. */
  predicate Receivable(s: State, c: nat) {
    In(s, c, Waiting) && !Closed(s, c)
  }

  predicate LoadedBy(s: State, r: nat, c: nat) {
    r < |s.all| && (s.all[r].phase == Captured(c) || s.all[r].phase == Deleted(c))
  }

  /** Some request has loaded channel c to close it, or can still load it. */
  ghost predicate Closable(s: State, c: nat) {
    (exists key :: key in s.sessions && s.sessions[key] == c) || exists r :: LoadedBy(s, r, c)
  }

  /** Reader b is blocked on a channel that nobody receives from and nobody will close. */
  ghost predicate Stuck(s: State, b: nat, c: nat) {
    HoldsFor(s, b, c) && c < |s.all| && !In(s, c, Waiting) && !Closed(s, c) && !Closable(s, c)
  }

  lemma StepKeepsStuck(digest: seq<Reply> -> string, s: State, e: Event, b: nat, c: nat)
    requires Stuck(s, b, c)
    ensures Stuck(Step(digest, s, e), b, c)
  {
    var t := Step(digest, s, e);
    if e.CleanClose? {
      assert !LoadedBy(s, e.r, c);
    }
    forall r | LoadedBy(t, r, c)
      ensures LoadedBy(s, r, c)
    {
    }
  }

  lemma {:induction false} StaysStuck(digest: seq<Reply> -> string, s: State, more: seq<Event>, b: nat, c: nat)
    requires Stuck(s, b, c)
    ensures Stuck(After(digest, s, more), b, c) && After(digest, s, more).readers[b] == s.readers[b]
  {
    if more != [] {
      var t := After(digest, s, more[..|more| - 1]);
      StaysStuck(digest, s, more[..|more| - 1], b, c);
      StepKeepsStuck(digest, t, more[|more| - 1], b, c);
    }
  }

  lemma {:induction false} StaysDead(digest: seq<Reply> -> string, s: State, more: seq<Event>, b: nat)
    requires IsDead(s, b)
    ensures IsDead(After(digest, s, more), b)
  {
    if more != [] {
      StaysDead(digest, s, more[..|more| - 1], b);
    }
  }

  /** What `sessions` maps to has not been loaded by its own request, or only as its own. */
  ghost predicate Mapped(s: State) {
    forall key :: key in s.sessions ==>
      var c := s.sessions[key];
      c < |s.all| && s.all[c].key == key && (s.all[c].phase.Waiting? || s.all[c].phase.Leaving? || s.all[c].phase == Captured(c))
  }

  lemma PhaseKeepsMapped(s: State, t: State, r: nat, x: Session)
    requires Mapped(s) && r < |s.all| && t.all == s.all[r := x] && x.key == s.all[r].key
    requires forall key :: key in t.sessions ==> key in s.sessions && t.sessions[key] == s.sessions[key]
    requires x.phase == s.all[r].phase || x.phase.Leaving? || x.phase == Captured(r)
      || x.key !in t.sessions || t.sessions[x.key] != r
    ensures Mapped(t)
  {
  }

  lemma StepKeepsMapped(digest: seq<Reply> -> string, s: State, e: Event)
    requires Mapped(s)
    ensures Mapped(Step(digest, s, e))
  {
    var t := Step(digest, s, e);
    match e
    case Connect =>
    case Register(_) =>
    case Read(_, _) =>
    case CleanClose(r) =>
      if t != s {
        var c := s.all[r].phase.chan;
        var u := if Closed(s, c) || c >= |s.all| then s else s.(all := s.all[c := s.all[c].(closers := [r])]);
        assert Mapped(u);
        PhaseKeepsMapped(u, t, r, t.all[r]);
      }
    case Send(b) =>
      if t.all != s.all {
        PhaseKeepsMapped(s, t, s.readers[b].chan, t.all[s.readers[b].chan]);
      }
    case _ =>
      if t != s {
        PhaseKeepsMapped(s, t, e.r, t.all[e.r]);
      }
  }

  lemma {:induction false} RunKeepsMapped(digest: seq<Reply> -> string, events: seq<Event>)
    ensures Mapped(Run(digest, events))
  {
    if events != [] {
      RunKeepsMapped(digest, events[..|events| - 1]);
      StepKeepsMapped(digest, Run(digest, events[..|events| - 1]), events[|events| - 1]);
    }
  }


  /** A reader that holds a letter for a closed channel dies at the send. */
  lemma SendDies(digest: seq<Reply> -> string, s: State, b: nat, c: nat)
    requires HoldsFor(s, b, c) && Closed(s, c)
    ensures IsDead(After(digest, s, [Send(b)]), b)
  {
    AfterFirst(digest, s, Send(b), []);
  }

  lemma CloseKills(digest: seq<Reply> -> string, s: State, b: nat, c: nat, r: nat)
    requires HoldsFor(s, b, c) && c < |s.all| && In(s, r, Deleted(c))
    ensures IsDead(After(digest, s, [CleanClose(r)] + [Send(b)]), b)
  {
    AfterFirst(digest, s, CleanClose(r), [Send(b)]);
    SendDies(digest, Step(digest, s, CleanClose(r)), b, c);
  }

  lemma DeleteKills(digest: seq<Reply> -> string, s: State, b: nat, c: nat, r: nat)
    requires HoldsFor(s, b, c) && c < |s.all| && In(s, r, Captured(c))
    ensures IsDead(After(digest, s, [CleanDelete(r)] + ([CleanClose(r)] + [Send(b)])), b)
  {
    AfterFirst(digest, s, CleanDelete(r), [CleanClose(r)] + [Send(b)]);
    CloseKills(digest, Step(digest, s, CleanDelete(r)), b, c, r);
  }

  lemma LoadKills(digest: seq<Reply> -> string, s: State, b: nat, c: nat)
    requires HoldsFor(s, b, c) && In(s, c, Leaving) && s.all[c].key in s.sessions && s.sessions[s.all[c].key] == c
    ensures IsDead(After(digest, s, [CleanLoad(c)] + ([CleanDelete(c)] + ([CleanClose(c)] + [Send(b)]))), b)
  {
    AfterFirst(digest, s, CleanLoad(c), [CleanDelete(c)] + ([CleanClose(c)] + [Send(b)]));
    DeleteKills(digest, Step(digest, s, CleanLoad(c)), b, c, c);
  }

  /** A reader blocked on a channel that can be closed may yet die. */
  lemma ClosableCanKill(digest: seq<Reply> -> string, s: State, b: nat, c: nat) returns (more: seq<Event>)
    requires Mapped(s) && HoldsFor(s, b, c) && c < |s.all| && !In(s, c, Waiting) && (Closed(s, c) || Closable(s, c))
    ensures IsDead(After(digest, s, more), b)
  {
    if Closed(s, c) {
      SendDies(digest, s, b, c);
      more := [Send(b)];
    } else if r :| LoadedBy(s, r, c) {
      if In(s, r, Deleted(c)) {
        CloseKills(digest, s, b, c, r);
        more := [CleanClose(r)] + [Send(b)];
      } else {
        DeleteKills(digest, s, b, c, r);
        more := [CleanDelete(r)] + ([CleanClose(r)] + [Send(b)]);
      }
    } else {
      var key :| key in s.sessions && s.sessions[key] == c;
      assert !LoadedBy(s, c, c);
      LoadKills(digest, s, b, c);
      more := [CleanLoad(c)] + ([CleanDelete(c)] + ([CleanClose(c)] + [Send(b)]));
    }
  }

  predicate SameReader(s: State, t: State, b: nat) {
    b < |s.readers| && b < |t.readers| && s.readers[b] == t.readers[b]
  }

  /** Whatever happens, the reader takes no further step. */
  ghost predicate Halted(digest: seq<Reply> -> string, s: State, b: nat) {
    forall more: seq<Event> :: SameReader(s, After(digest, s, more), b)
  }

  lemma ReadingMoves(digest: seq<Reply> -> string, s: State, b: nat)
    requires b < |s.readers| && s.readers[b].Reading?
    ensures !SameReader(s, After(digest, s, [Register(digest([]))] + [Read(b, Letter([], 0))]), b)
  {
    AfterFirst(digest, s, Register(digest([])), [Read(b, Letter([], 0))]);
    AfterFirst(digest, Step(digest, s, Register(digest([]))), Read(b, Letter([], 0)), []);
  }

  lemma OthersMove(digest: seq<Reply> -> string, s: State, b: nat)
    requires Mapped(s) && Routed(digest, s) && b < |s.readers| && !IsDead(s, b) && forall c: nat :: !Stuck(s, b, c)
    ensures !Halted(digest, s, b)
  {
    if s.readers[b].Reading? {
      ReadingMoves(digest, s, b);
    } else {
      var c := s.readers[b].chan;
      assert HoldsFor(s, b, c) && !Stuck(s, b, c);
      if In(s, c, Waiting) {
        AfterFirst(digest, s, Send(b), []);
        assert !SameReader(s, After(digest, s, [Send(b)] + []), b);
      } else {
        var more := ClosableCanKill(digest, s, b, c);
        assert !SameReader(s, After(digest, s, more), b);
      }
    }
  }

  /** Main result: at any moment of any run, a reader takes no further step, whatever happens, exactly when
      it is dead or stuck. */
  lemma HaltedExactly(digest: seq<Reply> -> string, events: seq<Event>, b: nat)
    requires b < |Run(digest, events).readers|
    ensures Halted(digest, Run(digest, events), b) <==>
      IsDead(Run(digest, events), b) || exists c: nat :: Stuck(Run(digest, events), b, c)
  {
    var s := Run(digest, events);
    RunKeepsMapped(digest, events);
    OnlyOwnReplies(digest, events);
    if IsDead(s, b) {
      forall more: seq<Event> ensures SameReader(s, After(digest, s, more), b) {
        StaysDead(digest, s, more, b);
      }
    } else if c: nat :| Stuck(s, b, c) {
      forall more: seq<Event> ensures SameReader(s, After(digest, s, more), b) {
        StaysStuck(digest, s, more, b, c);
      }
    } else {
      OthersMove(digest, s, b);
    }
  }

  predicate IsReading(s: State, b: nat) {
    b < |s.readers| && s.readers[b].Reading?
  }

  /** Reader b holds a letter for a request that will not receive it. */
  predicate Undeliverable(s: State, b: nat, c: nat) {
    HoldsFor(s, b, c) && c < |s.all| && !Receivable(s, c)
  }

  lemma StepKeepsUndelivered(digest: seq<Reply> -> string, s: State, e: Event, b: nat, c: nat)
    requires Undeliverable(s, b, c)
    ensures IsDead(Step(digest, s, e), b) || Undeliverable(Step(digest, s, e), b, c)
  {
  }

  ghost predicate NeverReads(digest: seq<Reply> -> string, s: State, b: nat) {
    forall more: seq<Event> :: !IsReading(After(digest, s, more), b)
  }

  lemma {:induction false} StaysUndelivered(digest: seq<Reply> -> string, s: State, more: seq<Event>, b: nat, c: nat)
    requires Undeliverable(s, b, c)
    ensures IsDead(After(digest, s, more), b) || Undeliverable(After(digest, s, more), b, c)
  {
    if more != [] {
      StaysUndelivered(digest, s, more[..|more| - 1], b, c);
      var t := After(digest, s, more[..|more| - 1]);
      if !IsDead(t, b) {
        StepKeepsUndelivered(digest, t, more[|more| - 1], b, c);
      }
    }
  }

  /** Main result: at any moment of any run, a reader will not read again, whatever happens, exactly when it
      is dead or holds a letter for a request that does not wait on an open channel. */
  lemma NeverReadsExactly(digest: seq<Reply> -> string, events: seq<Event>, b: nat)
    requires b < |Run(digest, events).readers|
    ensures NeverReads(digest, Run(digest, events), b) <==>
      IsDead(Run(digest, events), b) || exists c: nat :: Undeliverable(Run(digest, events), b, c)
  {
    var s := Run(digest, events);
    OnlyOwnReplies(digest, events);
    if IsDead(s, b) {
      forall more: seq<Event> ensures !IsReading(After(digest, s, more), b) {
        StaysDead(digest, s, more, b);
      }
    } else if c: nat :| Undeliverable(s, b, c) {
      forall more: seq<Event> ensures !IsReading(After(digest, s, more), b) {
        StaysUndelivered(digest, s, more, b, c);
      }
    } else if IsReading(s, b) {
      assert IsReading(After(digest, s, []), b);
      assert !NeverReads(digest, s, b);
    } else {
      assert HoldsFor(s, b, s.readers[b].chan) && !Undeliverable(s, b, s.readers[b].chan);
      AfterFirst(digest, s, Send(b), []);
      assert IsReading(After(digest, s, [Send(b)] + []), b);
    }
  }

  /** While in-flight keys are distinct no reader is ever stuck: one that stops for good dies. */
  lemma DistinctKeysNeverStick(digest: seq<Reply> -> string, events: seq<Event>, b: nat, c: nat)
    requires DistinctRun(digest, events)
    ensures !Stuck(Run(digest, events), b, c)
  {
    var s := Run(digest, events);
    DistinctKeysAreExclusive(digest, events);
    if c < |s.all| {
      assert OwnChannel(s.all[c], c);
      assert LoadedBy(s, c, c) || s.all[c].phase.Gone? || InFlight(s.all[c]);
    }
  }

  // ---- when a request crashes ----

  /** At event j request q closes channel c, or tries to. */
  predicate ClosesAt(digest: seq<Reply> -> string, events: seq<Event>, q: nat, c: nat, j: nat) {
    j < |events| && events[j] == CleanClose(q) && In(Run(digest, events[..j]), q, Deleted(c))
  }

  predicate IsCrashed(s: State, r: nat) {
    In(s, r, Crashed)
  }

  /** What requests have loaded exists. */
  predicate ChannelsExist(s: State) {
    forall r :: 0 <= r < |s.all| && (s.all[r].phase.Captured? || s.all[r].phase.Deleted?) ==> s.all[r].phase.chan < |s.all|
  }

  lemma StepKeepsChannels(digest: seq<Reply> -> string, s: State, e: Event)
    requires Routed(digest, s) && ChannelsExist(s)
    ensures ChannelsExist(Step(digest, s, e))
  {
  }

  lemma {:induction false} RunKeepsChannels(digest: seq<Reply> -> string, events: seq<Event>)
    ensures ChannelsExist(Run(digest, events))
  {
    if events != [] {
      var before := events[..|events| - 1];
      RunKeepsChannels(digest, before);
      OnlyOwnReplies(digest, before);
      StepKeepsChannels(digest, Run(digest, before), events[|events| - 1]);
    }
  }

  lemma StepCloses(digest: seq<Reply> -> string, s: State, e: Event, c: nat)
    requires Closed(Step(digest, s, e), c) && !Closed(s, c)
    ensures e.CleanClose? && In(s, e.r, Deleted(c))
  {
  }

  lemma {:induction false} ClosedBySome(digest: seq<Reply> -> string, events: seq<Event>, c: nat) returns (q: nat, j: nat)
    requires Closed(Run(digest, events), c)
    ensures ClosesAt(digest, events, q, c, j)
  {
    var before, e := events[..|events| - 1], events[|events| - 1];
    if Closed(Run(digest, before), c) {
      q, j := ClosedBySome(digest, before, c);
      assert before[..j] == events[..j];
    } else {
      StepCloses(digest, Run(digest, before), e, c);
      q, j := e.r, |before|;
      assert events[..j] == before;
    }
  }

  /** Once a request has closed a channel, the channel is closed and the request is done. */
  predicate Done(s: State, q: nat, c: nat) {
    Closed(s, c) && (In(s, q, Gone) || In(s, q, Crashed))
  }

  lemma StepKeepsDone(digest: seq<Reply> -> string, s: State, e: Event, q: nat, c: nat)
    requires Done(s, q, c) || (e == CleanClose(q) && In(s, q, Deleted(c)) && c < |s.all|)
    ensures Done(Step(digest, s, e), q, c)
  {
  }

  lemma {:induction false} DoneAfter(digest: seq<Reply> -> string, events: seq<Event>, q: nat, c: nat, j: nat)
    requires ClosesAt(digest, events, q, c, j)
    ensures Done(Run(digest, events), q, c)
  {
    var before, e := events[..|events| - 1], events[|events| - 1];
    assert before == events[..|before|];
    if j < |before| {
      assert before[..j] == events[..j];
      DoneAfter(digest, before, q, c, j);
    } else {
      RunKeepsChannels(digest, before);
    }
    StepKeepsDone(digest, Run(digest, before), e, q, c);
  }

  /** Request q closed channel c at event j, and request r tried to at event k. */
  predicate ClosesAgain(digest: seq<Reply> -> string, events: seq<Event>, r: nat, q: nat, c: nat, j: nat, k: nat) {
    j < k && q != r && ClosesAt(digest, events, q, c, j) && ClosesAt(digest, events, r, c, k)
  }

  lemma StepCrashes(digest: seq<Reply> -> string, s: State, e: Event, r: nat)
    requires IsCrashed(Step(digest, s, e), r) && !IsCrashed(s, r) && ChannelsExist(s)
    ensures e == CleanClose(r) && s.all[r].phase.Deleted? && Closed(s, s.all[r].phase.chan)
  {
  }

  lemma {:induction false} CrashedBySecond(digest: seq<Reply> -> string, events: seq<Event>, r: nat) returns (q: nat, c: nat, j: nat, k: nat)
    requires IsCrashed(Run(digest, events), r)
    ensures ClosesAgain(digest, events, r, q, c, j, k)
  {
    var before, e := events[..|events| - 1], events[|events| - 1];
    var s := Run(digest, before);
    if IsCrashed(s, r) {
      q, c, j, k := CrashedBySecond(digest, before, r);
      assert before[..j] == events[..j] && before[..k] == events[..k];
    } else {
      RunKeepsChannels(digest, before);
      StepCrashes(digest, s, e, r);
      c, k := s.all[r].phase.chan, |before|;
      q, j := ClosedBySome(digest, before, c);
      DoneAfter(digest, before, q, c, j);
      assert before[..j] == events[..j] && events[..k] == before;
    }
  }

  lemma StepStaysCrashed(digest: seq<Reply> -> string, s: State, e: Event, r: nat)
    requires IsCrashed(s, r) || (e == CleanClose(r) && r < |s.all| && s.all[r].phase.Deleted? && Closed(s, s.all[r].phase.chan))
    ensures IsCrashed(Step(digest, s, e), r)
  {
  }

  lemma {:induction false} SecondCrashes(digest: seq<Reply> -> string, events: seq<Event>, r: nat, q: nat, c: nat, j: nat, k: nat)
    requires ClosesAgain(digest, events, r, q, c, j, k)
    ensures IsCrashed(Run(digest, events), r)
  {
    var before, e := events[..|events| - 1], events[|events| - 1];
    if k < |before| {
      assert before[..j] == events[..j] && before[..k] == events[..k];
      SecondCrashes(digest, before, r, q, c, j, k);
    } else {
      assert before[..j] == events[..j] && events[..k] == before;
      DoneAfter(digest, before, q, c, j);
    }
    StepStaysCrashed(digest, Run(digest, before), e, r);
  }

  /** Main result: in every run a request crashes, closing a closed channel, exactly when another one had
      loaded the same channel and closed it first. */
  lemma CrashedExactly(digest: seq<Reply> -> string, events: seq<Event>, r: nat)
    ensures IsCrashed(Run(digest, events), r) <==>
      exists q: nat, c: nat, j: nat, k: nat :: ClosesAgain(digest, events, r, q, c, j, k)
  {
    if IsCrashed(Run(digest, events), r) {
      var q, c, j, k := CrashedBySecond(digest, events, r);
    }
    forall q: nat, c: nat, j: nat, k: nat | ClosesAgain(digest, events, r, q, c, j, k)
      ensures IsCrashed(Run(digest, events), r)
    {
      SecondCrashes(digest, events, r, q, c, j, k);
    }
  }

  // ---- whose answer a request receives ----

  predicate ReadsInto(digest: seq<Reply> -> string, s: State, e: Event, r: nat, letter: Letter) {
    && e.Read? && e.letter == letter && IsReading(s, e.b)
    && digest(letter.batch) in s.sessions && s.sessions[digest(letter.batch)] == r
  }

  /** At event j the letter is read and r's channel is loaded for it. */
  predicate ReadIntoAt(digest: seq<Reply> -> string, events: seq<Event>, r: nat, letter: Letter, j: nat) {
    j < |events| && ReadsInto(digest, Run(digest, events[..j]), events[j], r, letter)
  }

  predicate HasGot(s: State, r: nat, letter: Letter) {
    r < |s.all| && s.all[r].got == Some(letter)
  }

  predicate IsHeld(s: State, r: nat, letter: Letter) {
    exists b :: 0 <= b < |s.readers| && s.readers[b] == Holding(letter, r)
  }

  lemma StepReads(digest: seq<Reply> -> string, s: State, e: Event, r: nat, letter: Letter)
    ensures HasGot(Step(digest, s, e), r, letter) || IsHeld(Step(digest, s, e), r, letter) ==>
      HasGot(s, r, letter) || IsHeld(s, r, letter) || ReadsInto(digest, s, e, r, letter)
  {
    var t := Step(digest, s, e);
    if IsHeld(t, r, letter) {
      var b :| 0 <= b < |t.readers| && t.readers[b] == Holding(letter, r);
      assert b < |s.readers|;
    }
  }

  lemma {:induction false} GotWasRead(digest: seq<Reply> -> string, events: seq<Event>, r: nat, letter: Letter) returns (j: nat)
    requires HasGot(Run(digest, events), r, letter) || IsHeld(Run(digest, events), r, letter)
    ensures ReadIntoAt(digest, events, r, letter, j)
  {
    var before, e := events[..|events| - 1], events[|events| - 1];
    StepReads(digest, Run(digest, before), e, r, letter);
    if ReadsInto(digest, Run(digest, before), e, r, letter) {
      j := |before|;
      assert events[..j] == before;
    } else {
      j := GotWasRead(digest, before, r, letter);
      assert before[..j] == events[..j];
    }
  }

  /** The letter answers a request that was made, with the ids it was made with. */
  predicate Addressed(digest: seq<Reply> -> string, s: State, letter: Letter) {
    letter.to < |s.all| && s.all[letter.to].key == digest(letter.batch)
  }

  /** Upstream answers messages that were sent, with the ids it was sent. */
  ghost predicate Honest(digest: seq<Reply> -> string, events: seq<Event>) {
    forall j :: 0 <= j < |events| && events[j].Read? ==>
      Addressed(digest, Run(digest, events[..j]), events[j].letter)
  }

  predicate InFlightAt(digest: seq<Reply> -> string, events: seq<Event>, r: nat, j: nat) {
    j <= |events| && r < |Run(digest, events[..j]).all| && InFlight(Run(digest, events[..j]).all[r])
  }

  /** A letter goes to the request it answers exactly when that one is in flight as it is read. */
  lemma ReadForOwnExactly(digest: seq<Reply> -> string, events: seq<Event>, r: nat, letter: Letter, j: nat)
    requires DistinctRun(digest, events) && Honest(digest, events) && ReadIntoAt(digest, events, r, letter, j)
    ensures letter.to == r <==> InFlightAt(digest, events, letter.to, j)
  {
    DistinctPrefix(digest, events, j);
    DistinctKeysAreExclusive(digest, events[..j]);
    assert events[j].Read? && events[j].letter == letter;
  }

  /** Main result: while in-flight keys are distinct and upstream is honest, a request has received the
      answer to its own message exactly when the letter was read for it while its addressee was in flight;
      otherwise it has received the late answer to an earlier request of its key. */
  lemma OwnAnswerExactly(digest: seq<Reply> -> string, events: seq<Event>, r: nat, letter: Letter)
    requires DistinctRun(digest, events) && Honest(digest, events) && HasGot(Run(digest, events), r, letter)
    ensures letter.to == r <==>
      exists j: nat :: ReadIntoAt(digest, events, r, letter, j) && InFlightAt(digest, events, letter.to, j)
  {
    var i := GotWasRead(digest, events, r, letter);
    ReadForOwnExactly(digest, events, r, letter, i);
    forall j: nat | ReadIntoAt(digest, events, r, letter, j) && InFlightAt(digest, events, letter.to, j)
      ensures letter.to == r
    {
      ReadForOwnExactly(digest, events, r, letter, j);
    }
  }

  // ---- what goes wrong ----

  function Cleanup(r: nat): seq<Event> {
    [CleanLoad(r), CleanDelete(r), CleanClose(r)]
  }

  lemma CleanupEffect(digest: seq<Reply> -> string, events: seq<Event>, r: nat)
    ensures Run(digest, events + Cleanup(r)) ==
      Step(digest, Step(digest, Step(digest, Run(digest, events), CleanLoad(r)), CleanDelete(r)), CleanClose(r))
  {
    assert events + Cleanup(r) == events + [CleanLoad(r)] + [CleanDelete(r)] + [CleanClose(r)];
    RunSnoc(digest, events, CleanLoad(r));
    RunSnoc(digest, events + [CleanLoad(r)], CleanDelete(r));
    RunSnoc(digest, events + [CleanLoad(r)] + [CleanDelete(r)], CleanClose(r));
  }

  predicate HasNews(s: State, t: State, r: nat) {
    r < |s.all| && r < |t.all| && s.all[r].got != t.all[r].got
  }

  /** A waiting request may give up at any time, and leaves for a closed channel exactly when its own is. */
  lemma WaitingLeaves(digest: seq<Reply> -> string, s: State, r: nat)
    requires In(s, r, Waiting)
    ensures In(Step(digest, s, GiveUp(r)), r, Leaving) && !HasNews(s, Step(digest, s, GiveUp(r)), r)
    ensures In(Step(digest, s, SeeClosed(r)), r, Leaving) <==> Closed(s, r)
    ensures !Closed(s, r) ==> Step(digest, s, SeeClosed(r)) == s
  {
  }

  function CleanedUp(digest: seq<Reply> -> string, s: State, r: nat): State {
    Step(digest, Step(digest, Step(digest, s, CleanLoad(r)), CleanDelete(r)), CleanClose(r))
  }

  lemma UnmappedCleanup(digest: seq<Reply> -> string, s: State, r: nat)
    requires In(s, r, Leaving) && s.all[r].key !in s.sessions
    ensures CleanedUp(digest, s, r) == To(s, r, Gone)
  {
  }

  lemma MappedCleanup(digest: seq<Reply> -> string, s: State, r: nat, c: nat)
    requires In(s, r, Leaving) && s.all[r].key in s.sessions && s.sessions[s.all[r].key] == c && c < |s.all|
    ensures var t := CleanedUp(digest, s, r);
      s.all[r].key !in t.sessions && Closed(t, c) && In(t, r, if Closed(s, c) then Crashed else Gone)
  {
    var s1 := Step(digest, s, CleanLoad(r));
    assert s1 == To(s, r, Captured(c));
    var s2 := Step(digest, s1, CleanDelete(r));
    assert s2.all == s.all[r := s.all[r].(phase := Deleted(c))] && s2.sessions == s.sessions - {s.all[r].key};
    assert Closed(s2, c) <==> Closed(s, c);
  }

  /** A cleanup always ends: the key is gone, the channel it stood for is closed, and so the request is
      gone, or crashed if that channel had been closed before. */
  lemma CleanupEnds(digest: seq<Reply> -> string, events: seq<Event>, r: nat)
    requires In(Run(digest, events), r, Leaving)
    ensures var s, t := Run(digest, events), Run(digest, events + Cleanup(r));
      var key := s.all[r].key;
      && key !in t.sessions
      && (key !in s.sessions ==> In(t, r, Gone))
      && (key in s.sessions ==>
           Closed(t, s.sessions[key]) && In(t, r, if Closed(s, s.sessions[key]) then Crashed else Gone))
  {
    var s := Run(digest, events);
    CleanupEffect(digest, events, r);
    OnlyOwnReplies(digest, events);
    if s.all[r].key in s.sessions {
      MappedCleanup(digest, s, r, s.sessions[s.all[r].key]);
    } else {
      UnmappedCleanup(digest, s, r);
    }
  }

  /** What one request's departure and cleanup lead to, from the state it waits in. */
  function Leave(digest: seq<Reply> -> string, s: State, r: nat): State {
    Step(digest, Step(digest, Step(digest, Step(digest, s, GiveUp(r)), CleanLoad(r)), CleanDelete(r)), CleanClose(r))
  }

  lemma LeaveRun(digest: seq<Reply> -> string, events: seq<Event>, r: nat)
    ensures Run(digest, events + [GiveUp(r)] + Cleanup(r)) == Leave(digest, Run(digest, events), r)
  {
    RunSnoc(digest, events, GiveUp(r));
    CleanupEffect(digest, events + [GiveUp(r)], r);
  }

  /** Of two requests under one key the first leaves. */
  lemma FirstLeaves(digest: seq<Reply> -> string, key: string, readers: seq<Reader>)
    ensures var w := Session(key, Waiting, None, []);
      Leave(digest, State([w, w], map[key := 1], readers), 0)
      == State([w.(phase := Gone), w.(closers := [0])], map[], readers)
  {
    var w := Session(key, Waiting, None, []);
    var s := State([w, w], map[key := 1], readers);
    var s1 := Step(digest, s, GiveUp(0));
    assert s1.all == [w.(phase := Leaving), w];
    var s2 := Step(digest, s1, CleanLoad(0));
    assert s2.all == [w.(phase := Captured(1)), w];
    var s3 := Step(digest, s2, CleanDelete(0));
    assert s3.all == [w.(phase := Deleted(1)), w] && s3.sessions == map[];
    assert Step(digest, s3, CleanClose(0)).all == [w.(phase := Gone), w.(closers := [0])];
  }

  /** Two requests under one key. */
  function Clash(key: string): seq<Event> {
    [] + [Register(key)] + [Register(key)]
  }

  lemma ClashRun(digest: seq<Reply> -> string, key: string)
    ensures var w := Session(key, Waiting, None, []);
      Run(digest, Clash(key)) == State([w, w], map[key := 1], [])
  {
    RunSnoc(digest, [], Register(key));
    RunSnoc(digest, [] + [Register(key)], Register(key));
  }

  /** Distinct keys are needed: of two requests under one key, the first to leave closes the channel of
      the second, which is still waiting. */
  lemma ClashClosesAnother(digest: seq<Reply> -> string, key: string)
    ensures var s := Run(digest, Clash(key) + [GiveUp(0)] + Cleanup(0));
      In(s, 1, Waiting) && s.all[1].closers == [0] && s.all[0].closers == []
  {
    ClashRun(digest, key);
    LeaveRun(digest, Clash(key), 0);
    FirstLeaves(digest, key, []);
  }

  /** Both requests move on together. */
  function Both(key: string, phase: Phase, sessions: map<string, nat>): State {
    State([Session(key, phase, None, []), Session(key, phase, None, [])], sessions, [])
  }

  lemma BothStep(digest: seq<Reply> -> string, key: string)
    ensures Step(digest, Step(digest, Both(key, Waiting, map[key := 1]), GiveUp(0)), GiveUp(1)) == Both(key, Leaving, map[key := 1])
    ensures Step(digest, Step(digest, Both(key, Leaving, map[key := 1]), CleanLoad(0)), CleanLoad(1)) == Both(key, Captured(1), map[key := 1])
    ensures Step(digest, Step(digest, Both(key, Captured(1), map[key := 1]), CleanDelete(0)), CleanDelete(1)) == Both(key, Deleted(1), map[])
  {
    var w := Session(key, Waiting, None, []);
    assert Step(digest, Both(key, Waiting, map[key := 1]), GiveUp(0)).all == [w.(phase := Leaving), w];
    assert Step(digest, Both(key, Captured(1), map[key := 1]), CleanDelete(0)).sessions == map[];
  }

  lemma BothClose(digest: seq<Reply> -> string, key: string)
    ensures IsCrashed(Step(digest, Step(digest, Both(key, Deleted(1), map[]), CleanClose(0)), CleanClose(1)), 1)
  {
  }

  lemma RunTwo(digest: seq<Reply> -> string, events: seq<Event>, e: Event, f: Event)
    ensures Run(digest, events + [e] + [f]) == Step(digest, Step(digest, Run(digest, events), e), f)
  {
    RunSnoc(digest, events + [e], f);
    RunSnoc(digest, events, e);
  }

  /** And if both load the channel before either deletes the key, the second to close it crashes. */
  lemma ClashCrashes(digest: seq<Reply> -> string, key: string)
    ensures IsCrashed(Run(digest, Clash(key) + [GiveUp(0)] + [GiveUp(1)] + [CleanLoad(0)] + [CleanLoad(1)]
      + [CleanDelete(0)] + [CleanDelete(1)] + [CleanClose(0)] + [CleanClose(1)]), 1)
  {
    var e2 := Clash(key) + [GiveUp(0)] + [GiveUp(1)];
    var e4 := e2 + [CleanLoad(0)] + [CleanLoad(1)];
    var e6 := e4 + [CleanDelete(0)] + [CleanDelete(1)];
    ClashRun(digest, key);
    BothStep(digest, key);
    BothClose(digest, key);
    RunTwo(digest, Clash(key), GiveUp(0), GiveUp(1));
    RunTwo(digest, e2, CleanLoad(0), CleanLoad(1));
    RunTwo(digest, e4, CleanDelete(0), CleanDelete(1));
    RunTwo(digest, e6, CleanClose(0), CleanClose(1));
  }

  /** A lone request leaves while its batch is being held for it. */
  lemma LeaveWhileHeld(digest: seq<Reply> -> string, key: string, letter: Letter)
    ensures var w := Session(key, Waiting, None, []);
      Leave(digest, State([w], map[key := 0], [Holding(letter, 0)]), 0)
      == State([w.(phase := Gone, closers := [0])], map[], [Holding(letter, 0)])
  {
    var w := Session(key, Waiting, None, []);
    var s1 := Step(digest, State([w], map[key := 0], [Holding(letter, 0)]), GiveUp(0));
    assert s1.all == [w.(phase := Leaving)];
    var s2 := Step(digest, s1, CleanLoad(0));
    assert s2.all == [w.(phase := Captured(0))];
    var s3 := Step(digest, s2, CleanDelete(0));
    assert s3.all == [w.(phase := Deleted(0))] && s3.sessions == map[];
  }

  /** How a letter comes to be held. */
  lemma HeldRun(digest: seq<Reply> -> string, letter: Letter)
    ensures Run(digest, [] + [Connect] + [Register(digest(letter.batch))] + [Read(0, letter)])
      == State([Session(digest(letter.batch), Waiting, None, [])], map[digest(letter.batch) := 0], [Holding(letter, 0)])
  {
    var key := digest(letter.batch);
    RunSnoc(digest, [], Connect);
    RunSnoc(digest, [] + [Connect], Register(key));
    RunSnoc(digest, [] + [Connect] + [Register(key)], Read(0, letter));
  }

  /** With distinct keys too, a batch that arrives just before its request gives up kills the reader:
      the send finds the channel closed, and nothing reads the connection any more. */
  lemma LateReplyKillsReader(digest: seq<Reply> -> string, letter: Letter)
    ensures Run(digest, [] + [Connect] + [Register(digest(letter.batch))] + [Read(0, letter)] + [GiveUp(0)] + Cleanup(0) + [Send(0)])
      == State([Session(digest(letter.batch), Gone, None, [0])], map[], [Dead])
  {
    var es := [] + [Connect] + [Register(digest(letter.batch))] + [Read(0, letter)];
    HeldRun(digest, letter);
    LeaveRun(digest, es, 0);
    LeaveWhileHeld(digest, digest(letter.batch), letter);
    RunSnoc(digest, es + [GiveUp(0)] + Cleanup(0), Send(0));
  }

  /** Without distinct keys a reader need not even die: here it holds a letter for the first of two
      requests of one key, which leaves and closes the channel of the second. */
  lemma ClashStrandsReader(digest: seq<Reply> -> string, letter: Letter)
    ensures Stuck(Run(digest, [] + [Connect] + [Register(digest(letter.batch))] + [Read(0, letter)]
      + [Register(digest(letter.batch))] + [GiveUp(0)] + Cleanup(0)), 0, 0)
  {
    var key := digest(letter.batch);
    var es := [] + [Connect] + [Register(key)] + [Read(0, letter)];
    HeldRun(digest, letter);
    RunSnoc(digest, es, Register(key));
    var w := Session(key, Waiting, None, []);
    assert Run(digest, es + [Register(key)]) == State([w, w], map[key := 1], [Holding(letter, 0)]);
    LeaveRun(digest, es + [Register(key)], 0);
    FirstLeaves(digest, key, [Holding(letter, 0)]);
  }

  ghost predicate Proper(digest: seq<Reply> -> string, events: seq<Event>) {
    DistinctRun(digest, events) && Honest(digest, events)
  }

  lemma DistinctSnoc(digest: seq<Reply> -> string, events: seq<Event>, e: Event)
    requires DistinctRun(digest, events) && DistinctKeys(Run(digest, events + [e]))
    ensures DistinctRun(digest, events + [e])
  {
    var more := events + [e];
    forall k | 0 <= k <= |more|
      ensures DistinctKeys(Run(digest, more[..k]))
    {
      assert more[..k] == if k <= |events| then events[..k] else more;
    }
  }

  lemma HonestSnoc(digest: seq<Reply> -> string, events: seq<Event>, e: Event)
    requires Honest(digest, events) && (e.Read? ==> Addressed(digest, Run(digest, events), e.letter))
    ensures Honest(digest, events + [e])
  {
    var more := events + [e];
    forall j | 0 <= j < |more| && more[j].Read?
      ensures Addressed(digest, Run(digest, more[..j]), more[j].letter)
    {
      assert more[..j] == if j < |events| then events[..j] else events;
    }
  }

  /** A proper run goes on to the state t. */
  lemma ProperSnoc(digest: seq<Reply> -> string, events: seq<Event>, s: State, e: Event, t: State)
    requires Proper(digest, events) && Run(digest, events) == s && Step(digest, s, e) == t && DistinctKeys(t)
    requires e.Read? ==> Addressed(digest, s, e.letter)
    ensures Proper(digest, events + [e]) && Run(digest, events + [e]) == t
  {
    RunSnoc(digest, events, e);
    DistinctSnoc(digest, events, e);
    HonestSnoc(digest, events, e);
  }

  /** A lone request on a connection with one reader. */
  function Alone(key: string, phase: Phase, closers: seq<nat>, sessions: map<string, nat>): State {
    State([Session(key, phase, None, closers)], sessions, [Reading])
  }

  lemma AloneLeaves(digest: seq<Reply> -> string, key: string)
    ensures Step(digest, Alone(key, Waiting, [], map[key := 0]), GiveUp(0)) == Alone(key, Leaving, [], map[key := 0])
    ensures Step(digest, Alone(key, Leaving, [], map[key := 0]), CleanLoad(0)) == Alone(key, Captured(0), [], map[key := 0])
    ensures Step(digest, Alone(key, Captured(0), [], map[key := 0]), CleanDelete(0)) == Alone(key, Deleted(0), [], map[])
    ensures Step(digest, Alone(key, Deleted(0), [], map[]), CleanClose(0)) == Alone(key, Gone, [0], map[])
  {
  }

  /** A lone request. */
  function Started(key: string): seq<Event> {
    [] + [Connect] + [Register(key)]
  }

  lemma StartedRun(digest: seq<Reply> -> string, key: string)
    ensures Proper(digest, Started(key))
    ensures Run(digest, Started(key)) == Alone(key, Waiting, [], map[key := 0])
  {
    ProperSnoc(digest, [], START, Connect, State([], map[], [Reading]));
    ProperSnoc(digest, [] + [Connect], State([], map[], [Reading]), Register(key), Alone(key, Waiting, [], map[key := 0]));
  }

  /** It gives up and loads its channel. */
  function Loading(key: string): seq<Event> {
    Started(key) + [GiveUp(0)] + [CleanLoad(0)]
  }

  lemma LoadingRun(digest: seq<Reply> -> string, key: string)
    ensures Proper(digest, Loading(key))
    ensures Run(digest, Loading(key)) == Alone(key, Captured(0), [], map[key := 0])
  {
    var s, t := Alone(key, Waiting, [], map[key := 0]), Alone(key, Leaving, [], map[key := 0]);
    StartedRun(digest, key);
    AloneLeaves(digest, key);
    ProperSnoc(digest, Started(key), s, GiveUp(0), t);
    ProperSnoc(digest, Started(key) + [GiveUp(0)], t, CleanLoad(0), Alone(key, Captured(0), [], map[key := 0]));
  }

  /** It has left. */
  function Left(key: string): seq<Event> {
    Loading(key) + [CleanDelete(0)] + [CleanClose(0)]
  }

  lemma LeftRun(digest: seq<Reply> -> string, key: string)
    ensures Proper(digest, Left(key))
    ensures Run(digest, Left(key)) == Alone(key, Gone, [0], map[])
  {
    var s, t := Alone(key, Captured(0), [], map[key := 0]), Alone(key, Deleted(0), [], map[]);
    LoadingRun(digest, key);
    AloneLeaves(digest, key);
    ProperSnoc(digest, Loading(key), s, CleanDelete(0), t);
    ProperSnoc(digest, Loading(key) + [CleanDelete(0)], t, CleanClose(0), Alone(key, Gone, [0], map[]));
  }

  lemma StrayReply(digest: seq<Reply> -> string, batch: seq<Reply>)
    ensures var key, letter := digest(batch), Letter(batch, 0);
      var g, w := Session(key, Gone, None, [0]), Session(key, Waiting, None, []);
      && Step(digest, Alone(key, Gone, [0], map[]), Register(key)) == State([g, w], map[key := 1], [Reading])
      && Step(digest, State([g, w], map[key := 1], [Reading]), Read(0, letter)) == State([g, w], map[key := 1], [Holding(letter, 1)])
      && Step(digest, State([g, w], map[key := 1], [Holding(letter, 1)]), Send(0))
        == State([g, w.(got := Some(letter), phase := Leaving)], map[key := 1], [Reading])
  {
  }

  /** With distinct keys and an honest upstream, a late reply is given to the next request of its key. */
  lemma LateReplyGoesAstray(digest: seq<Reply> -> string, batch: seq<Reply>)
    ensures var key, letter := digest(batch), Letter(batch, 0);
      var events := Left(key) + [Register(key)] + [Read(0, letter)] + [Send(0)];
      Proper(digest, events) && HasGot(Run(digest, events), 1, letter)
  {
    var key, letter := digest(batch), Letter(batch, 0);
    var g, w := Session(key, Gone, None, [0]), Session(key, Waiting, None, []);
    var s7, s8 := State([g, w], map[key := 1], [Reading]), State([g, w], map[key := 1], [Holding(letter, 1)]);
    var s9 := State([g, w.(got := Some(letter), phase := Leaving)], map[key := 1], [Reading]);
    LeftRun(digest, key);
    StrayReply(digest, batch);
    ProperSnoc(digest, Left(key), Alone(key, Gone, [0], map[]), Register(key), s7);
    ProperSnoc(digest, Left(key) + [Register(key)], s7, Read(0, letter), s8);
    ProperSnoc(digest, Left(key) + [Register(key)] + [Read(0, letter)], s8, Send(0), s9);
  }
}
