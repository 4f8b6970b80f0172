/** Many requests over one WebSocket connection: the session protocol of
    internal/core/endpoint/websocket_client.go as interleaved steps. */
module Sessions {
  import opened Wrappers
  import opened JsonRpc
  import Keys = SessionKeys

  /** A request waits on its channel, leaves with what it got, and cleans up in three steps: it loads
      the channel its key stands for, deletes the key, closes the channel. `Crashed` closed twice. */
  datatype Phase = Waiting | Leaving | Captured(chan: nat) | Deleted(chan: nat) | Gone | Crashed

  /** A batch as it was read, with the request whose message it answers; the protocol looks at the batch
      alone. */
  datatype Letter = Letter(batch: seq<Reply>, to: nat)

  /** The i-th request owns the i-th channel; `closers` lists who closed that channel. */
  datatype Session = Session(key: string, phase: Phase, got: Option<Letter>, closers: seq<nat>)

  /** A background reader: reading, about to send a batch on a channel, or returned after a panic. */
  datatype Reader = Reading | Holding(letter: Letter, chan: nat) | Dead

  datatype State = State(all: seq<Session>, sessions: map<string, nat>, readers: seq<Reader>)

  datatype Event =
    | Connect
    | Register(key: string)
    | Read(b: nat, letter: Letter)
    | Send(b: nat)
    | GiveUp(r: nat)
    | SeeClosed(r: nat)
    | CleanLoad(r: nat)
    | CleanDelete(r: nat)
    | CleanClose(r: nat)

  const START := State([], map[], [])

  predicate Closed(s: State, c: nat) {
    c < |s.all| && s.all[c].closers != []
  }

  predicate In(s: State, r: nat, phase: Phase) {
    r < |s.all| && s.all[r].phase == phase
  }

  function To(s: State, r: nat, phase: Phase): State
    requires r < |s.all|
  {
    s.(all := s.all[r := s.all[r].(phase := phase)])
  }

  /** One atomic step; an event that cannot happen changes nothing. */
  function Step(digest: seq<Reply> -> string, s: State, e: Event): State {
    match e
    case Connect => s.(readers := s.readers + [Reading])
    case Register(key) =>
      s.(all := s.all + [Session(key, Waiting, None, [])], sessions := s.sessions[key := |s.all|])
    case Read(b, letter) =>
      if b < |s.readers| && s.readers[b].Reading? && digest(letter.batch) in s.sessions
      then s.(readers := s.readers[b := Holding(letter, s.sessions[digest(letter.batch)])])
      else s
    case Send(b) =>
      if !(b < |s.readers| && s.readers[b].Holding?) then s
      else
        var c := s.readers[b].chan;
        if Closed(s, c) then s.(readers := s.readers[b := Dead])
        else if In(s, c, Waiting)
        then s.(readers := s.readers[b := Reading],
                all := s.all[c := s.all[c].(got := Some(s.readers[b].letter), phase := Leaving)])
        else s
    case GiveUp(r) => if In(s, r, Waiting) then To(s, r, Leaving) else s
    case SeeClosed(r) => if In(s, r, Waiting) && Closed(s, r) then To(s, r, Leaving) else s
    case CleanLoad(r) =>
      if !In(s, r, Leaving) then s
      else if s.all[r].key in s.sessions then To(s, r, Captured(s.sessions[s.all[r].key]))
      else To(s, r, Gone)
    case CleanDelete(r) =>
      if r < |s.all| && s.all[r].phase.Captured?
      then To(s, r, Deleted(s.all[r].phase.chan)).(sessions := s.sessions - {s.all[r].key})
      else s
    case CleanClose(r) =>
      if !(r < |s.all| && s.all[r].phase.Deleted?) then s
      else
        var c := s.all[r].phase.chan;
        if Closed(s, c) || c >= |s.all| then To(s, r, Crashed)
        else To(s.(all := s.all[c := s.all[c].(closers := [r])]), r, Gone)
  }

  function Run(digest: seq<Reply> -> string, events: seq<Event>): State {
    if events == [] then START
    else Step(digest, Run(digest, events[..|events| - 1]), events[|events| - 1])
  }

  // ---- routing, in every run ----

  ghost predicate Routed(digest: seq<Reply> -> string, s: State) {
    && (forall k :: k in s.sessions ==> s.sessions[k] < |s.all| && s.all[s.sessions[k]].key == k)
    && (forall b :: 0 <= b < |s.readers| && s.readers[b].Holding? ==>
         s.readers[b].chan < |s.all| && s.all[s.readers[b].chan].key == digest(s.readers[b].letter.batch))
    && (forall r :: 0 <= r < |s.all| && s.all[r].got.Some? ==> digest(s.all[r].got.value.batch) == s.all[r].key)
  }

  lemma SendRoutes(digest: seq<Reply> -> string, s: State, b: nat)
    requires Routed(digest, s)
    ensures Routed(digest, Step(digest, s, Send(b)))
  {
    var t := Step(digest, s, Send(b));
    assert forall r :: 0 <= r < |s.all| ==> t.all[r].key == s.all[r].key;
  }

  lemma FrameRoutes(digest: seq<Reply> -> string, s: State, t: State)
    requires Routed(digest, s) && t.readers == s.readers && |t.all| == |s.all|
    requires forall r :: 0 <= r < |s.all| ==> t.all[r].key == s.all[r].key && t.all[r].got == s.all[r].got
    requires forall k :: k in t.sessions ==> k in s.sessions && t.sessions[k] == s.sessions[k]
    ensures Routed(digest, t)
  {
  }

  lemma CleanRoutes(digest: seq<Reply> -> string, s: State, e: Event)
    requires Routed(digest, s) && !e.Connect? && !e.Register? && !e.Read? && !e.Send?
    ensures Routed(digest, Step(digest, s, e))
  {
    FrameRoutes(digest, s, Step(digest, s, e));
  }

  lemma StepRoutes(digest: seq<Reply> -> string, s: State, e: Event)
    requires Routed(digest, s)
    ensures Routed(digest, Step(digest, s, e))
  {
    match e
    case Connect =>
    case Register(key) =>
    case Read(b, letter) =>
    case Send(b) => SendRoutes(digest, s, b);
    case _ => CleanRoutes(digest, s, e);
  }

  /** Main result: whatever the interleaving, and even with clashing keys, a request only ever receives
      a batch whose key is its own. */
  lemma {:induction false} OnlyOwnReplies(digest: seq<Reply> -> string, events: seq<Event>)
    ensures Routed(digest, Run(digest, events))
  {
    if events != [] {
      OnlyOwnReplies(digest, events[..|events| - 1]);
      StepRoutes(digest, Run(digest, events[..|events| - 1]), events[|events| - 1]);
    }
  }

  function PrintedIds(batch: seq<Reply>): seq<string> {
    seq(|batch|, i requires 0 <= i < |batch| => Sprint(batch[i].id))
  }

  function SealedIds(data: seq<Sealed>): seq<string> {
    seq(|data|, i requires 0 <= i < |data| => data[i].id)
  }

  /** Request r received a batch, and was made for `data`. */
  predicate Received(short: string -> string, events: seq<Event>, r: nat, data: seq<Sealed>, batch: seq<Reply>) {
    var s := Run(results => Keys.ResultKey(short, results), events);
    r < |s.all| && s.all[r].key == Keys.RequestKey(short, data) && s.all[r].got.Some? && s.all[r].got.value.batch == batch
  }

  /** With a digest free of collisions, what a request receives bears the ids it sent, in some order,
      exactly when the sorted ids have the same widths. */
  lemma ReceivedIdsExactly(short: string -> string, events: seq<Event>, r: nat, data: seq<Sealed>, batch: seq<Reply>)
    requires Received(short, events, r, data, batch)
    requires forall x, y :: short(x) == short(y) ==> x == y
    ensures Keys.Key(short, PrintedIds(batch)) == Keys.Key(short, SealedIds(data))
    ensures multiset(PrintedIds(batch)) == multiset(SealedIds(data)) <==>
      Keys.Widths(Keys.Sort(PrintedIds(batch))) == Keys.Widths(Keys.Sort(SealedIds(data)))
  {
    var digest := results => Keys.ResultKey(short, results);
    OnlyOwnReplies(digest, events);
    assert digest(batch) == Keys.Key(short, PrintedIds(batch));
    assert Keys.RequestKey(short, data) == Keys.Key(short, SealedIds(data));
    Keys.KeyForgetsWidths(short, PrintedIds(batch), SealedIds(data));
  }

  /** So it does when these ids and those received are prefix-free together, or both are single. */
  lemma ReceivedIdsAreOwn(short: string -> string, events: seq<Event>, r: nat, data: seq<Sealed>, batch: seq<Reply>)
    requires Received(short, events, r, data, batch)
    requires forall x, y :: short(x) == short(y) ==> x == y
    requires Keys.PrefixFree(PrintedIds(batch) + SealedIds(data)) || |batch| == |data| == 1
    ensures multiset(PrintedIds(batch)) == multiset(SealedIds(data))
  {
    ReceivedIdsExactly(short, events, r, data, batch);
    Keys.SharedKeyMeansSharedIds(short, PrintedIds(batch), SealedIds(data));
  }

  // ---- runs whose in-flight keys are distinct ----

  /** Registered and not yet deleted. */
  predicate InFlight(r: Session) {
    r.phase.Waiting? || r.phase.Leaving? || r.phase.Captured?
  }

  predicate DistinctKeys(s: State) {
    forall i, j :: 0 <= i < j < |s.all| && InFlight(s.all[i]) && InFlight(s.all[j]) ==> s.all[i].key != s.all[j].key
  }

  ghost predicate DistinctRun(digest: seq<Reply> -> string, events: seq<Event>) {
    forall k :: 0 <= k <= |events| ==> DistinctKeys(Run(digest, events[..k]))
  }

  predicate OwnChannel(x: Session, r: nat) {
    && (x.phase.Captured? || x.phase.Deleted? ==> x.phase.chan == r)
    && !x.phase.Crashed?
    && x.closers == if x.phase.Gone? then [r] else []
  }

  /** `sessions` is exactly the in-flight requests under their own keys; a channel is closed exactly by
      its owner, once, when the owner is done. */
  ghost predicate Exclusive(s: State) {
    && (forall r :: 0 <= r < |s.all| && InFlight(s.all[r]) ==> s.all[r].key in s.sessions && s.sessions[s.all[r].key] == r)
    && (forall k :: k in s.sessions ==> s.sessions[k] < |s.all| && s.all[s.sessions[k]].key == k && InFlight(s.all[s.sessions[k]]))
    && (forall r :: 0 <= r < |s.all| ==> OwnChannel(s.all[r], r))
  }

  lemma ReplaceKeepsExclusive(s: State, r: nat, x: Session)
    requires Exclusive(s) && r < |s.all|
    requires x.key == s.all[r].key && InFlight(x) == InFlight(s.all[r]) && OwnChannel(x, r)
    ensures Exclusive(s.(all := s.all[r := x]))
  {
    var t := s.(all := s.all[r := x]);
    forall i | 0 <= i < |t.all|
      ensures OwnChannel(t.all[i], i)
      ensures t.all[i].key == s.all[i].key && InFlight(t.all[i]) == InFlight(s.all[i])
    {
    }
  }

  lemma RegisterKeepsExclusive(s: State, key: string, digest: seq<Reply> -> string)
    requires Exclusive(s) && DistinctKeys(Step(digest, s, Register(key)))
    ensures Exclusive(Step(digest, s, Register(key)))
  {
    var t := Step(digest, s, Register(key));
    var n := |s.all|;
    assert t.all[n].key == key && InFlight(t.all[n]);
    forall r | 0 <= r < n
      ensures t.all[r] == s.all[r] && (InFlight(s.all[r]) ==> s.all[r].key != key)
    {
    }
  }

  lemma DeleteKeepsExclusive(s: State, r: nat, digest: seq<Reply> -> string)
    requires Exclusive(s) && r < |s.all| && s.all[r].phase.Captured?
    ensures Exclusive(Step(digest, s, CleanDelete(r)))
  {
    var t := Step(digest, s, CleanDelete(r));
    assert s.sessions[s.all[r].key] == r;
    forall i | 0 <= i < |t.all|
      ensures OwnChannel(t.all[i], i) && t.all[i].key == s.all[i].key
      ensures InFlight(t.all[i]) <==> InFlight(s.all[i]) && i != r
    {
    }
    forall i | 0 <= i < |t.all| && InFlight(t.all[i])
      ensures t.all[i].key in t.sessions && t.sessions[t.all[i].key] == i
    {
      assert s.all[i].key != s.all[r].key;
    }
  }

  /** Sending, giving up and loading change the phase of one request that stays in flight. */
  lemma PhaseKeepsExclusive(s: State, e: Event, digest: seq<Reply> -> string)
    requires Exclusive(s) && (e.Send? || e.GiveUp? || e.CleanLoad?)
    ensures Exclusive(Step(digest, s, e))
  {
    var t := Step(digest, s, e);
    if t.all != s.all {
      var r := if e.Send? then s.readers[e.b].chan else e.r;
      assert t.all == s.all[r := t.all[r]];
      ReplaceKeepsExclusive(s, r, t.all[r]);
    }
  }

  lemma CloseKeepsExclusive(s: State, r: nat, digest: seq<Reply> -> string)
    requires Exclusive(s) && r < |s.all| && s.all[r].phase.Deleted?
    ensures Exclusive(Step(digest, s, CleanClose(r)))
  {
    var t := Step(digest, s, CleanClose(r));
    assert OwnChannel(s.all[r], r);
    assert t.all == s.all[r := s.all[r].(closers := [r], phase := Gone)];
    ReplaceKeepsExclusive(s, r, t.all[r]);
  }

  lemma StepKeepsExclusive(digest: seq<Reply> -> string, s: State, e: Event)
    requires Exclusive(s) && DistinctKeys(Step(digest, s, e))
    ensures Exclusive(Step(digest, s, e))
  {
    match e
    case Connect =>
    case Register(key) => RegisterKeepsExclusive(s, key, digest);
    case Read(b, letter) =>
    case SeeClosed(r) =>
      assert r < |s.all| ==> OwnChannel(s.all[r], r);
    case CleanDelete(r) =>
      if r < |s.all| && s.all[r].phase.Captured? {
        DeleteKeepsExclusive(s, r, digest);
      }
    case CleanClose(r) =>
      if r < |s.all| && s.all[r].phase.Deleted? {
        CloseKeepsExclusive(s, r, digest);
      }
    case _ => PhaseKeepsExclusive(s, e, digest);
  }

  /** Main result: while in-flight keys are pairwise distinct, `sessions` maps each in-flight key to its
      own channel and nothing else, and each channel is closed exactly once, by its owner. */
  lemma {:induction false} DistinctKeysAreExclusive(digest: seq<Reply> -> string, events: seq<Event>)
    requires DistinctRun(digest, events)
    ensures Exclusive(Run(digest, events))
  {
    assert events[..|events|] == events;
    if events != [] {
      var before := events[..|events| - 1];
      forall k | 0 <= k <= |before|
        ensures DistinctKeys(Run(digest, before[..k]))
      {
        assert before[..k] == events[..k];
      }
      DistinctKeysAreExclusive(digest, before);
      StepKeepsExclusive(digest, Run(digest, before), events[|events| - 1]);
    }
  }

  /** Distinct keys are exactly what exclusive sessions need: at every moment of a run both hold or at
      some moment neither does. */
  lemma ExclusiveExactly(digest: seq<Reply> -> string, events: seq<Event>)
    ensures DistinctRun(digest, events) <==> forall k :: 0 <= k <= |events| ==> Exclusive(Run(digest, events[..k]))
  {
    if DistinctRun(digest, events) {
      forall k | 0 <= k <= |events|
        ensures Exclusive(Run(digest, events[..k]))
      {
        assert forall j :: 0 <= j <= k ==> events[..k][..j] == events[..j];
        DistinctKeysAreExclusive(digest, events[..k]);
      }
    }
    if forall k :: 0 <= k <= |events| ==> Exclusive(Run(digest, events[..k])) {
      forall k | 0 <= k <= |events|
        ensures DistinctKeys(Run(digest, events[..k]))
      {
        assert Exclusive(Run(digest, events[..k]));
      }
    }
  }
}
