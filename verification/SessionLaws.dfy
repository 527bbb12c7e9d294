/** What every order of arrivals, and every pattern of failing writes, keeps. */
module SessionLaws {
  import opened Text
  import opened Session

  /** The response each command id gets. */
  type Answers = int -> Bytes

  /** The response of `id` has been handed to the session: it was sent (or tried
      as the next one), or it waits. */
  predicate Arrived(s: Session, id: int) {
    0 <= id < s.toSend || id in s.buffered
  }

  /** Every attempt was for an arrived response, its own. */
  ghost predicate Own(s: Session, answers: Answers) {
    forall i | 0 <= i < |s.wire| ::
      Arrived(s, s.wire[i].id) && s.wire[i].response == answers(s.wire[i].id) && s.wire[i].count <= |s.wire[i].response|
  }

  /** Successful replies left in increasing order of ids below the cursor. */
  ghost predicate Increasing(wire: seq<Attempt>, toSend: int) {
    && (forall i | 0 <= i < |wire| && wire[i].Positive() :: 0 <= wire[i].id < toSend)
    && (forall i, j | 0 <= i < j < |wire| && wire[i].Positive() && wire[j].Positive() :: wire[i].id < wire[j].id)
  }

  ghost predicate WireSound(s: Session, answers: Answers) {
    Own(s, answers) && Increasing(s.wire, s.toSend)
  }

  /** While no `reply` failed, exactly the responses below the cursor were given
      to `write`, once each and in order. */
  ghost predicate Undisturbed(s: Session, answers: Answers, oracle: Oracle) {
    !s.eof ==> 0 <= s.toSend && s.wire == InOrder(s.toSend, answers, oracle) && forall i | 0 <= i < |s.wire| :: s.wire[i].Positive()
  }

  ghost predicate Waiting(s: Session, answers: Answers) {
    forall k | k in s.buffered :: s.toSend <= k && s.buffered[k] == answers(k)
  }

  /** All that holds before the waiting responses are drained. */
  ghost predicate Weak(s: Session, answers: Answers, oracle: Oracle) {
    && 0 <= s.toSend && WireSound(s, answers) && Waiting(s, answers) && Undisturbed(s, answers, oracle)
  }

  ghost predicate Sound(s: Session, answers: Answers, oracle: Oracle) {
    Weak(s, answers, oracle) && (!s.eof ==> s.toSend !in s.buffered)
  }

  /** The first `n` responses in request order, with what became of their writes. */
  function InOrder(n: nat, answers: Answers, oracle: Oracle): (wire: seq<Attempt>)
    ensures |wire| == n
    ensures forall i | 0 <= i < n :: wire[i] == Attempt(i, answers(i), Count(oracle(i), answers(i)))
  {
    if n == 0 then []
    else InOrder(n - 1, answers, oracle) + [Attempt(n - 1, answers(n - 1), Count(oracle(n - 1), answers(n - 1)))]
  }

  // ----- one insertion -----

  /** Trying the response at the cursor, and moving the cursor on. */
  function Advanced(s: Session, answers: Answers, oracle: Oracle): Session {
    Attempted(s, Try(s, s.toSend, answers(s.toSend), oracle))
    .(toSend := s.toSend + 1, buffered := s.buffered - {s.toSend})
  }

  lemma IncreasingAppend(wire: seq<Attempt>, toSend: int, a: Attempt)
    requires 0 <= toSend && Increasing(wire, toSend) && a.id == toSend
    ensures Increasing(wire + [a], toSend + 1)
    ensures !a.Positive() ==> Increasing(wire + [a], toSend)
  {
  }

  lemma OwnAppend(s: Session, answers: Answers, oracle: Oracle, s': Session)
    requires Own(s, answers) && s'.wire == s.wire + [Try(s, s.toSend, answers(s.toSend), oracle)]
    requires Arrived(s', s.toSend) && forall id | Arrived(s, id) :: Arrived(s', id)
    ensures Own(s', answers)
  {
  }

  lemma AdvanceArrives(s: Session, answers: Answers, oracle: Oracle)
    requires 0 <= s.toSend
    ensures forall id :: Arrived(Advanced(s, answers, oracle), id) <==> Arrived(s, id) || id == s.toSend
  {
  }

  lemma AdvanceUndisturbed(s: Session, answers: Answers, oracle: Oracle)
    requires 0 <= s.toSend && Undisturbed(s, answers, oracle)
    ensures Undisturbed(Advanced(s, answers, oracle), answers, oracle)
  {
  }

  lemma AdvanceWaiting(s: Session, answers: Answers, oracle: Oracle)
    requires Waiting(s, answers)
    ensures Waiting(Advanced(s, answers, oracle), answers)
  {
  }

  lemma Advance(s: Session, answers: Answers, oracle: Oracle)
    requires Weak(s, answers, oracle)
    ensures Weak(Advanced(s, answers, oracle), answers, oracle)
    ensures forall id :: Arrived(Advanced(s, answers, oracle), id) <==> Arrived(s, id) || id == s.toSend
  {
    var s' := Advanced(s, answers, oracle);
    AdvanceArrives(s, answers, oracle);
    hide Arrived, Undisturbed, Own, Increasing, Waiting, Try, Count;
    AdvanceWaiting(s, answers, oracle);
    AdvanceUndisturbed(s, answers, oracle);
    OwnAppend(s, answers, oracle, s');
    IncreasingAppend(s.wire, s.toSend, Try(s, s.toSend, answers(s.toSend), oracle));
  }

  /** A response whose write failed stays where it is. */
  lemma FailedTry(s: Session, answers: Answers, oracle: Oracle)
    requires Weak(s, answers, oracle) && s.toSend in s.buffered
    requires !Try(s, s.toSend, answers(s.toSend), oracle).Positive()
    ensures Sound(Attempted(s, Try(s, s.toSend, answers(s.toSend), oracle)), answers, oracle)
  {
    var a := Try(s, s.toSend, answers(s.toSend), oracle);
    OwnAppend(s, answers, oracle, Attempted(s, a));
    IncreasingAppend(s.wire, s.toSend, a);
    hide Own, Increasing;
  }

  lemma {:induction false} DrainSound(s: Session, answers: Answers, oracle: Oracle)
    requires Weak(s, answers, oracle)
    ensures Sound(Drain(s, oracle), answers, oracle)
    ensures forall id :: Arrived(Drain(s, oracle), id) <==> Arrived(s, id)
    decreases |s.buffered|
  {
    if s.toSend in s.buffered {
      var a := Try(s, s.toSend, answers(s.toSend), oracle);
      assert IsFirst(s.toSend, s.buffered) && s.buffered[s.toSend] == answers(s.toSend);
      if a.Positive() {
        Advance(s, answers, oracle);
        DrainSound(Advanced(s, answers, oracle), answers, oracle);
      } else {
        FailedTry(s, answers, oracle);
      }
    }
  }

  lemma {:induction false} DrainGrows(s: Session, oracle: Oracle)
    ensures var s' := Drain(s, oracle); s.wire <= s'.wire && (s.eof ==> s'.eof) && s.toSend <= s'.toSend
    decreases |s.buffered|
  {
    if IsFirst(s.toSend, s.buffered) && Try(s, s.toSend, s.buffered[s.toSend], oracle).Positive() {
      DrainGrows(Attempted(s, Try(s, s.toSend, s.buffered[s.toSend], oracle))
                 .(toSend := s.toSend + 1, buffered := s.buffered - {s.toSend}), oracle);
    }
  }

  /** Nothing sent is taken back, and end-of-file stays. */
  lemma InsertGrows(s: Session, id: int, response: Bytes, oracle: Oracle)
    ensures var s' := Insert(s, id, response, oracle);
      s.wire <= s'.wire && (s.eof ==> s'.eof) && s.toSend <= s'.toSend
  {
    if id == s.toSend {
      DrainGrows(Attempted(s, Try(s, id, response, oracle)).(toSend := s.toSend + 1), oracle);
    } else if id in s.buffered {
      DrainGrows(s, oracle);
    } else {
      DrainGrows(s.(buffered := s.buffered[id := response]), oracle);
    }
  }

  lemma BufferedSound(s: Session, id: int, answers: Answers, oracle: Oracle)
    requires Sound(s, answers, oracle) && 0 <= id && !Arrived(s, id)
    ensures Weak(s.(buffered := s.buffered[id := answers(id)]), answers, oracle)
  {
  }

  /** Whatever writes fail, a new id joins the arrived ones, and no response is
      mixed up or reordered. */
  lemma {:induction false} InsertSound(s: Session, id: int, answers: Answers, oracle: Oracle)
    requires Sound(s, answers, oracle) && 0 <= id && !Arrived(s, id)
    ensures Sound(Insert(s, id, answers(id), oracle), answers, oracle)
    ensures forall other ::
      Arrived(Insert(s, id, answers(id), oracle), other) <==> Arrived(s, other) || other == id
  {
    if id == s.toSend {
      Advance(s, answers, oracle);
      assert s.buffered - {s.toSend} == s.buffered;
      DrainSound(Advanced(s, answers, oracle), answers, oracle);
    } else {
      var s1 := s.(buffered := s.buffered[id := answers(id)]);
      BufferedSound(s, id, answers, oracle);
      assert forall other :: Arrived(s1, other) <==> Arrived(s, other) || other == id;
      DrainSound(s1, answers, oracle);
    }
  }

  /** The soundness of a session depends on the answers of arrived ids only. */
  lemma SoundAgrees(s: Session, answers: Answers, answers': Answers, oracle: Oracle)
    requires Sound(s, answers, oracle)
    requires forall id | Arrived(s, id) :: answers(id) == answers'(id)
    ensures Sound(s, answers', oracle)
  {
    assert forall id | 0 <= id < s.toSend :: Arrived(s, id);
    assert forall k | k in s.buffered :: Arrived(s, k);
  }

  // ----- ids that come twice -----

  /** Of two responses to a buffered id the one that came first is kept. */
  lemma FirstResponseIsKept(s: Session, id: int, response: Bytes, oracle: Oracle)
    requires id in s.buffered && id != s.toSend
    ensures Insert(s, id, response, oracle) == Insert(s, id, s.buffered[id], oracle)
  {
  }

  /** A response to an id below the cursor stays buffered for ever, and in front of all
      others: from then on only what comes as the next one is sent. */
  lemma StaleBlocks(s: Session, stale: int, id: int, response: Bytes, oracle: Oracle)
    requires stale in s.buffered && stale < s.toSend
    ensures var s' := Insert(s, id, response, oracle);
      && stale in s'.buffered && stale < s'.toSend
      && s'.wire == s.wire + (if id == s.toSend then [Try(s, id, response, oracle)] else [])
      && s'.toSend == s.toSend + (if id == s.toSend then 1 else 0)
      && s'.buffered.Keys == s.buffered.Keys + (if id == s.toSend then {} else {id})
  {
    if id == s.toSend {
      NothingDrains(Attempted(s, Try(s, id, response, oracle)).(toSend := s.toSend + 1), stale, oracle);
    } else if id in s.buffered {
      NothingDrains(s, stale, oracle);
    } else {
      NothingDrains(s.(buffered := s.buffered[id := response]), stale, oracle);
    }
  }

  lemma NothingDrains(s: Session, stale: int, oracle: Oracle)
    requires stale in s.buffered && stale < s.toSend
    ensures Drain(s, oracle) == s
  {
    assert !IsFirst(s.toSend, s.buffered);
  }

  /** And that is where such a response goes. */
  lemma LateResponseIsStale(s: Session, id: int, response: Bytes, oracle: Oracle)
    requires id < s.toSend && id !in s.buffered
    ensures var s' := Insert(s, id, response, oracle);
      id in s'.buffered && s'.buffered[id] == response && s'.wire == s.wire && s'.toSend == s.toSend
  {
    NothingDrains(s.(buffered := s.buffered[id := response]), id, oracle);
  }

  // ----- the flag -----

  /** The write of this response, were it the `id`-th one, takes nothing. */
  predicate Refused(id: nat, answers: Answers, oracle: Oracle) {
    answers(id) != [] && oracle(id) == 0
  }

  /** The flag is set only because the next one of the first responses was refused. */
  ghost predicate Caused(s: Session, answers: Answers, oracle: Oracle) {
    s.eof ==> exists i: nat :: Refused(i, answers, oracle) && forall j | 0 <= j <= i :: Arrived(s, j)
  }

  lemma TryCaused(s: Session, answers: Answers, oracle: Oracle, s': Session)
    requires Weak(s, answers, oracle) && Caused(s, answers, oracle)
    requires s'.eof == (s.eof || !Try(s, s.toSend, answers(s.toSend), oracle).Positive())
    requires Arrived(s', s.toSend) && forall id | Arrived(s, id) :: Arrived(s', id)
    ensures Caused(s', answers, oracle)
  {
    if s.eof {
      var i: nat :| Refused(i, answers, oracle) && forall j | 0 <= j <= i :: Arrived(s, j);
      assert forall j | 0 <= j <= i :: Arrived(s', j);
    } else if s'.eof {
      assert |s.wire| == s.toSend && Refused(s.toSend, answers, oracle);
      assert forall j | 0 <= j < s.toSend :: Arrived(s, j);
    }
  }

  lemma {:induction false} DrainCaused(s: Session, answers: Answers, oracle: Oracle)
    requires Weak(s, answers, oracle) && Caused(s, answers, oracle)
    ensures Caused(Drain(s, oracle), answers, oracle)
    decreases |s.buffered|
  {
    if s.toSend in s.buffered {
      var a := Try(s, s.toSend, answers(s.toSend), oracle);
      assert IsFirst(s.toSend, s.buffered) && s.buffered[s.toSend] == answers(s.toSend);
      if a.Positive() {
        Advance(s, answers, oracle);
        TryCaused(s, answers, oracle, Advanced(s, answers, oracle));
        DrainCaused(Advanced(s, answers, oracle), answers, oracle);
      } else {
        TryCaused(s, answers, oracle, Attempted(s, a));
      }
    }
  }

  lemma InsertCaused(s: Session, id: int, answers: Answers, oracle: Oracle)
    requires Sound(s, answers, oracle) && Caused(s, answers, oracle) && 0 <= id && !Arrived(s, id)
    ensures Caused(Insert(s, id, answers(id), oracle), answers, oracle)
  {
    if id == s.toSend {
      Advance(s, answers, oracle);
      TryCaused(s, answers, oracle, Advanced(s, answers, oracle));
      assert s.buffered - {s.toSend} == s.buffered;
      DrainCaused(Advanced(s, answers, oracle), answers, oracle);
    } else {
      var s1 := s.(buffered := s.buffered[id := answers(id)]);
      BufferedSound(s, id, answers, oracle);
      assert forall other | Arrived(s, other) :: Arrived(s1, other);
      DrainCaused(s1, answers, oracle);
    }
  }

  /** While the flag is not set no response below the cursor was refused. */
  lemma NoneRefused(s: Session, answers: Answers, oracle: Oracle, i: nat)
    requires Sound(s, answers, oracle) && !s.eof && i < s.toSend
    ensures !Refused(i, answers, oracle)
  {
    assert s.wire[i] == Attempt(i, answers(i), Count(oracle(i), answers(i))) && s.wire[i].Positive();
  }

  // ----- all arrivals -----

  function InsertAll(s: Session, ids: seq<int>, answers: Answers, oracle: Oracle): Session
    decreases |ids|
  {
    if ids == [] then s
    else InsertAll(Insert(s, ids[0], answers(ids[0]), oracle), ids[1..], answers, oracle)
  }

  ghost predicate Distinct(ids: seq<int>) {
    forall i, j | 0 <= i < j < |ids| :: ids[i] != ids[j]
  }

  lemma {:induction false} InsertAllSound(s: Session, ids: seq<int>, answers: Answers, oracle: Oracle)
    requires Sound(s, answers, oracle) && Distinct(ids)
    requires forall i | 0 <= i < |ids| :: 0 <= ids[i] && !Arrived(s, ids[i])
    ensures Sound(InsertAll(s, ids, answers, oracle), answers, oracle)
    ensures forall id :: Arrived(InsertAll(s, ids, answers, oracle), id) <==> Arrived(s, id) || id in ids
    decreases |ids|
  {
    if ids != [] {
      var s1 := Insert(s, ids[0], answers(ids[0]), oracle);
      InsertSound(s, ids[0], answers, oracle);
      InsertAllSound(s1, ids[1..], answers, oracle);
      assert forall id :: id in ids <==> id == ids[0] || id in ids[1..];
    }
  }

  lemma {:induction false} InsertAllCaused(s: Session, ids: seq<int>, answers: Answers, oracle: Oracle)
    requires Sound(s, answers, oracle) && Caused(s, answers, oracle) && Distinct(ids)
    requires forall i | 0 <= i < |ids| :: 0 <= ids[i] && !Arrived(s, ids[i])
    ensures Caused(InsertAll(s, ids, answers, oracle), answers, oracle)
    decreases |ids|
  {
    hide Caused, Sound;
    if ids != [] {
      InsertSound(s, ids[0], answers, oracle);
      InsertCaused(s, ids[0], answers, oracle);
      InsertAllCaused(Insert(s, ids[0], answers(ids[0]), oracle), ids[1..], answers, oracle);
    }
  }

  /** One of the responses that can be sent, as all before it are there, is refused. */
  ghost predicate Fails(ids: seq<int>, answers: Answers, oracle: Oracle) {
    exists i: nat :: Refused(i, answers, oracle) && forall j | 0 <= j <= i :: j in ids
  }

  /** When arrivals end the session: it does not depend on their order. */
  lemma EofExactly(ids: seq<int>, answers: Answers, oracle: Oracle)
    requires Distinct(ids) && forall i | 0 <= i < |ids| :: 0 <= ids[i]
    ensures InsertAll(Opened, ids, answers, oracle).eof <==> Fails(ids, answers, oracle)
  {
    var s := InsertAll(Opened, ids, answers, oracle);
    InsertAllSound(Opened, ids, answers, oracle);
    InsertAllCaused(Opened, ids, answers, oracle);
    if s.eof {
      var i: nat :| Refused(i, answers, oracle) && forall j | 0 <= j <= i :: Arrived(s, j);
      assert forall j | 0 <= j <= i :: j in ids;
    } else {
      Shape(s, ids, answers, oracle);
      forall i: nat | Refused(i, answers, oracle) ensures !forall j | 0 <= j <= i :: j in ids {
        if i < s.toSend {
          NoneRefused(s, answers, oracle, i);
        }
        assert s.toSend !in ids;
      }
    }
  }

  /** After any arrivals that do not end the session, the replies sent are exactly
      those of [0, k) for the first id k not arrived, and exactly the arrived
      ids above k wait. */
  lemma {:induction false} AfterArrivals(ids: seq<int>, answers: Answers, oracle: Oracle)
    requires Distinct(ids) && (forall i | 0 <= i < |ids| :: 0 <= ids[i]) && !Fails(ids, answers, oracle)
    ensures var s := InsertAll(Opened, ids, answers, oracle); var k := s.toSend;
      && 0 <= k && k !in ids && (forall id | 0 <= id < k :: id in ids)
      && s.wire == InOrder(k, answers, oracle) && !s.eof
      && (forall id :: id in s.buffered <==> id in ids && id > k)
      && (forall id | id in s.buffered :: s.buffered[id] == answers(id))
  {
    InsertAllSound(Opened, ids, answers, oracle);
    EofExactly(ids, answers, oracle);
    Shape(InsertAll(Opened, ids, answers, oracle), ids, answers, oracle);
  }

  lemma Shape(s: Session, ids: seq<int>, answers: Answers, oracle: Oracle)
    requires Sound(s, answers, oracle) && !s.eof && forall id :: Arrived(s, id) <==> id in ids
    ensures s.toSend !in ids && (forall id | 0 <= id < s.toSend :: id in ids)
    ensures forall id :: id in s.buffered <==> id in ids && id > s.toSend
  {
    assert !Arrived(s, s.toSend);
    forall id ensures id in s.buffered <==> id in ids && id > s.toSend {
      assert Arrived(s, id) <==> id in ids;
    }
    forall id | 0 <= id < s.toSend ensures id in ids {
      assert Arrived(s, id);
    }
  }

  /** The session is a function of what arrived, not of the order. */
  lemma Canonical(s: Session, t: Session, answers: Answers, oracle: Oracle)
    requires Sound(s, answers, oracle) && Sound(t, answers, oracle) && !s.eof && !t.eof
    requires forall id :: Arrived(s, id) <==> Arrived(t, id)
    ensures s == t
  {
    assert !Arrived(s, s.toSend) && !Arrived(t, t.toSend);
    assert Arrived(t, s.toSend) <==> Arrived(s, s.toSend);
    assert s.toSend == t.toSend;
    forall k
      ensures k in s.buffered <==> k in t.buffered
      ensures k in s.buffered ==> s.buffered[k] == answers(k) == t.buffered[k]
    {
      assert Arrived(s, k) <==> Arrived(t, k);
    }
    assert s.buffered == t.buffered;
  }

  /** Two arrival orders of the same ids both end the session or neither does; and if
      they do not, they leave the same context. */
  lemma Confluence(a: seq<int>, b: seq<int>, answers: Answers, oracle: Oracle)
    requires Distinct(a) && (forall i | 0 <= i < |a| :: 0 <= a[i]) && multiset(a) == multiset(b)
    ensures var s, t := InsertAll(Opened, a, answers, oracle), InsertAll(Opened, b, answers, oracle);
      && (s.eof <==> t.eof) && (s.eof <==> Fails(a, answers, oracle))
      && (!s.eof ==> s == t)
  {
    PermutedDistinct(a, b);
    forall id ensures id in a <==> id in b {
      assert id in multiset(a) <==> id in multiset(b);
    }
    forall i | 0 <= i < |b| ensures 0 <= b[i] {
      assert b[i] in a;
    }
    EofExactly(a, answers, oracle);
    EofExactly(b, answers, oracle);
    assert Fails(a, answers, oracle) <==> Fails(b, answers, oracle);
    InsertAllSound(Opened, a, answers, oracle);
    InsertAllSound(Opened, b, answers, oracle);
    hide Fails, Sound;
    if !InsertAll(Opened, a, answers, oracle).eof {
      Canonical(InsertAll(Opened, a, answers, oracle), InsertAll(Opened, b, answers, oracle), answers, oracle);
    }
  }

  // ----- replies that are given up -----

  /** The client was sent something for this request, as far as `reply` can tell. */
  ghost predicate Sent(s: Session, id: int) {
    exists i | 0 <= i < |s.wire| :: s.wire[i].id == id && s.wire[i].Positive()
  }

  /** The response is at the cursor when it comes, and its `write` takes nothing. */
  predicate GivesUp(s: Session, id: int, response: Bytes, oracle: Oracle) {
    id == s.toSend && response != [] && oracle(|s.wire|) == 0
  }

  /** The ids that are given up on the way. */
  function GivenUp(s: Session, ids: seq<int>, answers: Answers, oracle: Oracle): set<int>
    decreases |ids|
  {
    if ids == [] then {}
    else
      (if GivesUp(s, ids[0], answers(ids[0]), oracle) then {ids[0]} else {})
      + GivenUp(Insert(s, ids[0], answers(ids[0]), oracle), ids[1..], answers, oracle)
  }

  lemma TrySent(s: Session, a: Attempt, other: int)
    ensures Sent(Attempted(s, a), other) <==> Sent(s, other) || (a.Positive() && a.id == other)
  {
    var wire := s.wire + [a];
    assert wire[|s.wire|] == a && forall i | 0 <= i < |s.wire| :: wire[i] == s.wire[i];
  }

  /** Draining sends what the cursor passes: a failure here only stops it. */
  lemma {:induction false} DrainSends(s: Session, oracle: Oracle, id: int)
    ensures Sent(Drain(s, oracle), id) <==> Sent(s, id) || s.toSend <= id < Drain(s, oracle).toSend
    decreases |s.buffered|
  {
    if IsFirst(s.toSend, s.buffered) {
      var a := Try(s, s.toSend, s.buffered[s.toSend], oracle);
      var s1 := Attempted(s, a).(toSend := s.toSend + 1, buffered := s.buffered - {s.toSend});
      TrySent(s, a, id);
      if a.Positive() {
        assert Sent(s1, id) <==> Sent(Attempted(s, a), id);
        DrainSends(s1, oracle, id);
        DrainGrows(s1, oracle);
      }
    }
  }

  lemma InsertSends(s: Session, arriving: int, response: Bytes, oracle: Oracle, id: int)
    ensures var s' := Insert(s, arriving, response, oracle); var given := GivesUp(s, arriving, response, oracle) && id == arriving;
      Sent(s', id) <==> Sent(s, id) || (s.toSend <= id < s'.toSend && !given)
  {
    if arriving == s.toSend {
      var a := Try(s, arriving, response, oracle);
      var s1 := Attempted(s, a).(toSend := s.toSend + 1);
      TrySent(s, a, id);
      assert Sent(s1, id) <==> Sent(Attempted(s, a), id);
      DrainSends(s1, oracle, id);
      DrainGrows(s1, oracle);
    } else if arriving in s.buffered {
      DrainSends(s, oracle, id);
    } else {
      var s1 := s.(buffered := s.buffered[arriving := response]);
      assert Sent(s1, id) <==> Sent(s, id);
      DrainSends(s1, oracle, id);
    }
  }

  /** What is sent between two states is what the cursor passed, less what was
      given up. */
  lemma {:induction false} InsertAllSends(s: Session, ids: seq<int>, answers: Answers, oracle: Oracle, id: int)
    ensures var s', given := InsertAll(s, ids, answers, oracle), GivenUp(s, ids, answers, oracle);
      && s.toSend <= s'.toSend && (id in given ==> s.toSend <= id < s'.toSend)
      && (Sent(s', id) <==> Sent(s, id) || (s.toSend <= id < s'.toSend && id !in given))
    decreases |ids|
  {
    hide Sent, Insert;
    if ids != [] {
      var s1 := Insert(s, ids[0], answers(ids[0]), oracle);
      InsertSends(s, ids[0], answers(ids[0]), oracle, id);
      InsertGrows(s, ids[0], answers(ids[0]), oracle);
      InsertPasses(s, ids[0], answers(ids[0]), oracle);
      InsertAllSends(s1, ids[1..], answers, oracle, id);
    }
  }

  lemma InsertPasses(s: Session, id: int, response: Bytes, oracle: Oracle)
    ensures id == s.toSend ==> id < Insert(s, id, response, oracle).toSend
  {
    if id == s.toSend {
      DrainGrows(Attempted(s, Try(s, id, response, oracle)).(toSend := s.toSend + 1), oracle);
    }
  }

  /** Under every pattern of writes and every arrival order: the replies sent are
      those below the cursor that were not given up.  So there is no gap among
      them if and only if no response that came as the next one met a `write`
      that took nothing; one that waited is tried again. */
  lemma GapFree(ids: seq<int>, answers: Answers, oracle: Oracle)
    ensures var s, given := InsertAll(Opened, ids, answers, oracle), GivenUp(Opened, ids, answers, oracle);
      && (forall id :: Sent(s, id) <==> 0 <= id < s.toSend && id !in given)
      && ((forall id | 0 <= id < s.toSend :: Sent(s, id)) <==> given == {})
  {
    hide Sent;
    var s, given := InsertAll(Opened, ids, answers, oracle), GivenUp(Opened, ids, answers, oracle);
    forall id
      ensures Sent(s, id) <==> 0 <= id < s.toSend && id !in given
      ensures id in given ==> 0 <= id < s.toSend
    {
      InsertAllSends(Opened, ids, answers, oracle, id);
      NothingSent(id);
    }
    forall id | id in given ensures 0 <= id < s.toSend {
      InsertAllSends(Opened, ids, answers, oracle, id);
    }
    assert given != {} ==> exists id :: id in given;
  }

  /** Such a gap: the reply is given up and the one behind it still goes out. */
  lemma GapAfterFailedWrite(answers: Answers, oracle: Oracle)
    requires oracle(0) == 0 && oracle(1) != 0 && answers(0) != []
    ensures var s := InsertAll(Opened, [1, 0], answers, oracle); s.toSend == 2 && !Sent(s, 0) && Sent(s, 1)
  {
    var s1 := Insert(Opened, 1, answers(1), oracle);
    assert s1 == Session(0, map[1 := answers(1)], false, []);
    assert IsFirst(1, s1.buffered);
    GapFree([1, 0], answers, oracle);
    assert [1, 0][1..] == [0] && [0][1..] == [];
    assert InsertAll(s1, [0], answers, oracle) == Insert(s1, 0, answers(0), oracle);
    var a := Try(s1, 0, answers(0), oracle);
    var s2 := Attempted(s1, a).(toSend := 1);
    assert Try(s2, 1, answers(1), oracle).Positive() && s2.buffered - {1} == map[];
    assert Drain(s2, oracle).toSend == 2;
    assert GivenUp(Opened, [1, 0], answers, oracle) == {0};
  }

  lemma NothingSent(id: int)
    ensures !Sent(Opened, id)
  {
  }

  /** A `write` that fails with -1 counts as success: nothing was sent, the session
      stays open, and the next reply goes out. */
  lemma FailedWriteGoesUnnoticed(answers: Answers, oracle: Oracle)
    requires oracle(0) < 0 && answers(0) != []
    ensures var s := InsertAll(Opened, [0], answers, oracle);
      !s.eof && s.toSend == 1 && s.wire == [Attempt(0, answers(0), -1)] && Sent(s, 0) && s.wire[0].Sent() == []
  {
    var a := Attempt(0, answers(0), -1);
    var s1 := Attempted(Opened, a).(toSend := 1);
    assert Insert(Opened, 0, answers(0), oracle) == Drain(s1, oracle) == s1;
    assert s1.wire == [a] && s1.wire[0] == a && [0][1..] == [];
  }

  lemma PermutedDistinct(a: seq<int>, b: seq<int>)
    requires Distinct(a) && multiset(a) == multiset(b)
    ensures Distinct(b)
  {
    forall i, j | 0 <= i < j < |b| ensures b[i] != b[j] {
      CountTwice(b, i, j);
      CountOnce(a, b[i]);
    }
  }

  lemma CountTwice(s: seq<int>, i: nat, j: nat)
    requires i < j < |s|
    ensures s[i] == s[j] ==> multiset(s)[s[i]] >= 2
  {
    assert s == s[..i] + [s[i]] + s[i + 1..j] + [s[j]] + s[j + 1..];
  }

  lemma {:induction false} CountOnce(s: seq<int>, x: int)
    requires Distinct(s)
    ensures multiset(s)[x] <= 1
  {
    if s != [] {
      assert s == [s[0]] + s[1..];
      CountOnce(s[1..], x);
      if x == s[0] {
        assert x !in s[1..];
      }
    }
  }
}
