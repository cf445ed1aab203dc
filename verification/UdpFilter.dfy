/**
 The filter on UDP connection requests in DM_STUN_readManagement (dm_stun.c): what
 it remembers over a run, and which requests it takes for new.
 */
module UdpFilter {
  import opened RateLimiter

  datatype UdpRequest = UdpRequest(timeStamp: int, messageId: int)

  /** The two fields that the thread keeps. */
  datatype Memory = Memory(timeStamp: int, messageId: int)

  const START := Memory(0, 0)

  function Remember(m: Memory, r: UdpRequest): Memory {
    if r.timeStamp >= m.timeStamp then Memory(r.timeStamp, r.messageId) else m
  }

  /** The limiter, and then the engine, are asked for such a request only. */
  predicate IsNew(m: Memory, r: UdpRequest) {
    r.timeStamp >= m.timeStamp && r.messageId != m.messageId
  }

  /** What is remembered after these requests. */
  function After(requests: seq<UdpRequest>): Memory
    decreases |requests|
  {
    if requests == [] then START
    else Remember(After(requests[..|requests| - 1]), requests[|requests| - 1])
  }

  /** Request number `i` of a run was taken for new. */
  predicate Passed(requests: seq<UdpRequest>, i: nat)
    requires i < |requests|
  {
    IsNew(After(requests[..i]), requests[i])
  }

  lemma AfterNext(requests: seq<UdpRequest>, i: nat)
    requires i < |requests|
    ensures After(requests[..i + 1]) == Remember(After(requests[..i]), requests[i])
  {
    assert requests[..i + 1][..i] == requests[..i];
  }

  /** The recorded timestamp never decreases. */
  lemma {:induction false} TimeStampGrows(requests: seq<UdpRequest>, i: nat, j: nat)
    requires i <= j <= |requests|
    ensures After(requests[..i]).timeStamp <= After(requests[..j]).timeStamp
    decreases j - i
  {
    hide After;
    if i < j {
      TimeStampGrows(requests, i, j - 1);
      AfterNext(requests, j - 1);
    }
  }

  /** It is the latest of all timestamps received, taken or not. */
  lemma {:induction false} TimeStampIsLatest(requests: seq<UdpRequest>)
    ensures After(requests).timeStamp >= 0
    ensures forall i | 0 <= i < |requests| :: requests[i].timeStamp <= After(requests).timeStamp
    ensures After(requests).timeStamp == 0 || exists i | 0 <= i < |requests| :: requests[i].timeStamp == After(requests).timeStamp
    decreases |requests|
  {
    if requests != [] {
      var before := requests[..|requests| - 1];
      TimeStampIsLatest(before);
      forall i | 0 <= i < |requests| ensures requests[i].timeStamp <= After(requests).timeStamp {
        if i < |before| {
          assert before[i] == requests[i];
        }
      }
      var m := After(requests);
      if m.timeStamp != 0 {
        if requests[|requests| - 1].timeStamp != m.timeStamp {
          var i :| 0 <= i < |before| && before[i].timeStamp == m.timeStamp;
          assert requests[i].timeStamp == m.timeStamp;
        }
      }
    }
  }

  /** A request is remembered until another one with at least its timestamp and another identifier arrives. */
  lemma {:induction false} RememberedUntil(requests: seq<UdpRequest>, i: nat, j: nat)
    requires i < j <= |requests| && Passed(requests, i)
    requires forall k | i < k < j :: !(requests[k].timeStamp == requests[i].timeStamp && requests[k].messageId != requests[i].messageId)
    ensures After(requests[..j]).timeStamp >= requests[i].timeStamp
    ensures After(requests[..j]).timeStamp == requests[i].timeStamp ==> After(requests[..j]).messageId == requests[i].messageId
    decreases j
  {
    hide After;
    AfterNext(requests, j - 1);
    if j > i + 1 {
      RememberedUntil(requests, i, j - 1);
    }
  }

  /** The same request passes twice only if, in between, a different one with the same timestamp passed. */
  lemma PassedTwice(requests: seq<UdpRequest>, i: nat, j: nat)
    requires i < j < |requests| && requests[i] == requests[j] && Passed(requests, i) && Passed(requests, j)
    ensures exists k | i < k < j :: Passed(requests, k) && requests[k].timeStamp == requests[i].timeStamp
                                    && requests[k].messageId != requests[i].messageId
  {
    var k := FirstOther(requests, i, j);
    RememberedUntil(requests, i, k);
    TimeStampGrows(requests, k, j);
  }

  /** The first request after `i` with its timestamp and another identifier. */
  lemma FirstOther(requests: seq<UdpRequest>, i: nat, j: nat) returns (k: nat)
    requires i < j < |requests| && requests[i] == requests[j] && Passed(requests, i) && Passed(requests, j)
    ensures i < k < j && requests[k].timeStamp == requests[i].timeStamp && requests[k].messageId != requests[i].messageId
    ensures forall q | i < q < k :: !(requests[q].timeStamp == requests[i].timeStamp && requests[q].messageId != requests[i].messageId)
  {
    hide After;
    k := i + 1;
    while k < j && !(requests[k].timeStamp == requests[i].timeStamp && requests[k].messageId != requests[i].messageId)
      invariant i < k <= j
      invariant forall q | i < q < k :: !(requests[q].timeStamp == requests[i].timeStamp && requests[q].messageId != requests[i].messageId)
    {
      k := k + 1;
    }
    if k == j {
      RememberedUntil(requests, i, j);
    }
  }

  /** When different requests have different timestamps, none passes twice. */
  lemma NonePassesTwice(requests: seq<UdpRequest>, i: nat, j: nat)
    requires forall a, b | 0 <= a < b < |requests| :: requests[a].timeStamp == requests[b].timeStamp ==> requests[a] == requests[b]
    requires i < j < |requests| && requests[i] == requests[j] && Passed(requests, i)
    ensures !Passed(requests, j)
  {
    if Passed(requests, j) {
      PassedTwice(requests, i, j);
    }
  }

  /** Two requests with one timestamp can make the filter pass each of them again and again. */
  lemma SharedTimeStampsDefeatTheFilter(t: int, a: int, b: int)
    requires t >= 0 && a != b && a != 0
    ensures var requests := [UdpRequest(t, a), UdpRequest(t, b), UdpRequest(t, a)];
            Passed(requests, 0) && Passed(requests, 1) && Passed(requests, 2)
  {
    var requests := [UdpRequest(t, a), UdpRequest(t, b), UdpRequest(t, a)];
    AfterNext(requests, 0);
    AfterNext(requests, 1);
    assert requests[..0] == [];
  }

  // ----- which requests pass -----

  /** No request before number `i` of the run was later, and neither was the start of time. */
  predicate IsCurrent(requests: seq<UdpRequest>, i: nat)
    requires i < |requests|
  {
    requests[i].timeStamp >= 0 && forall k | 0 <= k < i :: requests[k].timeStamp <= requests[i].timeStamp
  }

  /** Request `j` is the last one before `i` that was current when it came. */
  predicate LastCurrent(requests: seq<UdpRequest>, i: nat, j: int)
    requires i <= |requests|
  {
    0 <= j < i && IsCurrent(requests, j) && forall k | j < k < i :: !IsCurrent(requests, k)
  }

  /** What is remembered before request `i` is the last one that was current; `j` is -1 if none was. */
  lemma {:induction false} RemembersLastCurrent(requests: seq<UdpRequest>, i: nat) returns (j: int)
    requires i <= |requests|
    ensures var m := After(requests[..i]);
            && m.timeStamp >= 0 && (forall k | 0 <= k < i :: requests[k].timeStamp <= m.timeStamp)
            && (LastCurrent(requests, i, j) ==> m == Memory(requests[j].timeStamp, requests[j].messageId))
            && (!LastCurrent(requests, i, j) ==> m == START && forall k | 0 <= k < i :: !IsCurrent(requests, k))
  {
    hide After;
    if i == 0 {
      StartsEmpty(requests);
      j := -1;
    } else {
      j := RemembersLastCurrent(requests, i - 1);
      AfterNext(requests, i - 1);
      var m := After(requests[..i - 1]);
      if requests[i - 1].timeStamp >= m.timeStamp {
        j := i - 1;
        assert IsCurrent(requests, j);
      } else {
        assert !IsCurrent(requests, i - 1);
      }
    }
  }

  lemma OnlyOneLast(requests: seq<UdpRequest>, i: nat, j: int, k: int)
    requires i <= |requests| && LastCurrent(requests, i, j) && LastCurrent(requests, i, k)
    ensures j == k
  {
    hide IsCurrent;
  }

  /**
   Request `i` passes exactly when it is current and differs in its identifier from the
   last request before it that was, or from 0 if there was none.
   */
  lemma PassesIff(requests: seq<UdpRequest>, i: nat)
    requires i < |requests|
    ensures Passed(requests, i) <==>
            && IsCurrent(requests, i)
            && (forall j | LastCurrent(requests, i, j) :: requests[j].messageId != requests[i].messageId)
            && ((exists j :: LastCurrent(requests, i, j)) || requests[i].messageId != 0)
  {
    hide After, LastCurrent;
    var last := RemembersLastCurrent(requests, i);
    IsCurrentIff(requests, i, After(requests[..i]).timeStamp, last);
    forall j | LastCurrent(requests, i, j) ensures LastCurrent(requests, i, last) && j == last {
      LastIsCurrent(requests, i, j);
      OnlyOneLast(requests, i, last, j);
    }
  }

  lemma LastIsCurrent(requests: seq<UdpRequest>, i: nat, j: int)
    requires i <= |requests| && LastCurrent(requests, i, j)
    ensures 0 <= j < i && IsCurrent(requests, j)
  {
  }

  lemma IsCurrentIff(requests: seq<UdpRequest>, i: nat, t: int, last: int)
    requires i < |requests| && t >= 0 && forall k | 0 <= k < i :: requests[k].timeStamp <= t
    requires if LastCurrent(requests, i, last) then t == requests[last].timeStamp else t == 0
    ensures IsCurrent(requests, i) <==> requests[i].timeStamp >= t
  {
  }

  /** So a timestamp later than all before it, with an identifier that is not 0 and was not used, always passes. */
  lemma NewRequestPasses(requests: seq<UdpRequest>, i: nat)
    requires i < |requests| && requests[i].timeStamp >= 0 && requests[i].messageId != 0
    requires forall k | 0 <= k < i :: requests[k].timeStamp < requests[i].timeStamp && requests[k].messageId != requests[i].messageId
    ensures Passed(requests, i)
  {
    hide Passed;
    PassesIff(requests, i);
  }

  /** Requests `i` and `j` of a run are the same request, and both were taken for new. */
  predicate PassesTwice(requests: seq<UdpRequest>, i: nat, j: nat)
    requires i < j < |requests|
  {
    requests[i] == requests[j] && Passed(requests, i) && Passed(requests, j)
  }

  /** No run of such requests, in any order and number, passes one of them twice. */
  ghost predicate NeverTwice(possible: iset<UdpRequest>) {
    forall requests: seq<UdpRequest>, i: nat, j: nat |
      i < j < |requests| && forall k | 0 <= k < |requests| :: requests[k] in possible :: !PassesTwice(requests, i, j)
  }

  /** Of the requests that can pass at all, different ones have different timestamps. */
  ghost predicate TimeStampsDiffer(possible: iset<UdpRequest>) {
    forall a, b | a in possible && b in possible && a.timeStamp == b.timeStamp && a.timeStamp >= 0 :: a == b
  }

  /** The filter keeps its promise exactly when timestamps are unique. */
  lemma NeverTwiceIff(possible: iset<UdpRequest>)
    ensures NeverTwice(possible) <==> TimeStampsDiffer(possible)
  {
    hide Passed;
    if !TimeStampsDiffer(possible) {
      var a, b :| a in possible && b in possible && a.timeStamp == b.timeStamp >= 0 && a != b;
      var first, second := if a.messageId != 0 then a else b, if a.messageId != 0 then b else a;
      SharedTimeStampsDefeatTheFilter(a.timeStamp, first.messageId, second.messageId);
      var run := [first, second, first];
      assert PassesTwice(run, 0, 2);
    }
    if TimeStampsDiffer(possible) {
      forall requests: seq<UdpRequest>, i: nat, j: nat |
        i < j < |requests| && forall k | 0 <= k < |requests| :: requests[k] in possible
        ensures !PassesTwice(requests, i, j)
      {
        if PassesTwice(requests, i, j) {
          PassedTwice(requests, i, j);
          PassedIsCurrent(requests, i);
        }
      }
    }
  }

  /** A request with a timestamp before 0 never passes. */
  lemma PassedIsCurrent(requests: seq<UdpRequest>, i: nat)
    requires i < |requests| && Passed(requests, i)
    ensures requests[i].timeStamp >= 0
  {
    hide After;
    TimeStampIsLatest(requests[..i]);
  }

  /** Identifier 0 is what the memory starts with: such a request does not pass before another one was remembered. */
  lemma {:induction false} FirstIdentifierZero(requests: seq<UdpRequest>, i: nat)
    requires i < |requests| && forall k | 0 <= k <= i :: requests[k].messageId == 0
    ensures !Passed(requests, i) && After(requests[..i]).messageId == 0
  {
    hide After;
    if i > 0 {
      FirstIdentifierZero(requests, i - 1);
      AfterNext(requests, i - 1);
    } else {
      assert After(requests[..0]) == START by { StartsEmpty(requests); }
    }
  }

  lemma StartsEmpty(requests: seq<UdpRequest>)
    ensures After(requests[..0]) == START
  {
  }

  // ----- the branch of DM_STUN_readManagement -----

  class StunThread {
    var timeStamp: int
    var messageId: int
    var connectionFreqArray: ConnectionFreqArray
    /** all UDP requests so far */
    ghost var received: seq<UdpRequest>

    ghost predicate Valid()
      reads this, connectionFreqArray, connectionFreqArray.times
    {
      connectionFreqArray.Valid() && Memory(timeStamp, messageId) == After(received)
    }

    constructor ()
      ensures Valid() && received == [] && connectionFreqArray.history == []
      ensures fresh(connectionFreqArray) && fresh(connectionFreqArray.times)
    {
      timeStamp, messageId := 0, 0;
      connectionFreqArray := new ConnectionFreqArray();
      received := [];
    }

    /**
     The UDP_REQUEST case: true when the engine is asked to open a session.  The
     clock is read once for the check and once for the record.
     */
    method OnUdpRequest(request: UdpRequest, config: Config, checked: int, recorded: int) returns (asked: bool)
      requires Valid()
      modifies this`timeStamp, this`messageId, this`received, connectionFreqArray`history, connectionFreqArray.times
      ensures Valid() && received == old(received) + [request]
      ensures asked == (Passed(received, |received| - 1)
                        && !Refused(Register(old(connectionFreqArray.history)), LimitsOf(config), checked))
      ensures connectionFreqArray.history == if asked then [recorded] + old(connectionFreqArray.history)
                                             else old(connectionFreqArray.history)
    {
      hide Refused, Register, Young;
      received := received + [request];
      assert received[..|received| - 1] == old(received);
      asked := false;
      if request.timeStamp >= timeStamp {
        timeStamp := request.timeStamp;
        if messageId != request.messageId {
          messageId := request.messageId;
          var reached := connectionFreqArray.MaxConnectionPerPeriodReached(config, checked);
          if !reached {
            connectionFreqArray.NewConnectionRequestAllowed(recorded);
            asked := true;
          }
        }
      }
    }
  }
}
