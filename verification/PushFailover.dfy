/** The choice between the primary and the backup endpoint. Any number of threads call Send at the same time. The fields are
    atomic: one step of one thread is one access to one of them, or one request to an endpoint, and the steps of different
    threads come in any order. */
module PushFailovers {
  import opened Bytes

  datatype Endpoint = Primary | Backup

  datatype Action = Accepted | Retry | Rejected

  /** A request to an endpoint, and what came out. */
  datatype Try = Try(endpoint: Endpoint, probe: bool, action: Action)

  /** Where a thread is in Send. */
  datatype Place =
    | Start                       // before it looks which endpoint is in use
    | Alone                       // there is no backup: the only try
    | OnPrimary                   // the primary is in use: the try of the primary
    | AfterPrimary                // the primary failed: the try of the backup
    | ReadProbe                   // the backup is in use: reads when the primary is tried next
    | Claim(next: int)            // it is time: tries to be the one thread which does it
    | Probe                       // this call claimed the probe time: it asks the primary
    | OnBackup                    // the try of the backup which is in use
    | LastResort                  // the backup failed too: the try of the primary
    | SetProbe                    // a switch to the backup: first the time of the next probe
    | Exchange(to: Endpoint)      // a switch: the endpoint in use
    | Count(to: Endpoint)         // a switch which changed something: its counter
    | Done

  /** A call of Send: its time, where it is, its requests so far, the endpoint which was in use when it looked, the one which it
      put into use, and the switch it reports. */
  datatype Call = Call(now: int, place: Place, tries: seq<Try>, used: Option<Endpoint>, put: Option<Endpoint>, switchedTo: Option<Endpoint>)

  predicate OnlyRetries(tries: seq<Try>) {
    forall i :: 0 <= i < |tries| ==> tries[i].action == Retry
  }

  predicate Tried(tries: seq<Try>, e: Endpoint) {
    exists i :: 0 <= i < |tries| && tries[i].endpoint == e
  }

  /** At most three requests, of which all but the last one failed: neither an accepted nor a rejected one is followed by
      another one. */
  predicate Ended(tries: seq<Try>) {
    1 <= |tries| <= 3 && OnlyRetries(tries[..|tries| - 1])
  }

  function LastTry(c: Call): Try
    requires c.tries != []
  {
    c.tries[|c.tries| - 1]
  }

  /** The endpoint which was not in use accepted the request. */
  predicate Won(c: Call, e: Endpoint) {
    Ended(c.tries) && LastTry(c).endpoint == e && LastTry(c).action == Accepted && c.used.Some? && c.used.value != e
    && (c.tries[0].endpoint != c.used.value ==> c.tries[0].probe)
  }

  /** What a call did when it is at its place. A call which ends with a failure tried both endpoints, and one whose request was
      accepted by the endpoint which was not in use, and only such a call, put that endpoint into use. */
  predicate Fits(hasBackup: bool, c: Call) {
    && (!c.place.Count? && !c.place.Done? ==> c.put == None)
    && (c.switchedTo.Some? ==> c.place.Done? && c.switchedTo == c.put)
    && match c.place
       case Start => c.tries == []
       case Alone => !hasBackup && c.tries == []
       case OnPrimary => hasBackup && c.tries == [] && c.used == Some(Primary)
       case AfterPrimary => hasBackup && c.tries == [Try(Primary, false, Retry)] && c.used == Some(Primary)
       case ReadProbe => hasBackup && c.tries == [] && c.used == Some(Backup)
       case Claim(next) => hasBackup && c.tries == [] && c.now >= next && c.used == Some(Backup)
       case Probe => hasBackup && c.tries == [] && c.used == Some(Backup)
       case OnBackup => hasBackup && c.used == Some(Backup) && (c.tries == [] || c.tries == [Try(Primary, true, Retry)])
       case LastResort => hasBackup && c.used == Some(Backup)
                          && (c.tries == [Try(Backup, false, Retry)] || c.tries == [Try(Primary, true, Retry), Try(Backup, false, Retry)])
       case SetProbe => hasBackup && Won(c, Backup)
       case Exchange(to) => hasBackup && Won(c, to)
       case Count(to) => hasBackup && Won(c, to) && c.put == Some(to)
       case Done => && Ended(c.tries) && if hasBackup then EndedWithBackup(c) else |c.tries| == 1 && c.tries[0].endpoint == Primary
  }

  predicate EndedWithBackup(c: Call)
    requires c.tries != []
  {
    && (LastTry(c).action == Retry ==> Tried(c.tries, Primary) && Tried(c.tries, Backup))
    && c.used.Some?
    && c.put == (if LastTry(c).action == Accepted && LastTry(c).endpoint != c.used.value then Some(LastTry(c).endpoint) else None)
    && (c.tries[0].endpoint != c.used.value ==> c.tries[0].probe)
  }

  /** The calls which changed the endpoint in use to e and did not count that yet. */
  function Counting(calls: seq<Call>, e: Endpoint): nat {
    if calls == [] then 0 else Counting(calls[..|calls| - 1], e) + if calls[|calls| - 1].place == Count(e) then 1 else 0
  }

  lemma {:induction false} CountingUpdated(calls: seq<Call>, i: nat, c: Call, e: Endpoint)
    requires i < |calls|
    ensures Counting(calls[i := c], e) == Counting(calls, e) - (if calls[i].place == Count(e) then 1 else 0)
                                                             + if c.place == Count(e) then 1 else 0
  {
    var n := |calls| - 1;
    if i < n {
      CountingUpdated(calls[..n], i, c, e);
      assert calls[i := c][..n] == calls[..n][i := c];
    } else {
      assert calls[i := c][..n] == calls[..n];
    }
  }

  predicate IsRequest(p: Place) {
    p.Alone? || p.OnPrimary? || p.AfterPrimary? || p.Probe? || p.OnBackup? || p.LastResort?
  }

  /** The request of this place, and where its answer leads. */
  function AfterRequest(c: Call, a: Action): Call
    requires IsRequest(c.place)
  {
    var target := if c.place.AfterPrimary? || c.place.OnBackup? then Backup else Primary;
    var next := match c.place
      case Alone => Done
      case OnPrimary => if a != Retry then Done else AfterPrimary
      case AfterPrimary => if a == Accepted then SetProbe else Done
      case Probe => if a == Retry then OnBackup else if a == Accepted then Exchange(Primary) else Done
      case OnBackup => if a != Retry then Done else LastResort
      case LastResort => if a == Accepted then Exchange(Primary) else Done;
    c.(place := next, tries := c.tries + [Try(target, c.place.Probe?, a)])
  }

  lemma RequestFits(hasBackup: bool, c: Call, a: Action)
    requires Fits(hasBackup, c) && IsRequest(c.place)
    ensures Fits(hasBackup, AfterRequest(c, a))
    ensures StepsLeft(AfterRequest(c, a).place) < StepsLeft(c.place)
  {
    hide Fits, AfterRequest, StepsLeft;
    StepsFall(c, a);
    match c.place
    case Alone => AloneFits(hasBackup, c, a);
    case OnPrimary => OnPrimaryFits(hasBackup, c, a);
    case AfterPrimary => AfterPrimaryFits(hasBackup, c, a);
    case Probe => ProbeFits(hasBackup, c, a);
    case OnBackup => OnBackupFits(hasBackup, c, a);
    case LastResort => LastResortFits(hasBackup, c, a);
  }

  lemma StepsFall(c: Call, a: Action)
    requires IsRequest(c.place)
    ensures StepsLeft(AfterRequest(c, a).place) < StepsLeft(c.place)
  {
  }

  lemma AloneFits(hasBackup: bool, c: Call, a: Action)
    requires Fits(hasBackup, c) && c.place.Alone?
    ensures Fits(hasBackup, AfterRequest(c, a))
  {
    hide Ended, Tried, OnlyRetries, Won, EndedWithBackup, AfterRequest;
    AloneGoes(c, a);
    OneTry(AfterRequest(c, a), a);
  }

  lemma AloneGoes(c: Call, a: Action)
    requires c.place.Alone? && c.tries == []
    ensures AfterRequest(c, a) == c.(place := Done, tries := [Try(Primary, false, a)])
  {
    assert c.tries + [Try(Primary, false, a)] == [Try(Primary, false, a)];
  }

  lemma OnPrimaryFits(hasBackup: bool, c: Call, a: Action)
    requires Fits(hasBackup, c) && c.place.OnPrimary?
    ensures Fits(hasBackup, AfterRequest(c, a))
  {
    hide Ended, Tried, OnlyRetries, Won, EndedWithBackup, AfterRequest;
    OnPrimaryGoes(c, a);
    OneTry(AfterRequest(c, a), a);
  }

  lemma OnPrimaryGoes(c: Call, a: Action)
    requires c.place.OnPrimary? && c.tries == []
    ensures AfterRequest(c, a) == c.(place := if a != Retry then Done else AfterPrimary, tries := [Try(Primary, false, a)])
  {
    assert c.tries + [Try(Primary, false, a)] == [Try(Primary, false, a)];
  }

  /** The primary alone was tried. */
  lemma OneTry(c: Call, a: Action)
    requires c.tries == [Try(Primary, false, a)] && c.put == None
    ensures Ended(c.tries) && (a != Retry && c.used == Some(Primary) ==> EndedWithBackup(c))
  {
    assert c.tries[..0] == [];
  }

  lemma AfterPrimaryFits(hasBackup: bool, c: Call, a: Action)
    requires Fits(hasBackup, c) && c.place.AfterPrimary?
    ensures Fits(hasBackup, AfterRequest(c, a))
  {
    hide Ended, Tried, OnlyRetries, Won, EndedWithBackup;
    var t := Try(Backup, false, a);
    assert c.tries + [t] == [Try(Primary, false, Retry), t];
    PrimaryFailed(AfterRequest(c, a), a);
  }

  /** The primary failed while it was in use, and the backup was tried behind it. */
  lemma PrimaryFailed(c: Call, a: Action)
    requires c.tries == [Try(Primary, false, Retry), Try(Backup, false, a)] && c.used == Some(Primary) && c.put == None
    ensures Ended(c.tries) && (if a == Accepted then Won(c, Backup) else EndedWithBackup(c))
  {
    assert c.tries[..1] == [Try(Primary, false, Retry)];
    assert c.tries[0].endpoint == Primary && c.tries[1].endpoint == Backup;
  }

  lemma ProbeFits(hasBackup: bool, c: Call, a: Action)
    requires Fits(hasBackup, c) && c.place.Probe?
    ensures Fits(hasBackup, AfterRequest(c, a))
  {
    hide Ended, Tried, OnlyRetries, Won, EndedWithBackup;
    assert c.tries == [];
    assert [] + [Try(Primary, true, a)] == [Try(Primary, true, a)];
    Probed(AfterRequest(c, a), a);
  }

  /** The only try of a call was a probe. */
  lemma Probed(c: Call, a: Action)
    requires c.tries == [Try(Primary, true, a)] && c.used == Some(Backup) && c.put == None
    ensures Ended(c.tries) && (a == Accepted ==> Won(c, Primary)) && (a == Rejected ==> EndedWithBackup(c))
  {
    assert c.tries[..0] == [];
  }

  lemma OnBackupFits(hasBackup: bool, c: Call, a: Action)
    requires Fits(hasBackup, c) && c.place.OnBackup?
    ensures Fits(hasBackup, AfterRequest(c, a))
  {
    hide Ended, Tried, OnlyRetries, Won, EndedWithBackup;
    var t := Try(Backup, false, a);
    assert c.tries + [t] == if c.tries == [] then [t] else [Try(Primary, true, Retry), t];
    BackupTried(AfterRequest(c, a), a);
  }

  /** The endpoint in use was tried, perhaps behind a probe. */
  lemma BackupTried(c: Call, a: Action)
    requires c.tries == [Try(Backup, false, a)] || c.tries == [Try(Primary, true, Retry), Try(Backup, false, a)]
    requires c.used == Some(Backup) && c.put == None
    ensures Ended(c.tries) && (a != Retry ==> EndedWithBackup(c))
  {
    assert c.tries[..|c.tries| - 1] == if |c.tries| == 1 then [] else [Try(Primary, true, Retry)];
  }

  lemma LastResortFits(hasBackup: bool, c: Call, a: Action)
    requires Fits(hasBackup, c) && c.place.LastResort?
    ensures Fits(hasBackup, AfterRequest(c, a))
  {
    hide Ended, Tried, OnlyRetries, Won, EndedWithBackup;
    var b, t := Try(Backup, false, Retry), Try(Primary, false, a);
    assert c.tries + [t] == if |c.tries| == 1 then [b, t] else [Try(Primary, true, Retry), b, t];
    BothTried(AfterRequest(c, a), a);
  }

  /** The backup failed, and the primary was tried behind it. */
  lemma BothTried(c: Call, a: Action)
    requires var b, t := Try(Backup, false, Retry), Try(Primary, false, a); c.tries == [b, t] || c.tries == [Try(Primary, true, Retry), b, t]
    requires c.used == Some(Backup) && c.put == None
    ensures Ended(c.tries) && (if a == Accepted then Won(c, Primary) else EndedWithBackup(c))
  {
    var n := |c.tries|;
    assert c.tries[..n - 1] == if n == 2 then [Try(Backup, false, Retry)] else [Try(Primary, true, Retry), Try(Backup, false, Retry)];
    assert c.tries[n - 1].endpoint == Primary && c.tries[n - 2].endpoint == Backup;
  }

  lemma CountFits(hasBackup: bool, c: Call, to: Endpoint)
    requires Fits(hasBackup, c) && c.place == Count(to)
    ensures Fits(hasBackup, c.(place := Done, switchedTo := Some(to)))
  {
  }

  lemma SwitchFits(hasBackup: bool, c: Call, to: Endpoint)
    requires Fits(hasBackup, c) && c.place == Exchange(to)
    ensures Fits(hasBackup, c.(place := Done, put := Some(to))) && Fits(hasBackup, c.(place := Count(to), put := Some(to)))
  {
  }

  /** How many steps a call can still take at most. */
  function StepsLeft(p: Place): nat {
    match p
    case Start => 10
    case Alone => 1
    case OnPrimary => 5
    case AfterPrimary => 4
    case ReadProbe => 9
    case Claim(_) => 8
    case Probe => 7
    case OnBackup => 6
    case LastResort => 5
    case SetProbe => 3
    case Exchange(_) => 2
    case Count(_) => 1
    case Done => 0
  }

  class PushFailover {
    const hasBackup: bool
    const failbackSec: nat
    var active: Endpoint
    var nextProbe: int
    var failovers: nat
    var failbacks: nat
    var calls: seq<Call>          // the threads which are in Send, and the calls which are done

    /** The time of the last probe, if nothing but a probe set the time of the next one since then. */
    ghost var lastProbe: Option<int>

    ghost predicate Valid()
      reads this
    {
      && (forall i :: 0 <= i < |calls| ==> Fits(hasBackup, calls[i]))
      && failovers + Counting(calls, Backup) - failbacks - Counting(calls, Primary) == (if active == Backup then 1 else 0)
      && (active == Backup ==> hasBackup)
      && (lastProbe.Some? ==> nextProbe == lastProbe.value + failbackSec)
    }

    constructor (hasBackup: bool, failbackSec: nat)
      ensures Valid() && active == Primary && failovers == failbacks == 0 && calls == []
    {
      this.hasBackup, this.failbackSec := hasBackup, failbackSec;
      active, nextProbe, failovers, failbacks := Primary, 0, 0, 0;
      calls, lastProbe := [], None;
    }

    method Begin(now: int)
      requires Valid()
      modifies this`calls
      ensures Valid() && calls == old(calls) + [Call(now, Start, [], None, None, None)]
    {
      calls := calls + [Call(now, Start, [], None, None, None)];
      assert calls[..|calls| - 1] == old(calls);
    }

    /** One step of call i. Answer is what the endpoint says, if the step is a request. Claimed: the call is the one which
        makes the next probe. As long as no failover sets the time, two of them are at least failbackSec apart. */
    method Step(i: nat, answer: Action) returns (claimed: bool)
      requires Valid() && i < |calls| && !calls[i].place.Done?
      modifies this
      ensures Valid() && |calls| == |old(calls)| && calls == old(calls)[i := calls[i]] && calls[i].now == old(calls)[i].now
      ensures StepsLeft(calls[i].place) < old(StepsLeft(calls[i].place))
      ensures old(calls)[i].tries <= calls[i].tries
      ensures IsRequest(old(calls)[i].place) ==> calls[i].tries != [] && calls[i].tries == old(calls)[i].tries + [LastTry(calls[i])]
                                                 && LastTry(calls[i]).action == answer
      ensures !IsRequest(old(calls)[i].place) ==> calls[i].tries == old(calls)[i].tries
      ensures calls[i].put != old(calls)[i].put ==> calls[i].put == Some(active)
      ensures claimed ==> calls[i].place == Probe && lastProbe == Some(calls[i].now)
      ensures claimed && old(lastProbe).Some? ==> calls[i].now >= old(lastProbe).value + failbackSec
      ensures !claimed ==> lastProbe == if old(calls)[i].place == SetProbe then None else old(lastProbe)
      ensures active != old(active) ==> calls[i].place == Count(active)
      ensures !old(calls)[i].place.Exchange? ==> active == old(active)
      ensures !old(calls)[i].place.Count? ==> failovers == old(failovers) && failbacks == old(failbacks)
      ensures nextProbe == if claimed || old(calls)[i].place.SetProbe? then calls[i].now + failbackSec else old(nextProbe)
      ensures IsRequest(old(calls)[i].place) ==> calls[i] == AfterRequest(old(calls)[i], answer)
      ensures old(calls)[i].place.Start? ==>
                && calls[i].used == Some(old(active)) && (calls[i].place == Alone <==> !hasBackup)
                && (calls[i].place == OnPrimary <==> hasBackup && old(active) == Primary)
                && (calls[i].place == ReadProbe <==> hasBackup && old(active) == Backup)
      ensures old(calls)[i].place.ReadProbe? ==>
                && (calls[i].place == Claim(old(nextProbe)) <==> calls[i].now >= old(nextProbe))
                && (calls[i].place == OnBackup <==> calls[i].now < old(nextProbe))
      ensures old(calls)[i].place.Claim? ==>
                claimed == (old(nextProbe) == old(calls)[i].place.next) && calls[i].place == (if claimed then Probe else OnBackup)
      ensures old(calls)[i].place.SetProbe? ==> calls[i].place == Exchange(Backup)
      ensures old(calls)[i].place.Exchange? ==>
                active == old(calls)[i].place.to && calls[i].place == if old(active) == active then Done else Count(active)
      ensures old(calls)[i].place.Count? ==>
                && calls[i].place.Done? && calls[i].switchedTo == Some(old(calls)[i].place.to)
                && failovers == old(failovers) + (if old(calls)[i].place.to == Backup then 1 else 0)
                && failbacks == old(failbacks) + (if old(calls)[i].place.to == Primary then 1 else 0)
    {
      hide Valid, Fits;
      var c := calls[i];
      claimed := false;
      if IsRequest(c.place) {
        Request(i, answer);
      } else if c.place.Claim? {
        claimed := ClaimProbe(i);
      } else if c.place.SetProbe? {
        SetNextProbe(i);
      } else if c.place.Exchange? {
        ExchangeActive(i, c.place.to);
      } else if c.place.Count? {
        CountSwitch(i, c.place.to);
      } else {
        Look(i);
      }
    }

    /** Reads the endpoint in use, or the time of the next probe. */
    method Look(i: nat)
      requires Valid() && i < |calls| && (calls[i].place.Start? || calls[i].place.ReadProbe?)
      modifies this`calls
      ensures Valid() && calls == old(calls)[i := old(AfterLook(i))]
    {
      Move(i, AfterLook(i));
    }

    function AfterLook(i: nat): Call
      requires i < |calls|
      reads this
    {
      var c := calls[i].(place := PlaceAfterLook(i));
      if calls[i].place.Start? then c.(used := Some(active)) else c
    }

    function PlaceAfterLook(i: nat): Place
      requires i < |calls|
      reads this
    {
      var c := calls[i];
      if c.place.Start? then (if !hasBackup then Alone else if active == Primary then OnPrimary else ReadProbe)
      else if c.now >= nextProbe then Claim(nextProbe) else OnBackup
    }

    /** A step which changes nothing but where the call is. */
    method Move(i: nat, c: Call)
      requires Valid() && i < |calls| && !calls[i].place.Count? && !c.place.Count? && Fits(hasBackup, c)
      modifies this`calls
      ensures Valid() && calls == old(calls)[i := c]
    {
      CountingUpdated(calls, i, c, Primary);
      CountingUpdated(calls, i, c, Backup);
      calls := calls[i := c];
    }

    /** A request to an endpoint. */
    method Request(i: nat, answer: Action)
      requires Valid() && i < |calls| && IsRequest(calls[i].place)
      modifies this`calls
      ensures Valid() && calls == old(calls)[i := AfterRequest(old(calls)[i], answer)]
    {
      RequestFits(hasBackup, calls[i], answer);
      Move(i, AfterRequest(calls[i], answer));
    }

    method SetNextProbe(i: nat)
      requires Valid() && i < |calls| && calls[i].place.SetProbe?
      modifies this`calls, this`nextProbe, this`lastProbe
      ensures Valid() && calls == old(calls)[i := old(calls)[i].(place := Exchange(Backup))] && lastProbe == None
      ensures nextProbe == old(calls)[i].now + failbackSec
    {
      nextProbe := calls[i].now + failbackSec;
      lastProbe := None;
      Move(i, calls[i].(place := Exchange(Backup)));
    }

    /** compare_exchange of the time of the next probe. */
    method ClaimProbe(i: nat) returns (claimed: bool)
      requires Valid() && i < |calls| && calls[i].place.Claim?
      modifies this`calls, this`nextProbe, this`lastProbe
      ensures Valid() && calls == old(calls)[i := old(calls)[i].(place := if claimed then Probe else OnBackup)]
      ensures claimed == (old(nextProbe) == old(calls)[i].place.next)
      ensures lastProbe == if claimed then Some(old(calls)[i].now) else old(lastProbe)
      ensures nextProbe == if claimed then old(calls)[i].now + failbackSec else old(nextProbe)
      ensures claimed && old(lastProbe).Some? ==> old(calls)[i].now >= old(lastProbe).value + failbackSec
    {
      var c := calls[i];
      claimed := nextProbe == c.place.next;
      if claimed {
        nextProbe := c.now + failbackSec;
        lastProbe := Some(c.now);
      }
      Move(i, c.(place := if claimed then Probe else OnBackup));
    }

    /** exchange of the endpoint in use: only a thread which changes it counts that. */
    method ExchangeActive(i: nat, to: Endpoint)
      requires Valid() && i < |calls| && calls[i].place == Exchange(to)
      modifies this`calls, this`active
      ensures Valid() && active == to
      ensures calls == old(calls)[i := old(calls)[i].(place := if old(active) == to then Done else Count(to), put := Some(to))]
    {
      hide Fits;
      var c := calls[i];
      SwitchFits(hasBackup, c, to);
      c := c.(place := if active == to then Done else Count(to), put := Some(to));
      CountingUpdated(calls, i, c, Primary);
      CountingUpdated(calls, i, c, Backup);
      calls, active := calls[i := c], to;
    }

    method CountSwitch(i: nat, to: Endpoint)
      requires Valid() && i < |calls| && calls[i].place == Count(to)
      modifies this`calls, this`failovers, this`failbacks
      ensures Valid() && calls == old(calls)[i := old(calls)[i].(place := Done, switchedTo := Some(to))]
      ensures failovers == old(failovers) + (if to == Backup then 1 else 0)
      ensures failbacks == old(failbacks) + (if to == Primary then 1 else 0)
    {
      hide Fits;
      CountFits(hasBackup, calls[i], to);
      var c := calls[i].(place := Done, switchedTo := Some(to));
      CountingUpdated(calls, i, c, Primary);
      CountingUpdated(calls, i, c, Backup);
      calls := calls[i := c];
      if to == Backup {
        failovers := failovers + 1;
      } else {
        failbacks := failbacks + 1;
      }
    }

    /* --- One call alone --- */

    /** No other thread makes a step while this call is in Send. It asks the endpoints in the order which the endpoint in use
        and the time of the next probe say, and puts the one which accepts the request into use. While the backup is in use the
        first one is the primary from the time of the next probe on, and the backup before it. */
    method SendAlone(now: int, says: Endpoint -> Action, probed: Action) returns (c: Call)
      requires Valid()
      modifies this
      ensures Valid() && calls == old(calls) + [c] && c.now == now && c.place.Done?
      ensures c.tries == Asked(hasBackup, old(active), now >= old(nextProbe), says, probed) != []
      ensures old(active) == Backup ==> c.tries[0] == if now >= old(nextProbe) then Try(Primary, true, probed) else Try(Backup, false, says(Backup))
      ensures Switched(LastTry(c), old(active), active, old(failovers), failovers, old(failbacks), failbacks)
      ensures nextProbe == if (if old(active) == Backup then now >= old(nextProbe) else active == Backup) then now + failbackSec else old(nextProbe)
    {
      hide Valid, AfterRequest;
      var i := |calls|;
      BackupIsThere();
      Begin(now);
      var _ := Step(i, Retry);
      if calls[i].place.Alone? {
        FromAlone(i, says);
      } else if calls[i].place.OnPrimary? {
        FromPrimary(i, says);
      } else {
        FromBackup(i, says, probed);
      }
      c := calls[i];
    }

    lemma BackupIsThere()
      requires Valid()
      ensures active == Backup ==> hasBackup
    {
      hide Fits;
    }

    /** The request of the place where the call is. */
    method Ask(i: nat, answer: Action)
      requires Valid() && i < |calls| && IsRequest(calls[i].place)
      modifies this
      ensures Valid() && calls == old(calls)[i := AfterRequest(old(calls)[i], answer)]
      ensures active == old(active) && nextProbe == old(nextProbe) && failovers == old(failovers) && failbacks == old(failbacks)
    {
      hide Valid, AfterRequest;
      var _ := Step(i, answer);
    }

    method FromAlone(i: nat, says: Endpoint -> Action)
      requires Valid() && !hasBackup && active == Primary && i < |calls| && calls[i].place.Alone? && calls[i].tries == []
      modifies this
      ensures Valid() && IsDone(old(calls), i, Asked(false, Primary, false, says, Retry))
      ensures active == Primary && nextProbe == old(nextProbe) && failovers == old(failovers) && failbacks == old(failbacks)
    {
      hide Valid;
      Ask(i, says(Primary));
    }

    method FromPrimary(i: nat, says: Endpoint -> Action)
      requires Valid() && hasBackup && active == Primary && i < |calls| && calls[i].place.OnPrimary? && calls[i].tries == []
      modifies this
      ensures Valid() && IsDone(old(calls), i, old(calls)[i].tries + Asked(true, Primary, false, says, Retry))
      ensures Switched(LastTry(calls[i]), Primary, active, old(failovers), failovers, old(failbacks), failbacks)
      ensures nextProbe == if active == Backup then old(calls)[i].now + failbackSec else old(nextProbe)
    {
      hide Valid;
      Ask(i, says(Primary));
      if calls[i].place.AfterPrimary? {
        Ask(i, says(Backup));
        if calls[i].place.SetProbe? {
          var _ := Step(i, Retry);
          Finish(i, Backup);
        }
      }
    }

    method FromBackup(i: nat, says: Endpoint -> Action, probed: Action)
      requires Valid() && hasBackup && active == Backup && i < |calls| && calls[i].place.ReadProbe? && calls[i].tries == []
      modifies this
      ensures Valid() && IsDone(old(calls), i, Asked(true, Backup, old(calls)[i].now >= old(nextProbe), says, probed))
      ensures Switched(LastTry(calls[i]), Backup, active, old(failovers), failovers, old(failbacks), failbacks)
      ensures nextProbe == if old(calls)[i].now >= old(nextProbe) then old(calls)[i].now + failbackSec else old(nextProbe)
    {
      hide Valid, AfterRequest;
      var _ := Step(i, Retry);
      if calls[i].place.Claim? {
        FromClaim(i, probed);
      }
      if calls[i].place.OnBackup? {
        FromOnBackup(i, says);
      }
    }

    /** The probe: the call is done, or goes on with the backup. */
    method FromClaim(i: nat, probed: Action)
      requires Valid() && hasBackup && active == Backup && i < |calls| && calls[i].place == Claim(nextProbe) && calls[i].tries == []
      modifies this
      ensures Valid() && |calls| == |old(calls)| && calls == old(calls)[i := calls[i]] && calls[i].now == old(calls)[i].now
      ensures calls[i].tries == [Try(Primary, true, probed)] && nextProbe == calls[i].now + failbackSec
      ensures calls[i].place == if probed == Retry then OnBackup else Done
      ensures Switched(LastTry(calls[i]), Backup, active, old(failovers), failovers, old(failbacks), failbacks)
    {
      hide Valid;
      var _ := Step(i, Retry);
      Ask(i, probed);
      if calls[i].place.Exchange? {
        Finish(i, Primary);
      }
    }

    method FromOnBackup(i: nat, says: Endpoint -> Action)
      requires Valid() && hasBackup && active == Backup && i < |calls| && calls[i].place.OnBackup?
      modifies this
      ensures Valid() && IsDone(old(calls), i, old(calls)[i].tries + Asked(true, Backup, false, says, Retry))
      ensures Switched(LastTry(calls[i]), Backup, active, old(failovers), failovers, old(failbacks), failbacks)
      ensures nextProbe == old(nextProbe)
    {
      hide Valid;
      Ask(i, says(Backup));
      if calls[i].place.LastResort? {
        Ask(i, says(Primary));
        if calls[i].place.Exchange? {
          Finish(i, Primary);
        }
      }
    }

    /** The end of a switch which changes the endpoint in use. */
    method Finish(i: nat, to: Endpoint)
      requires Valid() && i < |calls| && calls[i].place == Exchange(to) && active != to && calls[i].tries != []
      modifies this
      ensures Valid() && IsDone(old(calls), i, old(calls)[i].tries) && active == to && nextProbe == old(nextProbe)
      ensures failovers == old(failovers) + (if to == Backup then 1 else 0) && failbacks == old(failbacks) + (if to == Primary then 1 else 0)
    {
      hide Valid;
      var _ := Step(i, Retry);
      var _ := Step(i, Retry);
    }

    /** Call i is done with these requests, and nothing else changed for any call. */
    ghost predicate IsDone(before: seq<Call>, i: nat, tries: seq<Try>)
      requires i < |before|
      reads this
    {
      && |calls| == |before| && calls == before[i := calls[i]] && calls[i].now == before[i].now
      && calls[i].place.Done? && calls[i].tries == tries != []
    }

    /** When no thread is in Send, there was one failover more than failbacks if and only if the backup is in use. */
    lemma WhenAllAreDone()
      requires Valid() && forall i :: 0 <= i < |calls| ==> calls[i].place.Done?
      ensures failovers - failbacks == if active == Backup then 1 else 0
    {
      NoneCounting(calls);
    }

    /** A call which is done made at most three requests, and nothing came behind one which was accepted or rejected. With a
        backup it failed only if both endpoints failed. */
    lemma WhatACallDid(i: nat)
      requires Valid() && i < |calls| && calls[i].place.Done?
      ensures var t := calls[i].tries;
              && 1 <= |t| <= 3
              && (forall j :: 0 <= j < |t| - 1 ==> t[j].action == Retry)
              && (hasBackup && t[|t| - 1].action == Retry ==> forall e :: Tried(t, e))
              && (!hasBackup ==> !Tried(t, Backup))
              && (hasBackup ==> EndedWithBackup(calls[i]))
    {
    }
  }

  /** The requests of a call which is alone, and what the endpoints say to them: a probe if it is due while the backup is in use,
      then the endpoint in use, and the other one only if that fails. */
  ghost function Asked(hasBackup: bool, active: Endpoint, due: bool, says: Endpoint -> Action, probed: Action): seq<Try> {
    var primary, backup := Try(Primary, false, says(Primary)), Try(Backup, false, says(Backup));
    if !hasBackup then [primary]
    else if active == Primary then [primary] + if primary.action == Retry then [backup] else []
    else if due && probed != Retry then [Try(Primary, true, probed)]
    else (if due then [Try(Primary, true, probed)] else []) + [backup] + if backup.action == Retry then [primary] else []
  }

  /** The endpoint which accepted the request is in use then, and a change is counted. */
  ghost predicate Switched(last: Try, before: Endpoint, after: Endpoint, failovers: nat, failovers': nat, failbacks: nat, failbacks': nat) {
    && after == (if last.action == Accepted then last.endpoint else before)
    && failovers' == failovers + (if before == Primary && after == Backup then 1 else 0)
    && failbacks' == failbacks + (if before == Backup && after == Primary then 1 else 0)
  }

  lemma {:induction false} NoneCounting(calls: seq<Call>)
    requires forall i :: 0 <= i < |calls| ==> calls[i].place.Done?
    ensures Counting(calls, Primary) == 0 && Counting(calls, Backup) == 0
  {
    if calls != [] {
      NoneCounting(calls[..|calls| - 1]);
    }
  }
}
