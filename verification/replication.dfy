/**
 * The replica-set status interpretation of the MongoDB replication probe:
 * given the node's own `ismaster` answer and the `members` list of its
 * `replGetStatus` answer, decide whether it is the master, whether a primary
 * and "this server" can be found, and otherwise how many whole seconds the
 * node lags behind the primary.
 */
module Replication {
  import Decimal

  datatype Option<T> = None | Some(value: T)

  /** One entry of the `members` list: its `stateStr`, its `self` flag and `optime.t` (milliseconds). */
  datatype Member = Member(stateStr: string, isSelf: bool, optime: int)

  /** The outcome of one check, before the lag is handed to the threshold classifier. */
  datatype Verdict =
    | OkMaster
    | CriticalNoPrimary
    | CriticalNoSelf
    | Lag(seconds: int)

  /** Nagios service states. */
  datatype Status = OK | WARNING | CRITICAL | UNKNOWN

  /** What the plugin reports: a state and a one-line message. */
  datatype Response = Response(status: Status, message: string)

  const MasterMessage := "Master. Of course we're up to date."
  const NoPrimaryMessage := "Primary could not be found in the replica set."
  const NoSelfMessage := "This server could not be found in the replica set."
  const LagPrefix := "Replication lag: "
  const LagSuffix := " seconds"

  /** The first test of the scan loop. */
  predicate IsPrimary(m: Member) {
    m.stateStr == "PRIMARY"
  }

  /** The `elif` of the scan loop: a self record is only looked at when it is not PRIMARY. */
  predicate IsThisServer(m: Member) {
    !IsPrimary(m) && m.isSelf
  }

  /** `k` is the position of the last record among the first `n` of `ms` that satisfies `p`. */
  ghost predicate IsLastMatch(ms: seq<Member>, p: Member -> bool, n: int, k: int)
    requires 0 <= n <= |ms|
  {
    0 <= k < n && p(ms[k]) && forall j :: k < j < n ==> !p(ms[j])
  }

  /** The position of the last record among the first `n` of `ms` that satisfies `p`, if any. */
  function LastIndex(ms: seq<Member>, p: Member -> bool, n: nat): (r: Option<nat>)
    requires n <= |ms|
    ensures r.Some? ==> IsLastMatch(ms, p, n, r.value)
    ensures r.None? ==> forall j :: 0 <= j < n ==> !p(ms[j])
  {
    if n == 0 then None
    else if p(ms[n - 1]) then Some(n - 1)
    else LastIndex(ms, p, n - 1)
  }

  /** Only one position can be the last match. */
  lemma LastIndexUnique(ms: seq<Member>, p: Member -> bool, n: nat, k: int)
    requires n <= |ms| && IsLastMatch(ms, p, n, k)
    ensures LastIndex(ms, p, n) == Some(k)
  {
  }

  /** The choice among the first `n` records depends on those records only. */
  lemma {:induction false} LastIndexPrefix(ms: seq<Member>, ms': seq<Member>, p: Member -> bool, n: nat)
    requires n <= |ms| && n <= |ms'| && ms[..n] == ms'[..n]
    ensures LastIndex(ms, p, n) == LastIndex(ms', p, n)
  {
    if n > 0 {
      assert ms[n - 1] == ms[..n][n - 1] == ms'[..n][n - 1] == ms'[n - 1];
      assert ms[..n - 1] == ms[..n][..n - 1] == ms'[..n][..n - 1] == ms'[..n - 1];
      LastIndexPrefix(ms, ms', p, n - 1);
    }
  }

  /** The record a loop that overwrites on every match holds after the first `n` records. */
  function Picked(ms: seq<Member>, p: Member -> bool, n: nat): (r: Option<Member>)
    requires n <= |ms|
  {
    match LastIndex(ms, p, n)
    case None => None
    case Some(k) => Some(ms[k])
  }

  /**
   * Last match wins: one more record at the end of the list replaces the
   * remembered one when it matches, and leaves it unchanged when it does not.
   */
  lemma PickedSnoc(ms: seq<Member>, m: Member, p: Member -> bool)
    ensures Picked(ms + [m], p, |ms| + 1) == if p(m) then Some(m) else Picked(ms, p, |ms|)
  {
    var ms' := ms + [m];
    assert ms'[|ms|] == m;
    if !p(m) {
      assert ms'[..|ms|] == ms[..|ms|];
      LastIndexPrefix(ms, ms', p, |ms|);
      match LastIndex(ms, p, |ms|)
      case None =>
      case Some(k) => assert ms'[k] == ms[k];
    }
  }

  /** The whole-second lag: Python 2 `int / 1000`, which rounds toward negative infinity. */
  function LagSeconds(primaryMillis: int, selfMillis: int): (seconds: int)
    ensures seconds * 1000 <= primaryMillis - selfMillis < seconds * 1000 + 1000
  {
    (primaryMillis - selfMillis) / 1000
  }

  /** What the check decides, stated over the whole member list. */
  function Evaluate(isMaster: bool, members: seq<Member>): (v: Verdict)
    ensures (v == OkMaster) == isMaster
    ensures v == CriticalNoPrimary ==> forall j :: 0 <= j < |members| ==> !IsPrimary(members[j])
    ensures v == CriticalNoSelf ==> forall j :: 0 <= j < |members| ==> !IsThisServer(members[j])
  {
    if isMaster then OkMaster
    else
      var primary := Picked(members, IsPrimary, |members|);
      var thisServer := Picked(members, IsThisServer, |members|);
      if primary.None? then CriticalNoPrimary
      else if thisServer.None? then CriticalNoSelf
      else Lag(LagSeconds(primary.value.optime, thisServer.value.optime))
  }

  /**
   * The check itself: return at once for a master, otherwise scan the
   * members once, remembering the last PRIMARY record and the last non-PRIMARY
   * self record, report the first missing one, and compute the lag.
   */
  method Check(isMaster: bool, members: seq<Member>) returns (verdict: Verdict)
    ensures verdict == Evaluate(isMaster, members)
  {
    if isMaster {
      return OkMaster;
    }
    var primary: Option<Member> := None;
    var thisServer: Option<Member> := None;
    for i := 0 to |members|
      invariant primary == Picked(members, IsPrimary, i)
      invariant thisServer == Picked(members, IsThisServer, i)
    {
      var member := members[i];
      if member.stateStr == "PRIMARY" {
        primary := Some(member);
      } else if member.isSelf {
        thisServer := Some(member);
      }
    }
    if primary.None? {
      return CriticalNoPrimary;
    } else if thisServer.None? {
      return CriticalNoSelf;
    }
    var difference := primary.value.optime - thisServer.value.optime;
    var seconds := difference / 1000;
    return Lag(seconds);
  }

  /** The message `%d`-formatted from the lag, as passed along with it to the classifier. */
  function LagMessage(seconds: int): (msg: string)
    ensures |msg| == |LagPrefix| + |Decimal.Format(seconds)| + |LagSuffix|
    ensures msg[..|LagPrefix|] == LagPrefix && msg[|msg| - |LagSuffix|..] == LagSuffix
    ensures msg[|LagPrefix|..|msg| - |LagSuffix|] == Decimal.Format(seconds)
  {
    LagPrefix + Decimal.Format(seconds) + LagSuffix
  }

  /** The number printed inside a lag message. */
  function MessageNumber(msg: string): string
    requires |msg| >= |LagPrefix| + |LagSuffix|
  {
    msg[|LagPrefix|..|msg| - |LagSuffix|]
  }

  /**
   * The plugin's answer for a verdict; `classify` stands for the threshold
   * comparison of `response_for_value`, which receives the lag in seconds.
   */
  function Respond(verdict: Verdict, classify: int -> Status): (r: Response)
    ensures r.status == match verdict
      case OkMaster => OK
      case CriticalNoPrimary => CRITICAL
      case CriticalNoSelf => CRITICAL
      case Lag(seconds) => classify(seconds)
    ensures verdict.OkMaster? <==> r.message == MasterMessage
    ensures verdict.CriticalNoPrimary? <==> r.message == NoPrimaryMessage
    ensures verdict.CriticalNoSelf? <==> r.message == NoSelfMessage
    ensures verdict.Lag? ==> r.message == LagMessage(verdict.seconds)
  {
    match verdict
    case OkMaster => Response(OK, MasterMessage)
    case CriticalNoPrimary => Response(CRITICAL, NoPrimaryMessage)
    case CriticalNoSelf => Response(CRITICAL, NoSelfMessage)
    case Lag(seconds) => Response(classify(seconds), LagMessage(seconds))
  }

  // ---------------------------------------------------------------------------
  // Properties of the check
  // ---------------------------------------------------------------------------

  /** A master answers OK at once, whatever the member list holds. */
  lemma MasterShortCircuit(members: seq<Member>, classify: int -> Status)
    ensures Evaluate(true, members) == OkMaster
    ensures Respond(Evaluate(true, members), classify) == Response(OK, MasterMessage)
  {
  }

  /** Without a PRIMARY record a non-master is CRITICAL for the primary, and only then. */
  lemma NoPrimaryIff(members: seq<Member>)
    ensures Evaluate(false, members) == CriticalNoPrimary
        <==> forall j :: 0 <= j < |members| ==> !IsPrimary(members[j])
  {
  }

  /**
   * "This server could not be found" is reported exactly when a PRIMARY
   * record exists but no record is both non-PRIMARY and self; the primary
   * check therefore wins when both are missing.
   */
  lemma NoSelfIff(members: seq<Member>)
    ensures Evaluate(false, members) == CriticalNoSelf
        <==> (exists j :: 0 <= j < |members| && IsPrimary(members[j]))
             && forall j :: 0 <= j < |members| ==> !IsThisServer(members[j])
  {
  }

  /** A non-master reports a lag exactly when both a primary and this server are found. */
  lemma LagIff(members: seq<Member>)
    ensures Evaluate(false, members).Lag?
        <==> (exists j :: 0 <= j < |members| && IsPrimary(members[j]))
             && (exists j :: 0 <= j < |members| && IsThisServer(members[j]))
  {
  }

  /** A record that is both PRIMARY and self is only ever taken as the primary. */
  lemma PrimarySelfIsNotThisServer(members: seq<Member>, k: int)
    requires 0 <= k < |members| && IsPrimary(members[k]) && members[k].isSelf
    requires forall j :: 0 <= j < |members| && j != k ==> !members[j].isSelf
    ensures Evaluate(false, members) == CriticalNoSelf
  {
  }

  /**
   * When both records resolve, the lag is computed from the LAST PRIMARY
   * record and the LAST non-PRIMARY self record of the list, and from no other.
   */
  lemma LagFromLastMatches(members: seq<Member>, p: int, s: int)
    requires IsLastMatch(members, IsPrimary, |members|, p)
    requires IsLastMatch(members, IsThisServer, |members|, s)
    ensures Evaluate(false, members) == Lag((members[p].optime - members[s].optime) / 1000)
  {
    LastIndexUnique(members, IsPrimary, |members|, p);
    LastIndexUnique(members, IsThisServer, |members|, s);
  }

  /** No clamping: the lag is negative exactly when this server's optime is ahead of the primary's. */
  lemma NegativeLagNotClamped(members: seq<Member>, p: int, s: int)
    requires IsLastMatch(members, IsPrimary, |members|, p)
    requires IsLastMatch(members, IsThisServer, |members|, s)
    ensures Evaluate(false, members).Lag?
    ensures Evaluate(false, members).seconds < 0 <==> members[p].optime < members[s].optime
  {
    LagFromLastMatches(members, p, s);
  }

  /**
   * On the lag path the classifier receives the lag, and the message prints
   * that same number between the fixed prefix and suffix.
   */
  lemma LagMessageCarriesSeconds(seconds: int, classify: int -> Status)
    ensures var r := Respond(Lag(seconds), classify);
      && r.status == classify(seconds)
      && r.message[..|LagPrefix|] == LagPrefix
      && r.message[|r.message| - |LagSuffix|..] == LagSuffix
      && Decimal.Parse(MessageNumber(r.message)) == seconds
  {
    assert MessageNumber(LagMessage(seconds)) == Decimal.Format(seconds);
    Decimal.ParseFormat(seconds);
  }

  /** Two PRIMARY records: the later one sets the lag. */
  lemma TwoPrimariesLastWins()
    ensures Evaluate(false, [
      Member("PRIMARY", false, 100000),
      Member("SECONDARY", true, 40000),
      Member("PRIMARY", false, 70000)
    ]) == Lag(30)
  {
    var ms := [Member("PRIMARY", false, 100000), Member("SECONDARY", true, 40000), Member("PRIMARY", false, 70000)];
    LagFromLastMatches(ms, 2, 1);
  }

  /** A local optime 1.5 seconds ahead of the primary's is reported as a lag of -2 seconds. */
  lemma AheadOfPrimaryExample()
    ensures Evaluate(false, [Member("PRIMARY", false, 1000), Member("SECONDARY", true, 2500)]) == Lag(-2)
  {
    var ms := [Member("PRIMARY", false, 1000), Member("SECONDARY", true, 2500)];
    LagFromLastMatches(ms, 0, 1);
  }
}
