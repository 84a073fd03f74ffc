/** The pure decision functions of the transport side. */
module TransportPolicy {
  import opened Bytes

  datatype PathState = Active | Inactive | Unconfirmed | Unknown

  datatype TransportAction = Normal | RateLimit | Failover | RestorePrimary | Alert

  datatype NetPolicy = NetNormal | CongestionResponse | FailoverReady | PreferBackup | NetFailover

  /** What the monitor takes for a down primary: inactive, or a state the stack does not name. */
  predicate Down(p: PathState) { p == Inactive || p == Unknown }

  function DecideTransport(verdict: Option<string>, primaryActive: bool, primaryDown: bool,
                           secondaryAvailable: bool, currentlySecondary: bool): TransportAction
  {
    var high := verdict == Some("HIGH");
    var low := verdict == Some("LOW");
    if !currentlySecondary then
      if secondaryAvailable && primaryDown then Failover
      else if high then RateLimit
      else Normal
    else if low && primaryActive then RestorePrimary
    else Normal
  }

  function NetStateToPolicy(state: Option<string>): NetPolicy {
    if state.None? then NetNormal
    else if state.value == "POSSIBLE_PATH_FAILURE" then NetFailover
    else if state.value == "UNSTABLE" then PreferBackup
    else if state.value == "DEGRADED" then FailoverReady
    else if state.value == "CONGESTED" then CongestionResponse
    else NetNormal
  }

  /** The monitor reads an empty reply as STABLE. */
  function ReplyPolicy(reply: string): NetPolicy {
    NetStateToPolicy(Some(if reply != "" then reply else "STABLE"))
  }

  /** The policy of each state the classifier names; any other reply is taken as normal. */
  lemma PolicyOfState(state: string)
    ensures var p := NetStateToPolicy(Some(state));
      && (p == NetFailover <==> state == "POSSIBLE_PATH_FAILURE") && (p == PreferBackup <==> state == "UNSTABLE")
      && (p == FailoverReady <==> state == "DEGRADED") && (p == CongestionResponse <==> state == "CONGESTED")
  {
  }

  /** A reply on which an enforced monitor fails over before the path is down. */
  predicate PredictsFailure(reply: string) {
    ReplyPolicy(reply) == NetFailover || ReplyPolicy(reply) == PreferBackup
  }

  /** Those replies are exactly the two failure predictions of the classifier. */
  lemma PredictionsAreTwo(reply: string)
    ensures PredictsFailure(reply) <==> reply == "UNSTABLE" || reply == "POSSIBLE_PATH_FAILURE"
  {
  }

  /**
   * When each action is taken. A flood (HIGH) never moves traffic: it is throttled, and only where
   * availability does not already demand a failover. Nothing raises an alert.
   */
  lemma WhenActionsAreTaken(verdict: Option<string>, active: bool, down: bool, available: bool, onSecondary: bool)
    ensures var a := DecideTransport(verdict, active, down, available, onSecondary);
      && (a == Failover <==> !onSecondary && available && down)
      && (a == RestorePrimary <==> onSecondary && active && verdict == Some("LOW"))
      && (a == RateLimit <==> !onSecondary && !(available && down) && verdict == Some("HIGH"))
      && a != Alert
  {
  }
}
