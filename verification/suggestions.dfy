/**
 * The suggestion engine of src/suggestions.js: read-only predicates over the stored nodes and
 * links, two ordered lists (suggestions and problems), and `getSuggestion`, whose random draws
 * are an oracle `coin` (draw number `d` is `coin(d)`, true meaning `Math.random() < 0.5`).
 */
module Suggestions {
  import opened Wrappers
  import opened Nodes
  import Achievements

  // ---------------------------------------------------------------- predicates

  /** `hasSHG`: some node's type is a home gateway. */
  predicate HasHomeGateway(ns: seq<Node>) {
    exists k :: 0 <= k < |ns| && ns[k].def.isHomeGateway
  }

  /** `hasReachableSensors(m)`. */
  predicate HasReachableSensors(ns: seq<Node>, modality: string) {
    exists k :: 0 <= k < |ns| && ns[k].isReachable && ns[k].def.modality == modality
  }

  /** `sensingInRoom(m, r)`: a reachable node of the modality lies in the room. */
  predicate SensingInRoom(ns: seq<Node>, modality: string, room: string) {
    exists k :: 0 <= k < |ns| && ns[k].isReachable && ns[k].def.modality == modality && room in ns[k].rooms
  }

  /** `hasSensorIn(m, r)`: a node of the modality lies in the room, reachable or not. */
  predicate HasSensorIn(ns: seq<Node>, modality: string, room: string) {
    exists k :: 0 <= k < |ns| && ns[k].def.modality == modality && room in ns[k].rooms
  }

  /** `hasUnreachableSensors(m)`. */
  predicate HasUnreachableSensors(ns: seq<Node>, modality: string) {
    exists k :: 0 <= k < |ns| && !ns[k].isReachable && ns[k].def.modality == modality
  }

  /** Some link leaves the node `id`. */
  predicate HasOutgoing(ls: seq<Link>, id: string) {
    exists l :: l in ls && l.source == id
  }

  /** `hasDisconnectedSensors(m)`: an unreachable node of the modality has no outgoing link. */
  predicate HasDisconnectedSensors(ns: seq<Node>, ls: seq<Link>, modality: string) {
    exists k :: 0 <= k < |ns| && !ns[k].isReachable && ns[k].def.modality == modality && !HasOutgoing(ls, ns[k].id)
  }

  /**
   * `hasMultipleUnconnectedGateways`: at least two gateways, and no gateway is the target of a
   * link whose source is a gateway.
   */
  predicate HasMultipleUnconnectedGateways(ns: seq<Node>, ls: seq<Link>) {
    Achievements.CountModality(ns, "gateway") >= 2 &&
    forall k :: 0 <= k < |ns| && ns[k].def.modality == "gateway" ==> !Achievements.FedByGateway(ns, ls, ns[k].id)
  }

  /** The predicate of one entry of the suggestion or problem list. */
  datatype Check =
    | HasNodes
    | HasLinks
    | HasSHG
    | HasAnySensors
    | Sensors(modality: string)
    | ReachableSensors(modality: string)
    | SensingIn(modality: string, room: string)
    | SensingInEither(modality: string, room1: string, room2: string)
    | NoUnconnectedGateways
    | SensorInEither(modality: string, room1: string, room2: string)
    | SensorIn(modality: string, room: string)
    | UnreachableSensors(modality: string)
    | DisconnectedSensors(modality: string)
    | MoreSensorsThan(modality: string, bound: nat)

  /** Whether the predicate holds on the stored nodes and links. */
  predicate Holds(c: Check, ns: seq<Node>, ls: seq<Link>) {
    match c
    case HasNodes => |ns| > 0
    case HasLinks => |ls| > 0
    case HasSHG => HasHomeGateway(ns)
    case HasAnySensors =>
      Achievements.HasModality(ns, "environmental") || Achievements.HasModality(ns, "wearable") ||
      Achievements.HasModality(ns, "video")
    case Sensors(m) => Achievements.HasModality(ns, m)
    case ReachableSensors(m) => HasReachableSensors(ns, m)
    case SensingIn(m, r) => SensingInRoom(ns, m, r)
    case SensingInEither(m, r1, r2) => SensingInRoom(ns, m, r1) || SensingInRoom(ns, m, r2)
    case NoUnconnectedGateways => !HasMultipleUnconnectedGateways(ns, ls)
    case SensorInEither(m, r1, r2) => HasSensorIn(ns, m, r1) || HasSensorIn(ns, m, r2)
    case SensorIn(m, r) => HasSensorIn(ns, m, r)
    case UnreachableSensors(m) => HasUnreachableSensors(ns, m)
    case DisconnectedSensors(m) => HasDisconnectedSensors(ns, ls, m)
    case MoreSensorsThan(m, b) => Achievements.CountModality(ns, m) > b
  }

  /** The predicates of the suggestions, in order; a suggestion is shown when its predicate does NOT hold. */
  const SuggestionList: seq<Check> := [
    HasNodes,
    HasLinks,
    HasSHG,
    HasAnySensors,
    Sensors("environmental"),
    Sensors("wearable"),
    Sensors("video"),
    Sensors("gateway"),
    ReachableSensors("environmental"),
    ReachableSensors("video"),
    ReachableSensors("gateway"),
    SensingIn("video", "hall-and-stairs"),
    SensingIn("video", "kitchen"),
    SensingIn("video", "living room"),
    SensingInEither("gateway", "guest bedroom", "master bedroom"),
    NoUnconnectedGateways
  ]

  /** The predicates of the problems, in order; a problem is shown when its predicate DOES hold. */
  const ProblemList: seq<Check> := [
    SensorInEither("video", "master bedroom", "guest bedroom"),
    SensorIn("video", "toilet"),
    SensorIn("video", "bathroom"),
    UnreachableSensors("gateway"),
    DisconnectedSensors("environmental"),
    UnreachableSensors("environmental"),
    DisconnectedSensors("video"),
    UnreachableSensors("video"),
    MoreSensorsThan("video", 3)
  ]

  /** The text of each suggestion. */
  function SuggestionText(i: nat): string {
    match i
    case 0 => "Try dragging some devices from the palette (on the left side) to the house plan to get started"
    case 1 => "Join the devices together with links to get started.\nA link must connect an <strong>output port</strong> (right side) of a device with an <strong>input port</strong> (left side) of another device"
    case 2 => "A smart home system needs a <strong>home gateway</strong>"
    case 3 => "A smart home system needs <strong>sensors</strong> for data collection"
    case 4 => "A smart home system needs <strong>environmental sensors</strong> to capture ambient information about the rooms"
    case 5 => "A smart home system needs <strong>a wristband sensor</strong> (a \"wearable\") to capture participant activity and location in the house in every moment"
    case 6 => "A smart home system needs <strong>video sensors</strong> to capture participant activities and information about their quality of movement"
    case 7 => "Adding <strong>forwarding gateways</strong> to the system is necessary to collect information from the wristband sensors; it also helps to increase the coverage in parts of the house remote from the Home Gateway"
    case 8 => "Environmental sensors need to be able to reach the Home Gateway"
    case 9 => "Information extracted from raw video need to be able to reach the Home Gateway"
    case 10 => "Information from wristband devices need to be able to reach the Home Gateway"
    case 11 => "A connected video sensor in the hall helps to detect movement quality, especially about participants moving up and down the stairs. This is useful to, for example, monitor the recovery of patients after hip or knee operations, and diagnose the severity of chronic health conditions such as Parkinson's disease"
    case 12 => "A connected video sensor in the kitchen helps to detect cooking-related activities. This is useful to diagnose the \"complexity\" and duration of meals, which is useful for many medical applications, including monitoring and early diagnosis of Alzheimer's disease"
    case 13 => "A connected video sensor in the living room records a lot of information about activities, such as the time spent watching TV"
    case 14 => "A connected Forwarding Gateway in the bedroom is useful to record information about sleep quality during night, assuming a wristband device is worn by the participant sleeping there. Bad sleep quality is correlated with many medical conditions, and may increase the risk of depressing and hypertension"
    case 15 => "There are multiple Forwarding Gateways, but they are not connected in a mesh (that is, with each another). Connecting them in a mesh will allow to cover more areas in the house with Wearable Sensing and Environmental Sensing. The Forwarding gateways are going forward data from environmental sensors and wristband sensors to the Home Gateway"
    case _ => ""
  }

  /** The text of each problem. */
  function ProblemText(i: nat): string {
    match i
    case 0 => "Video monitoring in bedrooms could be seen as a severe violation of participant privacy"
    case 1 => "Video monitoring in the toilet could be seen as a severe violation of participant privacy"
    case 2 => "Video monitoring in the bathroom could be seen as a severe violation of participant privacy"
    case 3 => "There is a disconnected Forwarding Gateway. All Forwarding Gateways need to be able to communicate with the Home Gateway either directly or, for most of them, through another Forwarding Gateway"
    case 4 => "There is a disconnected environmental sensor. All environmental sensors need to be able to communicate with the Home Gateway through a Forwarding Gateway"
    case 5 => "There is an unreachable environmental sensor. All environmental sensors need to be able to communicate with the Home Gateway through a Forwarding Gateway"
    case 6 => "There is a disconnected video camera. Each video camera needs to be connected to a Video Gateway with a USB cable"
    case 7 => "There is an unreachable video camera. All video cameras need to be able to communicate with the Home Gateway through a Video Gateway"
    case 8 => "More than three video cameras <i>may</i> make you run out of budget too soon if you're not careful"
    case _ => ""
  }

  const LoadingText := "Wait for the game to load.."
  const AllDoneText := "Looks like you're all done with the \"basic\" stuff. Keep up the good work!<br><br>Some ideas to try out:<ul><li> What's the minimal number of devices needed to achieve full coverage?<li> If you're using BLE for communication, try switching the network to TSCH and vice versa.<li>Indoor localization relies on Forwarding Gateways: the more, the better (but they also make the system more expensive).<li> Leave <a href=\"#\" onclick=\"$('#node-dialog-about').modal()\">feedback via social media or email!</a></ul>"

  // ---------------------------------------------------------------- relations between predicates

  /** A sensor without outgoing links that is unreachable is in particular unreachable. */
  lemma DisconnectedIsUnreachable(ns: seq<Node>, ls: seq<Link>, modality: string)
    ensures HasDisconnectedSensors(ns, ls, modality) ==> HasUnreachableSensors(ns, modality)
  {
    if HasDisconnectedSensors(ns, ls, modality) {
      var k :| 0 <= k < |ns| && !ns[k].isReachable && ns[k].def.modality == modality && !HasOutgoing(ls, ns[k].id);
      assert !ns[k].isReachable && ns[k].def.modality == modality;
    }
  }

  /** Only outgoing links count: an unreachable sensor with an incoming link can still be "disconnected". */
  lemma IncomingLinksDoNotConnect(n: Node, l: Link)
    requires !n.isReachable && l.target == n.id && l.source != n.id
    ensures HasDisconnectedSensors([n], [l], n.def.modality)
  {
    assert [n][0] == n;
  }

  /** Reachable sensors and sensors sensing in a room are in particular sensors, or sensors in that room. */
  lemma ReachableIsPresent(ns: seq<Node>, modality: string, room: string)
    ensures HasReachableSensors(ns, modality) ==> Achievements.HasModality(ns, modality)
    ensures SensingInRoom(ns, modality, room) ==> HasSensorIn(ns, modality, room)
    ensures SensingInRoom(ns, modality, room) ==> HasReachableSensors(ns, modality)
  {
    if HasReachableSensors(ns, modality) {
      var k :| 0 <= k < |ns| && ns[k].isReachable && ns[k].def.modality == modality;
      assert ns[k].def.modality == modality;
    }
    if SensingInRoom(ns, modality, room) {
      var k :| 0 <= k < |ns| && ns[k].isReachable && ns[k].def.modality == modality && room in ns[k].rooms;
      assert ns[k].def.modality == modality && room in ns[k].rooms;
    }
  }

  /**
   * With fewer than two gateways there is nothing to complain about; otherwise the complaint is
   * exactly that the gateways do not form a mesh in the sense of `isMeshNetwork`.
   */
  lemma UnconnectedGatewaysIffNotMesh(ns: seq<Node>, ls: seq<Link>)
    ensures Achievements.CountModality(ns, "gateway") < 2 ==> !HasMultipleUnconnectedGateways(ns, ls)
    ensures Achievements.CountModality(ns, "gateway") >= 2 ==>
      (HasMultipleUnconnectedGateways(ns, ls) <==> !Achievements.IsMesh(ns, ls))
  {
    if Achievements.IsMesh(ns, ls) {
      var k :| 0 <= k < |ns| && ns[k].def.modality == "gateway" && Achievements.FedByGateway(ns, ls, ns[k].id);
      assert !HasMultipleUnconnectedGateways(ns, ls);
    }
  }

  // ---------------------------------------------------------------- getSuggestion

  /**
   * What `getSuggestion` returns: the loading message, a suggestion or problem by position, or
   * the closing message.
   */
  datatype Advice = Loading | Tip(index: nat) | Problem(index: nat) | AllDone {
    /** The `type` field of the returned object; the first two suggestions are returned as they are, without one. */
    function Kind(): Option<string> {
      match this
      case Tip(i) => if i < 2 then None else Some("Suggestion")
      case Problem(_) => Some("Problem")
      case _ => Some("Suggestion")
    }

    function Text(): string {
      match this
      case Loading => LoadingText
      case Tip(i) => SuggestionText(i)
      case Problem(i) => ProblemText(i)
      case AllDone => AllDoneText
    }
  }

  /** Every entry of `list` at a position in [from, upto) holds. */
  predicate MetFrom(list: seq<Check>, ns: seq<Node>, ls: seq<Link>, from: nat, upto: nat)
    requires upto <= |list|
  {
    forall i :: from <= i < upto ==> Holds(list[i], ns, ls)
  }

  /** No entry of `list` before position `upto` holds. */
  predicate NoneHolds(list: seq<Check>, ns: seq<Node>, ls: seq<Link>, upto: nat)
    requires upto <= |list|
  {
    forall j :: 0 <= j < upto ==> !Holds(list[j], ns, ls)
  }

  /** The number of entries of `sl` at positions in [from, upto) that do not hold. */
  function UnmetCount(sl: seq<Check>, ns: seq<Node>, ls: seq<Link>, from: nat, upto: nat): nat
    requires upto <= |sl|
    decreases upto
  {
    if upto <= from then 0
    else UnmetCount(sl, ns, ls, from, upto - 1) + (if Holds(sl[upto - 1], ns, ls) then 0 else 1)
  }

  /**
   * On a first pass starting with `draws` draws used, suggestion `i` is unmet, is not the last,
   * and is skipped: each unmet suggestion before the last uses up one draw, in list order.
   */
  predicate Skipped(sl: seq<Check>, ns: seq<Node>, ls: seq<Link>, coin: nat -> bool, draws: nat, i: nat) {
    2 <= i < |sl| - 1 && !Holds(sl[i], ns, ls) && coin(draws + UnmetCount(sl, ns, ls, 2, i))
  }

  /** Some suggestion at a position in [2, upto) is skipped on a first pass. */
  predicate SomeSkipped(sl: seq<Check>, ns: seq<Node>, ls: seq<Link>, coin: nat -> bool, draws: nat, upto: nat) {
    exists i :: 2 <= i < upto && Skipped(sl, ns, ls, coin, draws, i)
  }

  /** Every suggestion at a position in [2, upto) holds or is skipped on a first pass. */
  predicate MetOrSkipped(sl: seq<Check>, ns: seq<Node>, ls: seq<Link>, coin: nat -> bool, draws: nat, upto: nat)
    requires upto <= |sl|
  {
    forall i :: 2 <= i < upto ==> Holds(sl[i], ns, ls) || Skipped(sl, ns, ls, coin, draws, i)
  }

  /** When no draw from `draws` on says skip, the positions that hold or are skipped all hold. */
  lemma NoDrawSkips(sl: seq<Check>, ns: seq<Node>, ls: seq<Link>, coin: nat -> bool, draws: nat, upto: nat)
    requires upto <= |sl| && forall d :: d >= draws ==> !coin(d)
    ensures MetOrSkipped(sl, ns, ls, coin, draws, upto) ==> MetFrom(sl, ns, ls, 2, upto)
  {
  }

  /**
   * `getSuggestion()`. Before the game starts: the loading message. Then an unmet first or
   * second suggestion wins. Then, on a first draw, the first problem that holds. Then up to two
   * passes over the remaining suggestions, where in the first pass each unmet one but the last
   * may be skipped on a draw; a second pass runs only when something was skipped.
   */
  method GetSuggestion(isStarted: bool, ns: seq<Node>, ls: seq<Link>, coin: nat -> bool) returns (a: Advice)
    ensures a == Loading <==> !isStarted
    ensures isStarted && !Holds(SuggestionList[0], ns, ls) ==> a == Tip(0)
    ensures a.Tip? ==> (a.index < |SuggestionList| && !Holds(SuggestionList[a.index], ns, ls) &&
      MetFrom(SuggestionList, ns, ls, 0, if a.index < 2 then a.index else 2))
    ensures a.Problem? ==> (a.index < |ProblemList| && Holds(ProblemList[a.index], ns, ls) &&
      NoneHolds(ProblemList, ns, ls, a.index) && coin(0) && MetFrom(SuggestionList, ns, ls, 0, 2))
    ensures isStarted && MetFrom(SuggestionList, ns, ls, 0, 2) && coin(0) && !NoneHolds(ProblemList, ns, ls, |ProblemList|) ==>
      a.Problem?
    ensures a == AllDone ==> MetFrom(SuggestionList, ns, ls, 0, |SuggestionList|)
    ensures isStarted && MetFrom(SuggestionList, ns, ls, 0, |SuggestionList|) ==> a == AllDone || a.Problem?
    ensures (isStarted && MetFrom(SuggestionList, ns, ls, 0, |SuggestionList| - 1) && !a.Problem? &&
      !Holds(SuggestionList[|SuggestionList| - 1], ns, ls)) ==> a == Tip(|SuggestionList| - 1)
    ensures a.Tip? && a.index >= 2 ==> MetOrSkipped(SuggestionList, ns, ls, coin, 1, a.index)
    ensures a.Tip? && a.index >= 2 ==>
      !Skipped(SuggestionList, ns, ls, coin, 1, a.index) ||
      (MetFrom(SuggestionList, ns, ls, 2, a.index) && MetOrSkipped(SuggestionList, ns, ls, coin, 1, |SuggestionList|))
  {
    a := Select(SuggestionList, ProblemList, isStarted, ns, ls, coin);
  }

  /** `getSuggestion` over any suggestion list of at least three entries and any problem list. */
  method Select(sl: seq<Check>, pl: seq<Check>, isStarted: bool, ns: seq<Node>, ls: seq<Link>, coin: nat -> bool) returns (a: Advice)
    requires |sl| >= 3
    ensures a == Loading <==> !isStarted
    ensures isStarted && !Holds(sl[0], ns, ls) ==> a == Tip(0)
    ensures a.Tip? ==> (a.index < |sl| && !Holds(sl[a.index], ns, ls) &&
      MetFrom(sl, ns, ls, 0, if a.index < 2 then a.index else 2))
    ensures a.Problem? ==> (a.index < |pl| && Holds(pl[a.index], ns, ls) &&
      NoneHolds(pl, ns, ls, a.index) && coin(0) && MetFrom(sl, ns, ls, 0, 2))
    ensures isStarted && MetFrom(sl, ns, ls, 0, 2) && coin(0) && !NoneHolds(pl, ns, ls, |pl|) ==> a.Problem?
    ensures a == AllDone ==> MetFrom(sl, ns, ls, 0, |sl|)
    ensures isStarted && MetFrom(sl, ns, ls, 0, |sl|) ==> a == AllDone || a.Problem?
    ensures (isStarted && MetFrom(sl, ns, ls, 0, |sl| - 1) && !a.Problem? &&
      !Holds(sl[|sl| - 1], ns, ls)) ==> a == Tip(|sl| - 1)
    ensures a.Tip? && a.index >= 2 ==> MetOrSkipped(sl, ns, ls, coin, 1, a.index)
    ensures a.Tip? && a.index >= 2 ==>
      !Skipped(sl, ns, ls, coin, 1, a.index) || (MetFrom(sl, ns, ls, 2, a.index) && MetOrSkipped(sl, ns, ls, coin, 1, |sl|))
  {
    if !isStarted {
      return Loading;
    }
    if !Holds(sl[0], ns, ls) {
      return Tip(0);
    }
    if !Holds(sl[1], ns, ls) {
      return Tip(1);
    }
    assert MetFrom(sl, ns, ls, 0, 2);
    var draws := 0;
    var problemsFirst := coin(draws);
    draws := draws + 1;
    if problemsFirst {
      a := FirstProblem(pl, ns, ls);
      if a.Problem? {
        return;
      }
    }
    var anySkipped := false;
    var j := 0;
    while j < 2
      invariant 0 <= j <= 2
      invariant j == 0 ==> !anySkipped && draws == 1
      invariant j > 0 ==> anySkipped && !MetFrom(sl, ns, ls, 2, |sl| - 1) && MetOrSkipped(sl, ns, ls, coin, 1, |sl|)
      invariant j == 2 ==> MetFrom(sl, ns, ls, 2, |sl|)
    {
      var found: bool;
      found, a, anySkipped, draws := SuggestionPass(sl, ns, ls, coin, j == 0, anySkipped, draws);
      if found {
        return;
      }
      if !anySkipped {
        break;
      }
      j := j + 1;
    }
    a := AllDone;
  }

  /** The problem loop: the first problem whose predicate holds, if any. */
  method FirstProblem(pl: seq<Check>, ns: seq<Node>, ls: seq<Link>) returns (a: Advice)
    ensures a.Problem? || a == AllDone
    ensures a.Problem? ==> a.index < |pl| && Holds(pl[a.index], ns, ls) && NoneHolds(pl, ns, ls, a.index)
    ensures a == AllDone ==> NoneHolds(pl, ns, ls, |pl|)
  {
    var i := 0;
    while i < |pl|
      invariant 0 <= i <= |pl|
      invariant NoneHolds(pl, ns, ls, i)
    {
      if Holds(pl[i], ns, ls) {
        return Problem(i);
      }
      i := i + 1;
    }
    return AllDone;
  }

  /**
   * One pass of the inner loop over suggestions 2.. : returns the first unmet suggestion that is
   * not skipped; on the first pass an unmet suggestion other than the last is skipped when the
   * next draw says so, and `anySkipped` records it. A pass that skips nothing and returns
   * nothing has found every suggestion met, and the last suggestion is never skipped.
   */
  method SuggestionPass(sl: seq<Check>, ns: seq<Node>, ls: seq<Link>, coin: nat -> bool, firstPass: bool, anySkipped: bool, draws: nat)
    returns (found: bool, a: Advice, anySkipped': bool, draws': nat)
    requires |sl| >= 3
    ensures found ==> a.Tip? && 2 <= a.index < |sl| && !Holds(sl[a.index], ns, ls)
    ensures anySkipped ==> anySkipped'
    ensures !found && (!firstPass || !anySkipped') ==> MetFrom(sl, ns, ls, 2, |sl|)
    ensures MetFrom(sl, ns, ls, 2, |sl| - 1) ==> (anySkipped' == anySkipped &&
      (!Holds(sl[|sl| - 1], ns, ls) ==> found && a == Tip(|sl| - 1)))
    ensures found ==> (if firstPass then MetOrSkipped(sl, ns, ls, coin, draws, a.index) && !Skipped(sl, ns, ls, coin, draws, a.index)
                       else MetFrom(sl, ns, ls, 2, a.index))
    ensures !found ==> (if firstPass then MetOrSkipped(sl, ns, ls, coin, draws, |sl|) else MetFrom(sl, ns, ls, 2, |sl|))
    ensures anySkipped' == (anySkipped || (firstPass && SomeSkipped(sl, ns, ls, coin, draws, if found then a.index else |sl|)))
  {
    found, a, anySkipped', draws' := false, AllDone, anySkipped, draws;
    var i := 2;
    while i < |sl|
      invariant 2 <= i <= |sl|
      invariant i == |sl| ==> Holds(sl[|sl| - 1], ns, ls)
      invariant firstPass ==> draws' == draws + UnmetCount(sl, ns, ls, 2, i) && MetOrSkipped(sl, ns, ls, coin, draws, i)
      invariant !firstPass ==> MetFrom(sl, ns, ls, 2, i)
      invariant anySkipped' == (anySkipped || (firstPass && SomeSkipped(sl, ns, ls, coin, draws, i)))
    {
      PassStep(sl, ns, ls, coin, draws, i);
      if !Holds(sl[i], ns, ls) {
        if firstPass && i != |sl| - 1 {
          var skip := coin(draws');
          draws' := draws' + 1;
          if skip {
            anySkipped' := true;
            i := i + 1;
            continue;
          }
        }
        PassOutcome(sl, ns, ls, coin, draws, i);
        found, a := true, Tip(i);
        return;
      }
      i := i + 1;
    }
    PassOutcome(sl, ns, ls, coin, draws, i);
  }

  /** How one position of a pass extends the counts and the summaries of the positions before it. */
  lemma PassStep(sl: seq<Check>, ns: seq<Node>, ls: seq<Link>, coin: nat -> bool, draws: nat, i: nat)
    requires 2 <= i < |sl|
    ensures UnmetCount(sl, ns, ls, 2, i + 1) == UnmetCount(sl, ns, ls, 2, i) + (if Holds(sl[i], ns, ls) then 0 else 1)
    ensures MetOrSkipped(sl, ns, ls, coin, draws, i + 1) <==>
      MetOrSkipped(sl, ns, ls, coin, draws, i) && (Holds(sl[i], ns, ls) || Skipped(sl, ns, ls, coin, draws, i))
    ensures SomeSkipped(sl, ns, ls, coin, draws, i + 1) <==>
      SomeSkipped(sl, ns, ls, coin, draws, i) || Skipped(sl, ns, ls, coin, draws, i)
    ensures MetFrom(sl, ns, ls, 2, i + 1) <==> MetFrom(sl, ns, ls, 2, i) && Holds(sl[i], ns, ls)
  {
  }

  /**
   * Positions that all hold or are skipped, none of them skipped, all hold; and when every
   * suggestion before the last holds, none is skipped.
   */
  lemma PassOutcome(sl: seq<Check>, ns: seq<Node>, ls: seq<Link>, coin: nat -> bool, draws: nat, upto: nat)
    requires 2 <= upto <= |sl|
    ensures MetOrSkipped(sl, ns, ls, coin, draws, upto) && !SomeSkipped(sl, ns, ls, coin, draws, upto) ==>
      MetFrom(sl, ns, ls, 2, upto)
    ensures MetFrom(sl, ns, ls, 2, |sl| - 1) ==> !SomeSkipped(sl, ns, ls, coin, draws, upto)
  {
  }
}
