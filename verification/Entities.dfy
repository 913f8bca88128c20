/** Node statements, the events they come from, and alerts with the identifiers they are stored under. */
module Entities {
  import opened Prelude
  import opened Strings

  /** A hash or block identifier in its printed form. */
  type Digest = string

  datatype NodeStatus = OK | Incomplete | Unreachable | InvalidHeight

  datatype StateHash = StateHash(blockID: Digest, sumHash: Digest)

  datatype NodeStatement = NodeStatement(
    node: string, timestamp: int, status: NodeStatus, height: uint64, stateHash: Option<StateHash>)
  {
    /** A full statement is one that carries a state hash. */
    predicate Full() {
      stateHash.Some?
    }

    /** A state hash comes with status OK; the converse needs the hash not to be nil. */
    predicate WellFormed() {
      Full() ==> status.OK?
    }

    predicate FullAt(h: uint64) {
      Full() && height == h
    }
  }

  /** What the scraper may learn about a node; each kind adds fields to the one before it. */
  datatype Event =
    | UnreachableEvent(node: string, ts: int)
    | VersionEvent(node: string, ts: int)
    | HeightEvent(node: string, ts: int, h: uint64)
    | InvalidHeightEvent(node: string, ts: int, h: uint64)
    | BlockHeaderEvent(node: string, ts: int, h: uint64)
    | BaseTargetEvent(node: string, ts: int, h: uint64)
    | StateHashEvent(node: string, ts: int, h: uint64, sh: Option<StateHash>)  // a pointer, nil if None
  {
    function Statement(): (s: NodeStatement)
      ensures s.WellFormed() && s.node == node && s.timestamp == ts
      ensures s.status.OK? <==> StateHashEvent?
      ensures s.status.Unreachable? <==> UnreachableEvent?
      ensures s.status.InvalidHeight? <==> InvalidHeightEvent?
      ensures s.height == if UnreachableEvent? || VersionEvent? then 0 else h
      ensures s.stateHash == if StateHashEvent? then sh else None
    {
      match this
      case UnreachableEvent(n, t) => NodeStatement(n, t, Unreachable, 0, None)
      case VersionEvent(n, t) => NodeStatement(n, t, Incomplete, 0, None)
      case HeightEvent(n, t, h) => NodeStatement(n, t, Incomplete, h, None)
      case InvalidHeightEvent(n, t, h) => NodeStatement(n, t, InvalidHeight, h, None)
      case BlockHeaderEvent(n, t, h) => NodeStatement(n, t, Incomplete, h, None)
      case BaseTargetEvent(n, t, h) => NodeStatement(n, t, Incomplete, h, None)
      case StateHashEvent(n, t, h, sh) => NodeStatement(n, t, OK, h, sh)
    }
  }

  datatype AlertType =
    | SimpleAlertType
    | UnreachableAlertType
    | IncompleteAlertType
    | InvalidHeightAlertType
    | HeightAlertType
    | StateHashAlertType
    | BaseTargetAlertType
    | InternalErrorAlertType
    | ChallengedBlockAlertType
    | L2StuckAlertType

  datatype HeightGroup = HeightGroup(height: uint64, nodes: seq<string>)
  datatype StateHashGroup = StateHashGroup(nodes: seq<string>, stateHash: StateHash)

  datatype AlertBody =
    | SimpleAlert(description: string)
    | UnreachableAlert(node: string)
    | IncompleteAlert(statement: NodeStatement)
    | InvalidHeightAlert(statement: NodeStatement)
    | HeightAlert(maxHeightGroup: HeightGroup, otherHeightGroup: HeightGroup)
    | StateHashAlert(
        bucketHeight: uint64, lastCommonExist: bool, lastCommonHeight: uint64, lastCommon: StateHash,
        firstGroup: StateHashGroup, secondGroup: StateHashGroup)
    | BaseTargetAlert(nodes: seq<string>)
    | InternalErrorAlert(error: string)
    | ChallengedBlockAlert(blockID: Digest)
    | L2StuckAlert(l2Height: uint64, l2Node: string)
  {
    function Type(): AlertType {
      match this
      case SimpleAlert(_) => SimpleAlertType
      case UnreachableAlert(_) => UnreachableAlertType
      case IncompleteAlert(_) => IncompleteAlertType
      case InvalidHeightAlert(_) => InvalidHeightAlertType
      case HeightAlert(_, _) => HeightAlertType
      case StateHashAlert(_, _, _, _, _, _) => StateHashAlertType
      case BaseTargetAlert(_) => BaseTargetAlertType
      case InternalErrorAlert(_) => InternalErrorAlertType
      case ChallengedBlockAlert(_) => ChallengedBlockAlertType
      case L2StuckAlert(_, _) => L2StuckAlertType
    }

    /** The bytes that ID() hashes after the alert's name. */
    function IDSuffix(): string {
      match this
      case SimpleAlert(description) => description
      case UnreachableAlert(node) => node
      case IncompleteAlert(s) => s.node
      case InvalidHeightAlert(s) => s.node
      case HeightAlert(_, other) => Concat(other.nodes)
      case StateHashAlert(_, exist, h, sh, first, second) =>
        (if exist then FormatUint(h) + sh.sumHash else "") + Concat(first.nodes) + Concat(second.nodes)
      case BaseTargetAlert(nodes) => Concat(nodes)
      case InternalErrorAlert(error) => error
      case ChallengedBlockAlert(blockID) => blockID
      case L2StuckAlert(height, node) => node + FormatUint(height)
    }

    function ID(): AlertID {
      Name(Type()) + IDSuffix()
    }
  }

  function Name(t: AlertType): string {
    match t
    case SimpleAlertType => "SimpleAlert"
    case UnreachableAlertType => "UnreachableAlert"
    case IncompleteAlertType => "IncompleteAlert"
    case InvalidHeightAlertType => "InvalidHeightAlert"
    case HeightAlertType => "HeightAlert"
    case StateHashAlertType => "StateHashAlert"
    case BaseTargetAlertType => "BaseTargetAlert"
    case InternalErrorAlertType => "InternalErrorAlert"
    case ChallengedBlockAlertType => "ChallengedBlockAlert"
    case L2StuckAlertType => "L2StuckAlert"
  }

  /** The text an alert's ID is the hash of; the hash is taken to have no collisions. */
  type AlertID = string

  /** An alert as the storages see it: the answers of ID() and Type() beside the rest. */
  datatype Alert = Alert(id: AlertID, alertType: AlertType, timestamp: int, body: AlertBody) {
    predicate Genuine() {
      id == body.ID() && alertType == body.Type()
    }
  }

  function NewAlert(timestamp: int, body: AlertBody): (a: Alert)
    ensures a.Genuine()
  {
    Alert(body.ID(), body.Type(), timestamp, body)
  }

  /** What travels to the bots: an alert, or the news that one is fixed. */
  datatype Message = Raised(alert: Alert) | AlertFixed(timestamp: int, fixed: Alert) {
    /** NewAlertMessageFromAlert: a fix refers to the alert it fixes. */
    function ReferenceID(): AlertID {
      match this
      case Raised(a) => a.id
      case AlertFixed(_, a) => a.id
    }
  }

  /** The type whose name starts with these three characters. */
  function TypeOfInitials(c: char, d: char, e: char): AlertType {
    if c == 'U' then UnreachableAlertType
    else if c == 'H' then HeightAlertType
    else if c == 'B' then BaseTargetAlertType
    else if c == 'C' then ChallengedBlockAlertType
    else if c == 'L' then L2StuckAlertType
    else if c == 'S' then (if d == 'i' then SimpleAlertType else StateHashAlertType)
    else if e == 'c' then IncompleteAlertType
    else if e == 'v' then InvalidHeightAlertType
    else InternalErrorAlertType
  }

  lemma NameTellsType(t: AlertType)
    ensures |Name(t)| >= 3
    ensures TypeOfInitials(Name(t)[0], Name(t)[1], Name(t)[2]) == t
  {
  }

  /** No alert name starts like another, so an ID tells the type of its alert. */
  lemma IDDeterminesType(a: Alert, b: Alert)
    requires a.Genuine() && b.Genuine() && a.id == b.id
    ensures a.alertType == b.alertType
  {
    NameTellsType(a.alertType);
    NameTellsType(b.alertType);
    IDInitials(a);
    IDInitials(b);
  }

  lemma IDInitials(a: Alert)
    requires a.Genuine() && |Name(a.alertType)| >= 3
    ensures |a.id| >= 3 && forall i :: 0 <= i < 3 ==> a.id[i] == Name(a.alertType)[i]
  {
    var n := Name(a.body.Type());
    assert a.id == n + a.body.IDSuffix();
  }

  /** The texts that are hashed, alert by alert, and the types that go with them. */
  lemma IDTexts(a: AlertBody)
    ensures a.SimpleAlert? ==> a.ID() == "SimpleAlert" + a.description && a.Type() == SimpleAlertType
    ensures a.UnreachableAlert? ==> a.ID() == "UnreachableAlert" + a.node && a.Type() == UnreachableAlertType
    ensures a.IncompleteAlert? ==> a.ID() == "IncompleteAlert" + a.statement.node && a.Type() == IncompleteAlertType
    ensures a.InvalidHeightAlert? ==>
              a.ID() == "InvalidHeightAlert" + a.statement.node && a.Type() == InvalidHeightAlertType
    ensures a.HeightAlert? ==>
              a.ID() == "HeightAlert" + Concat(a.otherHeightGroup.nodes) && a.Type() == HeightAlertType
    ensures a.StateHashAlert? ==>
              a.ID() == "StateHashAlert"
                        + ((if a.lastCommonExist then FormatUint(a.lastCommonHeight) + a.lastCommon.sumHash else "")
                           + Concat(a.firstGroup.nodes) + Concat(a.secondGroup.nodes))
              && a.Type() == StateHashAlertType
    ensures a.BaseTargetAlert? ==> a.ID() == "BaseTargetAlert" + Concat(a.nodes) && a.Type() == BaseTargetAlertType
    ensures a.InternalErrorAlert? ==> a.ID() == "InternalErrorAlert" + a.error && a.Type() == InternalErrorAlertType
    ensures a.ChallengedBlockAlert? ==>
              a.ID() == "ChallengedBlockAlert" + a.blockID && a.Type() == ChallengedBlockAlertType
    ensures a.L2StuckAlert? ==>
              a.ID() == "L2StuckAlert" + (a.l2Node + FormatUint(a.l2Height)) && a.Type() == L2StuckAlertType
  {
  }

  /** Alerts about one node's availability are the same alert exactly if they are about the same node:
      neither the time nor the rest of the statement matters. */
  lemma NodeAlertIDs(n: string, m: string, s: NodeStatement, t: NodeStatement)
    ensures UnreachableAlert(n).ID() == UnreachableAlert(m).ID() <==> n == m
    ensures IncompleteAlert(s).ID() == IncompleteAlert(t).ID() <==> s.node == t.node
    ensures UnreachableAlert(n).ID() != IncompleteAlert(s).ID()
  {
    SameAfterPrefix("UnreachableAlert", n, m);
    SameAfterPrefix("IncompleteAlert", s.node, t.node);
    IDTexts(UnreachableAlert(n));
    IDTexts(IncompleteAlert(s));
    assert UnreachableAlert(n).ID()[0] == 'U' && IncompleteAlert(s).ID()[0] == 'I';
  }

  lemma SameAfterPrefix(p: string, a: string, b: string)
    ensures p + a == p + b <==> a == b
  {
    assert (p + a)[|p|..] == a && (p + b)[|p|..] == b;
  }
}
