/** How the bots remember which chat message carries an alert, and reply to it when it is fixed. */
module Bots {
  import opened Prelude
  import opened Entities
  import opened AlertsStorage

  // ----- the bot -----

  class UnhandledAlertMessages {
    var alertMessages: map<AlertID, int>

    constructor ()
      ensures alertMessages == map[]
    {
      alertMessages := map[];
    }

    method Add(alertID: AlertID, messageID: int)
      modifies this
      ensures alertMessages == old(alertMessages)[alertID := messageID]
    {
      alertMessages := alertMessages[alertID := messageID];
    }

    method GetMessageIDByAlertID(alertID: AlertID) returns (r: Option<int>)
      ensures r == if alertID in alertMessages then Some(alertMessages[alertID]) else None
    {
      r := if alertID in alertMessages then Some(alertMessages[alertID]) else None;
    }

    method Delete(alertID: AlertID)
      modifies this
      ensures alertMessages == old(alertMessages) - {alertID}
    {
      alertMessages := alertMessages - {alertID};
    }
  }

  datatype Platform = Discord | Telegram(mute: bool)

  datatype Reaction =
    | Muted
    | Posted(messageID: int)
    | NotPosted                  // Discord gives up when the chat refuses the message
    | Crashed                    // Telegram reads the ID of a message it did not get
    | Replied(to: int)
    | MessageIDNotFound

  /** The map and the reaction after one message; result is the chat's answer to the send. */
  function React(p: Platform, m: map<AlertID, int>, msg: Message, result: Option<int>): (map<AlertID, int>, Reaction) {
    var id := msg.ReferenceID();
    if p.Telegram? && p.mute then (m, Muted)
    else
      match msg
      case AlertFixed(_, _) =>
        if id in m then (m - {id}, Replied(m[id])) else (m, MessageIDNotFound)
      case Raised(_) =>
        match result
        case Some(messageID) => (m[id := messageID], Posted(messageID))
        case None => (m, if p.Discord? then NotPosted else Crashed)
  }

  class BotEnvironment {
    const platform: Platform
    const unhandledAlertMessages: UnhandledAlertMessages

    constructor (platform: Platform, messages: UnhandledAlertMessages)
      ensures this.platform == platform && unhandledAlertMessages == messages
    {
      this.platform := platform;
      unhandledAlertMessages := messages;
    }

    method SendAlertMessage(msg: Message, result: Option<int>) returns (reaction: Reaction)
      modifies unhandledAlertMessages
      ensures (unhandledAlertMessages.alertMessages, reaction)
           == React(platform, old(unhandledAlertMessages.alertMessages), msg, result)
      ensures var before, after := old(unhandledAlertMessages.alertMessages), unhandledAlertMessages.alertMessages;
              var muted := platform.Telegram? && platform.mute;
              && (muted ==> after == before && reaction == Muted)
              && (!muted && msg.AlertFixed? ==>
                    if msg.fixed.id in before
                    then after == before - {msg.fixed.id} && reaction == Replied(before[msg.fixed.id])
                    else after == before && reaction == MessageIDNotFound)
              && (!muted && msg.Raised? && result.Some? ==>
                    after == before[msg.alert.id := result.value] && reaction == Posted(result.value))
              && (!muted && msg.Raised? && result.None? ==>
                    after == before && reaction == if platform.Discord? then NotPosted else Crashed)
    {
      if platform.Telegram? && platform.mute {
        return Muted;
      }
      var alertID := msg.ReferenceID();
      if msg.AlertFixed? {
        var messageID := unhandledAlertMessages.GetMessageIDByAlertID(alertID);
        if messageID.None? {
          return MessageIDNotFound;
        }
        unhandledAlertMessages.Delete(alertID);
        return Replied(messageID.value);
      }
      match result
      case None =>
        return if platform.Discord? then NotPosted else Crashed;
      case Some(messageID) =>
        unhandledAlertMessages.Add(alertID, messageID);
        return Posted(messageID);
    }
  }

  /** A message that reached the bot, with the chat's answer. */
  datatype Delivery = Delivery(msg: Message, result: Option<int>) {
    predicate Posts(id: AlertID) {
      msg.Raised? && msg.alert.id == id && result.Some?
    }

    predicate Fixes(id: AlertID) {
      msg.AlertFixed? && msg.fixed.id == id
    }
  }

  function MapAfter(p: Platform, ds: seq<Delivery>): map<AlertID, int> {
    if ds == [] then map[]
    else
      var d := ds[|ds| - 1];
      React(p, MapAfter(p, ds[..|ds| - 1]), d.msg, d.result).0
  }

  ghost predicate LastPost(ds: seq<Delivery>, id: AlertID, i: int) {
    && 0 <= i < |ds| && ds[i].Posts(id)
    && forall j :: i < j < |ds| ==> !ds[j].Posts(id) && !ds[j].Fixes(id)
  }

  predicate Listens(p: Platform) {
    !(p.Telegram? && p.mute)
  }

  /** For any stream of messages, with failed sends: the map holds an ID exactly when it was posted
      and neither fixed nor posted again since, and then under the ID of that chat message. */
  lemma {:induction false} MapMeaning(p: Platform, ds: seq<Delivery>, id: AlertID)
    requires Listens(p)
    ensures id in MapAfter(p, ds) <==> exists i :: LastPost(ds, id, i)
    ensures forall i :: LastPost(ds, id, i) ==> MapAfter(p, ds)[id] == ds[i].result.value
  {
    if ds != [] {
      var ds', d := ds[..|ds| - 1], ds[|ds| - 1];
      MapMeaning(p, ds', id);
      if d.Posts(id) {
        assert LastPost(ds, id, |ds| - 1);
        assert forall i :: LastPost(ds, id, i) ==> i == |ds| - 1;
      } else if d.Fixes(id) {
        assert forall i :: !LastPost(ds, id, i);
      } else {
        assert forall i :: LastPost(ds, id, i) <==> LastPost(ds', id, i);
      }
    }
  }
}
