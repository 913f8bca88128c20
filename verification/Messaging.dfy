/** The binary form of an alert message: a type byte, a 32-byte reference ID, then the data. */
module Messaging {
  import opened Prelude

  newtype byte = x: int | 0 <= x < 256

  const DIGEST_SIZE := 32

  datatype AlertMessage = AlertMessage(alertType: byte, referenceID: seq<byte>, data: seq<byte>) {
    predicate Valid() {
      |referenceID| == DIGEST_SIZE
    }
  }

  method MarshalBinary(m: AlertMessage) returns (data: seq<byte>)
    requires m.Valid()
    ensures data == Marshalled(m)
    ensures |data| == 33 + |m.data| && data[0] == m.alertType && data[1..33] == m.referenceID && data[33..] == m.data
  {
    data := [];
    data := data + [m.alertType];
    data := data + m.referenceID;
    data := data + m.data;
  }

  function Marshalled(m: AlertMessage): seq<byte> {
    [m.alertType] + m.referenceID + m.data
  }

  function NewAlertMessageFromBytes(msgData: seq<byte>): Option<AlertMessage> {
    var minMsgSize := 1 + DIGEST_SIZE;
    if |msgData| < minMsgSize then None
    else Some(AlertMessage(msgData[0], msgData[1..1 + DIGEST_SIZE], msgData[minMsgSize..]))
  }

  /** Reading back what was written gives the message, whatever its data. */
  lemma ReadsBackMarshalled(m: AlertMessage)
    requires m.Valid()
    ensures NewAlertMessageFromBytes(Marshalled(m)) == Some(m)
  {
    var s := Marshalled(m);
    assert s[1..1 + DIGEST_SIZE] == m.referenceID && s[1 + DIGEST_SIZE..] == m.data;
  }

  /** Exactly the byte strings of at least 33 bytes are messages, and each is the form of one message. */
  lemma AcceptsExactlyMarshalled(s: seq<byte>)
    ensures NewAlertMessageFromBytes(s).Some? <==> exists m: AlertMessage :: m.Valid() && Marshalled(m) == s
    ensures NewAlertMessageFromBytes(s).Some? ==>
              NewAlertMessageFromBytes(s).value.Valid() && Marshalled(NewAlertMessageFromBytes(s).value) == s
  {
    if |s| >= 1 + DIGEST_SIZE {
      var m := NewAlertMessageFromBytes(s).value;
      assert Marshalled(m) == s;
    }
  }
}
