// The state of the MQTT link, driven by the results of polling the client's event loop.
module Mqtt {
  import opened Wrappers
  import Bits

  // The CONNACK return codes of MQTT 3.1.1, section 3.2.2.3.
  datatype ReturnCode =
    | Success | RefusedProtocolVersion | BadClientId | ServiceUnavailable | BadUserNamePassword | NotAuthorized

  datatype Polled = ConnAck(code: ReturnCode) | PubAck | OtherPacket | TransportError(text: string)

  function Reason(code: ReturnCode): string {
    match code
    case Success => "connection accepted"
    case RefusedProtocolVersion => "unacceptable protocol version"
    case BadClientId => "client identifier rejected"
    case ServiceUnavailable => "service unavailable"
    case BadUserNamePassword => "bad username or password"
    case NotAuthorized => "not authorized"
  }

  function CodeName(code: ReturnCode): string {
    match code
    case Success => "Success"
    case RefusedProtocolVersion => "RefusedProtocolVersion"
    case BadClientId => "BadClientId"
    case ServiceUnavailable => "ServiceUnavailable"
    case BadUserNamePassword => "BadUserNamePassword"
    case NotAuthorized => "NotAuthorized"
  }

  function RefusalMessage(code: ReturnCode): string {
    "MQTT broker refused the connection: " + Reason(code) + " (CONNACK " + CodeName(code) +
    "); check credentials and broker permissions"
  }

  // Seconds to wait before reconnecting.
  const BACKOFF_INITIAL: nat := 1
  const BACKOFF_MAX: nat := 30

  function Min(a: nat, b: nat): nat {
    if a < b then a else b
  }

  datatype LinkState = LinkState(
    connected: bool, reconnects: nat, acked: nat, fatal: bool, lastError: Option<string>, backoff: nat)

  const INITIAL := LinkState(false, 0, 0, false, None, BACKOFF_INITIAL)

  class Link {
    var connected: bool
    var reconnects: nat
    var acked: nat
    var fatal: bool
    var lastError: Option<string>
    var backoff: nat

    function View(): LinkState
      reads this
    {
      LinkState(connected, reconnects, acked, fatal, lastError, backoff)
    }

    constructor ()
      ensures View() == INITIAL
    {
      connected, reconnects, acked, fatal, lastError, backoff := false, 0, 0, false, None, BACKOFF_INITIAL;
    }

    method RecordConnack(code: ReturnCode)
      modifies this`connected, this`fatal, this`lastError
      ensures connected == (code == Success) && fatal == (code != Success)
      ensures lastError == if code == Success then None else Some(RefusalMessage(code))
    {
      if code == Success {
        connected := true;
        fatal := false;
        lastError := None;
      } else {
        RecordFatal(RefusalMessage(code));
      }
    }

    method RecordFatal(error: string)
      modifies this`connected, this`fatal, this`lastError
      ensures !connected && fatal && lastError == Some(error)
    {
      connected := false;
      fatal := true;
      lastError := Some(error);
    }

    method RecordError(error: string)
      modifies this`connected, this`reconnects, this`lastError
      ensures !connected && lastError == Some(error)
      ensures reconnects == old(reconnects) + if old(connected) then 1 else 0
    {
      if connected {
        connected := false;
        reconnects := reconnects + 1;
      }
      lastError := Some(error);
    }

    method NextDelay() returns (delay: nat)
      modifies this`backoff
      ensures delay == old(backoff) && backoff == Min(2 * old(backoff), BACKOFF_MAX)
    {
      delay := backoff;
      backoff := Min(2 * backoff, BACKOFF_MAX);
    }

    method ApplyPoll(polled: Polled) returns (delay: Option<nat>)
      modifies this
      ensures (View(), delay) == Apply(old(View()), polled)
    {
      delay := None;
      match polled
      case ConnAck(code) =>
        RecordConnack(code);
        backoff := BACKOFF_INITIAL;
      case PubAck =>
        acked := acked + 1;
      case OtherPacket =>
      case TransportError(text) =>
        RecordError(text);
        var d := NextDelay();
        delay := Some(d);
    }
  }

  // ---- One step and whole histories ----

  function Apply(s: LinkState, polled: Polled): (LinkState, Option<nat>) {
    match polled
    case ConnAck(code) =>
      (s.(connected := code == Success, fatal := code != Success,
          lastError := if code == Success then None else Some(RefusalMessage(code)), backoff := BACKOFF_INITIAL), None)
    case PubAck => (s.(acked := s.acked + 1), None)
    case OtherPacket => (s, None)
    case TransportError(text) =>
      (s.(connected := false, reconnects := s.reconnects + (if s.connected then 1 else 0),
          lastError := Some(text), backoff := Min(2 * s.backoff, BACKOFF_MAX)), Some(s.backoff))
  }

  function StateAfter(history: seq<Polled>): LinkState {
    if history == [] then INITIAL
    else Apply(StateAfter(history[..|history| - 1]), history[|history| - 1]).0
  }

  method Drive(history: seq<Polled>) returns (link: Link)
    ensures fresh(link) && link.View() == StateAfter(history)
  {
    link := new Link();
    for k := 0 to |history|
      invariant fresh(link) && link.View() == StateAfter(history[..k])
    {
      assert history[..k + 1][..k] == history[..k];
      var delay := link.ApplyPoll(history[k]);
    }
    assert history[..|history|] == history;
  }

  // ---- Readings of a history ----

  // The latest CONNACK or transport error.
  function LatestLinkEvent(history: seq<Polled>): Option<Polled> {
    if history == [] then None
    else
      var e := history[|history| - 1];
      if e.ConnAck? || e.TransportError? then Some(e) else LatestLinkEvent(history[..|history| - 1])
  }

  function LatestConnack(history: seq<Polled>): Option<ReturnCode> {
    if history == [] then None
    else
      var e := history[|history| - 1];
      if e.ConnAck? then Some(e.code) else LatestConnack(history[..|history| - 1])
  }

  predicate Up(history: seq<Polled>) {
    LatestLinkEvent(history) == Some(ConnAck(Success))
  }

  function PubAcks(history: seq<Polled>): nat {
    if history == [] then 0
    else PubAcks(history[..|history| - 1]) + if history[|history| - 1].PubAck? then 1 else 0
  }

  function Successes(history: seq<Polled>): nat {
    if history == [] then 0
    else Successes(history[..|history| - 1]) + if history[|history| - 1] == ConnAck(Success) then 1 else 0
  }

  // Errors that arrived while the link was up.
  function Drops(history: seq<Polled>): nat {
    if history == [] then 0
    else
      var before := history[..|history| - 1];
      Drops(before) + if history[|history| - 1].TransportError? && Up(before) then 1 else 0
  }

  // Errors since the latest CONNACK, or since the start.
  function ErrorsSinceConnack(history: seq<Polled>): nat {
    if history == [] then 0
    else
      var e := history[|history| - 1];
      var before := ErrorsSinceConnack(history[..|history| - 1]);
      if e.ConnAck? then 0 else if e.TransportError? then before + 1 else before
  }

  // ---- What holds after any history ----

  // Connected exactly when the latest link event is a successful CONNACK; fatal exactly when the
  // latest CONNACK is a refusal; the last error is that of the latest link event.
  lemma {:induction false} LinkStateExact(history: seq<Polled>)
    ensures var s := StateAfter(history);
      && (s.connected <==> Up(history))
      && (s.fatal <==> LatestConnack(history).Some? && LatestConnack(history).value != Success)
      && s.lastError == (match LatestLinkEvent(history)
                         case Some(TransportError(text)) => Some(text)
                         case Some(ConnAck(code)) => if code == Success then None else Some(RefusalMessage(code))
                         case _ => None)
  {
    if history != [] {
      LinkStateExact(history[..|history| - 1]);
    }
  }

  lemma {:induction false} UpMeansAccepted(history: seq<Polled>)
    requires Up(history)
    ensures LatestConnack(history) == Some(Success)
  {
    if !history[|history| - 1].ConnAck? {
      UpMeansAccepted(history[..|history| - 1]);
    }
  }

  // A connected link is not fatal and shows no error.
  lemma ConnectedIsClean(history: seq<Polled>)
    ensures StateAfter(history).connected ==> !StateAfter(history).fatal && StateAfter(history).lastError == None
  {
    LinkStateExact(history);
    if Up(history) {
      UpMeansAccepted(history);
    }
  }

  // The counters: every PUBACK is counted, every drop of an established link is one reconnect, and
  // there are never more of these than accepted connections.
  lemma {:induction false} CountersExact(history: seq<Polled>)
    ensures StateAfter(history).acked == PubAcks(history)
    ensures StateAfter(history).reconnects == Drops(history)
    ensures Drops(history) + (if Up(history) then 1 else 0) <= Successes(history)
  {
    if history != [] {
      CountersExact(history[..|history| - 1]);
      LinkStateExact(history[..|history| - 1]);
    }
  }

  function DelayAt(k: nat): nat {
    Min(Bits.Pow2(k), BACKOFF_MAX)
  }

  lemma {:induction false} BackoffExact(history: seq<Polled>)
    ensures StateAfter(history).backoff == DelayAt(ErrorsSinceConnack(history))
  {
    if history != [] {
      BackoffExact(history[..|history| - 1]);
    }
  }

  // The k-th error since a CONNACK waits min(2^(k-1), 30) seconds; nothing else waits.
  lemma DelayExact(history: seq<Polled>, polled: Polled)
    ensures Apply(StateAfter(history), polled).1 ==
      if polled.TransportError? then Some(Min(Bits.Pow2(ErrorsSinceConnack(history + [polled]) - 1), BACKOFF_MAX)) else None
  {
    BackoffExact(history);
    assert (history + [polled])[..|history|] == history;
  }

  function FatalError(s: LinkState): Option<string> {
    if s.fatal then s.lastError else None
  }

  // A refused link reports the broker's refusal as long as no transport error has come since; after
  // one, it reports that error's text in its place.
  lemma {:induction false} FatalErrorExact(history: seq<Polled>)
    ensures var refusal, latest := LatestConnack(history), LatestLinkEvent(history);
      if refusal.None? || refusal.value == Success then FatalError(StateAfter(history)) == None
      else if ErrorsSinceConnack(history) == 0 then
        FatalError(StateAfter(history)) == Some(RefusalMessage(refusal.value))
      else
        latest.Some? && latest.value.TransportError? && FatalError(StateAfter(history)) == Some(latest.value.text)
  {
    LinkStateExact(history);
    if history != [] {
      FatalErrorExact(history[..|history| - 1]);
      LinkStateExact(history[..|history| - 1]);
    }
  }

  lemma RefusalForgotten()
    ensures var history := [ConnAck(NotAuthorized), TransportError("connection reset")];
      FatalError(StateAfter(history)) == Some("connection reset")
  {
    var history := [ConnAck(NotAuthorized), TransportError("connection reset")];
    assert history[..1] == [ConnAck(NotAuthorized)] && history[..1][..0] == [];
  }
}
