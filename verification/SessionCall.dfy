/** `Session` with one caller: opening, renegotiating and calling. The interleaved form, with the
    swap taken field by field under its lock, is in module `Session`. */
module SessionCall {
  import opened Text
  import opened Versions
  import opened Session

  class NegotiatedSession {
    var version: ProtocolVersion
    var date: Option<string>
    var transport: Transport

    function Value(): SessionState
      reads this
    {
      SessionState(version, date, transport)
    }

    /** What `open` stores once it has negotiated. */
    constructor (status: ServiceStatus)
      ensures Value() == Bound(status)
    {
      version := status.version;
      date := status.date;
      transport := Transport(status.version);
    }

    /** `renegotiate`: a failed handshake leaves the session as it was. */
    method Renegotiate(service: Service) returns (r: Result<Transport>)
      modifies this
      ensures match Negotiate(service).outcome
              case Ok(status) => r == Ok(Transport(status.version)) && Value() == Bound(status)
              case Err(kind) => r == Err(kind) && Value() == old(Value())
    {
      var negotiated := Negotiate(service);
      if negotiated.outcome.Err? {
        return Err(negotiated.outcome.kind);
      }
      var status := negotiated.outcome.value;
      version := status.version;
      date := status.date;
      transport := Transport(status.version);
      return Ok(transport);
    }

    /** `call`: `operation(i, t)` is what attempt `i` on transport `t` answers, and `service` is what a
        re-handshake would meet. The transports used are reported in order. */
    method Call<R>(operation: (nat, Transport) -> Result<R>, service: Service) returns (r: Result<R>, used: seq<Transport>)
      modifies this
      ensures 1 <= |used| <= 2 && used[0] == old(transport)
      ensures operation(0, used[0]) != Err(VersionNotServed) ==>
                |used| == 1 && r == operation(0, used[0]) && Value() == old(Value())
      ensures operation(0, used[0]) == Err(VersionNotServed) ==>
                match Negotiate(service).outcome
                case Ok(status) => used == [old(transport), Transport(status.version)]
                                   && r == operation(1, used[1]) && Value() == Bound(status)
                case Err(kind) => |used| == 1 && r == Err(kind) && Value() == old(Value())
      ensures old(transport).speaks == old(version) ==> transport.speaks == version
    {
      used := [transport];
      var outcome := operation(0, transport);
      if !(outcome.Err? && outcome.kind == VersionNotServed) {
        return outcome, used;
      }
      var renegotiated := Renegotiate(service);
      if renegotiated.Err? {
        return Err(renegotiated.kind), used;
      }
      used := used + [renegotiated.value];
      return operation(1, renegotiated.value), used;
    }
  }

  /** `open`. */
  method Open(service: Service) returns (r: Result<NegotiatedSession>)
    ensures match Negotiate(service).outcome
            case Ok(status) => r.Ok? && fresh(r.value) && r.value.Value() == Bound(status)
            case Err(kind) => r == Err(kind)
  {
    var negotiated := Negotiate(service);
    if negotiated.outcome.Err? {
      return Err(negotiated.outcome.kind);
    }
    var session := new NegotiatedSession(negotiated.outcome.value);
    return Ok(session);
  }
}
