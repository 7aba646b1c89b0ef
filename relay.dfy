/**
 * `main`: read the configuration, then handle the incoming connections one
 * after another. A failure in one connection is logged and the next one is
 * accepted as usual.
 */
module Relay {
  import opened Wrappers
  import opened Settings
  import opened Extractor
  import opened Notifier

  /**
   * One item of `listener.incoming()`: an accept error, or a connection
   * together with whether forwarding its body would fail in transport.
   */
  datatype Attempt = Refused | Accepted(conn: Incoming, sendFails: bool)

  /** What became of one connection: the request sent for it, if any, and the error logged, if any. */
  datatype Handled = Handled(request: Option<Request>, error: Option<Error>)

  /** The body of the accept loop: `map_err`, `and_then(process_email)`, `and_then(send_notification)`, `unwrap_or_else(log)`. */
  function Handle<E, S>(config: Config, lib: MailLib<E, S>, a: Attempt): Handled {
    match a
    case Refused => Handled(None, Some(AcceptFailed))
    case Accepted(conn, sendFails) =>
      match Processed(config, lib, conn)
      case Failure(e) => Handled(None, Some(e))
      case Success(msg) =>
        Handled(Some(Notification(config, msg)), if sendFails then Some(NotificationFailed) else None)
  }

  /** The accept loop as a fold over the connections, oldest first. */
  function Served<E, S>(config: Config, lib: MailLib<E, S>, attempts: seq<Attempt>): (log: seq<Handled>)
    ensures |log| == |attempts|
    decreases |attempts|
  {
    if attempts == [] then []
    else Served(config, lib, attempts[..|attempts| - 1]) + [Handle(config, lib, attempts[|attempts| - 1])]
  }

  /** Every connection gets its own entry, decided by that connection alone. */
  lemma {:induction false} ServedAt<E, S>(config: Config, lib: MailLib<E, S>, attempts: seq<Attempt>)
    ensures forall i :: 0 <= i < |attempts| ==> Served(config, lib, attempts)[i] == Handle(config, lib, attempts[i])
    decreases |attempts|
  {
    if attempts != [] {
      var init := attempts[..|attempts| - 1];
      ServedAt(config, lib, init);
      forall i | 0 <= i < |init| ensures init[i] == attempts[i] { }
    }
  }

  /**
   * Failures do not carry over: serving `xs` and then `ys` gives the log of
   * `xs` followed by the log of `ys` served from scratch.
   */
  lemma {:induction false} ServedAppend<E, S>(config: Config, lib: MailLib<E, S>, xs: seq<Attempt>, ys: seq<Attempt>)
    ensures Served(config, lib, xs + ys) == Served(config, lib, xs) + Served(config, lib, ys)
    decreases |ys|
  {
    if ys == [] {
      assert xs + ys == xs;
    } else {
      var ys' := ys[..|ys| - 1];
      assert (xs + ys)[..|xs + ys| - 1] == xs + ys';
      assert (xs + ys)[|xs + ys| - 1] == ys[|ys| - 1];
      ServedAppend(config, lib, xs, ys');
    }
  }

  /**
   * A request goes out for a connection iff it was accepted and
   * `process_email` returned `Ok`; the request carries that connection's
   * message. An error is logged iff some stage failed.
   */
  lemma NotifiedIff<E, S>(config: Config, lib: MailLib<E, S>, attempts: seq<Attempt>, i: nat)
    requires i < |attempts|
    ensures var h := Served(config, lib, attempts)[i];
      && (h.request.Some? <==> attempts[i].Accepted? && Processed(config, lib, attempts[i].conn).Success?)
      && (h.request.Some? ==> h.request.value == Notification(config, Processed(config, lib, attempts[i].conn).value))
      && (h.error.None? <==> attempts[i].Accepted? && Processed(config, lib, attempts[i].conn).Success? && !attempts[i].sendFails)
  {
    ServedAt(config, lib, attempts);
  }

  /**
   * `for connection in listener.incoming()`: every connection is handled, and
   * whatever fails is logged before the next one is taken.
   */
  method Serve<E, S>(config: Config, lib: MailLib<E, S>, attempts: seq<Attempt>) returns (log: seq<Handled>)
    ensures log == Served(config, lib, attempts)
  {
    log := [];
    for i := 0 to |attempts|
      invariant log == Served(config, lib, attempts[..i])
    {
      var handled: Handled;
      match attempts[i] {
        case Refused =>
          handled := Handled(None, Some(AcceptFailed));
        case Accepted(conn, sendFails) =>
          var msg := ProcessEmail(config, lib, conn);
          if msg.Failure? {
            handled := Handled(None, Some(msg.error));
          } else {
            var request := Notification(config, msg.value);
            handled := Handled(Some(request), if sendFails then Some(NotificationFailed) else None);
          }
      }
      assert attempts[..i + 1][..i] == attempts[..i];
      log := log + [handled];
    }
    assert attempts[..|attempts|] == attempts;
  }

  /**
   * The whole process: a configuration that cannot be read stops it before any
   * connection is served; otherwise every connection is served with it.
   */
  method Run<E, S>(content: string, lib: MailLib<E, S>, attempts: seq<Attempt>) returns (r: Result<seq<Handled>, ConfigError>)
    ensures r.Failure? <==> ParsedConfig(content).Failure?
    ensures r.Failure? ==> r.error == ParsedConfig(content).error
    ensures r.Success? ==> r.value == Served(ParsedConfig(content).value, lib, attempts)
  {
    var config := ReadConfig(content);
    if config.Failure? {
      return Failure(config.error);
    }
    var log := Serve(config.value, lib, attempts);
    r := Success(log);
  }
}
