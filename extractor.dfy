/**
 * `process_email`: read at most 100,000 bytes from the connection, parse them,
 * take the sender, check it against the allow-list, and produce the body
 * preview (or a fixed placeholder).
 *
 * The mail parser is a library whose code is not part of this model: its four
 * entry points are the fields of a `MailLib` value, over an abstract message
 * type `E` and an abstract address type `S`.
 */
module Extractor {
  import opened Wrappers
  import opened Utf8
  import opened Settings

  /** `stream.take(100_000)`. */
  const ReadLimit: nat := 100_000
  /** `body_preview(1000)`. */
  const PreviewLength: nat := 1000
  /** What is forwarded when the message has no readable text body. */
  const Placeholder: string := "error: failed to parse body"

  /** The mail parser: `MessageParser::parse`, `from()`, `body_preview(n)` and `Address::contains`. */
  datatype MailLib<!E, !S> = MailLib(
    parse: seq<Byte> -> Option<E>,
    from: E -> Option<S>,
    bodyPreview: (E, nat) -> Option<string>,
    contains: (S, string) -> bool)

  /** How a read of the socket ends once the peer's data is exhausted. */
  datatype Ending = Closed | TimedOut | Broken

  /**
   * One accepted connection: whether setting the read timeout fails, the bytes
   * the peer delivers, and how the stream ends after them.
   */
  datatype Incoming = Incoming(timeoutRefused: bool, bytes: seq<Byte>, ending: Ending)

  /** Every way a connection can fail, from accepting it to forwarding its body. */
  datatype Error =
    | AcceptFailed
    | TimeoutSetupFailed
    | ReadFailed(cause: Ending)
    | FailedToParseEmail
    | FailedToParseSender
    | UnknownSender
    | NotificationFailed
  {
    /** The text of the errors the relay raises itself. */
    function Text(): Option<string> {
      match this
      case FailedToParseEmail => Some("failed to parse email")
      case FailedToParseSender => Some("failed to parse sender")
      case UnknownSender => Some("unknown sender")
      case _ => None
    }
  }

  function Min(a: nat, b: nat): nat { if a <= b then a else b }

  /**
   * What `take(ReadLimit).read_to_end` leaves in the buffer. Once the limit is
   * reached the stream reports its end, so an error after the limit is never seen.
   */
  function Captured(c: Incoming): (r: Result<seq<Byte>, Error>) {
    if c.timeoutRefused then Failure(TimeoutSetupFailed)
    else if |c.bytes| >= ReadLimit then Success(c.bytes[..ReadLimit])
    else if c.ending == Closed then Success(c.bytes)
    else Failure(ReadFailed(c.ending))
  }

  /**
   * The read into the `Vec`, one byte at a time; `consumed` is how many bytes
   * were taken off the socket.
   */
  method ReadToEnd(c: Incoming) returns (r: Result<seq<Byte>, Error>, consumed: nat)
    ensures r == Captured(c)
    ensures consumed == if c.timeoutRefused then 0 else Min(|c.bytes|, ReadLimit)
  {
    consumed := 0;
    if c.timeoutRefused {
      return Failure(TimeoutSetupFailed), 0;
    }
    var msg: seq<Byte> := [];
    var remaining := ReadLimit;
    while remaining > 0 && consumed < |c.bytes|
      invariant consumed + remaining == ReadLimit
      invariant consumed <= |c.bytes|
      invariant msg == c.bytes[..consumed]
    {
      msg := msg + [c.bytes[consumed]];
      consumed := consumed + 1;
      remaining := remaining - 1;
    }
    if remaining > 0 && c.ending != Closed {
      return Failure(ReadFailed(c.ending)), consumed;
    }
    if remaining == 0 {
      assert msg == c.bytes[..ReadLimit];
    } else {
      assert msg == c.bytes;
    }
    r := Success(msg);
  }

  /** The parser sees exactly the first min(|bytes|, 100,000) bytes of the stream. */
  lemma CapturedPrefix(c: Incoming)
    ensures Captured(c).Success? ==> Captured(c).value == c.bytes[..Min(|c.bytes|, ReadLimit)]
    ensures Captured(c).Success? <==> !c.timeoutRefused && (|c.bytes| >= ReadLimit || c.ending == Closed)
  {
    if Captured(c).Success? && |c.bytes| < ReadLimit {
      assert c.bytes[..|c.bytes|] == c.bytes;
    }
  }

  /** Whatever the peer sends after the first 100,000 bytes, and however it ends, nothing changes. */
  lemma CapturedIgnoresTail(t: bool, b: seq<Byte>, extra: seq<Byte>, e1: Ending, e2: Ending)
    requires |b| == ReadLimit
    ensures Captured(Incoming(t, b + extra, e1)) == Captured(Incoming(t, b, e2))
  {
    assert (b + extra)[..ReadLimit] == b;
    assert b[..ReadLimit] == b;
  }

  /** The allow-list scan: is some entry contained in the sender? */
  function Authorized<S>(contains: (S, string) -> bool, sender: S, entries: seq<string>): bool {
    entries != [] && (contains(sender, entries[0]) || Authorized(contains, sender, entries[1..]))
  }

  /** The sender is authorized iff some entry satisfies `contains`. */
  lemma {:induction false} AuthorizedIff<S>(contains: (S, string) -> bool, sender: S, entries: seq<string>)
    ensures Authorized(contains, sender, entries) <==> exists e :: e in entries && contains(sender, e)
  {
    if entries != [] {
      AuthorizedIff(contains, sender, entries[1..]);
      assert forall e :: e in entries <==> e == entries[0] || e in entries[1..];
    }
  }

  /** Lists with the same entries, in any order and with any repetitions, give the same verdict. */
  lemma AuthorizedOrderFree<S>(contains: (S, string) -> bool, sender: S, a: seq<string>, b: seq<string>)
    requires forall e :: e in a <==> e in b
    ensures Authorized(contains, sender, a) == Authorized(contains, sender, b)
  {
    AuthorizedIff(contains, sender, a);
    AuthorizedIff(contains, sender, b);
  }

  /**
   * The flag-and-break loop over `valid_emails`. `examined` counts the entries
   * looked at: the scan stops at the first one the sender contains.
   */
  method IsValidSender<E, S>(lib: MailLib<E, S>, sender: S, validEmails: seq<string>)
    returns (valid: bool, ghost examined: nat)
    ensures valid == Authorized(lib.contains, sender, validEmails)
    ensures examined <= |validEmails|
    ensures forall j :: 0 <= j < examined - 1 ==> !lib.contains(sender, validEmails[j])
    ensures valid ==> examined > 0 && lib.contains(sender, validEmails[examined - 1])
    ensures !valid ==> examined == |validEmails|
  {
    valid := false;
    examined := 0;
    for i := 0 to |validEmails|
      invariant examined == i
      invariant forall j :: 0 <= j < i ==> !lib.contains(sender, validEmails[j])
      invariant Authorized(lib.contains, sender, validEmails) == Authorized(lib.contains, sender, validEmails[i..])
    {
      examined := i + 1;
      if lib.contains(sender, validEmails[i]) {
        valid := true;
        break;
      }
      assert validEmails[i..][1..] == validEmails[i + 1..];
    }
  }

  /** The body handed on: the preview when there is one, otherwise the placeholder (`unwrap_or`). */
  function BodyText(preview: Option<string>): string {
    preview.GetOr(Placeholder)
  }

  /** What `process_email` returns for a connection: its stages in order, each able to stop it. */
  function Processed<E, S>(config: Config, lib: MailLib<E, S>, c: Incoming): Result<string, Error> {
    match Captured(c)
    case Failure(e) => Failure(e)
    case Success(msg) =>
      match lib.parse(msg)
      case None => Failure(FailedToParseEmail)
      case Some(email) =>
        match lib.from(email)
        case None => Failure(FailedToParseSender)
        case Some(sender) =>
          if !Authorized(lib.contains, sender, config.validEmails) then Failure(UnknownSender)
          else Success(BodyText(lib.bodyPreview(email, PreviewLength)))
  }

  method ProcessEmail<E, S>(config: Config, lib: MailLib<E, S>, c: Incoming) returns (r: Result<string, Error>)
    ensures r == Processed(config, lib, c)
  {
    var msg, _ := ReadToEnd(c);
    if msg.Failure? {
      return Failure(msg.error);
    }
    var email := lib.parse(msg.value);
    if email.None? {
      return Failure(FailedToParseEmail);
    }
    var sender := lib.from(email.value);
    if sender.None? {
      return Failure(FailedToParseSender);
    }
    var valid, _ := IsValidSender(lib, sender.value, config.validEmails);
    if !valid {
      return Failure(UnknownSender);
    }
    r := Success(BodyText(lib.bodyPreview(email.value, PreviewLength)));
  }

  /** The message the parser returns for the captured bytes, if both steps succeed. */
  function ParsedEmail<E, S>(lib: MailLib<E, S>, c: Incoming): Option<E> {
    if Captured(c).Success? then lib.parse(Captured(c).value) else None
  }

  /**
   * The outcome of each stage decides the result, in the fixed order read,
   * parse, sender, allow-list; nothing after a failing stage is consulted, and
   * a message without a readable body still goes through.
   */
  lemma StageOrder<E, S>(config: Config, lib: MailLib<E, S>, c: Incoming)
    ensures var r := Processed(config, lib, c);
      && (Captured(c).Failure? <==> r.Failure? && (r.error.TimeoutSetupFailed? || r.error.ReadFailed?))
      && (Captured(c).Failure? ==> r == Failure(Captured(c).error))
      && (r == Failure(FailedToParseEmail) <==> Captured(c).Success? && ParsedEmail(lib, c).None?)
      && (r == Failure(FailedToParseSender) <==> ParsedEmail(lib, c).Some? && lib.from(ParsedEmail(lib, c).value).None?)
      && (r == Failure(UnknownSender) <==>
            && ParsedEmail(lib, c).Some? && lib.from(ParsedEmail(lib, c).value).Some?
            && !Authorized(lib.contains, lib.from(ParsedEmail(lib, c).value).value, config.validEmails))
      && (r.Success? <==>
            && ParsedEmail(lib, c).Some? && lib.from(ParsedEmail(lib, c).value).Some?
            && Authorized(lib.contains, lib.from(ParsedEmail(lib, c).value).value, config.validEmails))
  {
  }

  /**
   * A failure carries one of the relay's own messages exactly when the read
   * succeeded, and the message names the stage that stopped the pipeline.
   */
  lemma ErrorMessages<E, S>(config: Config, lib: MailLib<E, S>, c: Incoming)
    requires Processed(config, lib, c).Failure?
    ensures var err := Processed(config, lib, c).error;
      && (err.Text().Some? <==> Captured(c).Success?)
      && (err.Text() == Some("failed to parse email") <==> ParsedEmail(lib, c).None? && Captured(c).Success?)
      && (err.Text() == Some("failed to parse sender") <==>
            ParsedEmail(lib, c).Some? && lib.from(ParsedEmail(lib, c).value).None?)
      && (err.Text() == Some("unknown sender") <==>
            ParsedEmail(lib, c).Some? && lib.from(ParsedEmail(lib, c).value).Some?)
  {
  }

  /** On success the result is the preview when there is one and exactly the placeholder otherwise. */
  lemma BodyOrPlaceholder<E, S>(config: Config, lib: MailLib<E, S>, c: Incoming)
    requires Processed(config, lib, c).Success?
    ensures ParsedEmail(lib, c).Some?
    ensures var preview := lib.bodyPreview(ParsedEmail(lib, c).value, PreviewLength);
      Processed(config, lib, c).value == if preview.Some? then preview.value else Placeholder
  {
  }

  /** With an empty allow-list every message that parses and has a sender is an unknown sender. */
  lemma EmptyAllowListRejects<E, S>(config: Config, lib: MailLib<E, S>, c: Incoming)
    requires config.validEmails == []
    requires ParsedEmail(lib, c).Some? && lib.from(ParsedEmail(lib, c).value).Some?
    ensures Processed(config, lib, c) == Failure(UnknownSender)
  {
  }

  /** Only the bytes within the limit matter: a stream padded past it gives the same result. */
  lemma ProcessedIgnoresTail<E, S>(config: Config, lib: MailLib<E, S>, t: bool, b: seq<Byte>, extra: seq<Byte>, e1: Ending, e2: Ending)
    requires |b| == ReadLimit
    ensures Processed(config, lib, Incoming(t, b + extra, e1)) == Processed(config, lib, Incoming(t, b, e2))
  {
    CapturedIgnoresTail(t, b, extra, e1, e2);
  }

  /** The library's promise that `body_preview(n)` is at most `n` characters long. */
  ghost predicate PreviewsBounded<E(!new), S>(lib: MailLib<E, S>) {
    forall e, n :: lib.bodyPreview(e, n).Some? ==> |lib.bodyPreview(e, n).value| <= n
  }

  /** Given that promise, the forwarded text never exceeds 1000 characters. */
  lemma BodyWithinPreviewLength<E(!new), S>(config: Config, lib: MailLib<E, S>, c: Incoming)
    requires PreviewsBounded(lib)
    ensures Processed(config, lib, c).Success? ==> |Processed(config, lib, c).value| <= PreviewLength
  {
    assert |Placeholder| <= PreviewLength;
  }

  /** The scan looks only at the verdicts of `contains`: two libraries that agree on them authorize alike. */
  lemma AuthorizedDependsOnlyOnContains<S>(c1: (S, string) -> bool, c2: (S, string) -> bool, sender: S, entries: seq<string>)
    requires forall k :: 0 <= k < |entries| ==> c1(sender, entries[k]) == c2(sender, entries[k])
    ensures Authorized(c1, sender, entries) == Authorized(c2, sender, entries)
  {
    AuthorizedIff(c1, sender, entries);
    AuthorizedIff(c2, sender, entries);
  }
}
