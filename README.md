# Mail-to-SMS relay, modelled in Dafny

The relay listens on a local TCP port. For each connection it reads a bounded
byte stream and parses it as a mail message. It takes the sender and checks it
against an allow-list from the configuration file. If the sender is allowed,
it forwards a preview of the body as a text message, through an authenticated
HTTPS POST to the messaging API. A failure in any stage ends the work on that
connection only: it is logged, and the next connection is accepted.

This project models all of that logic, which lives in `src/main.rs`:

- `wrappers.dfy`: `Option` and `Result`, plus `Seqs.IndexOf` (first
  occurrence in a sequence).
- `utf8.dfy`: the UTF-8 bytes of a string. A Rust `String` is stored as
  these bytes, and they are what the Base64 encoder receives.
- `base64.dfy`: Base64 with the standard alphabet and `=` padding (section 4
  of RFC 4648), with a decoder and the round trip between them.
- `lines.dfy`: Rust's `str::lines`. `LineCursor` is the mutable iterator that
  `read_config` consumes with `next()` and then `collect()`.
- `settings.dfy`: `read_config`. Text becomes a `Config` or a `MissingField`
  error, which models the `unwrap()` panic.
- `extractor.dfy`: `process_email`. It covers the capped read, the parse, the
  sender, the flag-and-break allow-list loop and the body fallback.
- `notifier.dfy`: the request that `send_notification` builds: its URL, its
  Basic `Authorization` header (section 2 of RFC 7617) and its ordered form.
- `relay.dfy`: the accept loop of `main`, as a fold over the incoming
  connections with per-connection error isolation, and the start-up path
  through `read_config`.

The mail-parser library is not part of this model. Its four entry points are
the fields of a `MailLib` value, over an abstract message type `E` and an
abstract address type `S`:

- `parse` is `MessageParser::parse`;
- `from` is `Message::from`;
- `bodyPreview` is `body_preview`;
- `contains` is `Address::contains`.

Every property about the allow-list is therefore proved relative to `contains`.
Nothing assumes it is a substring test.

A connection is a value `Incoming(timeoutRefused, bytes, ending)`:

- `timeoutRefused` says whether `set_read_timeout` fails;
- `bytes` is what the peer delivers;
- `ending` says how the stream ends after those bytes: closed, timed out or
  broken.

An item of `listener.incoming()` is an `Attempt`: either an accept error, or a
connection plus a flag that says whether the HTTP transport fails for it.

## Model

| member | source | states |
|---|---|---|
| `Extractor.ReadToEnd` | src/main.rs:48-50 | The byte-by-byte fill of the buffer yields exactly `Captured(c)`. It takes `min(|bytes|, 100000)` bytes off the socket and no more, or none when setting the timeout fails. |
| `Extractor.CapturedPrefix` | src/main.rs:50 | When the read succeeds, the parser receives exactly the first `min(|bytes|, 100000)` bytes. The read succeeds iff the timeout is set and the stream either delivers the full 100,000 bytes or closes cleanly. |
| `Extractor.CapturedIgnoresTail` | src/main.rs:50 | Once 100,000 bytes are available, more bytes, or a read error after them, change nothing. |
| `Extractor.IsValidSender` | src/main.rs:57-63 | The flag-and-break loop returns `true` iff the scan `Authorized` accepts the sender. It stops at the first entry the sender contains: no earlier entry matched. When none matches, it examines every entry. |
| `Extractor.AuthorizedIff` | src/main.rs:57-63 | The sender is authorized iff some entry `e` of `valid_emails` satisfies `contains(sender, e)`. |
| `Extractor.AuthorizedOrderFree` | src/main.rs:57-63 | Two allow-lists with the same entries give the same verdict, whatever their order and repetitions. |
| `Extractor.AuthorizedDependsOnlyOnContains` | src/main.rs:59 | The verdict depends only on what `contains` says about the sender and the listed entries. |
| `Extractor.ProcessEmail` | src/main.rs:47-74 | The imperative pipeline returns exactly `Processed`: read, then parse, then sender, then allow-list, then body. |
| `Extractor.StageOrder` | src/main.rs:52-67 | Each outcome happens iff every earlier stage succeeded and that stage gave its verdict. A read or timeout error comes first, then "failed to parse email", then "failed to parse sender", then "unknown sender". Success needs only an authorized sender, whatever the body. |
| `Extractor.ErrorMessages` | src/main.rs:52-67 | A failed `process_email` carries one of the relay's own messages ("failed to parse email", "failed to parse sender", "unknown sender") iff the read succeeded; the message names the stage that stopped it. |
| `Extractor.BodyOrPlaceholder` | src/main.rs:70-73 | On success the result is the 1000-character preview when there is one, and exactly `"error: failed to parse body"` otherwise. |
| `Extractor.EmptyAllowListRejects` | src/main.rs:57-67 | With an empty `valid_emails`, every message that parses and has a sender fails with "unknown sender", and no body string is returned. |
| `Extractor.ProcessedIgnoresTail` | src/main.rs:50-74 | The whole pipeline's result is fixed by the first 100,000 bytes once they are available. |
| `Extractor.BodyWithinPreviewLength` | src/main.rs:70-73 | If the library keeps `body_preview(n)` within `n` characters, the forwarded text is at most 1000 characters. This includes the placeholder. |
| `TextLines.LineCursor.Next` | src/main.rs:36-42 | `next()` yields the lines of the text in order, one per call, and then `None`. |
| `TextLines.LineCursor.Collect` | src/main.rs:43 | `collect()` returns every line not yet yielded, in order, and leaves the iterator exhausted. |
| `TextLines.LinesJoined` | src/main.rs:36 | Lines written with a `\n` after each, none holding `\n` or ending in `\r`, are read back unchanged. |
| `TextLines.FinalNewlineOptional` | src/main.rs:36 | For a non-empty text whose last character is neither `\n` nor `\r`, appending `\n` changes no line. |
| `Settings.ReadConfig` | src/main.rs:34-45 | Consuming the iterator field by field gives exactly `ParsedConfig(content)`. |
| `Settings.ParsedConfigLines` | src/main.rs:36-44 | Reading succeeds iff the text has at least five lines. Then `account`, `key`, `secret`, `from` and `to` are lines 1-5 and `valid_emails` is lines 6..n in order. Otherwise the error names the first field without a line. |
| `Settings.ParsedRendered` | src/main.rs:36-44 | Reading back the file that holds a configuration, one value per line, gives that configuration, when no value holds `\n` or ends in `\r`. |
| `Settings.ExtraLinesAreEntries` | src/main.rs:43 | Appending a plain line (no `\n`, no final `\r`) and its `\n` to the rendered file of a configuration appends exactly that entry to the allow-list. |
| `Base64.Encode` | src/main.rs:85 | `BASE64_STANDARD.encode` gives `4 * ceil(n / 3)` characters, each from the alphabet or `=`. |
| `Base64.DecodeEncode` | src/main.rs:85 | Decoding the encoding of any byte string gives the string back. |
| `Utf8.AsciiByteIff` | src/main.rs:85 | An ASCII byte such as `:` occurs in the UTF-8 bytes of a text iff its character occurs in the text. |
| `Utf8.EncodeAppend` | src/main.rs:85 | The bytes of `key + ":" + secret` are the bytes of `key`, then `:`, then the bytes of `secret`. |
| `Notifier.NotificationUrl` | src/main.rs:77-80 | The URL is `https://api.twilio.com/2010-04-01/Accounts/`, then the account, then `/Messages.json`. The account can be read back from between them. |
| `Notifier.NotificationHeader` | src/main.rs:81-87 | The only header the code sets is `Authorization`, with value `"Basic " + Base64(UTF-8(key + ":" + secret))`. |
| `Notifier.CredentialsDecode` | src/main.rs:83-86 | After `Basic `, the header decodes to the UTF-8 bytes of the key, a colon, and the secret. |
| `Notifier.CredentialsRecoverable` | src/main.rs:83-86 | A server that splits the decoded credentials at the first colon recovers the key and the secret, when the key has no colon. |
| `Notifier.NotificationForm` | src/main.rs:88 | The form fields are `To=config.to`, `From=config.from` and `Body=msg`, in that order, and each can be looked up by name. |
| `Relay.Serve` | src/main.rs:25-31 | The loop over the connections produces exactly the fold `Served`, one entry per connection. |
| `Relay.ServedAt` | src/main.rs:25-31 | Whatever happened to earlier connections, entry `i` is decided by connection `i` alone. An accept, parse, authorization or transport failure never stops the later connections. |
| `Relay.ServedAppend` | src/main.rs:25-31 | Serving `xs` and then `ys` logs `xs`'s entries followed by exactly the entries `ys` gets on its own. |
| `Relay.NotifiedIff` | src/main.rs:26-30 | A request is sent for a connection iff it was accepted and `process_email` returned `Ok`. It carries that connection's message. No error is logged iff, in addition, the transport succeeded. |
| `Relay.Run` | src/main.rs:20-31 | A configuration text that cannot be read stops the process before any connection is served, with that error. Otherwise every connection is served with the configuration it denotes. |

## Left out

- TCP binding, accepting and socket reads are network I/O. The failure to bind ("Couldn't bind to port") is not modelled. An accept error is an `Attempt` value. The stream is its delivered bytes plus how it ends.
- The 20-second read timeout is wall-clock time. A timeout is one way for the stream to end (`TimedOut`), and a failing `set_read_timeout` is a flag on the connection.
- `listener.incoming()` never ends. The model serves any finite prefix of it.
- Reading the `Config` file (`fs::read_to_string`) is file I/O. The model starts from the file's text.
- All `println!` logging is left out. The `Handled` value per connection records what would be logged. The first of the two `body_preview` calls, inside the log line at src/main.rs:69, is a pure call and does not affect the result; the returned preview is the one at src/main.rs:70-71.
- The mail-parser internals are a foreign library: `parse`, `from`, `Address::contains` and the decoding inside `body_preview`. They are the fields of `MailLib`.
- Extractor.BodyWithinPreviewLength: the 1000-character bound is an assumption about the library (`PreviewsBounded`), not a proved fact, because the preview is computed inside the mail-parser library.
- The `ureq` transport, TLS and the remote response are left out. Whether sending fails is an input per connection. This covers transport errors, and also any status codes the client reports as errors. The model builds the request value only. The form-URL-encoding that `send_form` applies to the fields is not modelled, nor the `Content-Type: application/x-www-form-urlencoded` header it sets, nor the default headers `ureq` adds.
- Authorization calls the mail-parser library's `Address::contains` (src/main.rs:59). The model keeps it abstract, so the allow-list properties hold for any `contains`, a substring test included.
- `str::lines` is modelled as it is written in the current Rust standard library. Each piece is cut after a `\n`, then loses that `\n` and then a `\r` just before it. A lone trailing `\r` with no `\n` after it is kept.
