/**
 * `send_notification`: the HTTPS request that forwards a body as a text
 * message. Only the request is modelled; whether the transport succeeds is an
 * input of the relay loop.
 */
module Notifier {
  import opened Wrappers
  import Seqs
  import Utf8
  import Base64
  import opened Settings

  const ApiPrefix: string := "https://api.twilio.com/2010-04-01/Accounts/"
  const ApiSuffix: string := "/Messages.json"
  const BasicScheme: string := "Basic "

  /** A form-encoded POST: its URL, its headers and its form fields, all in order. */
  datatype Request = Request(url: string, headers: seq<(string, string)>, form: seq<(string, string)>)

  /** The credentials of HTTP Basic authentication (section 2 of RFC 7617): Base64 of the UTF-8 of `key:secret`. */
  function BasicCredentials(key: string, secret: string): string {
    BasicScheme + Base64.Encode(Utf8.Encode(key + ":" + secret))
  }

  /** The request that carries `msg` for the configured account. */
  function Notification(config: Config, msg: string): Request {
    Request(
      ApiPrefix + config.account + ApiSuffix,
      [("Authorization", BasicCredentials(config.key, config.secret))],
      [("To", config.to), ("From", config.from), ("Body", msg)])
  }

  /** The value of the first field named `name`, as a server reads a form. */
  function Lookup(fields: seq<(string, string)>, name: string): Option<string> {
    if fields == [] then None
    else if fields[0].0 == name then Some(fields[0].1)
    else Lookup(fields[1..], name)
  }

  /** Splits credentials at their first colon (0x3A), as section 2 of RFC 7617 has a server do. */
  function SplitAtColon(b: seq<Utf8.Byte>): (seq<Utf8.Byte>, seq<Utf8.Byte>) {
    var i := Seqs.IndexOf(b, ':' as int);
    if i == |b| then (b, []) else (b[..i], b[i + 1..])
  }

  /** The account sits between the fixed prefix and suffix of the URL, and can be read back from it. */
  lemma NotificationUrl(config: Config, msg: string)
    ensures var url := Notification(config, msg).url;
      && |url| == |ApiPrefix| + |config.account| + |ApiSuffix|
      && url[..|ApiPrefix|] == ApiPrefix
      && url[|ApiPrefix|..|url| - |ApiSuffix|] == config.account
      && url[|url| - |ApiSuffix|..] == ApiSuffix
  {
  }

  /**
   * The form carries the recipient, the sender number and the message under
   * `To`, `From` and `Body`, in that order, and a server reads each back.
   */
  lemma NotificationForm(config: Config, msg: string)
    ensures var form := Notification(config, msg).form;
      && |form| == 3 && form[0].0 == "To" && form[1].0 == "From" && form[2].0 == "Body"
      && Lookup(form, "To") == Some(config.to)
      && Lookup(form, "From") == Some(config.from)
      && Lookup(form, "Body") == Some(msg)
  {
    var form := Notification(config, msg).form;
    assert form[1..] == [("From", config.from), ("Body", msg)];
    assert form[2..] == [("Body", msg)];
    assert Lookup(form[2..], "Body") == Some(msg);
    assert Lookup(form[1..], "Body") == Some(msg);
  }

  /** The credentials decode to the UTF-8 bytes of the key, a colon and the secret. */
  lemma CredentialsDecode(key: string, secret: string)
    ensures var h := BasicCredentials(key, secret);
      && h[..|BasicScheme|] == BasicScheme
      && Base64.Decode(h[|BasicScheme|..]) == Some(Utf8.Encode(key) + [':' as int] + Utf8.Encode(secret))
  {
    var h := BasicCredentials(key, secret);
    var b := Utf8.Encode(key + ":" + secret);
    assert h[|BasicScheme|..] == Base64.Encode(b);
    Base64.DecodeEncode(b);
    Utf8.EncodeAppend(key + ":", secret);
    Utf8.EncodeAppend(key, ":");
    assert Utf8.Encode(":") == [':' as int];
  }

  /**
   * A server that decodes the header and splits at the first colon recovers
   * the key and the secret, provided the key has no colon (RFC 7617 forbids
   * one in the user-id).
   */
  lemma CredentialsRecoverable(key: string, secret: string)
    requires ':' !in key
    ensures var h := BasicCredentials(key, secret);
      && Base64.Decode(h[|BasicScheme|..]).Some?
      && SplitAtColon(Base64.Decode(h[|BasicScheme|..]).value) == (Utf8.Encode(key), Utf8.Encode(secret))
  {
    CredentialsDecode(key, secret);
    Utf8.AsciiByteIff(key, ':');
    Seqs.IndexOfJoin(Utf8.Encode(key), ':' as int, Utf8.Encode(secret));
  }

  /** The single header is the Authorization header with those credentials. */
  lemma NotificationHeader(config: Config, msg: string)
    ensures Notification(config, msg).headers == [("Authorization", BasicCredentials(config.key, config.secret))]
    ensures Lookup(Notification(config, msg).headers, "Authorization") == Some(BasicCredentials(config.key, config.secret))
  {
  }
}
