/**
 * `read_config`: the configuration file's text, one value per line, becomes a
 * `Config`. Reading the file itself is not part of this model.
 */
module Settings {
  import opened Wrappers
  import opened TextLines

  datatype Config = Config(
    account: string,
    key: string,
    secret: string,
    from: string,
    to: string,
    validEmails: seq<string>)

  /** The five fixed fields, in the order the file holds them. */
  datatype Field = Account | Key | Secret | From | To

  const FieldOrder: seq<Field> := [Account, Key, Secret, From, To]

  /** `unwrap()` on a missing line: the process stops before it listens. */
  datatype ConfigError = MissingField(field: Field)

  /** The configuration a text denotes: lines 1-5 fill the fields, every further line is an allow-list entry. */
  function ParsedConfig(content: string): (r: Result<Config, ConfigError>) {
    var ls := Lines(content);
    if |ls| < 5 then Failure(MissingField(FieldOrder[|ls|]))
    else Success(Config(ls[0], ls[1], ls[2], ls[3], ls[4], ls[5..]))
  }

  /** The iterator is consumed field by field, as the struct literal does, then collected. */
  method ReadConfig(content: string) returns (r: Result<Config, ConfigError>)
    ensures r == ParsedConfig(content)
  {
    var lines := new LineCursor(content);
    var account := lines.Next();
    if account.None? { return Failure(MissingField(Account)); }
    var key := lines.Next();
    if key.None? { return Failure(MissingField(Key)); }
    var secret := lines.Next();
    if secret.None? { return Failure(MissingField(Secret)); }
    var from := lines.Next();
    if from.None? { return Failure(MissingField(From)); }
    var to := lines.Next();
    if to.None? { return Failure(MissingField(To)); }
    var validEmails := lines.Collect();
    r := Success(Config(account.value, key.value, secret.value, from.value, to.value, validEmails));
  }

  /** The fixed fields followed by the allow-list, one line each. */
  function Fields(c: Config): seq<string> {
    [c.account, c.key, c.secret, c.from, c.to] + c.validEmails
  }

  /** The file that holds `c`: each value on its own line. */
  function Rendered(c: Config): string {
    Joined(Fields(c))
  }

  /** Every value can be written on one line and read back unchanged. */
  predicate Writable(c: Config) {
    forall k :: 0 <= k < |Fields(c)| ==> PlainLine(Fields(c)[k])
  }

  /** Reading a rendered configuration gives back that configuration. */
  lemma ParsedRendered(c: Config)
    requires Writable(c)
    ensures ParsedConfig(Rendered(c)) == Success(c)
  {
    LinesJoined(Fields(c));
    assert Fields(c)[5..] == c.validEmails;
  }

  /**
   * The read succeeds iff the text has at least five lines; the fields are then
   * lines 1-5 and the allow-list is the rest in order; otherwise the error names
   * the first field that had no line.
   */
  lemma ParsedConfigLines(content: string)
    ensures var ls := Lines(content);
      && (ParsedConfig(content).Success? <==> |ls| >= 5)
      && (ParsedConfig(content).Success? ==>
            var c := ParsedConfig(content).value;
            [c.account, c.key, c.secret, c.from, c.to] == ls[..5] && c.validEmails == ls[5..])
      && (ParsedConfig(content).Failure? ==>
            ParsedConfig(content).error.field == FieldOrder[|ls|])
  {
    var ls := Lines(content);
    if |ls| >= 5 {
      assert ls[..5] == [ls[0], ls[1], ls[2], ls[3], ls[4]];
    }
  }

  /** Any line past the fifth is an allow-list entry, whatever it holds. */
  lemma ExtraLinesAreEntries(c: Config, extra: string)
    requires Writable(c) && PlainLine(extra)
    ensures ParsedConfig(Rendered(c) + extra + "\n") == Success(c.(validEmails := c.validEmails + [extra]))
  {
    var c' := c.(validEmails := c.validEmails + [extra]);
    assert Fields(c') == Fields(c) + [extra];
    JoinedSnoc(Fields(c), extra);
    ParsedRendered(c');
  }

  lemma {:induction false} JoinedSnoc(ls: seq<string>, l: string)
    ensures Joined(ls + [l]) == Joined(ls) + l + "\n"
  {
    if ls != [] {
      assert (ls + [l])[1..] == ls[1..] + [l];
      JoinedSnoc(ls[1..], l);
    } else {
      assert [] + [l] == [l];
    }
  }
}
