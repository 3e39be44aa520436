/**
 * The recipients of the RSVP notification: the comma-separated list in the
 * `NOTIFICATION_EMAILS` setting, or a single default address when it is unset
 * or empty, split on commas and trimmed.
 */
module NotifyRecipients {
  import opened Wrappers
  import opened JsStrings

  /** The address used when `NOTIFICATION_EMAILS` is unset or empty. */
  const DefaultRecipient := "bryankarchensky@gmail.com"

  /** `(NOTIFICATION_EMAILS || default).split(',').map(e => e.trim())`. */
  function Recipients(env: Option<string>): (r: seq<string>)
    ensures |r| >= 1
  {
    ParseList(OrDefault(env, DefaultRecipient))
  }

  /** Every recipient is free of commas and of surrounding white space. */
  lemma RecipientsClean(env: Option<string>)
    ensures forall i :: 0 <= i < |Recipients(env)| ==> Trimmed(Recipients(env)[i]) && ',' !in Recipients(env)[i]
  {
    var pieces := Split(OrDefault(env, DefaultRecipient), ',');
    var r := Recipients(env);
    SplitPieces(OrDefault(env, DefaultRecipient), ',');
    forall i | 0 <= i < |r| ensures Trimmed(r[i]) && ',' !in r[i] {
      TrimSpec(pieces[i]);
      var k :| StrippedAt(pieces[i], r[i], k);
      assert r[i] == pieces[i][k..k + |r[i]|];
    }
  }

  /** Without a configured list the single default address is used. */
  lemma RecipientsDefault(env: Option<string>)
    requires !Truthy(env)
    ensures Recipients(env) == [DefaultRecipient]
  {
    DefaultRecipientShape();
    SingleRecipient(DefaultRecipient);
    assert OrDefault(env, DefaultRecipient) == OrDefault(Some(DefaultRecipient), DefaultRecipient);
  }

  lemma DefaultRecipientShape()
    ensures DefaultRecipient != "" && ',' !in DefaultRecipient && Trimmed(DefaultRecipient)
  {
  }

  /** A configured value that is one address is used as it is. */
  lemma SingleRecipient(addr: string)
    requires addr != "" && ',' !in addr && Trimmed(addr)
    ensures Recipients(Some(addr)) == [addr]
  {
    SplitWithout(addr, ',');
    TrimOfTrimmed(addr);
  }

  /** A list of addresses configured as "a, b, c" is read back address by address. */
  lemma RecipientsRoundTrip(addrs: seq<string>)
    requires addrs != [] && addrs[0] != ""
    requires ListItems(addrs)
    ensures Recipients(Some(Join(addrs, ListSeparator))) == addrs
  {
    ListRoundTrip(addrs);
    ConfiguredList(Join(addrs, ListSeparator), addrs);
  }

  /** So is one configured as "a,b,c". */
  lemma RecipientsRoundTripCompact(addrs: seq<string>)
    requires addrs != [] && addrs[0] != ""
    requires ListItems(addrs)
    ensures Recipients(Some(Join(addrs, [',']))) == addrs
  {
    CompactListRoundTrip(addrs);
    ConfiguredList(Join(addrs, [',']), addrs);
  }

  /** A configured value that parses to a list starting with an address is used as it is. */
  lemma ConfiguredList(v: string, xs: seq<string>)
    requires ParseList(v) == xs && xs[0] != ""
    ensures Recipients(Some(v)) == xs
  {
  }
}
