/** The kinds of notification channel a feature config can refer to, and the
    table of canonical string tokens through which they travel on the wire. */
module ConfigTypes {

  /** `NoneType` is the source's `ConfigType.None`: the fallback for tokens
      this reader does not know, and a storable value in its own right. */
  datatype ConfigType = NoneType | Slack | Chime | Webhook | Email | EmailGroup

  /** Every token the table recognises. */
  const KnownTokens: set<string> := {"None", "Slack", "Chime", "Webhook", "Email", "EmailGroup"}

  /** The canonical token written for a config type. Reading it back with
      `FromToken` gives the same type. */
  function Token(t: ConfigType): (s: string)
    ensures s in KnownTokens
    ensures FromToken(s) == t
  {
    match t
    case NoneType => "None"
    case Slack => "Slack"
    case Chime => "Chime"
    case Webhook => "Webhook"
    case Email => "Email"
    case EmailGroup => "EmailGroup"
  }

  /** The config type a token stands for. A token nobody registered (one
      written by a newer writer, say) degrades to `NoneType` instead of
      failing; the explicit token "None" reads the same way. */
  function FromToken(s: string): (t: ConfigType)
    ensures s !in KnownTokens ==> t == NoneType
    ensures t == NoneType ==> s !in KnownTokens || s == "None"
  {
    if s == "Slack" then Slack
    else if s == "Chime" then Chime
    else if s == "Webhook" then Webhook
    else if s == "Email" then Email
    else if s == "EmailGroup" then EmailGroup
    else NoneType
  }

  /** Every registered token is the canonical token of the type it reads as. */
  lemma KnownTokenRoundTrip(s: string)
    requires s in KnownTokens
    ensures Token(FromToken(s)) == s
  {
  }

  /** Distinct config types are written as distinct tokens. */
  lemma TokenInjective(t: ConfigType, u: ConfigType)
    requires Token(t) == Token(u)
    ensures t == u
  {
    assert FromToken(Token(t)) == t;
  }
}
