/** A provider's SMTP settings: canonicalisation, the write-only password and the rule for keeping it. */
module MailOption {
  import opened Options
  import opened Text

  /** The settings object of a request or of a stored option, with its legacy spellings. */
  datatype Config = Config(
    enabled: Opt<bool>, host: Opt<string>, port: Opt<int>, username: Opt<string>, password: Opt<string>,
    fromEmail: Opt<string>, fromName: Opt<string>, replyTo: Opt<string>, encryption: Opt<string>,
    forceAuthLogin: Opt<bool>, timeoutSeconds: Opt<int>,
    smtpServer: Opt<string>, smtpPort: Opt<int>, smtpAccount: Opt<string>, smtpToken: Opt<string>,
    smtpFrom: Opt<string>, smtpSslEnabled: Opt<bool>, sslEnabled: Opt<bool>, smtpForceAuthLogin: Opt<bool>)

  /** JSON text: no object at all, a bare `null`, an object with a field spelt in the wrong case, an object with a field
      of the wrong type (its password may still be readable), or a proper settings object. */
  datatype Document = Malformed | Null | Misspelt | Mistyped(password: string) | Proper(config: Config)

  datatype Canonical = Canonical(
    enabled: bool, host: string, port: int, username: string, password: string, fromEmail: string, fromName: string,
    replyTo: string, encryption: string, forceAuthLogin: bool, timeoutSeconds: int)

  datatype Connection = Connection(host: string, port: int, username: string, encryption: string, forceAuthLogin: bool)

  function Or<T>(o: Opt<T>, default: T): T {
    if o.Some? then o.value else default
  }

  function FirstNonEmpty(a: string, b: string): string {
    if a != "" then a else b
  }

  function Canonicalize(c: Config): Canonical {
    var port := if Or(c.port, 0) != 0 then Or(c.port, 0) else Or(c.smtpPort, 0);
    var encryption := Or(c.encryption, "");
    Canonical(
      Or(c.enabled, false),
      TrimSpace(FirstNonEmpty(Or(c.host, ""), Or(c.smtpServer, ""))),
      if port == 0 then 587 else port,
      TrimSpace(FirstNonEmpty(Or(c.username, ""), Or(c.smtpAccount, ""))),
      "",
      FirstNonEmpty(Or(c.fromEmail, ""), Or(c.smtpFrom, "")),
      Or(c.fromName, ""),
      Or(c.replyTo, ""),
      if encryption != "" then encryption
      else if Or(c.smtpSslEnabled, false) || Or(c.sslEnabled, false) then "ssl" else "starttls",
      if c.forceAuthLogin.Some? then c.forceAuthLogin.value else Or(c.smtpForceAuthLogin, false),
      Or(c.timeoutSeconds, 0))
  }

  function ConnectionOf(c: Canonical): Connection {
    Connection(c.host, c.port, c.username, c.encryption, c.forceAuthLogin)
  }

  /** The connection as the mail sender reads it from storage, without legacy spellings or defaults. */
  function StoredConnection(c: Config): Connection {
    Connection(Or(c.host, ""), Or(c.port, 0), Or(c.username, ""), Or(c.encryption, ""), Or(c.forceAuthLogin, false))
  }

  function Secret(c: Config): string {
    FirstNonEmpty(Or(c.password, ""), Or(c.smtpToken, ""))
  }

  /** Canonical settings as they are written out; an empty password is omitted. */
  function Written(c: Canonical): Config {
    Config(Some(c.enabled), Some(c.host), Some(c.port), Some(c.username),
           if c.password == "" then None else Some(c.password),
           Some(c.fromEmail), Some(c.fromName), Some(c.replyTo), Some(c.encryption), Some(c.forceAuthLogin),
           Some(c.timeoutSeconds), None, None, None, None, None, None, None, None)
  }

  datatype Public = Public(config: Config, passwordConfigured: bool)

  const NO_SETTINGS := Config(None, None, None, None, None, None, None, None, None, None, None, None, None, None, None,
                              None, None, None, None)

  /** The view returned to the provider. */
  function Redact(stored: Document): Public {
    match stored
    case Proper(c) => Public(Written(Canonicalize(c)), Secret(c) != "")
    case Null => Public(Written(Canonicalize(NO_SETTINGS)), false)
    case _ => Public(NO_SETTINGS, false)
  }

  datatype Error = BadSubmission | BadStored | PasswordNeeded | PasswordEmpty
  datatype Result = Ok(canonical: Canonical) | Err(error: Error)

  /** An option that is absent or holds the empty string is `None`. */
  type Store = Opt<Document>

  datatype Reuse = Password(password: string) | Refused(error: Error)

  /** The stored password, empty if there is none, unless it may not be used for this connection. */
  function StoredPassword(store: Store, target: Connection): Reuse {
    match store
    case None => Password("")
    case Some(Malformed) => Refused(BadStored)
    case Some(Null) => Password("")
    case Some(Misspelt) => Refused(BadStored)
    case Some(Mistyped(password)) => if password != "" then Refused(BadStored) else Password("")
    case Some(Proper(config)) =>
      var password := Or(config.password, "");
      if password != "" && StoredConnection(config) != target then Refused(PasswordNeeded) else Password(password)
  }

  function Merge(store: Store, submitted: Document): Result {
    if !submitted.Proper? then Err(BadSubmission)
    else
      var canonical, explicit := Canonicalize(submitted.config), Secret(submitted.config);
      var chosen := if explicit != "" then Password(explicit) else StoredPassword(store, ConnectionOf(canonical));
      if chosen.Refused? then Err(chosen.error)
      else if canonical.enabled && chosen.password == "" then Err(PasswordEmpty)
      else Ok(canonical.(password := chosen.password))
  }

  function Step(store: Store, submitted: Document): Store {
    var r := Merge(store, submitted);
    if r.Ok? then Some(Proper(Written(r.canonical))) else store
  }

  class ProviderMail {
    var option: Store

    constructor ()
      ensures option == None
    {
      option := None;
    }

    method Update(submitted: Document) returns (r: Result)
      modifies this
      ensures r == Merge(old(option), submitted)
      ensures option == Step(old(option), submitted)
    {
      if !submitted.Proper? {
        return Err(BadSubmission);
      }
      var canonical := Canonicalize(submitted.config);
      var secret := Secret(submitted.config);
      if secret == "" && option.Some? {
        var existing := option.value;
        if existing.Malformed? || existing.Misspelt? {
          return Err(BadStored);
        }
        secret := match existing
          case Mistyped(password) => password
          case Proper(config) => Or(config.password, "")
          case _ => "";
        if secret != "" {
          if existing.Mistyped? {
            return Err(BadStored);
          }
          if StoredConnection(existing.config) != ConnectionOf(canonical) {
            return Err(PasswordNeeded);
          }
        }
      }
      if canonical.enabled && secret == "" {
        return Err(PasswordEmpty);
      }
      canonical := canonical.(password := secret);
      option := Some(Proper(Written(canonical)));
      return Ok(canonical);
    }
  }

  // ----- Canonicalisation -----

  /** Canonicalising what was written out gives the same settings back; only the password is left aside. */
  lemma CanonicalizeIdempotent(c: Config, password: string)
    ensures Canonicalize(Written(Canonicalize(c).(password := password))) == Canonicalize(c)
    ensures StoredConnection(Written(Canonicalize(c).(password := password))) == ConnectionOf(Canonicalize(c))
  {
  }

  /** Settings as they are stored: trimmed, with a port and an encryption. */
  predicate Settled(c: Canonical) {
    TrimSpace(c.host) == c.host && TrimSpace(c.username) == c.username && c.port != 0 && c.encryption != ""
  }

  /** The same settings under their legacy names wherever there is one; the new names are absent, or there and empty. */
  function Legacy(c: Canonical, blank: bool): Config {
    Config(Some(c.enabled), if blank then Some("") else None, if blank then Some(0) else None,
           if blank then Some("") else None, None, if blank then Some("") else None, Some(c.fromName), Some(c.replyTo),
           if blank then Some("") else None, None, Some(c.timeoutSeconds),
           Some(c.host), Some(c.port), Some(c.username), None, Some(c.fromEmail), Some(c.encryption == "ssl"), None,
           Some(c.forceAuthLogin))
  }

  /** Settings given only under their legacy names are understood, and either of the two legacy flags means "ssl". */
  lemma LegacyReads(c: Canonical, blank: bool)
    requires Settled(c) && (c.encryption == "ssl" || c.encryption == "starttls")
    ensures Canonicalize(Legacy(c, blank)) == c.(password := "")
    ensures
      var flag := Some(c.encryption == "ssl");
      Canonicalize(Legacy(c, blank).(smtpSslEnabled := None, sslEnabled := flag)) == c.(password := "")
  {
  }

  /** The settings with the legacy fields of other ones. */
  function WithLegacy(c: Config, other: Config): Config {
    c.(smtpServer := other.smtpServer, smtpPort := other.smtpPort, smtpAccount := other.smtpAccount,
       smtpFrom := other.smtpFrom, smtpSslEnabled := other.smtpSslEnabled, sslEnabled := other.sslEnabled,
       smtpForceAuthLogin := other.smtpForceAuthLogin)
  }

  /** A new field that is given wins over its legacy twin, and padding of host and user is dropped. */
  lemma NewNamesWin(c: Canonical, other: Config, host: string, username: string)
    requires Settled(c) && c.fromEmail != ""
    requires host != "" && TrimSpace(host) == c.host && username != "" && TrimSpace(username) == c.username
    ensures
      var given := Written(c).(host := Some(host), username := Some(username));
      Canonicalize(WithLegacy(given, other)) == c.(password := "")
  {
  }

  /** What an accepted update stores where the submission says nothing. */
  lemma DefaultsStored(store: Store, c: Config)
    requires Merge(store, Proper(c)).Ok?
    ensures
      var stored := Merge(store, Proper(c)).canonical;
      && (c.enabled == None ==> !stored.enabled)
      && (c.port == None && c.smtpPort == None ==> stored.port == 587)
      && (c.encryption == None && c.smtpSslEnabled == None && c.sslEnabled == None ==> stored.encryption == "starttls")
      && (c.forceAuthLogin == None && c.smtpForceAuthLogin == None ==> !stored.forceAuthLogin)
      && (c.timeoutSeconds == None ==> stored.timeoutSeconds == 0)
  {
  }

  // ----- Which password is stored -----

  /** A submission with a password is accepted whatever is stored, and stores that password: the new field if it is
      given, else the legacy one. */
  lemma ExplicitPassword(store: Store, c: Config, password: string)
    requires password != ""
    requires c.password == Some(password)
          || ((c.password == None || c.password == Some("")) && c.smtpToken == Some(password))
    ensures Merge(store, Proper(c)).Ok? && Merge(store, Proper(c)).canonical.password == password
  {
  }

  /** A stored password is not reused for a host, port or user that is stored only under its legacy name. */
  lemma LegacyNotReused(stored: Config, c: Config)
    requires Or(stored.password, "") != "" && Secret(c) == ""
    requires
      || (Or(stored.host, "") == "" && Canonicalize(c).host != "")
      || Or(stored.port, 0) == 0
      || (Or(stored.username, "") == "" && Canonicalize(c).username != "")
      || Or(stored.encryption, "") == ""
    ensures Merge(Some(Proper(stored)), Proper(c)) == Err(PasswordNeeded)
  {
  }

  // ----- Resubmitting the redacted view -----

  /** For any readable stored settings, legacy ones included, submitting the redacted view succeeds exactly when a
      stored password already belongs to the canonical connection, or there is none and mail is off; success
      stores the canonical form with the same password. */
  lemma ResubmitExactly(stored: Config)
    ensures
      var r := Merge(Some(Proper(stored)), Proper(Redact(Proper(stored)).config));
      var password, canonical := Or(stored.password, ""), Canonicalize(stored);
      && (r.Ok? <==> if password == "" then !canonical.enabled else StoredConnection(stored) == ConnectionOf(canonical))
      && (r.Ok? ==> r.canonical == canonical.(password := password))
  {
    CanonicalizeIdempotent(stored, "");
  }

  // ----- Whole histories of updates from an empty store -----

  function Run(history: seq<Document>): Store {
    if history == [] then None else Step(Run(history[..|history| - 1]), history[|history| - 1])
  }

  predicate Accepted(history: seq<Document>, i: int)
    requires 0 <= i < |history|
  {
    Merge(Run(history[..i]), history[i]).Ok?
  }

  predicate Explicit(d: Document) {
    d.Proper? && Secret(d.config) != ""
  }

  /** i is the last accepted update that came with a password of its own. */
  ghost predicate LastExplicit(history: seq<Document>, i: int) {
    && 0 <= i < |history| && Explicit(history[i]) && Accepted(history, i)
    && forall j | i < j < |history| :: !(Explicit(history[j]) && Accepted(history, j))
  }

  ghost predicate Sound(history: seq<Document>, store: Store) {
    match store
    case None => true
    case Some(Malformed) => false
    case Some(Null) => false
    case Some(Misspelt) => false
    case Some(Mistyped(_)) => false
    case Some(Proper(stored)) =>
      var password, canonical := Or(stored.password, ""), Canonicalize(stored);
      && stored == Written(canonical.(password := password))
      && (canonical.enabled ==> password != "")
      && (password != "" ==> exists i :: LastExplicit(history, i) && PasswordFrom(history[i], password, stored))
  }

  ghost predicate PasswordFrom(d: Document, password: string, stored: Config) {
    && d.Proper? && Secret(d.config) == password
    && ConnectionOf(Canonicalize(d.config)) == StoredConnection(stored)
  }

  lemma LastExplicitExtends(history: seq<Document>, d: Document, i: int)
    requires LastExplicit(history, i) && !(Explicit(d) && Accepted(history + [d], |history|))
    ensures LastExplicit(history + [d], i)
  {
    var longer := history + [d];
    forall j | 0 <= j < |history| ensures Accepted(longer, j) == Accepted(history, j) {
      assert longer[..j] == history[..j];
    }
  }

  lemma AcceptedSound(past: seq<Document>, d: Document)
    requires Sound(past, Run(past)) && Merge(Run(past), d).Ok?
    ensures Sound(past + [d], Step(Run(past), d))
  {
    var history, canonical := past + [d], Merge(Run(past), d).canonical;
    CanonicalizeIdempotent(d.config, canonical.password);
    if canonical.password != "" {
      var i := PasswordSource(past, d);
      assert LastExplicit(history, i) && PasswordFrom(history[i], canonical.password, Written(canonical));
    }
  }

  /** Where the password of an accepted submission comes from. */
  lemma PasswordSource(past: seq<Document>, d: Document) returns (i: int)
    requires Sound(past, Run(past)) && Merge(Run(past), d).Ok? && Merge(Run(past), d).canonical.password != ""
    ensures LastExplicit(past + [d], i)
    ensures
      var canonical := Merge(Run(past), d).canonical;
      PasswordFrom((past + [d])[i], canonical.password, Written(canonical))
  {
    var history, before, canonical := past + [d], Run(past), Merge(Run(past), d).canonical;
    assert history[..|past|] == past;
    CanonicalizeIdempotent(d.config, canonical.password);
    if Explicit(d) {
      i := |past|;
    } else {
      i :| LastExplicit(past, i) && PasswordFrom(past[i], canonical.password, before.value.config);
      LastExplicitExtends(past, d, i);
    }
  }

  lemma RejectedSound(past: seq<Document>, d: Document)
    requires Sound(past, Run(past)) && Merge(Run(past), d).Err?
    ensures Sound(past + [d], Run(past))
  {
    var history, before := past + [d], Run(past);
    assert history[..|past|] == past;
    if before.Some? {
      var stored := before.value.config;
      var password := Or(stored.password, "");
      if password != "" {
        var i :| LastExplicit(past, i) && PasswordFrom(past[i], password, stored);
        LastExplicitExtends(past, d, i);
        assert PasswordFrom(history[i], password, stored);
      }
    }
  }

  /** In every history the stored settings are canonical, enabled mail has a password, and a stored password is the
      one most recently submitted explicitly, together with the very connection that is stored. */
  lemma {:induction false} HistorySound(history: seq<Document>)
    ensures Sound(history, Run(history))
  {
    if history != [] {
      var past, d := history[..|history| - 1], history[|history| - 1];
      assert history == past + [d];
      HistorySound(past);
      if Merge(Run(past), d).Ok? {
        AcceptedSound(past, d);
      } else {
        RejectedSound(past, d);
      }
    }
  }

  /** So after any history, submitting the redacted view unchanged is accepted and changes nothing. */
  lemma ResubmitUnchanged(history: seq<Document>)
    requires Run(history).Some?
    ensures
      var store := Run(history);
      var again := Proper(Redact(store.value).config);
      Merge(store, again).Ok? && Step(store, again) == store
  {
    HistorySound(history);
    var stored := Run(history).value.config;
    ResubmitExactly(stored);
    CanonicalizeIdempotent(stored, Or(stored.password, ""));
  }

  /** After any history, a submission without a password is accepted exactly when a password is stored for just the
      connection it asks for, or none is stored and it leaves mail off. */
  lemma ReuseExactly(history: seq<Document>, c: Config)
    requires Secret(c) == ""
    ensures
      var store, canonical := Run(history), Canonicalize(c);
      var stored := if store.Some? && store.value.Proper? then store.value.config else NO_SETTINGS;
      Merge(store, Proper(c)).Ok? <==>
        if Or(stored.password, "") == "" then !canonical.enabled
        else
          && canonical.host == Or(stored.host, "") && canonical.port == Or(stored.port, 0)
          && canonical.username == Or(stored.username, "") && canonical.encryption == Or(stored.encryption, "")
          && canonical.forceAuthLogin == Or(stored.forceAuthLogin, false)
  {
    HistorySound(history);
  }

  /** The view after any history shows no password under either name, only whether there is one. */
  lemma RedactedHidesPassword(history: seq<Document>)
    requires Run(history).Some?
    ensures
      var view := Redact(Run(history).value);
      && Run(history).value.Proper? && view.config.password == None && view.config.smtpToken == None
      && (view.passwordConfigured <==> Or(Run(history).value.config.password, "") != "")
  {
    HistorySound(history);
  }

  /** A stored null shows the defaults, and what cannot be read shows nothing. */
  lemma RedactedWithoutSettings(stored: Document)
    requires !stored.Proper? && !stored.Misspelt?
    ensures
      var view := Redact(stored);
      && !view.passwordConfigured && view.config.host == (if stored.Null? then Some("") else None)
      && view.config.port == (if stored.Null? then Some(587) else None)
      && view.config.encryption == if stored.Null? then Some("starttls") else None
  {
    var blank := TrimSpace("");
  }
}
