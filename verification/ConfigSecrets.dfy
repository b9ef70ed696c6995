/** Mail relay and identity provider settings: secrets are sealed at rest and written only when a
    new one is supplied. */
module ConfigSecrets {
  import opened Common

  /** The cipher, of which only the round trip and a non-empty ciphertext are used. */
  datatype Cipher = Cipher(seal: string -> string, unseal: string -> string) {
    ghost predicate Lawful() {
      forall s :: unseal(seal(s)) == s && seal(s) != ""
    }

    /** A stored secret; the empty text stands for none. */
    function Store(secret: string): string { if secret == "" then "" else seal(secret) }

    function Load(stored: string): string { if stored == "" then "" else unseal(stored) }
  }

  lemma LoadStore(cipher: Cipher, secret: string)
    requires cipher.Lawful()
    ensures cipher.Load(cipher.Store(secret)) == secret
    ensures cipher.Store(secret) == "" <==> secret == ""
  {}

  // ----- Scopes ---------------------------------------------------------------------

  predicate IsWhitespace(c: char) {
    var n := c as int;
    || 0x9 <= n <= 0xD || n == 0x20 || n == 0x85 || n == 0xA0 || n == 0x1680 || 0x2000 <= n <= 0x200A
    || n == 0x2028 || n == 0x2029 || n == 0x202F || n == 0x205F || n == 0x3000
  }

  /** The 25 code points with the White_Space property of Unicode. */
  lemma WhitespaceIs(c: char)
    ensures IsWhitespace(c) <==>
            c as int in {9, 10, 11, 12, 13, 32, 133, 160, 5760, 8192, 8193, 8194, 8195, 8196, 8197, 8198, 8199,
                         8200, 8201, 8202, 8232, 8233, 8239, 8287, 12288}
  {}

  /** The length of the leading word. */
  function WordLength(s: string): (n: nat)
    ensures n <= |s| && forall i :: 0 <= i < n ==> !IsWhitespace(s[i])
    ensures n < |s| ==> IsWhitespace(s[n])
  {
    if s == "" || IsWhitespace(s[0]) then 0 else 1 + WordLength(s[1..])
  }

  function SplitWhitespace(s: string): seq<string>
    decreases |s|
  {
    if s == "" then []
    else if IsWhitespace(s[0]) then SplitWhitespace(s[1..])
    else
      var n := WordLength(s);
      assert n > 0;
      [s[..n]] + SplitWhitespace(s[n..])
  }

  predicate IsWord(w: string) {
    w != "" && forall i :: 0 <= i < |w| ==> !IsWhitespace(w[i])
  }

  lemma WordLengthIs(w: string, rest: string)
    requires IsWord(w) && (rest == "" || IsWhitespace(rest[0]))
    ensures WordLength(w + rest) == |w|
  {
    var s := w + rest;
    var n := WordLength(s);
    assert forall i :: 0 <= i < |w| ==> s[i] == w[i];
    assert rest != "" ==> s[|w|] == rest[0];
  }

  lemma {:induction false} SplitJoined(words: seq<string>)
    requires forall i :: 0 <= i < |words| ==> IsWord(words[i])
    ensures SplitWhitespace(JoinWith(words, " ")) == words
  {
    if words != [] {
      var w, more := words[0], words[1..];
      var rest := if more == [] then "" else " " + JoinWith(more, " ");
      var s := JoinWith(words, " ");
      assert s == w + rest && s[0] == w[0];
      assert !IsWhitespace(words[0][0]);
      WordLengthIs(w, rest);
      assert s[..|w|] == w && s[|w|..] == rest;
      SplitJoined(more);
      if more != [] {
        assert rest[1..] == JoinWith(more, " ");
        assert SplitWhitespace(rest) == SplitWhitespace(JoinWith(more, " "));
      }
      assert words == [w] + more;
    }
  }

  lemma {:induction false} SplitGivesWords(s: string)
    ensures forall i :: 0 <= i < |SplitWhitespace(s)| ==> IsWord(SplitWhitespace(s)[i])
    decreases |s|
  {
    if s != "" {
      if IsWhitespace(s[0]) {
        SplitGivesWords(s[1..]);
      } else {
        SplitGivesWords(s[WordLength(s)..]);
      }
    }
  }

  /** Scopes survive storage exactly when each is non-empty and free of whitespace. */
  lemma ScopesRoundTripIff(scopes: seq<string>)
    ensures SplitWhitespace(JoinWith(scopes, " ")) == scopes <==> forall i :: 0 <= i < |scopes| ==> IsWord(scopes[i])
  {
    SplitGivesWords(JoinWith(scopes, " "));
    if forall i :: 0 <= i < |scopes| ==> IsWord(scopes[i]) {
      SplitJoined(scopes);
    }
  }

  // ----- Settings and rows ----------------------------------------------------------

  datatype Schedule = Daily | Weekly

  datatype SmtpSettings = SmtpSettings(
    enabled: bool, host: string, port: nat, username: string, fromAddress: string, fromName: Option<string>,
    useStarttls: bool, alertOnDeliveryFailure: bool, sendUsageReports: bool, usageReportSchedule: Schedule,
    alertOnAuditEvents: bool, recipients: seq<string>)

  datatype SmtpConfig = SmtpConfig(settings: SmtpSettings, password: string)

  datatype SmtpRow = SmtpRow(settings: SmtpSettings, passwordEnc: string)

  datatype OidcConfig = OidcConfig(
    id: string, name: string, enabled: bool, issuerUrl: string, clientId: string, clientSecret: string,
    redirectUri: string, scopes: seq<string>, usernameClaim: string, groupsClaim: Option<string>,
    autoCreate: bool, defaultPolicy: Option<string>, groupMappings: map<string, string>)

  datatype OidcRow = OidcRow(
    name: string, enabled: bool, issuerUrl: string, clientId: string, clientSecretEnc: string,
    redirectUri: string, scopes: string, usernameClaim: string, groupsClaim: Option<string>,
    autoCreate: bool, defaultPolicy: Option<string>, groupMappings: map<string, string>)

  function ToRow(cipher: Cipher, c: OidcConfig): OidcRow {
    OidcRow(c.name, c.enabled, c.issuerUrl, c.clientId, cipher.Store(c.clientSecret), c.redirectUri,
            JoinWith(c.scopes, " "), c.usernameClaim, c.groupsClaim, c.autoCreate, c.defaultPolicy, c.groupMappings)
  }

  function FromRow(cipher: Cipher, id: string, r: OidcRow): OidcConfig {
    OidcConfig(id, r.name, r.enabled, r.issuerUrl, r.clientId, cipher.Load(r.clientSecretEnc), r.redirectUri,
               SplitWhitespace(r.scopes), r.usernameClaim, r.groupsClaim, r.autoCreate, r.defaultPolicy,
               r.groupMappings)
  }

  class ConfigStore {
    const cipher: Cipher
    var smtp: Option<SmtpRow>
    var providers: map<string, OidcRow>

    constructor (cipher: Cipher)
      ensures this.cipher == cipher && smtp == None && providers == map[]
    {
      this.cipher := cipher;
      smtp, providers := None, map[];
    }

    method SetSmtpConfig(config: SmtpConfig)
      modifies this`smtp
      ensures smtp == Some(SmtpSet(cipher, old(smtp), config))
    {
      var stored := if config.password != "" then cipher.seal(config.password)
                    else if smtp.Some? then smtp.value.passwordEnc else "";
      smtp := Some(SmtpRow(config.settings, stored));
    }

    method CreateOidcProvider(config: OidcConfig) returns (ok: bool)
      modifies this`providers
      ensures ok <==> config.id !in old(providers)
      ensures providers == ProviderStep(cipher, old(providers), Create(config))
    {
      if config.id in providers {
        return false;
      }
      providers := providers[config.id := ToRow(cipher, config)];
      return true;
    }

    method UpdateOidcProvider(config: OidcConfig) returns (ok: bool)
      modifies this`providers
      ensures ok <==> config.id in old(providers)
      ensures providers == ProviderStep(cipher, old(providers), Update(config))
    {
      if config.id !in providers {
        return false;
      }
      var row := ToRow(cipher, config);
      if config.clientSecret == "" {
        row := row.(clientSecretEnc := providers[config.id].clientSecretEnc);
      }
      providers := providers[config.id := row];
      return true;
    }

    method DeleteOidcProvider(id: string) returns (ok: bool)
      modifies this`providers
      ensures ok <==> id in old(providers)
      ensures providers == ProviderStep(cipher, old(providers), Delete(id))
    {
      ok := id in providers;
      providers := providers - {id};
    }
  }

  // ----- Mail password over runs ----------------------------------------------------

  function SmtpSet(cipher: Cipher, row: Option<SmtpRow>, config: SmtpConfig): SmtpRow {
    SmtpRow(config.settings,
            if config.password != "" then cipher.seal(config.password)
            else if row.Some? then row.value.passwordEnc else "")
  }

  function SmtpRun(cipher: Cipher, configs: seq<SmtpConfig>): Option<SmtpRow> {
    if configs == [] then None
    else Some(SmtpSet(cipher, SmtpRun(cipher, configs[..|configs| - 1]), configs[|configs| - 1]))
  }

  /** The configuration with its password, for internal use; the public read leaves it empty. */
  function SmtpWithSecret(cipher: Cipher, row: SmtpRow): SmtpConfig {
    SmtpConfig(row.settings, cipher.Load(row.passwordEnc))
  }

  /** `p` is the last non-empty password supplied, or empty if none was. */
  ghost predicate LastSupplied(configs: seq<SmtpConfig>, p: string) {
    || (p == "" && forall i :: 0 <= i < |configs| ==> configs[i].password == "")
    || (p != "" && exists i :: 0 <= i < |configs| && configs[i].password == p
                               && forall j :: i < j < |configs| ==> configs[j].password == "")
  }

  /** After any updates the settings are the latest ones and the password is the last non-empty one. */
  lemma {:induction false} SmtpSecretSurvives(cipher: Cipher, configs: seq<SmtpConfig>)
    requires cipher.Lawful() && configs != []
    ensures var read := SmtpWithSecret(cipher, SmtpRun(cipher, configs).value);
            read.settings == configs[|configs| - 1].settings && LastSupplied(configs, read.password)
  {
    var n := |configs| - 1;
    var init, last := configs[..n], configs[n];
    if last.password != "" {
      LoadStore(cipher, last.password);
    } else if init != [] {
      SmtpSecretSurvives(cipher, init);
      var p := SmtpWithSecret(cipher, SmtpRun(cipher, init).value).password;
      assert forall i :: 0 <= i < n ==> init[i] == configs[i];
      if p != "" {
        var i :| 0 <= i < |init| && init[i].password == p && forall j :: i < j < |init| ==> init[j].password == "";
        assert configs[i].password == p && forall j :: i < j < |configs| ==> configs[j].password == "";
      }
      assert LastSupplied(configs, p);
    }
  }

  // ----- Providers over runs --------------------------------------------------------

  datatype ProviderOp = Create(config: OidcConfig) | Update(config: OidcConfig) | Delete(id: string)

  function ProviderStep(cipher: Cipher, rows: map<string, OidcRow>, op: ProviderOp): map<string, OidcRow> {
    match op
    case Create(c) => if c.id in rows then rows else rows[c.id := ToRow(cipher, c)]
    case Update(c) =>
      if c.id !in rows then rows
      else if c.clientSecret != "" then rows[c.id := ToRow(cipher, c)]
      else rows[c.id := ToRow(cipher, c).(clientSecretEnc := rows[c.id].clientSecretEnc)]
    case Delete(id) => rows - {id}
  }

  function ProviderRun(cipher: Cipher, ops: seq<ProviderOp>): map<string, OidcRow> {
    if ops == [] then map[]
    else ProviderStep(cipher, ProviderRun(cipher, ops[..|ops| - 1]), ops[|ops| - 1])
  }

  /** One provider in a store without encryption or text forms: what was written last, with the last
      non-empty secret since it was created. */
  function Remembered(ops: seq<ProviderOp>, id: string): Option<OidcConfig> {
    if ops == [] then None
    else
      var before := Remembered(ops[..|ops| - 1], id);
      match ops[|ops| - 1]
      case Create(c) => if c.id == id && before.None? then Some(c) else before
      case Update(c) =>
        if c.id != id || before.None? then before
        else if c.clientSecret != "" then Some(c)
        else Some(c.(clientSecret := before.value.clientSecret))
      case Delete(k) => if k == id then None else before
  }

  /** The sealed store reads back what the plain one remembers, scopes as their text splits. */
  lemma {:induction false} ProvidersRefine(cipher: Cipher, ops: seq<ProviderOp>, id: string)
    requires cipher.Lawful()
    ensures var rows, plain := ProviderRun(cipher, ops), Remembered(ops, id);
            if plain.None? then id !in rows
            else && id in rows && plain.value.id == id
                 && FromRow(cipher, id, rows[id])
                    == plain.value.(scopes := SplitWhitespace(JoinWith(plain.value.scopes, " ")))
                 && (rows[id].clientSecretEnc == "" <==> plain.value.clientSecret == "")
  {
    if ops != [] {
      ProvidersRefine(cipher, ops[..|ops| - 1], id);
      var last := ops[|ops| - 1];
      if !last.Delete? {
        LoadStore(cipher, last.config.clientSecret);
      }
      hide SplitWhitespace, JoinWith;
    }
  }

  /** With proper scopes a provider reads back exactly as remembered. */
  lemma ProviderRoundTrip(cipher: Cipher, ops: seq<ProviderOp>, id: string)
    requires cipher.Lawful() && Remembered(ops, id).Some?
    requires forall i :: 0 <= i < |Remembered(ops, id).value.scopes| ==> IsWord(Remembered(ops, id).value.scopes[i])
    ensures id in ProviderRun(cipher, ops)
    ensures FromRow(cipher, id, ProviderRun(cipher, ops)[id]) == Remembered(ops, id).value
  {
    ProvidersRefine(cipher, ops, id);
    ScopesRoundTripIff(Remembered(ops, id).value.scopes);
    hide SplitWhitespace, JoinWith, Remembered, ProviderRun;
  }
}
