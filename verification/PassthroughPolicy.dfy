/**
 The `environmentVariables` passthrough (`environment-variable-policy.ts`): one pass over the lines that
 refuses the names that select an identity, warns about managed ones, masks secret-shaped values and
 sets the rest, before any provider handler runs.
 */
module PassthroughPolicy {
  import opened JsText
  import opened ProviderEnvironment
  import opened CredentialIdentity

  // ── The policy on names ──────────────────────────────────────────────────────

  /** The name starts with the prefix and goes on as one of the given texts. */
  predicate OneOf(key: string, prefix: string, rests: seq<string>) {
    StartsWith(key, prefix) && key[|prefix|..] in rests
  }

  const AWS_IDENTITY :=
    ["ACCESS_KEY_ID", "SECRET_ACCESS_KEY", "SESSION_TOKEN", "PROFILE", "SHARED_CREDENTIALS_FILE", "WEB_IDENTITY_TOKEN_FILE",
     "ROLE_ARN", "ROLE_SESSION_NAME"]

  const GOOGLE_IDENTITY := ["APPLICATION_CREDENTIALS", "CREDENTIALS", "OAUTH_ACCESS_TOKEN", "GHA_CREDS_PATH"]

  const ARM_IDENTITY :=
    ["client_id", "client_secret", "client_jwt", "client_cert_path", "tenant_id", "subscription_id", "oidc_request_url",
     "oidc_request_token", "use_azure_cli_auth"]

  const VSPHERE_IDENTITY := ["server", "user", "password", "insecure_connection"]

  /** Equal but for the case of ASCII letters; the pattern is given in lower case. */
  predicate SameLetters(s: string, lower: string) {
    |s| == |lower| && forall k :: 0 <= k < |s| ==> s[k] == lower[k] || ('A' <= s[k] <= 'Z' && s[k] + 32 as char == lower[k])
  }

  predicate LettersAt(s: string, k: int, lower: string) {
    0 <= k <= |s| - |lower| && SameLetters(s[k..k + |lower|], lower)
  }

  predicate ContainsLetters(s: string, lower: string) {
    exists k :: 0 <= k <= |s| && LettersAt(s, k, lower)
  }

  /** `IDENTITY_SELECTING_ENV_PATTERNS` */
  predicate SelectsIdentity(key: string) {
    || OneOf(key, "AWS_", AWS_IDENTITY)
    || OneOf(key, "GOOGLE_", GOOGLE_IDENTITY)
    || StartsWith(key, "CLOUDSDK_AUTH_")
    || OneOf(key, "PKR_VAR_arm_", ARM_IDENTITY)
    || StartsWith(key, "PKR_VAR_oci_")
    || OneOf(key, "PKR_VAR_vsphere_", VSPHERE_IDENTITY)
    || StartsWith(key, "OCI_CLI_")
    || StartsWith(key, "ARM_")
    || SameLetters(key, "path")
  }

  /** `MANAGED_ENV_PATTERNS` */
  predicate IsManaged(key: string) {
    || StartsWith(key, "AWS_") || StartsWith(key, "GOOGLE_") || StartsWith(key, "PKR_VAR_oci_")
    || StartsWith(key, "PKR_VAR_vsphere_") || StartsWith(key, "PKR_VAR_arm_")
    || (|key| >= 5 && SameLetters(key[|key| - 5..], "proxy"))
  }

  /** `SECRET_SHAPED_KEY_PATTERN` */
  predicate IsSecretShaped(key: string) {
    ContainsLetters(key, "token") || ContainsLetters(key, "secret") || ContainsLetters(key, "password") || ContainsLetters(key, "key")
  }

  // ── The lines ────────────────────────────────────────────────────────────────

  datatype Line = Ignored | Malformed | Pair(key: string, value: string)

  function ParseLine(line: string): Line {
    var trimmed := Trim(line);
    if trimmed == "" || trimmed[0] == '#' then Ignored
    else
      var at := IndexOf(trimmed, '=');
      if at <= 0 then Malformed else Pair(Trim(trimmed[..at]), Trim(trimmed[at + 1..]))
  }

  /** The variables by their text, the values given to the masker, and how many warnings were given. */
  datatype Passed = Passed(variables: map<string, string>, secrets: seq<string>, warnings: nat)

  /** What one line does; the flag is false where the code throws. */
  function StepLine(p: Passed, line: string): (Passed, bool) {
    match ParseLine(line)
    case Ignored => (p, true)
    case Malformed => (p.(warnings := p.warnings + 1), true)
    case Pair(key, value) =>
      if SelectsIdentity(key) then (p, false)
      else
        var p := if IsManaged(key) then p.(warnings := p.warnings + 1) else p;
        if value != "" && IsSecretShaped(key) && Multiline(value) then (p, false)
        else
          var p := if value != "" && IsSecretShaped(key) then p.(secrets := p.secrets + [value]) else p;
          (if value == "" then p.(warnings := p.warnings + 1) else p.(variables := p.variables[key := value]), true)
  }

  function StepLines(p: Passed, lines: seq<string>): (Passed, bool)
    decreases |lines|
  {
    if lines == [] then (p, true)
    else
      var (next, ok) := StepLine(p, lines[0]);
      if ok then StepLines(next, lines[1..]) else (next, false)
  }

  class PassthroughApplier {
    var variables: map<string, string>
    var secrets: seq<string>
    var warnings: nat

    function State(): Passed
      reads this
    {
      Passed(variables, secrets, warnings)
    }

    method SetSecret(value: string) returns (ok: bool)
      modifies this`secrets
      ensures ok == !Multiline(value)
      ensures secrets == if ok then old(secrets) + [value] else old(secrets)
    {
      if '\r' in value || '\n' in value { return false; }
      secrets := secrets + [value];
      return true;
    }

    method ApplyPassthroughEnvironmentVariables(env: Option<string>) returns (ok: bool)
      modifies this
      ensures (State(), ok) == if Present(env) then StepLines(old(State()), Split(env.value, '\n')) else (old(State()), true)
    {
      if !Present(env) { return true; }
      var lines := Split(env.value, '\n');
      ghost var result := StepLines(State(), lines);
      for i := 0 to |lines|
        invariant StepLines(State(), lines[i..]) == result
      {
        assert lines[i..][0] == lines[i] && lines[i..][1..] == lines[i + 1..];
        ok := ApplyLine(lines[i]);
        if !ok { return; }
      }
      return true;
    }

    method ApplyLine(line: string) returns (ok: bool)
      modifies this
      ensures (State(), ok) == StepLine(old(State()), line)
    {
      hide SelectsIdentity, IsManaged, IsSecretShaped, ParseLine, Multiline;
      match ParseLine(line)
      case Ignored => return true;
      case Malformed =>
        warnings := warnings + 1;
        return true;
      case Pair(key, value) =>
        if SelectsIdentity(key) { return false; }
        if IsManaged(key) { warnings := warnings + 1; }
        if value != "" && IsSecretShaped(key) {
          var masked := SetSecret(value);
          if !masked { return false; }
        }
        if value == "" {
          warnings := warnings + 1;
        } else {
          variables := variables[key := value];
        }
        return true;
    }
  }

  // ── What the policy guarantees ───────────────────────────────────────────────

  /** The value the text itself gives a variable: the last line for it with a value. */
  function LastValue(lines: seq<string>, key: string): Option<string> {
    if lines == [] then None
    else
      var line := ParseLine(lines[|lines| - 1]);
      if line.Pair? && line.key == key && line.value != "" then Some(line.value) else LastValue(lines[..|lines| - 1], key)
  }

  /** A line the code throws on. */
  predicate Throws(line: string) {
    var l := ParseLine(line);
    l.Pair? && (SelectsIdentity(l.key) || (l.value != "" && IsSecretShaped(l.key) && Multiline(l.value)))
  }

  function ValueOf(m: map<string, string>, key: string): Option<string> { if key in m then Some(m[key]) else None }

  /** A line with a value for a variable. */
  predicate Gives(line: string, key: string) {
    var l := ParseLine(line);
    l.Pair? && l.key == key && l.value != ""
  }

  lemma StepIsExact(p: Passed, line: string, key: string)
    ensures var (next, ok) := StepLine(p, line);
      && (ok <==> !Throws(line))
      && ValueOf(next.variables, key) == (if ok && Gives(line, key) then Some(ParseLine(line).value) else ValueOf(p.variables, key))
      && p.secrets <= next.secrets
      && (ok && Gives(line, key) && IsSecretShaped(key) ==> ParseLine(line).value in next.secrets)
  {
    hide SelectsIdentity, IsManaged, IsSecretShaped, ParseLine, Multiline;
  }

  /**
   The run completes exactly when no line throws. Then a variable has the last value the text gives it,
   else the one it had.
   */
  lemma {:induction false} PassthroughIsExact(p: Passed, lines: seq<string>, key: string)
    ensures var (after, ok) := StepLines(p, lines);
      && (ok <==> forall k :: 0 <= k < |lines| ==> !Throws(lines[k]))
      && (ok ==> ValueOf(after.variables, key) == if LastValue(lines, key).Some? then LastValue(lines, key) else ValueOf(p.variables, key))
    decreases |lines|
  {
    hide StepLine, Throws, Gives, ParseLine;
    if lines != [] {
      var (next, ok) := StepLine(p, lines[0]);
      StepIsExact(p, lines[0], key);
      if ok {
        PassthroughIsExact(next, lines[1..], key);
        LastValueSplit(lines, key);
        assert LastValue(lines[..1], key) == if Gives(lines[0], key) then Some(ParseLine(lines[0]).value) else None by { LastValueOne(lines[0], key, lines); }
      }
    }
  }

  lemma LastValueOne(line: string, key: string, lines: seq<string>)
    requires lines != [] && lines[0] == line
    ensures LastValue(lines[..1], key) == if Gives(line, key) then Some(ParseLine(line).value) else None
  {
    hide ParseLine;
    assert lines[..1][..0] == [];
  }

  /** A variable whose name selects an identity keeps its value, whatever the text, even when the run fails. */
  lemma {:induction false} PassthroughKeepsIdentity(p: Passed, lines: seq<string>, key: string)
    requires SelectsIdentity(key)
    ensures ValueOf(StepLines(p, lines).0.variables, key) == ValueOf(p.variables, key)
    decreases |lines|
  {
    hide SelectsIdentity, IsManaged, IsSecretShaped, ParseLine, Multiline;
    if lines != [] && StepLine(p, lines[0]).1 {
      PassthroughKeepsIdentity(StepLine(p, lines[0]).0, lines[1..], key);
    }
  }

  /** Every value given to a secret-shaped name is with the masker when the run completes. */
  lemma {:induction false} PassthroughMasks(p: Passed, lines: seq<string>, k: int, key: string)
    requires 0 <= k < |lines| && StepLines(p, lines).1 && Gives(lines[k], key) && IsSecretShaped(key)
    ensures ParseLine(lines[k]).value in StepLines(p, lines).0.secrets
    decreases |lines|
  {
    hide StepLine, Gives, ParseLine, IsSecretShaped;
    var next := StepLine(p, lines[0]).0;
    StepIsExact(p, lines[0], key);
    SecretsGrow(next, lines[1..]);
    if k > 0 {
      PassthroughMasks(next, lines[1..], k - 1, key);
    }
  }

  lemma {:induction false} SecretsGrow(p: Passed, lines: seq<string>)
    ensures p.secrets <= StepLines(p, lines).0.secrets
    decreases |lines|
  {
    hide StepLine;
    if lines != [] {
      StepIsExact(p, lines[0], "");
      SecretsGrow(StepLine(p, lines[0]).0, lines[1..]);
    }
  }

  lemma {:induction false} LastValueSplit(lines: seq<string>, key: string)
    requires lines != []
    ensures LastValue(lines, key) == if LastValue(lines[1..], key).Some? then LastValue(lines[1..], key) else LastValue(lines[..1], key)
    decreases |lines|
  {
    hide ParseLine;
    if |lines| > 1 {
      var front := lines[..|lines| - 1];
      assert front[..1] == lines[..1] && lines[1..][..|lines[1..]| - 1] == front[1..];
      LastValueSplit(front, key);
    } else {
      assert lines[..1] == lines;
    }
  }

  // ── The policy and the handlers ──────────────────────────────────────────────

  /** What follows the prefix in the name of a variable the handlers name. */
  function AwsSuffix(n: Name): string
    requires IsAws(n)
  {
    match n
    case AwsAccessKeyId => "ACCESS_KEY_ID"
    case AwsSecretAccessKey => "SECRET_ACCESS_KEY"
    case AwsSessionToken => "SESSION_TOKEN"
    case AwsProfile => "PROFILE"
    case AwsSharedCredentialsFile => "SHARED_CREDENTIALS_FILE"
    case AwsWebIdentityTokenFile => "WEB_IDENTITY_TOKEN_FILE"
    case AwsRoleArn => "ROLE_ARN"
    case AwsRoleSessionName => "ROLE_SESSION_NAME"
    case AwsRegion => "REGION"
  }

  function ArmSuffix(n: Name): string
    requires IsArm(n) && !n.ArmMetadataUrl?
  {
    match n
    case ArmClientSecret => "client_secret"
    case ArmClientJwt => "client_jwt"
    case ArmClientCertPath => "client_cert_path"
    case ArmTenantId => "tenant_id"
    case ArmClientId => "client_id"
    case ArmOidcRequestUrl => "oidc_request_url"
    case ArmOidcRequestToken => "oidc_request_token"
    case ArmUseAzureCliAuth => "use_azure_cli_auth"
    case ArmUseInteractiveAuth => "use_interactive_auth"
    case ArmSubscriptionId => "subscription_id"
  }

  function OciCliSuffix(n: Name): string
    requires IsOciCli(n)
  {
    match n
    case OciCliConfigFile => "CONFIG_FILE"
    case OciCliProfile => "PROFILE"
    case OciCliAuth => "AUTH"
    case OciCliTenancy => "TENANCY"
    case OciCliUser => "USER"
    case OciCliFingerprint => "FINGERPRINT"
    case OciCliKeyFile => "KEY_FILE"
    case OciCliRegion => "REGION"
  }

  function OciSuffix(n: Name): string
    requires IsOci(n) && !IsOciCli(n)
  {
    match n
    case OciTenancyOcid => "tenancy_ocid"
    case OciUserOcid => "user_ocid"
    case OciRegion => "region"
    case OciFingerprint => "fingerprint"
    case OciKeyFile => "key_file"
    case OciPassPhrase => "pass_phrase"
    case OciAccessCfgFile => "access_cfg_file"
    case OciAccessCfgFileAccount => "access_cfg_file_account"
    case OciSecurityTokenFile => "security_token_file"
    case OciUseInstancePrincipals => "use_instance_principals"
  }

  /** The text of each variable. */
  function Text(n: Name): string {
    if IsAws(n) then "AWS_" + AwsSuffix(n)
    else if n.ArmMetadataUrl? then "ARM_" + "METADATA_URL"
    else if IsArm(n) then "PKR_VAR_arm_" + ArmSuffix(n)
    else if IsOciCli(n) then "OCI_CLI_" + OciCliSuffix(n)
    else if IsOci(n) then "PKR_VAR_oci_" + OciSuffix(n)
    else n.name
  }

  /**
   The policy refuses every variable a handler clears or writes, but for two it only warns about: the
   AWS region, and the interactive Azure login, which the Azure handler then clears.
   */
  lemma PolicyCoversTheHandlers(n: Name)
    requires IsAws(n) || IsArm(n) || IsOci(n)
    ensures SelectsIdentity(Text(n)) <==> !(n.AwsRegion? || n.ArmUseInteractiveAuth?)
    ensures n.AwsRegion? || n.ArmUseInteractiveAuth? ==> IsManaged(Text(n))
  {
    hide SameLetters;
    var t := Text(n);
    if IsAws(n) {
      AwsTexts(n);
    } else if IsOci(n) {
      OciTexts(n);
    } else if n.ArmMetadataUrl? {
      assert StartsWith(t, "ARM_");
    } else {
      ArmTexts(n);
    }
  }

  lemma OciTexts(n: Name)
    requires IsOci(n)
    ensures SelectsIdentity(Text(n))
  {
    OciTextIs(n);
    hide SelectsIdentity, Text, OciCliSuffix, OciSuffix;
    OciPrefixed(Text(n));
  }

  lemma OciTextIs(n: Name)
    requires IsOci(n)
    ensures Text(n) == if IsOciCli(n) then "OCI_CLI_" + OciCliSuffix(n) else "PKR_VAR_oci_" + OciSuffix(n)
  {
    hide OciCliSuffix, OciSuffix, AwsSuffix, ArmSuffix;
  }

  lemma OciPrefixed(key: string)
    requires StartsWith(key, "OCI_CLI_") || StartsWith(key, "PKR_VAR_oci_")
    ensures SelectsIdentity(key)
  {
    hide SameLetters, OneOf;
  }

  lemma AwsTexts(n: Name)
    requires IsAws(n)
    ensures SelectsIdentity(Text(n)) <==> !n.AwsRegion?
    ensures IsManaged(Text(n))
  {
    hide SelectsIdentity, IsManaged, AwsSuffix;
    AwsRest(AwsSuffix(n));
    if n.AwsRegion? { RegionIsNotListed(); } else { AwsListed(n); }
  }

  /** The place of a variable's name in the table. */
  function AwsIndex(n: Name): (k: nat)
    requires IsAws(n) && !n.AwsRegion?
    ensures k < |AWS_IDENTITY|
  {
    match n
    case AwsAccessKeyId => 0
    case AwsSecretAccessKey => 1
    case AwsSessionToken => 2
    case AwsProfile => 3
    case AwsSharedCredentialsFile => 4
    case AwsWebIdentityTokenFile => 5
    case AwsRoleArn => 6
    case AwsRoleSessionName => 7
  }

  lemma AwsListed(n: Name)
    requires IsAws(n) && !n.AwsRegion?
    ensures AwsSuffix(n) == AWS_IDENTITY[AwsIndex(n)]
  {
  }

  lemma RegionIsNotListed()
    ensures AwsSuffix(AwsRegion) !in AWS_IDENTITY
  {
    assert |AwsSuffix(AwsRegion)| == 6;
    assert forall k :: 0 <= k < |AWS_IDENTITY| ==> |AWS_IDENTITY[k]| > 6;
  }

  /** Among the names with a prefix, the policy looks at what follows it. */
  lemma AwsRest(rest: string)
    ensures SelectsIdentity("AWS_" + rest) <==> rest in AWS_IDENTITY
    ensures IsManaged("AWS_" + rest)
  {
    var t := "AWS_" + rest;
    assert t[0] == 'A' && t[1] == 'W' && t[2] == 'S' && t[3] == '_' && t[..4] == "AWS_" && t[4..] == rest;
  }

  lemma ArmTexts(n: Name)
    requires IsArm(n) && !n.ArmMetadataUrl?
    ensures SelectsIdentity(Text(n)) <==> !n.ArmUseInteractiveAuth?
    ensures IsManaged(Text(n))
  {
    hide SelectsIdentity, IsManaged, ArmSuffix;
    ArmRest(ArmSuffix(n));
    if n.ArmUseInteractiveAuth? { InteractiveIsNotListed(); } else { ArmListed(n); }
  }

  function ArmIndex(n: Name): (k: nat)
    requires IsArm(n) && !n.ArmMetadataUrl? && !n.ArmUseInteractiveAuth?
    ensures k < |ARM_IDENTITY|
  {
    match n
    case ArmClientId => 0
    case ArmClientSecret => 1
    case ArmClientJwt => 2
    case ArmClientCertPath => 3
    case ArmTenantId => 4
    case ArmSubscriptionId => 5
    case ArmOidcRequestUrl => 6
    case ArmOidcRequestToken => 7
    case ArmUseAzureCliAuth => 8
  }

  lemma ArmListed(n: Name)
    requires IsArm(n) && !n.ArmMetadataUrl? && !n.ArmUseInteractiveAuth?
    ensures ArmSuffix(n) == ARM_IDENTITY[ArmIndex(n)]
  {
  }

  lemma InteractiveIsNotListed()
    ensures ArmSuffix(ArmUseInteractiveAuth) !in ARM_IDENTITY
  {
    assert |ArmSuffix(ArmUseInteractiveAuth)| == 20;
    assert forall k :: 0 <= k < |ARM_IDENTITY| ==> |ARM_IDENTITY[k]| < 20;
  }

  lemma ArmRest(rest: string)
    ensures SelectsIdentity("PKR_VAR_arm_" + rest) <==> rest in ARM_IDENTITY
    ensures IsManaged("PKR_VAR_arm_" + rest)
  {
    var t := "PKR_VAR_arm_" + rest;
    assert t[0] == 'P' && t[8] == 'a' && t[..12] == "PKR_VAR_arm_" && t[12..] == rest;
  }
}
