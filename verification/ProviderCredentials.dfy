/**
 The AWS, Azure and OCI handlers (`aws-packer-command-handler.ts`, `azure-packer-command-handler.ts`,
 `oci-packer-command-handler.ts`) over the guards of `credential-guards.ts`. Each method works step by
 step on the environment; its contract says that all of it amounts to one plan.
 */
module ProviderCredentials {
  import opened JsText
  import opened ProviderEnvironment
  import RoleSessionName

  // ── Guards ───────────────────────────────────────────────────────────────────

  /** `IDENTITY_FIELD_PATTERN`, one character. */
  predicate IsIdentityChar(c: char) { IsLetter(c) || IsDigit(c) || c in "._:@/=+-" }

  /** A secret that is there; the masker throws on one with a line break. */
  predicate IsSecret(v: Option<string>) { Present(v) && !Multiline(v.value) }

  /** A minted token the masker takes. */
  predicate IsToken(v: Option<string>) { v.Some? && !Multiline(v.value) }

  /** `assertIdentityValue` without a pattern: there, and of allowed characters only. */
  predicate IsIdentity(v: Option<string>) {
    Present(v) && forall k :: 0 <= k < |v.value| ==> IsIdentityChar(v.value[k])
  }

  predicate IsLower(c: char) { 'a' <= c <= 'z' }

  /** `REGION_PATTERN` */
  predicate IsOciRegion(s: string) { s != "" && forall k :: 0 <= k < |s| ==> IsLower(s[k]) || IsDigit(s[k]) || s[k] == '-' }

  predicate IsOcidTail(s: string) { forall k :: 0 <= k < |s| ==> IsLower(s[k]) || IsDigit(s[k]) || s[k] in "._-" }

  /** The resource type of `OCID_PATTERN` and what follows its dot. */
  predicate IsTypeAndTail(s: string, seen: bool) {
    s != "" && (if s[0] == '.' then seen && IsOcidTail(s[1..])
                else (IsLower(s[0]) || IsDigit(s[0]) || s[0] == '_') && IsTypeAndTail(s[1..], true))
  }

  /** `OCID_PATTERN` */
  predicate IsOcid(s: string) { StartsWith(s, "ocid1.") && IsTypeAndTail(s[6..], false) }

  /** `TENANCY_OCID_PATTERN` */
  predicate IsTenancyOcid(s: string) {
    StartsWith(s, "ocid1.tenancy.") && |s| > 14 && forall k :: 14 <= k < |s| ==> IsLower(s[k]) || IsDigit(s[k]) || s[k] in ".-"
  }

  /** `FINGERPRINT_PATTERN`: sixteen pairs of hexadecimal digits joined by colons. */
  predicate IsFingerprint(s: string) {
    |s| == 47 && forall k :: 0 <= k < 47 ==> if k % 3 == 2 then s[k] == ':' else IsHex(s[k])
  }

  /** The first of the two that is there and not empty. */
  function FirstPresent(a: Option<string>, b: Option<string>): Option<string> {
    if Present(a) then a else if Present(b) then b else None
  }

  datatype Scheme = Static | Federated | Unrecognized

  /** The scheme input of AWS and OCI, `ServiceConnection` when it is empty. */
  function SchemeOf(input: Option<string>): Scheme {
    if !Present(input) || input.value == "ServiceConnection" then Static
    else if input.value == "WorkloadIdentityFederation" then Federated
    else Unrecognized
  }

  // ── AWS ──────────────────────────────────────────────────────────────────────

  datatype AwsRequest = AwsRequest(
    scheme: Option<string>, connection: Option<string>, username: Option<string>, password: Option<string>,
    regionInput: Option<string>, regionField: Option<string>, roleArn: Option<string>, tokenFile: Option<string>,
    sessionName: Option<string>, project: Option<string>, buildId: Option<string>)

  const AWS_STATIC_CREDENTIAL_ENV :=
    [AwsAccessKeyId, AwsSecretAccessKey, AwsSessionToken, AwsProfile, AwsSharedCredentialsFile]

  const AWS_FEDERATED_CREDENTIAL_ENV :=
    [AwsWebIdentityTokenFile, AwsRoleArn, AwsSessionToken, AwsProfile, AwsSharedCredentialsFile]

  const AWS_SESSION_PREFIX := "ado-packer"

  function AwsSessionName(r: AwsRequest): Option<string> {
    RoleSessionName.ResolveRoleSessionName(r.sessionName, AWS_SESSION_PREFIX, r.project, r.buildId)
  }

  function AwsStaticOutcome(r: AwsRequest): Outcome {
    if !Present(r.connection) || !IsIdentity(r.username) || !IsSecret(r.password) then REFUSED
    else
      var clear := SetOf(AWS_FEDERATED_CREDENTIAL_ENV);
      var keys: Environment := map[AwsAccessKeyId := r.username.value, AwsSecretAccessKey := r.password.value];
      var region := FirstPresent(r.regionInput, r.regionField);
      if region.None? then Outcome(Plan(clear, keys), true)
      else if IsIdentity(region) then Outcome(Plan(clear, keys[AwsRegion := region.value]), true)
      else Outcome(Plan(clear, keys), false)
  }

  function AwsFederatedOutcome(r: AwsRequest): Outcome {
    var clear := SetOf(AWS_STATIC_CREDENTIAL_ENV);
    if !Present(r.connection) || r.tokenFile.None? then REFUSED
    else if !IsIdentity(r.roleArn) then Outcome(Plan(clear, map[]), false)
    else
      var role: Environment := map[AwsRoleArn := r.roleArn.value];
      if r.tokenFile.value == "" then Outcome(Plan(clear, role), false)
      else
        var role := role[AwsWebIdentityTokenFile := r.tokenFile.value];
        if !IsIdentity(r.regionInput) then Outcome(Plan(clear, role), false)
        else
          var role, session := role[AwsRegion := r.regionInput.value], AwsSessionName(r);
          if session.None? then Outcome(Plan(clear, role), false)
          else Outcome(Plan(clear, role[AwsRoleSessionName := session.value]), true)
  }

  function AwsOutcome(r: AwsRequest): Outcome {
    match SchemeOf(r.scheme)
    case Static => AwsStaticOutcome(r)
    case Federated => AwsFederatedOutcome(r)
    case Unrecognized => REFUSED
  }

  /** The session name written for AWS is never empty, so the helper never skips it. */
  lemma SessionNameIsSet(r: AwsRequest)
    ensures AwsSessionName(r).Some? ==> RoleSessionName.IsSessionName(AwsSessionName(r).value)
  {
    hide RoleSessionName.Derived, RoleSessionName.Bounded;
    assert RoleSessionName.GoodPrefix(AWS_SESSION_PREFIX);
    RoleSessionName.DerivedNameIsValid(AWS_SESSION_PREFIX, r.project, r.buildId);
  }

  method HandleAws(h: ProviderHandler, r: AwsRequest) returns (ok: bool)
    requires h.Valid() && h.plan == NOTHING
    modifies h`variables, h`tracked, h`warned, h`plan
    ensures h.Valid() && h.plan == AwsOutcome(r).plan && ok == AwsOutcome(r).ok
  {
    hide IsIdentityChar, AwsFederatedOutcome, SetOf, Apply;
    var scheme := SchemeOf(r.scheme);
    if scheme.Unrecognized? { return false; }
    if scheme.Federated? {
      ok := HandleAwsFederated(h, r);
      return;
    }
    if !Present(r.connection) || !IsIdentity(r.username) || !IsSecret(r.password) { return false; }
    FirstClearing(SetOf(AWS_FEDERATED_CREDENTIAL_ENV));
    h.NeutralizeEnvironmentVariables(AWS_FEDERATED_CREDENTIAL_ENV);
    ok := h.SetEnvironmentVariable(AwsAccessKeyId, r.username.value, true);
    ok := h.SetEnvironmentVariable(AwsSecretAccessKey, r.password.value, true);
    var region := FirstPresent(r.regionInput, r.regionField);
    if region.Some? {
      if !IsIdentity(region) { return false; }
      ok := h.SetEnvironmentVariable(AwsRegion, region.value, false);
    }
  }

  method HandleAwsFederated(h: ProviderHandler, r: AwsRequest) returns (ok: bool)
    requires h.Valid() && h.plan == NOTHING
    modifies h`variables, h`tracked, h`warned, h`plan
    ensures h.Valid() && h.plan == AwsFederatedOutcome(r).plan && ok == AwsFederatedOutcome(r).ok
  {
    hide IsIdentityChar, AwsSessionName, SetOf, Apply;
    if !Present(r.connection) || r.tokenFile.None? { return false; }
    FirstClearing(SetOf(AWS_STATIC_CREDENTIAL_ENV));
    h.NeutralizeEnvironmentVariables(AWS_STATIC_CREDENTIAL_ENV);
    if !IsIdentity(r.roleArn) { return false; }
    ok := h.SetEnvironmentVariable(AwsRoleArn, r.roleArn.value, true);
    ok := h.SetEnvironmentVariable(AwsWebIdentityTokenFile, r.tokenFile.value, true);
    if !ok { return; }
    if !IsIdentity(r.regionInput) { return false; }
    ok := h.SetEnvironmentVariable(AwsRegion, r.regionInput.value, false);
    var session := AwsSessionName(r);
    if session.None? { return false; }
    SessionNameIsSet(r);
    ok := h.SetEnvironmentVariable(AwsRoleSessionName, session.value, false);
  }

  // ── Azure ────────────────────────────────────────────────────────────────────

  datatype AzureScheme = ManagedServiceIdentity | WorkloadIdentityFederation | ServicePrincipal

  /**
   `declares` is whether the template declares the variable the branch is about to write (the inspect
   probe), `token` the minted assertion, if minting worked.
   */
  datatype AzureRequest = AzureRequest(
    connection: Option<string>, scheme: Option<string>, subscriptionInput: Option<string>, subscriptionField: Option<string>,
    principalId: Option<string>, principalKey: Option<string>, tenantId: Option<string>, declares: bool, token: Option<string>)

  function MapAuthorizationScheme(scheme: Option<string>): Option<AzureScheme> {
    if !Present(scheme) then None
    else
      var s := Lower(scheme.value);
      if s == "serviceprincipal" then Some(ServicePrincipal)
      else if s == "managedserviceidentity" then Some(ManagedServiceIdentity)
      else if s == "workloadidentityfederation" then Some(WorkloadIdentityFederation)
      else None
  }

  const ARM_WHOLESALE_CLEAR :=
    [ArmClientId, ArmOidcRequestUrl, ArmOidcRequestToken, ArmUseAzureCliAuth, ArmUseInteractiveAuth, ArmMetadataUrl]

  const ARM_MSI_CLEAR := [ArmClientSecret, ArmClientJwt, ArmClientCertPath, ArmTenantId]
  const ARM_WIF_CLEAR := [ArmClientSecret, ArmClientCertPath]
  const ARM_SP_CLEAR := [ArmClientJwt, ArmClientCertPath]

  /** What every scheme clears, and the subscription when one is named. */
  function AzureCommon(r: AzureRequest): Plan {
    var subscription := FirstPresent(r.subscriptionInput, r.subscriptionField);
    if subscription.Some? then Plan(SetOf(ARM_WHOLESALE_CLEAR), map[ArmSubscriptionId := subscription.value])
    else Plan(SetOf([ArmSubscriptionId]) + SetOf(ARM_WHOLESALE_CLEAR), map[])
  }

  function AzureIds(put: Environment, r: AzureRequest): Environment
    requires r.principalId.Some? && r.tenantId.Some?
  {
    put[ArmClientId := r.principalId.value][ArmTenantId := r.tenantId.value]
  }

  function AzureOutcome(r: AzureRequest): Outcome {
    var scheme := MapAuthorizationScheme(r.scheme);
    var subscription := FirstPresent(r.subscriptionInput, r.subscriptionField);
    if !Present(r.connection) || scheme.None? || (subscription.Some? && !IsIdentity(subscription)) then REFUSED
    else
      var Plan(clear, put) := AzureCommon(r);
      match scheme.value
      case ManagedServiceIdentity => Outcome(Plan(clear + SetOf(ARM_MSI_CLEAR), put), true)
      case WorkloadIdentityFederation =>
        if !IsIdentity(r.principalId) || !IsIdentity(r.tenantId) || !r.declares || !IsToken(r.token) then Outcome(Plan(clear, put), false)
        else if r.token.value == "" then Outcome(Plan(clear + SetOf(ARM_WIF_CLEAR), AzureIds(put, r)), false)
        else Outcome(Plan(clear + SetOf(ARM_WIF_CLEAR), AzureIds(put, r)[ArmClientJwt := r.token.value]), true)
      case ServicePrincipal =>
        if !IsIdentity(r.principalId) || !IsSecret(r.principalKey) || !IsIdentity(r.tenantId) || !r.declares then Outcome(Plan(clear, put), false)
        else Outcome(Plan(clear + SetOf(ARM_SP_CLEAR), AzureIds(put, r)[ArmClientSecret := r.principalKey.value]), true)
  }

  /** Clearing names a plan does not write only adds to what it clears. */
  lemma ClearingOthers(plan: Plan, names: seq<Name>)
    requires forall n :: n in names ==> n !in plan.put
    ensures Clearing(plan, SetOf(names)) == Plan(plan.clear + SetOf(names), plan.put)
  {
    assert plan.put - SetOf(names) == plan.put;
  }

  method HandleAzure(h: ProviderHandler, r: AzureRequest) returns (ok: bool)
    requires h.Valid() && h.plan == NOTHING
    modifies h`variables, h`tracked, h`warned, h`plan
    ensures h.Valid() && h.plan == AzureOutcome(r).plan && ok == AzureOutcome(r).ok
  {
    hide IsIdentityChar, MapAuthorizationScheme, SetOf, Apply;
    var scheme := MapAuthorizationScheme(r.scheme);
    if !Present(r.connection) || scheme.None? { return false; }
    var subscription := FirstPresent(r.subscriptionInput, r.subscriptionField);
    if subscription.Some? {
      if !IsIdentity(subscription) { return false; }
      ok := h.SetEnvironmentVariable(ArmSubscriptionId, subscription.value, false);
    } else {
      FirstClearing(SetOf([ArmSubscriptionId]));
      h.NeutralizeEnvironmentVariables([ArmSubscriptionId]);
    }
    ClearingOthers(h.plan, ARM_WHOLESALE_CLEAR);
    h.NeutralizeEnvironmentVariables(ARM_WHOLESALE_CLEAR);
    assert {} + SetOf(ARM_WHOLESALE_CLEAR) == SetOf(ARM_WHOLESALE_CLEAR);
    assert h.plan == AzureCommon(r);
    ok := HandleAzureScheme(h, r, scheme.value);
  }

  /** The switch over the schemes, after the clearing that all of them share. */
  method HandleAzureScheme(h: ProviderHandler, r: AzureRequest, scheme: AzureScheme) returns (ok: bool)
    requires h.Valid() && h.plan == AzureCommon(r)
    requires Present(r.connection) && MapAuthorizationScheme(r.scheme) == Some(scheme)
    requires var s := FirstPresent(r.subscriptionInput, r.subscriptionField); s.None? || IsIdentity(s)
    modifies h`variables, h`tracked, h`warned, h`plan
    ensures h.Valid() && h.plan == AzureOutcome(r).plan && ok == AzureOutcome(r).ok
  {
    hide IsIdentityChar, MapAuthorizationScheme, SetOf, Apply;
    match scheme
    case ManagedServiceIdentity =>
      ClearingOthers(h.plan, ARM_MSI_CLEAR);
      h.NeutralizeEnvironmentVariables(ARM_MSI_CLEAR);
      return true;
    case WorkloadIdentityFederation =>
      if !IsIdentity(r.principalId) || !IsIdentity(r.tenantId) || !r.declares || !IsToken(r.token) { return false; }
      ClearingOthers(h.plan, ARM_WIF_CLEAR);
      h.NeutralizeEnvironmentVariables(ARM_WIF_CLEAR);
      ok := h.SetEnvironmentVariable(ArmClientId, r.principalId.value, true);
      ok := h.SetEnvironmentVariable(ArmTenantId, r.tenantId.value, true);
      ok := h.SetEnvironmentVariable(ArmClientJwt, r.token.value, true);
    case ServicePrincipal =>
      if !IsIdentity(r.principalId) || !IsSecret(r.principalKey) || !IsIdentity(r.tenantId) || !r.declares { return false; }
      ClearingOthers(h.plan, ARM_SP_CLEAR);
      h.NeutralizeEnvironmentVariables(ARM_SP_CLEAR);
      ok := h.SetEnvironmentVariable(ArmClientId, r.principalId.value, true);
      ok := h.SetEnvironmentVariable(ArmTenantId, r.tenantId.value, true);
      ok := h.SetEnvironmentVariable(ArmClientSecret, r.principalKey.value, true);
  }

  // ── OCI ──────────────────────────────────────────────────────────────────────

  /** Where a secret file was written. */
  type Path = s: string | s != "" witness "/"

  /**
   `keyFile` and the three WIF paths are where each secret was written, if the write succeeded; `token`
   and `upst` the minted assertion and the exchanged session token; the ephemeral key and its fingerprint
   are what the key generator returned; `absentConfigFile` is the path at which nothing is ever written.
   */
  datatype OciRequest = OciRequest(
    scheme: Option<string>, connection: Option<string>, authKey: Option<string>, dataKey: Option<string>, normalizedKey: string,
    keyFile: Option<Path>, tenancy: Option<string>, user: Option<string>, region: Option<string>, fingerprint: Option<string>,
    domain: Option<string>, domainIsValid: bool, clientId: Option<string>, wifTenancy: Option<string>, wifRegion: Option<string>,
    token: Option<string>, upst: Option<string>, ephemeralKey: string, ephemeralFingerprint: string,
    wifKeyFile: Option<Path>, wifTokenFile: Option<Path>, wifConfigFile: Option<Path>, absentConfigFile: Path)

  const OCI_COMPETING_CREDENTIAL_ENV :=
    [OciCliConfigFile, OciCliProfile, OciCliAuth, OciCliTenancy, OciCliUser, OciCliFingerprint, OciCliKeyFile, OciCliRegion]

  const OCI_API_KEY_VAR_ENV := [OciTenancyOcid, OciUserOcid, OciRegion, OciFingerprint, OciKeyFile, OciPassPhrase]
  const OCI_WIF_VAR_ENV := [OciAccessCfgFileAccount, OciSecurityTokenFile]
  const OCI_AUTH_MODE_VAR_ENV := [OciUseInstancePrincipals]

  const OCI_API_KEY_CLEAR := OCI_COMPETING_CREDENTIAL_ENV + OCI_WIF_VAR_ENV + OCI_AUTH_MODE_VAR_ENV
  const OCI_WIF_CLEAR := OCI_COMPETING_CREDENTIAL_ENV + OCI_API_KEY_VAR_ENV + OCI_AUTH_MODE_VAR_ENV

  predicate OciKeyFieldsValid(r: OciRequest) {
    && IsIdentity(r.tenancy) && IsOcid(r.tenancy.value)
    && IsIdentity(r.user) && IsOcid(r.user.value)
    && IsIdentity(r.region) && IsOciRegion(r.region.value)
    && IsIdentity(r.fingerprint) && IsFingerprint(r.fingerprint.value)
  }

  predicate OciWifInputsValid(r: OciRequest) {
    && IsIdentity(r.domain) && r.domainIsValid && IsIdentity(r.clientId)
    && IsIdentity(r.wifTenancy) && IsTenancyOcid(r.wifTenancy.value)
    && IsIdentity(r.wifRegion) && IsOciRegion(r.wifRegion.value)
    && Present(r.connection)
  }

  /** What is registered of the lines of a key file: the trimmed lines but for empty ones and boundaries. */
  function KeySecrets(lines: seq<string>): seq<string> {
    if lines == [] then []
    else
      var secret := KeySecretOf(lines[0]);
      (if secret.Some? then [secret.value] else []) + KeySecrets(lines[1..])
  }

  function KeySecretOf(line: string): Option<string> {
    var trimmed := Trim(line);
    if trimmed != "" && !StartsWith(trimmed, "-----") then Some(trimmed) else None
  }

  /** The masker takes every one of them. */
  predicate KeyIsMaskable(key: string) { forall t :: t in KeySecrets(Split(key, '\n')) ==> !Multiline(t) }

  /** Whatever a line of the key file shows, other than blanks and boundaries, is registered. */
  lemma {:induction false} KeyLineIsRegistered(lines: seq<string>, k: nat)
    requires k < |lines| && Trim(lines[k]) != "" && !StartsWith(Trim(lines[k]), "-----")
    ensures Trim(lines[k]) in KeySecrets(lines)
  {
    hide Trim;
    if k > 0 { KeyLineIsRegistered(lines[1..], k - 1); }
  }

  function OciStaticOutcome(r: OciRequest): Outcome {
    if !Present(r.connection) || FirstPresent(r.authKey, r.dataKey).None? || !KeyIsMaskable(r.normalizedKey) || r.keyFile.None?
       || !OciKeyFieldsValid(r) then REFUSED
    else
      var put: Environment :=
        map[OciTenancyOcid := r.tenancy.value, OciUserOcid := r.user.value, OciRegion := r.region.value,
            OciFingerprint := r.fingerprint.value, OciKeyFile := r.keyFile.value, OciAccessCfgFile := r.absentConfigFile];
      Outcome(Plan(SetOf(OCI_API_KEY_CLEAR), put), true)
  }

  /** The synthetic OCI configuration file. */
  function OciConfigLines(tenancy: string, region: string, keyFile: string, fingerprint: string, tokenFile: string): seq<string> {
    ["[DEFAULT]", "tenancy=" + tenancy, "region=" + region, "key_file=" + keyFile, "fingerprint=" + fingerprint,
     "security_token_file=" + tokenFile]
  }

  function OciConfig(r: OciRequest): string
    requires r.wifTenancy.Some? && r.wifRegion.Some? && r.wifKeyFile.Some? && r.wifTokenFile.Some?
  {
    Join(OciConfigLines(r.wifTenancy.value, r.wifRegion.value, r.wifKeyFile.value, r.ephemeralFingerprint, r.wifTokenFile.value), "\n") + "\n"
  }

  predicate OciWifReady(r: OciRequest) {
    && OciWifInputsValid(r) && IsToken(r.token) && IsToken(r.upst)
    && r.wifKeyFile.Some? && r.wifTokenFile.Some? && r.wifConfigFile.Some?
  }

  function OciFederatedOutcome(r: OciRequest): Outcome {
    if !OciWifReady(r) then REFUSED
    else Outcome(Plan(SetOf(OCI_WIF_CLEAR), map[OciAccessCfgFile := r.wifConfigFile.value, OciAccessCfgFileAccount := "DEFAULT"]), true)
  }

  function OciOutcome(r: OciRequest): Outcome {
    match SchemeOf(r.scheme)
    case Static => OciStaticOutcome(r)
    case Federated => OciFederatedOutcome(r)
    case Unrecognized => REFUSED
  }

  /** The `-var` entries the run contributes to the command line. */
  function OciVarArgs(r: OciRequest): seq<string> {
    if SchemeOf(r.scheme).Federated? && OciWifReady(r) then ["oci_access_cfg_file=" + r.wifConfigFile.value] else []
  }

  function OciWifFiles(r: OciRequest): map<string, string>
    requires OciWifReady(r)
  {
    map[r.wifKeyFile.value := r.ephemeralKey, r.wifTokenFile.value := r.upst.value, r.wifConfigFile.value := OciConfig(r)]
  }

  /** The secret files a completed run has written. */
  function OciFiles(r: OciRequest): map<string, string>
    requires OciOutcome(r).ok
  {
    if SchemeOf(r.scheme).Static? then map[r.keyFile.value := r.normalizedKey]
    else OciWifFiles(r)
  }

  method HandleOci(h: ProviderHandler, r: OciRequest) returns (ok: bool)
    requires h.Valid() && h.plan == NOTHING && h.files == map[]
    modifies h
    ensures h.Valid() && h.plan == OciOutcome(r).plan && ok == OciOutcome(r).ok
    ensures h.providerVarArgs == old(h.providerVarArgs) + OciVarArgs(r)
    ensures ok ==> h.files == OciFiles(r)
  {
    hide OciStaticOutcome, OciFederatedOutcome, OciWifReady, OciConfig;
    match SchemeOf(r.scheme)
    case Unrecognized => ok := false;
    case Federated => ok := HandleOciFederated(h, r);
    case Static => var masked; ok, masked := HandleOciStatic(h, r);
  }

  /** Registers the lines of the key up to one the masker throws on. */
  method MaskKeyLines(key: string) returns (ok: bool, masked: seq<string>)
    ensures ok <==> KeyIsMaskable(key)
    ensures ok ==> masked == KeySecrets(Split(key, '\n'))
    ensures masked <= KeySecrets(Split(key, '\n')) && forall t :: t in masked ==> !Multiline(t)
  {
    hide Split, KeySecretOf, KeySecrets;
    var lines := Split(key, '\n');
    masked := [];
    NoKeySecrets();
    assert lines[0..] == lines && lines[|lines|..] == [];
    for k := 0 to |lines|
      invariant masked + KeySecrets(lines[k..]) == KeySecrets(lines)
      invariant forall t :: t in masked ==> !Multiline(t)
    {
      KeyStep(lines, k);
      var secret := KeySecretOf(lines[k]);
      if secret.Some? && Multiline(secret.value) {
        assert secret.value in KeySecrets(lines);
        return false, masked;
      }
      if secret.Some? { masked := masked + [secret.value]; }
    }
    ok := true;
  }

  lemma NoKeySecrets()
    ensures KeySecrets([]) == []
  {
  }

  lemma KeyStep(lines: seq<string>, k: nat)
    requires k < |lines|
    ensures var s := KeySecretOf(lines[k]);
      KeySecrets(lines[k..]) == (if s.Some? then [s.value] else []) + KeySecrets(lines[k + 1..])
  {
    hide KeySecretOf;
    assert lines[k..][1..] == lines[k + 1..];
  }

  method HandleOciStatic(h: ProviderHandler, r: OciRequest) returns (ok: bool, masked: seq<string>)
    requires h.Valid() && h.plan == NOTHING && h.files == map[]
    modifies h`variables, h`tracked, h`warned, h`plan, h`files
    ensures h.Valid() && h.plan == OciStaticOutcome(r).plan && ok == OciStaticOutcome(r).ok
    ensures ok ==> r.keyFile.Some? && h.files == map[r.keyFile.value := r.normalizedKey]
    ensures ok ==> masked == KeySecrets(Split(r.normalizedKey, '\n'))
  {
    hide IsIdentityChar, SetOf, Apply, IsOcid, IsOciRegion, IsFingerprint, KeyIsMaskable, KeySecrets, Split;
    var key := FirstPresent(r.authKey, r.dataKey);
    if !Present(r.connection) || key.None? { return false, []; }
    ok, masked := MaskKeyLines(r.normalizedKey);
    if !ok || r.keyFile.None? { return false, masked; }
    h.files := h.files[r.keyFile.value := r.normalizedKey];
    if !OciKeyFieldsValid(r) { return false, masked; }
    KeyFieldsAreSet(r);
    hide OciKeyFieldsValid, IsIdentity, Present;
    FirstClearing(SetOf(OCI_API_KEY_CLEAR));
    h.NeutralizeEnvironmentVariables(OCI_API_KEY_CLEAR);
    ok := h.SetEnvironmentVariable(OciTenancyOcid, r.tenancy.value, true);
    ok := h.SetEnvironmentVariable(OciUserOcid, r.user.value, true);
    ok := h.SetEnvironmentVariable(OciRegion, r.region.value, false);
    ok := h.SetEnvironmentVariable(OciFingerprint, r.fingerprint.value, true);
    ok := h.SetEnvironmentVariable(OciKeyFile, r.keyFile.value, true);
    ok := h.SetEnvironmentVariable(OciAccessCfgFile, r.absentConfigFile, true);
  }

  lemma KeyFieldsAreSet(r: OciRequest)
    requires OciKeyFieldsValid(r)
    ensures r.tenancy.Some? && r.tenancy.value != "" && r.user.Some? && r.user.value != ""
    ensures r.region.Some? && r.region.value != "" && r.fingerprint.Some? && r.fingerprint.value != ""
  {
  }

  method HandleOciFederated(h: ProviderHandler, r: OciRequest) returns (ok: bool)
    requires h.Valid() && h.plan == NOTHING && h.files == map[] && SchemeOf(r.scheme).Federated?
    modifies h
    ensures h.Valid() && h.plan == OciFederatedOutcome(r).plan && ok == OciFederatedOutcome(r).ok
    ensures h.providerVarArgs == old(h.providerVarArgs) + OciVarArgs(r)
    ensures ok ==> OciWifReady(r) && h.files == OciWifFiles(r)
  {
    hide IsIdentityChar, SetOf, Apply, IsTenancyOcid, IsOciRegion, Join, OciConfigLines;
    if !OciWifInputsValid(r) || !IsToken(r.token) || !IsToken(r.upst) || r.wifKeyFile.None? { return false; }
    h.files := h.files[r.wifKeyFile.value := r.ephemeralKey];
    if r.wifTokenFile.None? { return false; }
    h.files := h.files[r.wifTokenFile.value := r.upst.value];
    if r.wifConfigFile.None? { return false; }
    h.files := h.files[r.wifConfigFile.value := OciConfig(r)];
    FirstClearing(SetOf(OCI_WIF_CLEAR));
    h.NeutralizeEnvironmentVariables(OCI_WIF_CLEAR);
    h.providerVarArgs := h.providerVarArgs + ["oci_access_cfg_file=" + r.wifConfigFile.value];
    ok := h.SetEnvironmentVariable(OciAccessCfgFile, r.wifConfigFile.value, true);
    ok := h.SetEnvironmentVariable(OciAccessCfgFileAccount, "DEFAULT", false);
  }
}
