/**
 Which identity packer ends up with. The resolution orders are the ones the handlers' own comments
 give for the AWS SDK, packer-plugin-azure and packer-plugin-oracle; every theorem is over any
 inherited environment.
 */
module CredentialIdentity {
  import opened JsText
  import opened ProviderEnvironment
  import opened ProviderCredentials

  // ── AWS ──────────────────────────────────────────────────────────────────────

  datatype AwsIdentity =
    | StaticKeys(id: string, secret: string, session: Option<string>)
    | Outranked
    | WebIdentity(role: string, tokenFile: string, sessionName: Option<string>)
    | Ambient

  /**
   The order the handler's comment gives: a static key pair first; otherwise any of the five static variables
   that is left set wins outright; then the web identity token, else the instance's own credentials.
   */
  function AwsResolves(env: Environment): AwsIdentity {
    if IsSet(env, AwsAccessKeyId) && IsSet(env, AwsSecretAccessKey) then
      StaticKeys(env[AwsAccessKeyId], env[AwsSecretAccessKey], Get(env, AwsSessionToken))
    else if exists n :: n in AWS_STATIC_CREDENTIAL_ENV && IsSet(env, n) then Outranked
    else if IsSet(env, AwsWebIdentityTokenFile) && IsSet(env, AwsRoleArn) then
      WebIdentity(env[AwsRoleArn], env[AwsWebIdentityTokenFile], Get(env, AwsRoleSessionName))
    else Ambient
  }

  /** The identity the connection names. */
  function AwsIntended(r: AwsRequest): AwsIdentity
    requires AwsOutcome(r).ok
  {
    if SchemeOf(r.scheme).Static? then StaticKeys(r.username.value, r.password.value, None)
    else WebIdentity(r.roleArn.value, r.tokenFile.value, AwsSessionName(r))
  }

  lemma AwsIdentityIsTheConnections(env: Environment, r: AwsRequest)
    requires AwsOutcome(r).ok
    ensures AwsResolves(Apply(env, AwsOutcome(r).plan)) == AwsIntended(r)
  {
    hide Apply, AwsStaticOutcome, AwsFederatedOutcome, AwsResolves;
    if SchemeOf(r.scheme).Federated? { FederatedRoleWins(env, r); } else { StaticKeysWin(env, r); }
  }

  lemma StaticKeysWin(env: Environment, r: AwsRequest)
    requires AwsStaticOutcome(r).ok
    ensures r.username.Some? && r.password.Some?
    ensures AwsResolves(Apply(env, AwsStaticOutcome(r).plan)) == StaticKeys(r.username.value, r.password.value, None)
  {
    hide IsIdentityChar, Multiline, SetOf, Apply, FirstPresent;
    var plan := AwsStaticOutcome(r).plan;
    AwsLists(AwsSessionToken);
    FinalValue(env, plan, AwsAccessKeyId);
    FinalValue(env, plan, AwsSecretAccessKey);
    FinalValue(env, plan, AwsSessionToken);
  }

  lemma FederatedRoleWins(env: Environment, r: AwsRequest)
    requires AwsFederatedOutcome(r).ok
    ensures r.roleArn.Some? && r.tokenFile.Some?
    ensures AwsResolves(Apply(env, AwsFederatedOutcome(r).plan)) == WebIdentity(r.roleArn.value, r.tokenFile.value, AwsSessionName(r))
  {
    hide IsIdentityChar, AwsSessionName, SetOf, Apply;
    var plan := AwsFederatedOutcome(r).plan;
    forall n | n in AWS_STATIC_CREDENTIAL_ENV ensures !IsSet(Apply(env, plan), n) {
      AwsLists(n);
      SetOfMembers(n);
      FinalValue(env, plan, n);
    }
    FinalValue(env, plan, AwsRoleArn);
    FinalValue(env, plan, AwsWebIdentityTokenFile);
    FinalValue(env, plan, AwsRoleSessionName);
    hide AwsFederatedOutcome;
  }

  lemma SetOfMembers(n: Name)
    ensures n in AWS_STATIC_CREDENTIAL_ENV <==> n in SetOf(AWS_STATIC_CREDENTIAL_ENV)
  {
  }

  /** The AWS clear lists, name by name. */
  lemma AwsLists(n: Name)
    ensures n in SetOf(AWS_STATIC_CREDENTIAL_ENV)
            <==> (n.AwsAccessKeyId? || n.AwsSecretAccessKey? || n.AwsSessionToken? || n.AwsProfile? || n.AwsSharedCredentialsFile?)
    ensures n in SetOf(AWS_FEDERATED_CREDENTIAL_ENV)
            <==> (n.AwsWebIdentityTokenFile? || n.AwsRoleArn? || n.AwsSessionToken? || n.AwsProfile? || n.AwsSharedCredentialsFile?)
  {
  }

  /** A plan that forgets to clear one name. */
  function Forgetting(plan: Plan, n: Name): Plan { Plan(plan.clear - {n}, plan.put) }

  /** Each variable the federated branch clears is needed: forget one, and some inherited environment takes over. */
  lemma AwsFederatedClearIsNeeded(r: AwsRequest, n: Name)
    requires AwsOutcome(r).ok && SchemeOf(r.scheme).Federated? && n in AWS_STATIC_CREDENTIAL_ENV
    ensures exists env: Environment :: AwsResolves(Apply(env, Forgetting(AwsOutcome(r).plan, n))) != AwsIntended(r)
  {
    hide IsIdentity, IsSecret, FirstPresent, AwsSessionName, SetOf, Apply;
    var env: Environment := map[n := "x"];
    var plan := AwsOutcome(r).plan;
    AwsLists(n);
    SetOfMembers(n);
    assert n !in plan.put;
    FinalValue(env, Forgetting(plan, n), n);
    assert IsSet(Apply(env, Forgetting(plan, n)), n);
    assert !AwsResolves(Apply(env, Forgetting(plan, n))).WebIdentity?;
  }

  // ── Azure ────────────────────────────────────────────────────────────────────

  datatype AzureIdentity =
    | InteractiveLogin | AzureCli | ManagedIdentity
    | ClientSecret(client: Option<string>, tenant: Option<string>, secret: string)
    | ClientAssertion(client: Option<string>, tenant: Option<string>, jwt: string)
    | SeveralCredentials

  const MSI_BLOCKERS: set<Name> := {ArmClientSecret, ArmClientJwt, ArmClientCertPath, ArmTenantId, ArmOidcRequestUrl, ArmOidcRequestToken}

  /** The plugin's managed identity check. */
  predicate UseMsi(env: Environment) { forall n :: n in MSI_BLOCKERS ==> !IsSet(env, n) }

  predicate OnlyCredential(env: Environment, n: Name) {
    && IsSet(env, n)
    && forall m :: m in MSI_BLOCKERS && m != n && m != ArmTenantId ==> !IsSet(env, m)
  }

  function AzureResolves(env: Environment): AzureIdentity {
    if IsSet(env, ArmUseInteractiveAuth) then InteractiveLogin
    else if IsSet(env, ArmUseAzureCliAuth) then AzureCli
    else if UseMsi(env) then ManagedIdentity
    else if OnlyCredential(env, ArmClientSecret) then ClientSecret(Get(env, ArmClientId), Get(env, ArmTenantId), env[ArmClientSecret])
    else if OnlyCredential(env, ArmClientJwt) then ClientAssertion(Get(env, ArmClientId), Get(env, ArmTenantId), env[ArmClientJwt])
    else SeveralCredentials
  }

  function AzureIntended(r: AzureRequest): AzureIdentity
    requires AzureOutcome(r).ok
  {
    match MapAuthorizationScheme(r.scheme).value
    case ManagedServiceIdentity => ManagedIdentity
    case WorkloadIdentityFederation => ClientAssertion(r.principalId, r.tenantId, r.token.value)
    case ServicePrincipal => ClientSecret(r.principalId, r.tenantId, r.principalKey.value)
  }

  /** The final value of each variable, scheme by scheme. */
  function AzureFinal(r: AzureRequest, scheme: AzureScheme, n: Name, inherited: Option<string>): Option<string> {
    match n
    case ArmClientId => if scheme.ManagedServiceIdentity? then None else r.principalId
    case ArmTenantId => if scheme.ManagedServiceIdentity? then None else r.tenantId
    case ArmClientSecret => if scheme.ServicePrincipal? then r.principalKey else None
    case ArmClientJwt => if scheme.WorkloadIdentityFederation? then r.token else None
    case ArmSubscriptionId => FirstPresent(r.subscriptionInput, r.subscriptionField)
    case ArmClientCertPath | ArmOidcRequestUrl | ArmOidcRequestToken | ArmUseAzureCliAuth | ArmUseInteractiveAuth | ArmMetadataUrl => None
    case _ => inherited
  }

  lemma AzureAfter(env: Environment, r: AzureRequest, n: Name)
    requires AzureOutcome(r).ok
    ensures MapAuthorizationScheme(r.scheme).Some?
    ensures Final(env, AzureOutcome(r).plan, n) == AzureFinal(r, MapAuthorizationScheme(r.scheme).value, n, Get(env, n))
  {
    AzurePlanIs(r);
    hide AzureOutcome, AzureCommon, MapAuthorizationScheme, SetOf, AzureFinal, Final, Get;
    match MapAuthorizationScheme(r.scheme).value
    case ManagedServiceIdentity => MsiAfter(env, r, n);
    case WorkloadIdentityFederation => WifAfter(env, r, n);
    case ServicePrincipal => PrincipalAfter(env, r, n);
  }

  lemma MsiAfter(env: Environment, r: AzureRequest, n: Name)
    ensures Final(env, Plan(AzureCommon(r).clear + SetOf(ARM_MSI_CLEAR), AzureCommon(r).put), n) == AzureFinal(r, ManagedServiceIdentity, n, Get(env, n))
  {
    CommonPlanIs(r, n);
    ArmLists(n);
    hide AzureCommon, SetOf, FirstPresent, Get;
  }

  lemma WifAfter(env: Environment, r: AzureRequest, n: Name)
    requires r.principalId.Some? && r.tenantId.Some? && r.token.Some?
    ensures Final(env, Plan(AzureCommon(r).clear + SetOf(ARM_WIF_CLEAR), AzureIds(AzureCommon(r).put, r)[ArmClientJwt := r.token.value]), n)
            == AzureFinal(r, WorkloadIdentityFederation, n, Get(env, n))
  {
    CommonPlanIs(r, n);
    ArmLists(n);
    hide AzureCommon, SetOf, FirstPresent, Get;
  }

  lemma PrincipalAfter(env: Environment, r: AzureRequest, n: Name)
    requires r.principalId.Some? && r.tenantId.Some? && r.principalKey.Some?
    ensures Final(env, Plan(AzureCommon(r).clear + SetOf(ARM_SP_CLEAR), AzureIds(AzureCommon(r).put, r)[ArmClientSecret := r.principalKey.value]), n)
            == AzureFinal(r, ServicePrincipal, n, Get(env, n))
  {
    CommonPlanIs(r, n);
    ArmLists(n);
    hide AzureCommon, SetOf, FirstPresent, Get;
  }

  /** The plan of a completed run, scheme by scheme. */
  lemma AzurePlanIs(r: AzureRequest)
    requires AzureOutcome(r).ok
    ensures MapAuthorizationScheme(r.scheme).Some?
    ensures var common, plan := AzureCommon(r), AzureOutcome(r).plan;
      match MapAuthorizationScheme(r.scheme).value
      case ManagedServiceIdentity => plan == Plan(common.clear + SetOf(ARM_MSI_CLEAR), common.put)
      case WorkloadIdentityFederation =>
        && r.principalId.Some? && r.tenantId.Some? && r.token.Some?
        && plan == Plan(common.clear + SetOf(ARM_WIF_CLEAR), AzureIds(common.put, r)[ArmClientJwt := r.token.value])
      case ServicePrincipal =>
        && r.principalId.Some? && r.tenantId.Some? && r.principalKey.Some?
        && plan == Plan(common.clear + SetOf(ARM_SP_CLEAR), AzureIds(common.put, r)[ArmClientSecret := r.principalKey.value])
  {
    hide IsIdentityChar, MapAuthorizationScheme, Multiline, SetOf, AzureCommon, FirstPresent;
  }

  lemma CommonPlanIs(r: AzureRequest, n: Name)
    ensures var common, subscription := AzureCommon(r), FirstPresent(r.subscriptionInput, r.subscriptionField);
      && common.put == (if subscription.Some? then map[ArmSubscriptionId := subscription.value] else map[])
      && (n in common.clear <==> n in SetOf(ARM_WHOLESALE_CLEAR) || (n == ArmSubscriptionId && subscription.None?))
  {
    hide SetOf, FirstPresent;
    SetOfOne(n, ArmSubscriptionId);
  }

  lemma SetOfOne(n: Name, m: Name)
    ensures n in SetOf([m]) <==> n == m
  {
  }

  /** The Azure clear lists, name by name. */
  lemma ArmLists(n: Name)
    ensures n in SetOf(ARM_WHOLESALE_CLEAR)
            <==> (n.ArmClientId? || n.ArmOidcRequestUrl? || n.ArmOidcRequestToken? || n.ArmUseAzureCliAuth? || n.ArmUseInteractiveAuth? || n.ArmMetadataUrl?)
    ensures n in SetOf(ARM_MSI_CLEAR) <==> (n.ArmClientSecret? || n.ArmClientJwt? || n.ArmClientCertPath? || n.ArmTenantId?)
    ensures n in SetOf(ARM_WIF_CLEAR) <==> (n.ArmClientSecret? || n.ArmClientCertPath?)
    ensures n in SetOf(ARM_SP_CLEAR) <==> (n.ArmClientJwt? || n.ArmClientCertPath?)
  {
    WholesaleList(n);
    MsiList(n);
    hide SetOf;
    assert n in SetOf(ARM_WIF_CLEAR) <==> n == ArmClientSecret || n == ArmClientCertPath by { SetOfTwo(n, ArmClientSecret, ArmClientCertPath); }
    assert n in SetOf(ARM_SP_CLEAR) <==> n == ArmClientJwt || n == ArmClientCertPath by { SetOfTwo(n, ArmClientJwt, ArmClientCertPath); }
  }

  lemma SetOfTwo(n: Name, a: Name, b: Name)
    ensures n in SetOf([a, b]) <==> n == a || n == b
  {
  }

  lemma WholesaleList(n: Name)
    ensures n in SetOf(ARM_WHOLESALE_CLEAR)
            <==> (n.ArmClientId? || n.ArmOidcRequestUrl? || n.ArmOidcRequestToken? || n.ArmUseAzureCliAuth? || n.ArmUseInteractiveAuth? || n.ArmMetadataUrl?)
  {
  }

  lemma MsiList(n: Name)
    ensures n in SetOf(ARM_MSI_CLEAR) <==> (n.ArmClientSecret? || n.ArmClientJwt? || n.ArmClientCertPath? || n.ArmTenantId?)
  {
  }

  lemma AzureIdentityIsTheConnections(env: Environment, r: AzureRequest)
    requires AzureOutcome(r).ok
    ensures var after := Apply(env, AzureOutcome(r).plan);
      && AzureResolves(after) == AzureIntended(r)
      && (UseMsi(after) <==> MapAuthorizationScheme(r.scheme) == Some(ManagedServiceIdentity))
      && Get(after, ArmMetadataUrl) == None
      && Get(after, ArmSubscriptionId) == FirstPresent(r.subscriptionInput, r.subscriptionField)
  {
    var after, scheme := Apply(env, AzureOutcome(r).plan), MapAuthorizationScheme(r.scheme).value;
    AzureInputs(r);
    AzureFinals(r, scheme);
    hide Apply, AzureOutcome, MapAuthorizationScheme, FirstPresent, Final, AzureFinal, Get, UseMsi, AzureResolves;
    forall n: Name ensures Get(after, n) == AzureFinal(r, scheme, n, Get(env, n)) { AzureGet(env, r, n); }
    BySchemes(after, r, scheme);
  }

  lemma AzureGet(env: Environment, r: AzureRequest, n: Name)
    requires AzureOutcome(r).ok
    ensures MapAuthorizationScheme(r.scheme).Some?
    ensures Get(Apply(env, AzureOutcome(r).plan), n) == AzureFinal(r, MapAuthorizationScheme(r.scheme).value, n, Get(env, n))
  {
    hide Apply, AzureOutcome, MapAuthorizationScheme, Final, AzureFinal, Get;
    AzureAfter(env, r, n);
    FinalValue(env, AzureOutcome(r).plan, n);
  }

  lemma AzureFinals(r: AzureRequest, scheme: AzureScheme)
    ensures forall v :: AzureFinal(r, scheme, ArmUseInteractiveAuth, v) == None
    ensures forall v :: AzureFinal(r, scheme, ArmUseAzureCliAuth, v) == None
    ensures forall v :: AzureFinal(r, scheme, ArmOidcRequestUrl, v) == None
    ensures forall v :: AzureFinal(r, scheme, ArmOidcRequestToken, v) == None
    ensures forall v :: AzureFinal(r, scheme, ArmClientCertPath, v) == None
    ensures forall v :: AzureFinal(r, scheme, ArmMetadataUrl, v) == None
    ensures forall v :: AzureFinal(r, scheme, ArmSubscriptionId, v) == FirstPresent(r.subscriptionInput, r.subscriptionField)
    ensures forall v :: AzureFinal(r, scheme, ArmClientId, v) == if scheme.ManagedServiceIdentity? then None else r.principalId
    ensures forall v :: AzureFinal(r, scheme, ArmTenantId, v) == if scheme.ManagedServiceIdentity? then None else r.tenantId
    ensures forall v :: AzureFinal(r, scheme, ArmClientSecret, v) == if scheme.ServicePrincipal? then r.principalKey else None
    ensures forall v :: AzureFinal(r, scheme, ArmClientJwt, v) == if scheme.WorkloadIdentityFederation? then r.token else None
  {
    hide FirstPresent;
  }

  /** The plugin's choice, from the final values alone. */
  lemma BySchemes(after: Environment, r: AzureRequest, scheme: AzureScheme)
    requires Get(after, ArmUseInteractiveAuth) == Get(after, ArmUseAzureCliAuth) == None
    requires Get(after, ArmOidcRequestUrl) == Get(after, ArmOidcRequestToken) == Get(after, ArmClientCertPath) == None
    requires Get(after, ArmClientId) == (if scheme.ManagedServiceIdentity? then None else r.principalId)
    requires Get(after, ArmTenantId) == (if scheme.ManagedServiceIdentity? then None else r.tenantId)
    requires Get(after, ArmClientSecret) == (if scheme.ServicePrincipal? then r.principalKey else None)
    requires Get(after, ArmClientJwt) == (if scheme.WorkloadIdentityFederation? then r.token else None)
    requires !scheme.ManagedServiceIdentity? ==> Present(r.tenantId)
    requires scheme.ServicePrincipal? ==> Present(r.principalKey)
    requires scheme.WorkloadIdentityFederation? ==> Present(r.token)
    ensures AzureResolves(after)
            == match scheme
               case ManagedServiceIdentity => ManagedIdentity
               case WorkloadIdentityFederation => ClientAssertion(r.principalId, r.tenantId, r.token.value)
               case ServicePrincipal => ClientSecret(r.principalId, r.tenantId, r.principalKey.value)
    ensures UseMsi(after) <==> scheme.ManagedServiceIdentity?
  {
    MsiBlockers(after);
    OnlyOneCredential(after, ArmClientSecret);
    OnlyOneCredential(after, ArmClientJwt);
    hide UseMsi, OnlyCredential;
    match scheme
    case ManagedServiceIdentity => assert UseMsi(after);
    case WorkloadIdentityFederation => assert IsSet(after, ArmTenantId) && OnlyCredential(after, ArmClientJwt) && !IsSet(after, ArmClientSecret);
    case ServicePrincipal => assert IsSet(after, ArmTenantId) && OnlyCredential(after, ArmClientSecret);
  }

  lemma MsiBlockers(env: Environment)
    ensures UseMsi(env) <==> !IsSet(env, ArmClientSecret) && !IsSet(env, ArmClientJwt) && !IsSet(env, ArmClientCertPath)
                             && !IsSet(env, ArmTenantId) && !IsSet(env, ArmOidcRequestUrl) && !IsSet(env, ArmOidcRequestToken)
  {
    hide IsSet;
  }

  lemma OnlyOneCredential(env: Environment, n: Name)
    requires n == ArmClientSecret || n == ArmClientJwt
    ensures OnlyCredential(env, n) <==> IsSet(env, n) && !IsSet(env, if n.ArmClientJwt? then ArmClientSecret else ArmClientJwt)
                                        && !IsSet(env, ArmClientCertPath) && !IsSet(env, ArmOidcRequestUrl) && !IsSet(env, ArmOidcRequestToken)
  {
    hide IsSet;
  }

  /** What a completed branch has checked. */
  lemma AzureInputs(r: AzureRequest)
    requires AzureOutcome(r).ok
    ensures MapAuthorizationScheme(r.scheme).Some?
    ensures !MapAuthorizationScheme(r.scheme).value.ManagedServiceIdentity? ==> Present(r.principalId) && Present(r.tenantId)
    ensures MapAuthorizationScheme(r.scheme).value.ServicePrincipal? ==> Present(r.principalKey)
    ensures MapAuthorizationScheme(r.scheme).value.WorkloadIdentityFederation? ==> Present(r.token)
  {
    hide IsIdentityChar, MapAuthorizationScheme, Multiline;
  }

  /** Each of the variables the managed identity check reads must be cleared for that branch to hold. */
  lemma AzureMsiClearIsNeeded(r: AzureRequest, n: Name)
    requires AzureOutcome(r).ok && MapAuthorizationScheme(r.scheme) == Some(ManagedServiceIdentity) && n in MSI_BLOCKERS
    ensures exists env: Environment :: !UseMsi(Apply(env, Forgetting(AzureOutcome(r).plan, n)))
  {
    hide IsIdentityChar, IsIdentity, MapAuthorizationScheme, Apply, SetOf, FirstPresent;
    var env: Environment := map[n := "x"];
    assert n !in AzureOutcome(r).plan.put;
    FinalValue(env, Forgetting(AzureOutcome(r).plan, n), n);
    assert IsSet(Apply(env, Forgetting(AzureOutcome(r).plan, n)), n);
  }

  // ── OCI ──────────────────────────────────────────────────────────────────────

  datatype OciIdentity =
    | InstancePrincipal
    | ApiKey(tenancy: string, user: string, region: string, fingerprint: string, keyFile: string)
    | SessionToken(tenancy: string, region: string, fingerprint: string, keyFile: string, tokenFile: string)
    | Unresolved

  /** A key of the default profile. */
  function IniValue(lines: seq<string>, key: string): Option<string> {
    if lines == [] then None
    else if StartsWith(lines[0], key + "=") then Some(lines[0][|key| + 1..])
    else IniValue(lines[1..], key)
  }

  /** The configuration file the plugin reads as its second provider. */
  function ConfigLines(env: Environment, disk: map<string, string>, ambient: Option<string>): seq<string> {
    if IsSet(env, OciAccessCfgFile) then
      if env[OciAccessCfgFile] in disk then Split(disk[env[OciAccessCfgFile]], '\n') else []
    else if ambient.Some? then Split(ambient.value, '\n')
    else []
  }

  /** Each field comes from the first provider that has it: the injected variable, then the file. */
  function Field(env: Environment, n: Name, lines: seq<string>, key: string): Option<string> {
    if IsSet(env, n) then Some(env[n]) else IniValue(lines, key)
  }

  function OciResolves(env: Environment, disk: map<string, string>, ambient: Option<string>): OciIdentity {
    var lines := ConfigLines(env, disk, ambient);
    var tenancy, user := Field(env, OciTenancyOcid, lines, "tenancy"), Field(env, OciUserOcid, lines, "user");
    var region, fingerprint := Field(env, OciRegion, lines, "region"), Field(env, OciFingerprint, lines, "fingerprint");
    var keyFile, token := Field(env, OciKeyFile, lines, "key_file"), IniValue(lines, "security_token_file");
    if IsSet(env, OciUseInstancePrincipals) then InstancePrincipal
    else if tenancy.None? || region.None? || fingerprint.None? || keyFile.None? then Unresolved
    else if user.Some? then ApiKey(tenancy.value, user.value, region.value, fingerprint.value, keyFile.value)
    else if token.Some? then SessionToken(tenancy.value, region.value, fingerprint.value, keyFile.value, token.value)
    else Unresolved
  }

  /** With an API key, every field is the connection's, whatever configuration the agent has. */
  lemma OciKeyIdentityIsTheConnections(env: Environment, disk: map<string, string>, ambient: Option<string>, r: OciRequest)
    requires OciOutcome(r).ok && SchemeOf(r.scheme).Static?
    ensures OciKeyFieldsValid(r) && r.keyFile.Some?
    ensures var after := Apply(env, OciOutcome(r).plan);
      && OciResolves(after, disk + OciFiles(r), ambient)
         == ApiKey(r.tenancy.value, r.user.value, r.region.value, r.fingerprint.value, r.keyFile.value)
      && (disk + OciFiles(r))[r.keyFile.value] == r.normalizedKey
      && Get(after, OciPassPhrase) == Get(env, OciPassPhrase)
  {
    hide IsIdentityChar, IsOcid, IsOciRegion, IsFingerprint, IniValue, ConfigLines, Apply, SetOf;
    KeyFieldsAreSet(r);
    var plan := OciOutcome(r).plan;
    hide IsIdentity, OciKeyFieldsValid;
    OciKeyListed(OciUseInstancePrincipals);
    OciKeyListed(OciPassPhrase);
    FinalValue(env, plan, OciTenancyOcid);
    FinalValue(env, plan, OciUserOcid);
    FinalValue(env, plan, OciRegion);
    FinalValue(env, plan, OciFingerprint);
    FinalValue(env, plan, OciKeyFile);
    FinalValue(env, plan, OciUseInstancePrincipals);
    FinalValue(env, plan, OciPassPhrase);
    assert (disk + OciFiles(r))[r.keyFile.value] == r.normalizedKey;
    hide OciOutcome, OciFiles;
    KeyFieldsResolve(Apply(env, plan), disk + OciFiles(r), ambient, r);
  }

  /** With the five fields injected, no configuration file is asked for them. */
  lemma KeyFieldsResolve(after: Environment, disk: map<string, string>, ambient: Option<string>, r: OciRequest)
    requires OciKeyFieldsValid(r) && r.keyFile.Some? && !IsSet(after, OciUseInstancePrincipals)
    requires Get(after, OciTenancyOcid) == r.tenancy && Get(after, OciUserOcid) == r.user && Get(after, OciRegion) == r.region
    requires Get(after, OciFingerprint) == r.fingerprint && Get(after, OciKeyFile) == Some(r.keyFile.value)
    ensures OciResolves(after, disk, ambient)
            == ApiKey(r.tenancy.value, r.user.value, r.region.value, r.fingerprint.value, r.keyFile.value)
  {
    KeyFieldsAreSet(r);
    hide OciKeyFieldsValid, IniValue, ConfigLines;
  }

  /**
   With federation, every field is the one of the synthetic file, which is read back as written, and no
   inherited variable or passphrase stands in front of it.
   */
  lemma OciFederatedIdentityIsTheConnections(env: Environment, disk: map<string, string>, ambient: Option<string>, r: OciRequest)
    requires OciOutcome(r).ok && SchemeOf(r.scheme).Federated?
    requires r.wifKeyFile != r.wifTokenFile && r.wifTokenFile != r.wifConfigFile && r.wifConfigFile != r.wifKeyFile
    requires forall s :: s in [r.wifKeyFile.value, r.wifTokenFile.value, r.ephemeralFingerprint] ==> '\n' !in s
    ensures OciWifReady(r)
    ensures var after, files := Apply(env, OciOutcome(r).plan), disk + OciFiles(r);
      && OciResolves(after, files, ambient)
         == SessionToken(r.wifTenancy.value, r.wifRegion.value, r.ephemeralFingerprint, r.wifKeyFile.value, r.wifTokenFile.value)
      && files[r.wifKeyFile.value] == r.ephemeralKey && files[r.wifTokenFile.value] == r.upst.value
      && OciVarArgs(r) == ["oci_access_cfg_file=" + r.wifConfigFile.value]
      && Get(after, OciPassPhrase) == None
  {
    var after, files := Apply(env, OciOutcome(r).plan), disk + OciFiles(r);
    OciFederatedAfter(env, r);
    OciFederatedFiles(disk, r);
    OciWifFields(r);
    var lines := Split(OciConfig(r), '\n');
    ConfigReadsBack(r.wifTenancy.value, r.wifRegion.value, r.wifKeyFile.value, r.ephemeralFingerprint, r.wifTokenFile.value);
    hide OciWifReady, OciOutcome, Apply, OciConfigLines, Split, IniValue, Join, OciFiles, OciConfig, OciVarArgs;
    SyntheticFileIsRead(after, files, ambient, r, lines);
  }

  /** With no field in the environment, all of them are read from the file it names. */
  lemma SyntheticFileIsRead(after: Environment, files: map<string, string>, ambient: Option<string>, r: OciRequest, lines: seq<string>)
    requires OciTenancyOcid !in after && OciUserOcid !in after && OciRegion !in after && OciFingerprint !in after
    requires OciKeyFile !in after && OciUseInstancePrincipals !in after
    requires r.wifConfigFile.Some? && Get(after, OciAccessCfgFile) == Some(r.wifConfigFile.value)
    requires r.wifConfigFile.value in files && lines == Split(files[r.wifConfigFile.value], '\n')
    requires IniValue(lines, "tenancy").Some? && IniValue(lines, "region").Some? && IniValue(lines, "fingerprint").Some?
    requires IniValue(lines, "key_file").Some? && IniValue(lines, "security_token_file").Some? && IniValue(lines, "user").None?
    ensures OciResolves(after, files, ambient)
            == SessionToken(IniValue(lines, "tenancy").value, IniValue(lines, "region").value, IniValue(lines, "fingerprint").value,
                            IniValue(lines, "key_file").value, IniValue(lines, "security_token_file").value)
  {
    hide IniValue, Split;
    assert ConfigLines(after, files, ambient) == lines;
  }

  lemma OciWifFields(r: OciRequest)
    requires OciWifReady(r)
    ensures '\n' !in r.wifTenancy.value && '\n' !in r.wifRegion.value
  {
    hide IsIdentity, IsTenancyOcid, IsOciRegion, IsToken;
    IdentityHasNoBreak(r.wifTenancy);
    IdentityHasNoBreak(r.wifRegion);
  }

  lemma OciFederatedFiles(disk: map<string, string>, r: OciRequest)
    requires OciOutcome(r).ok && SchemeOf(r.scheme).Federated?
    requires r.wifKeyFile != r.wifTokenFile && r.wifTokenFile != r.wifConfigFile && r.wifConfigFile != r.wifKeyFile
    ensures OciWifReady(r)
    ensures var files := disk + OciFiles(r);
      && r.wifKeyFile.value in files && files[r.wifKeyFile.value] == r.ephemeralKey
      && r.wifTokenFile.value in files && files[r.wifTokenFile.value] == r.upst.value
      && r.wifConfigFile.value in files && files[r.wifConfigFile.value] == OciConfig(r)
    ensures OciVarArgs(r) == ["oci_access_cfg_file=" + r.wifConfigFile.value]
  {
    hide OciWifInputsValid, IsToken, OciConfig;
  }

  lemma OciFederatedAfter(env: Environment, r: OciRequest)
    requires OciOutcome(r).ok && SchemeOf(r.scheme).Federated?
    ensures r.wifConfigFile.Some?
    ensures var after := Apply(env, OciOutcome(r).plan);
      && OciTenancyOcid !in after && OciUserOcid !in after && OciRegion !in after && OciFingerprint !in after
      && OciKeyFile !in after && OciPassPhrase !in after && OciUseInstancePrincipals !in after
      && Get(after, OciAccessCfgFile) == Some(r.wifConfigFile.value)
  {
    hide OciWifInputsValid, IsToken, Apply;
    var plan := OciOutcome(r).plan;
    var after := Apply(env, plan);
    FinalValue(env, plan, OciAccessCfgFile);
    forall n | n in plan.clear && n !in plan.put ensures n !in after { FinalValue(env, plan, n); }
    OciWifList(plan, after);
  }

  lemma OciWifList(plan: Plan, after: Environment)
    requires plan.clear == SetOf(OCI_WIF_CLEAR) && plan.put.Keys == {OciAccessCfgFile, OciAccessCfgFileAccount}
    requires forall n :: n in plan.clear && n !in plan.put ==> n !in after
    ensures OciTenancyOcid !in after && OciUserOcid !in after && OciRegion !in after && OciFingerprint !in after
    ensures OciKeyFile !in after && OciPassPhrase !in after && OciUseInstancePrincipals !in after
  {
    hide SetOf;
    OciWifListed(OciTenancyOcid);
    OciWifListed(OciUserOcid);
    OciWifListed(OciRegion);
    OciWifListed(OciFingerprint);
    OciWifListed(OciKeyFile);
    OciWifListed(OciPassPhrase);
    OciWifListed(OciUseInstancePrincipals);
  }

  lemma OciWifListed(n: Name)
    ensures n in SetOf(OCI_WIF_CLEAR) <==> (IsOciCli(n) || IsOciApiKeyVariable(n) || n.OciUseInstancePrincipals?)
  {
    OciCliListed(n);
    OciApiKeyListed(n);
    hide IsOciCli, IsOciApiKeyVariable;
    ThreeLists(OCI_COMPETING_CREDENTIAL_ENV, OCI_API_KEY_VAR_ENV, OCI_AUTH_MODE_VAR_ENV, n);
  }

  lemma OciKeyListed(n: Name)
    ensures n in SetOf(OCI_API_KEY_CLEAR)
            <==> (IsOciCli(n) || n.OciAccessCfgFileAccount? || n.OciSecurityTokenFile? || n.OciUseInstancePrincipals?)
  {
    OciCliListed(n);
    hide IsOciCli;
    ThreeLists(OCI_COMPETING_CREDENTIAL_ENV, OCI_WIF_VAR_ENV, OCI_AUTH_MODE_VAR_ENV, n);
  }

  lemma ThreeLists(a: seq<Name>, b: seq<Name>, c: seq<Name>, n: Name)
    ensures n in SetOf(a + b + c) <==> n in a || n in b || n in c
  {
  }

  lemma OciCliListed(n: Name)
    ensures n in OCI_COMPETING_CREDENTIAL_ENV <==> IsOciCli(n)
  {
  }

  lemma OciApiKeyListed(n: Name)
    ensures n in OCI_API_KEY_VAR_ENV <==> IsOciApiKeyVariable(n)
  {
  }

  predicate IsOciCli(n: Name) {
    || n.OciCliConfigFile? || n.OciCliProfile? || n.OciCliAuth? || n.OciCliTenancy?
    || n.OciCliUser? || n.OciCliFingerprint? || n.OciCliKeyFile? || n.OciCliRegion?
  }

  predicate IsOciApiKeyVariable(n: Name) {
    n.OciTenancyOcid? || n.OciUserOcid? || n.OciRegion? || n.OciFingerprint? || n.OciKeyFile? || n.OciPassPhrase?
  }

  /** Every variable of the provider, as packer's plugins know it. */
  predicate IsOci(n: Name) {
    || IsOciCli(n) || IsOciApiKeyVariable(n)
    || n.OciAccessCfgFile? || n.OciAccessCfgFileAccount? || n.OciSecurityTokenFile? || n.OciUseInstancePrincipals?
  }

  predicate IsArm(n: Name) {
    || n.ArmClientSecret? || n.ArmClientJwt? || n.ArmClientCertPath? || n.ArmTenantId? || n.ArmClientId? || n.ArmOidcRequestUrl?
    || n.ArmOidcRequestToken? || n.ArmUseAzureCliAuth? || n.ArmUseInteractiveAuth? || n.ArmSubscriptionId? || n.ArmMetadataUrl?
  }

  predicate IsAws(n: Name) {
    || n.AwsAccessKeyId? || n.AwsSecretAccessKey? || n.AwsSessionToken? || n.AwsProfile? || n.AwsSharedCredentialsFile?
    || n.AwsWebIdentityTokenFile? || n.AwsRoleArn? || n.AwsRoleSessionName? || n.AwsRegion?
  }

  // ── What is left to history ──────────────────────────────────────────────────

  /**
   A completed AWS run decides every variable the handler names, but for the session name of the static branch, and for
   its region when neither the input nor the connection names one.
   */
  lemma AwsDecides(r: AwsRequest, n: Name)
    requires AwsOutcome(r).ok
    ensures n in Determined(AwsOutcome(r).plan)
            <==> IsAws(n) && (SchemeOf(r.scheme).Static? ==>
                                && n != AwsRoleSessionName
                                && (n == AwsRegion ==> FirstPresent(r.regionInput, r.regionField).Some?))
  {
    hide IsIdentity, IsSecret, Present, FirstPresent, AwsSessionName, SetOf, SchemeOf;
    AwsLists(n);
  }

  /** A completed Azure run decides every variable the handler names, under every scheme. */
  lemma AzureDecides(r: AzureRequest, n: Name)
    requires AzureOutcome(r).ok
    ensures n in Determined(AzureOutcome(r).plan) <==> IsArm(n)
  {
    hide IsIdentityChar, IsIdentity, MapAuthorizationScheme, Multiline, SetOf;
    AzureInputs(r);
    ArmLists(n);
    SetOfOne(n, ArmSubscriptionId);
  }

  /** A completed OCI run decides every variable the handler names, but for the passphrase with a key, and an unread one with federation. */
  lemma OciDecides(r: OciRequest, n: Name)
    requires OciOutcome(r).ok
    ensures n in Determined(OciOutcome(r).plan)
            <==> IsOci(n) && n != (if SchemeOf(r.scheme).Static? then OciPassPhrase else OciSecurityTokenFile)
  {
    hide OciKeyFieldsValid, OciWifReady, Present, FirstPresent, SetOf, SchemeOf, KeyIsMaskable, OciConfig;
    OciWifListed(n);
    OciKeyListed(n);
  }

  /** What `IDENTITY_FIELD_PATTERN` keeps out: a value can never start a line of its own. */
  lemma IdentityHasNoBreak(v: Option<string>)
    requires IsIdentity(v)
    ensures '\n' !in v.value && '\r' !in v.value
  {
    assert !IsIdentityChar('\n') && !IsIdentityChar('\r');
    hide IsIdentityChar;
  }

  /** The file is its six lines and an empty one, each read back under its own key. */
  lemma ConfigReadsBack(tenancy: string, region: string, keyFile: string, fingerprint: string, tokenFile: string)
    requires forall s :: s in [tenancy, region, keyFile, fingerprint, tokenFile] ==> '\n' !in s
    ensures var lines := Split(Join(OciConfigLines(tenancy, region, keyFile, fingerprint, tokenFile), "\n") + "\n", '\n');
      && lines == OciConfigLines(tenancy, region, keyFile, fingerprint, tokenFile) + [""]
      && IniValue(lines, "tenancy") == Some(tenancy) && IniValue(lines, "region") == Some(region)
      && IniValue(lines, "key_file") == Some(keyFile) && IniValue(lines, "fingerprint") == Some(fingerprint)
      && IniValue(lines, "security_token_file") == Some(tokenFile) && IniValue(lines, "user") == None
  {
    var lines := OciConfigLines(tenancy, region, keyFile, fingerprint, tokenFile);
    assert tenancy in [tenancy, region, keyFile, fingerprint, tokenFile] && region in [tenancy, region, keyFile, fingerprint, tokenFile]
        && keyFile in [tenancy, region, keyFile, fingerprint, tokenFile] && fingerprint in [tenancy, region, keyFile, fingerprint, tokenFile]
        && tokenFile in [tenancy, region, keyFile, fingerprint, tokenFile];
    assert forall k :: 0 <= k < |lines + [""]| ==> '\n' !in (lines + [""])[k];
    KeysAreDistinct(tenancy, region, keyFile, fingerprint, tokenFile);
    SplitsBack(lines);
  }

  lemma SplitsBack(lines: seq<string>)
    requires lines != [] && forall k :: 0 <= k < |lines + [""]| ==> '\n' !in (lines + [""])[k]
    ensures Split(Join(lines, "\n") + "\n", '\n') == lines + [""]
  {
    JoinAppend(lines, [""], '\n');
    SplitJoin(lines + [""], '\n');
    assert Join([""], ['\n']) == "";
    assert Join(lines, "\n") + "\n" == Join(lines + [""], ['\n']);
  }

  lemma KeysAreDistinct(tenancy: string, region: string, keyFile: string, fingerprint: string, tokenFile: string)
    ensures var lines := OciConfigLines(tenancy, region, keyFile, fingerprint, tokenFile) + [""];
      && IniValue(lines, "tenancy") == Some(tenancy) && IniValue(lines, "region") == Some(region)
      && IniValue(lines, "key_file") == Some(keyFile) && IniValue(lines, "fingerprint") == Some(fingerprint)
      && IniValue(lines, "security_token_file") == Some(tokenFile) && IniValue(lines, "user") == None
  {
    var lines := OciConfigLines(tenancy, region, keyFile, fingerprint, tokenFile) + [""];
    Reads(lines, 1, "tenancy", tenancy);
    Reads(lines, 2, "region", region);
    Reads(lines, 3, "key_file", keyFile);
    Reads(lines, 4, "fingerprint", fingerprint);
    Reads(lines, 5, "security_token_file", tokenFile);
    ReadsNone(lines, "user");
  }

  /** A key is read from the first line whose first character is the key's. */
  lemma {:induction false} Reads(lines: seq<string>, k: nat, key: string, value: string)
    requires k < |lines| && key != "" && lines[k] == key + "=" + value
    requires forall j :: 0 <= j < k ==> lines[j] == "" || lines[j][0] != key[0]
    ensures IniValue(lines, key) == Some(value)
  {
    if k > 0 {
      assert !StartsWith(lines[0], key + "=") by { assert (key + "=")[0] == key[0]; }
      Reads(lines[1..], k - 1, key, value);
    }
  }

  lemma {:induction false} ReadsNone(lines: seq<string>, key: string)
    requires key != "" && forall j :: 0 <= j < |lines| ==> lines[j] == "" || lines[j][0] != key[0]
    ensures IniValue(lines, key) == None
  {
    if lines != [] {
      assert !StartsWith(lines[0], key + "=") by { assert (key + "=")[0] == key[0]; }
      ReadsNone(lines[1..], key);
    }
  }
}
