/**
 When a provider's credentials are accepted, field by field, and which of two sources of a value wins
 (`credential-guards.ts`, `aws-packer-command-handler.ts`, `azure-packer-command-handler.ts`, `oci-packer-command-handler.ts`).
 */
module CredentialGuards {
  import opened JsText
  import opened ProviderEnvironment
  import opened ProviderCredentials
  import RoleSessionName

  // ── The grammars ─────────────────────────────────────────────────────────────

  predicate OnlyOf(s: string, permitted: char -> bool) { forall k :: 0 <= k < |s| ==> permitted(s[k]) }

  function LowerDigits(others: string): char -> bool { c => 'a' <= c <= 'z' || '0' <= c <= '9' || c in others }

  /** An OCID is `ocid1`, a resource type and the rest, with a dot after each of the first two. */
  lemma OcidIsExact(s: string)
    ensures IsOcid(s) <==> exists kind, tail ::
      s == "ocid1." + kind + "." + tail && kind != "" && OnlyOf(kind, LowerDigits("_")) && OnlyOf(tail, LowerDigits("._-"))
  {
    hide IsTypeAndTail;
    if IsOcid(s) {
      assert s == "ocid1." + s[6..];
      var kind, tail := TypeIsRead(s[6..], false);
      assert s == "ocid1." + kind + "." + tail;
    }
    if kind, tail :| s == "ocid1." + kind + "." + tail && kind != "" && OnlyOf(kind, LowerDigits("_")) && OnlyOf(tail, LowerDigits("._-")) {
      TypeIsAccepted(kind, tail, false);
      assert s[6..] == kind + "." + tail;
    }
  }

  lemma {:induction false} TypeIsRead(s: string, seen: bool) returns (kind: string, tail: string)
    requires IsTypeAndTail(s, seen)
    ensures s == kind + "." + tail && (kind != "" || seen) && OnlyOf(kind, LowerDigits("_")) && OnlyOf(tail, LowerDigits("._-"))
    decreases |s|
  {
    if s[0] == '.' {
      kind, tail := "", s[1..];
      assert s == "" + "." + tail;
    } else {
      var more;
      more, tail := TypeIsRead(s[1..], true);
      kind := [s[0]] + more;
      assert s == [s[0]] + s[1..] && s == kind + "." + tail;
    }
  }

  lemma {:induction false} TypeIsAccepted(kind: string, tail: string, seen: bool)
    requires (kind != "" || seen) && OnlyOf(kind, LowerDigits("_")) && OnlyOf(tail, LowerDigits("._-"))
    ensures IsTypeAndTail(kind + "." + tail, seen)
    decreases |kind|
  {
    var s := kind + "." + tail;
    if kind == "" {
      assert s[1..] == tail;
    } else {
      assert s[0] == kind[0] && s[1..] == kind[1..] + "." + tail;
      TypeIsAccepted(kind[1..], tail, true);
    }
  }

  lemma TenancyOcidIsExact(s: string)
    ensures IsTenancyOcid(s) <==> exists tail :: s == "ocid1.tenancy." + tail && tail != "" && OnlyOf(tail, LowerDigits(".-"))
  {
    if IsTenancyOcid(s) {
      assert s == "ocid1.tenancy." + s[14..];
      assert forall k :: 0 <= k < |s[14..]| ==> s[14..][k] == s[14 + k];
    }
    if tail :| s == "ocid1.tenancy." + tail && tail != "" && OnlyOf(tail, LowerDigits(".-")) {
      assert forall k :: 14 <= k < |s| ==> s[k] == tail[k - 14];
    }
  }

  predicate IsHexPair(p: string) { |p| == 2 && IsHex(p[0]) && IsHex(p[1]) }

  predicate PairsAt(s: string, n: nat) { |s| == 3 * n - 1 && forall k :: 0 <= k < |s| ==> if k % 3 == 2 then s[k] == ':' else IsHex(s[k]) }

  /** A fingerprint is sixteen pairs of hexadecimal digits with colons between them. */
  lemma FingerprintIsExact(s: string)
    ensures IsFingerprint(s) <==> exists pairs: seq<string> :: |pairs| == 16 && (forall k :: 0 <= k < 16 ==> IsHexPair(pairs[k])) && s == Join(pairs, ":")
  {
    assert IsFingerprint(s) <==> PairsAt(s, 16);
    if PairsAt(s, 16) { var pairs := PairsAreRead(s, 16); }
    if pairs: seq<string> :| |pairs| == 16 && (forall k :: 0 <= k < 16 ==> IsHexPair(pairs[k])) && s == Join(pairs, ":") { PairsAreJoined(pairs); }
  }

  lemma {:induction false} PairsAreRead(s: string, n: nat) returns (pairs: seq<string>)
    requires n > 0 && PairsAt(s, n)
    ensures |pairs| == n && (forall k :: 0 <= k < n ==> IsHexPair(pairs[k])) && s == Join(pairs, ":")
    decreases n
  {
    hide IsHex;
    if n == 1 {
      pairs := [s];
    } else {
      var rest := s[3..];
      forall k | 0 <= k < |rest| ensures if k % 3 == 2 then rest[k] == ':' else IsHex(rest[k]) { assert rest[k] == s[k + 3] && (k + 3) % 3 == k % 3; }
      var more := PairsAreRead(rest, n - 1);
      pairs := [s[..2]] + more;
      assert pairs[1..] == more && s[2] == ':';
      assert s == s[..2] + ":" + rest;
    }
  }

  lemma {:induction false} PairsAreJoined(pairs: seq<string>)
    requires pairs != [] && forall k :: 0 <= k < |pairs| ==> IsHexPair(pairs[k])
    ensures PairsAt(Join(pairs, ":"), |pairs|)
  {
    hide IsHex;
    if |pairs| > 1 {
      PairsAreJoined(pairs[1..]);
      var s, rest := Join(pairs, ":"), Join(pairs[1..], ":");
      assert s == pairs[0] + ":" + rest;
      forall k | 0 <= k < |s| ensures if k % 3 == 2 then s[k] == ':' else IsHex(s[k]) {
        if k >= 3 { assert s[k] == rest[k - 3] && (k - 3) % 3 == k % 3; }
      }
    }
  }

  // ── Fields ───────────────────────────────────────────────────────────────────

  /** There, not empty, and of the permitted characters only. */
  predicate Identifies(v: Option<string>) {
    && v.Some? && v.value != ""
    && OnlyOf(v.value, c => 'A' <= c <= 'Z' || 'a' <= c <= 'z' || '0' <= c <= '9' || c in "._:@/=+-")
  }

  predicate IsGiven(v: Option<string>) { v.Some? && v.value != "" }

  predicate OneLine(v: Option<string>) { v.Some? && '\r' !in v.value && '\n' !in v.value }

  lemma IdentifiesIsIdentity(v: Option<string>)
    ensures Identifies(v) <==> IsIdentity(v)
    ensures Identifies(v) ==> v.Some? && v.value != ""
  {
  }

  /** The first source that gives a value, if any does. */
  function Preferred(first: Option<string>, second: Option<string>): Option<string> {
    if IsGiven(first) then first else if IsGiven(second) then second else None
  }

  /** An explicit session name is taken trimmed, if it is 2 to 64 permitted characters, and refused otherwise; none is derived then. */
  lemma ExplicitNameWins(explicit: Option<string>, prefix: string, project: Option<string>, buildId: Option<string>)
    ensures var r := RoleSessionName.ResolveRoleSessionName(explicit, prefix, project, buildId);
      if explicit.Some? && Trim(explicit.value) != ""
      then (r.Some? <==> 2 <= |Trim(explicit.value)| <= 64 && OnlyOf(Trim(explicit.value), c => IsWord(c) || c in "+=,.@-"))
           && (r.Some? ==> r.value == Trim(explicit.value))
      else r.Some? && r == RoleSessionName.ResolveRoleSessionName(None, prefix, project, buildId)
  {
    hide Trim, RoleSessionName.Derived, RoleSessionName.Bounded;
    if explicit.Some? { hide IsWord; }
  }

  /** Without an explicit name, the AWS session is named after the build: its id stands after the last hyphen. */
  lemma AwsSessionNamesTheBuild(r: AwsRequest)
    requires r.sessionName.None? || Trim(r.sessionName.value) == ""
    requires r.buildId.Some? && RoleSessionName.IsBuildId(r.buildId.value) && |r.buildId.value| <= 64
    ensures AwsSessionName(r).Some? && RoleSessionName.AfterLastHyphen(AwsSessionName(r).value) == r.buildId.value
  {
    hide Trim, RoleSessionName.Derived, RoleSessionName.Bounded, RoleSessionName.AfterLastHyphen, RoleSessionName.IsBuildId;
    assert RoleSessionName.GoodPrefix(AWS_SESSION_PREFIX);
    RoleSessionName.DerivedNameIsValid(AWS_SESSION_PREFIX, r.project, r.buildId);
    RoleSessionName.BuildIdSurvives(AWS_SESSION_PREFIX, r.project, r.buildId.value);
  }

  // ── When a run completes ─────────────────────────────────────────────────────

  lemma AwsCompletesExactly(r: AwsRequest)
    ensures AwsOutcome(r).ok <==>
      && IsGiven(r.connection)
      && if !IsGiven(r.scheme) || r.scheme.value == "ServiceConnection" then
           && Identifies(r.username) && IsGiven(r.password) && OneLine(r.password)
           && (Preferred(r.regionInput, r.regionField).Some? ==> Identifies(Preferred(r.regionInput, r.regionField)))
         else
           && r.scheme.value == "WorkloadIdentityFederation"
           && Identifies(r.roleArn) && IsGiven(r.tokenFile) && Identifies(r.regionInput)
           && (r.sessionName.Some? && Trim(r.sessionName.value) != "" ==> RoleSessionName.IsSessionName(Trim(r.sessionName.value)))
  {
    hide IsIdentity, Identifies, Trim, RoleSessionName.Derived, RoleSessionName.Bounded, RoleSessionName.IsSessionName, SetOf;
    IdentifiesIsIdentity(r.username);
    IdentifiesIsIdentity(r.regionInput);
    IdentifiesIsIdentity(r.regionField);
    IdentifiesIsIdentity(r.roleArn);
  }

  lemma AzureCompletesExactly(r: AzureRequest)
    ensures AzureOutcome(r).ok <==>
      && IsGiven(r.connection) && IsGiven(r.scheme)
      && (Preferred(r.subscriptionInput, r.subscriptionField).Some? ==> Identifies(Preferred(r.subscriptionInput, r.subscriptionField)))
      && var ids := Identifies(r.principalId) && Identifies(r.tenantId) && r.declares;
         || Lower(r.scheme.value) == "managedserviceidentity"
         || (Lower(r.scheme.value) == "workloadidentityfederation" && ids && IsGiven(r.token) && OneLine(r.token))
         || (Lower(r.scheme.value) == "serviceprincipal" && ids && IsGiven(r.principalKey) && OneLine(r.principalKey))
  {
    hide IsIdentity, Identifies, Lower, SetOf;
    IdentifiesIsIdentity(r.subscriptionInput);
    IdentifiesIsIdentity(r.subscriptionField);
    IdentifiesIsIdentity(r.principalId);
    IdentifiesIsIdentity(r.tenantId);
    SchemesDiffer();
  }

  lemma SchemesDiffer()
    ensures "managedserviceidentity" != "workloadidentityfederation" && "managedserviceidentity" != "serviceprincipal" && "workloadidentityfederation" != "serviceprincipal"
  {
    assert |"managedserviceidentity"| == 22 && |"serviceprincipal"| == 16 && |"workloadidentityfederation"| == 26;
  }

  lemma OciCompletesExactly(r: OciRequest)
    ensures OciOutcome(r).ok <==>
      && IsGiven(r.connection)
      && if !IsGiven(r.scheme) || r.scheme.value == "ServiceConnection" then
           && (IsGiven(r.authKey) || IsGiven(r.dataKey)) && KeyIsMaskable(r.normalizedKey) && r.keyFile.Some?
           && Identifies(r.tenancy) && IsOcid(r.tenancy.value) && Identifies(r.user) && IsOcid(r.user.value)
           && Identifies(r.region) && IsOciRegion(r.region.value) && Identifies(r.fingerprint) && IsFingerprint(r.fingerprint.value)
         else
           && r.scheme.value == "WorkloadIdentityFederation"
           && Identifies(r.domain) && r.domainIsValid && Identifies(r.clientId)
           && Identifies(r.wifTenancy) && IsTenancyOcid(r.wifTenancy.value) && Identifies(r.wifRegion) && IsOciRegion(r.wifRegion.value)
           && OneLine(r.token) && OneLine(r.upst)
           && r.wifKeyFile.Some? && r.wifTokenFile.Some? && r.wifConfigFile.Some?
  {
    hide IsIdentity, Identifies, SetOf, KeyIsMaskable, IsOcid, IsTenancyOcid, IsOciRegion, IsFingerprint, OciConfig;
    IdentifiesIsIdentity(r.tenancy);
    IdentifiesIsIdentity(r.user);
    IdentifiesIsIdentity(r.region);
    IdentifiesIsIdentity(r.fingerprint);
    IdentifiesIsIdentity(r.domain);
    IdentifiesIsIdentity(r.clientId);
    IdentifiesIsIdentity(r.wifTenancy);
    IdentifiesIsIdentity(r.wifRegion);
  }

  // ── What a run that fails has done by then ───────────────────────────────────

  /** The value a plan writes to a variable, if it writes one. */
  predicate Puts(plan: Plan, n: Name, value: Option<string>) { n in plan.put && value == Some(plan.put[n]) }

  /** How far a static AWS run gets: the clearing and both keys together, or nothing; then the region. */
  lemma AwsStaticGetsExactlySoFar(r: AwsRequest)
    requires SchemeOf(r.scheme).Static?
    ensures var plan := AwsOutcome(r).plan;
      var checked := IsGiven(r.connection) && Identifies(r.username) && IsGiven(r.password) && OneLine(r.password);
      && (checked ==> plan.clear == SetOf(AWS_FEDERATED_CREDENTIAL_ENV) && Puts(plan, AwsAccessKeyId, r.username) && Puts(plan, AwsSecretAccessKey, r.password))
      && (!checked ==> plan == NOTHING)
      && (Puts(plan, AwsRegion, Preferred(r.regionInput, r.regionField)) <==> checked && Identifies(Preferred(r.regionInput, r.regionField)))
      && plan.put.Keys <= {AwsAccessKeyId, AwsSecretAccessKey, AwsRegion}
  {
    hide IsIdentity, Identifies, SetOf;
    IdentifiesIsIdentity(r.username);
    IdentifiesIsIdentity(Preferred(r.regionInput, r.regionField));
    NothingIdentifies();
  }

  lemma NothingIdentifies()
    ensures !Identifies(None)
  {
  }

  /** A federated AWS run writes each variable exactly when all before it were written and its own value is accepted. */
  lemma AwsFederatedGetsExactlySoFar(r: AwsRequest)
    requires SchemeOf(r.scheme).Federated?
    ensures var plan := AwsOutcome(r).plan;
      var begun := IsGiven(r.connection) && r.tokenFile.Some?;
      var role := begun && Identifies(r.roleArn);
      var token := role && r.tokenFile.value != "";
      var region := token && Identifies(r.regionInput);
      && (begun ==> plan.clear == SetOf(AWS_STATIC_CREDENTIAL_ENV)) && (!begun ==> plan == NOTHING)
      && (if role then Puts(plan, AwsRoleArn, r.roleArn) else AwsRoleArn !in plan.put)
      && (if token then Puts(plan, AwsWebIdentityTokenFile, r.tokenFile) else AwsWebIdentityTokenFile !in plan.put)
      && (if region then Puts(plan, AwsRegion, r.regionInput) else AwsRegion !in plan.put)
      && (if AwsOutcome(r).ok then Puts(plan, AwsRoleSessionName, AwsSessionName(r)) else AwsRoleSessionName !in plan.put)
      && plan.put.Keys <= {AwsRoleArn, AwsWebIdentityTokenFile, AwsRegion, AwsRoleSessionName}
  {
    hide IsIdentity, Identifies, SetOf, AwsSessionName;
    IdentifiesIsIdentity(r.roleArn);
    IdentifiesIsIdentity(r.regionInput);
  }

  /** An Azure run: the subscription and the clearing all schemes share, then all of a scheme's values, but for an assertion that is empty. */
  lemma AzureGetsExactlySoFar(r: AzureRequest)
    ensures var plan, subscription, federated := AzureOutcome(r).plan, Preferred(r.subscriptionInput, r.subscriptionField),
                IsGiven(r.scheme) && Lower(r.scheme.value) == "workloadidentityfederation";
      var principal := IsGiven(r.scheme) && Lower(r.scheme.value) == "serviceprincipal";
      var begun :=
        && IsGiven(r.connection) && IsGiven(r.scheme) && (federated || principal || Lower(r.scheme.value) == "managedserviceidentity")
        && (subscription.Some? ==> Identifies(subscription));
      var ids := begun && Identifies(r.principalId) && Identifies(r.tenantId) && r.declares
                 && ((federated && OneLine(r.token)) || (principal && IsGiven(r.principalKey) && OneLine(r.principalKey)));
      && (begun ==> SetOf(ARM_WHOLESALE_CLEAR) <= plan.clear) && (!begun ==> plan == NOTHING)
      && (if begun && subscription.Some? then Puts(plan, ArmSubscriptionId, subscription) else ArmSubscriptionId !in plan.put)
      && (if ids then Puts(plan, ArmClientId, r.principalId) && Puts(plan, ArmTenantId, r.tenantId)
          else ArmClientId !in plan.put && ArmTenantId !in plan.put)
      && (if ids && federated && r.token.value != "" then Puts(plan, ArmClientJwt, r.token) else ArmClientJwt !in plan.put)
      && (if ids && principal then Puts(plan, ArmClientSecret, r.principalKey) else ArmClientSecret !in plan.put)
      && plan.put.Keys <= {ArmSubscriptionId, ArmClientId, ArmTenantId, ArmClientJwt, ArmClientSecret}
  {
    hide IsIdentity, Identifies, Lower, SetOf;
    IdentifiesIsIdentity(Preferred(r.subscriptionInput, r.subscriptionField));
    IdentifiesIsIdentity(r.principalId);
    IdentifiesIsIdentity(r.tenantId);
    SchemesDiffer();
    NothingIdentifies();
  }

  /** An OCI run that fails has left the environment alone and given packer nothing. */
  lemma OciFailsCleanly(r: OciRequest)
    requires !OciOutcome(r).ok
    ensures OciOutcome(r).plan == NOTHING && OciVarArgs(r) == []
  {
    hide OciKeyFieldsValid, KeyIsMaskable, OciWifInputsValid, SetOf, OciConfig;
  }

  /** Of the lines of the key as written, one that keeps a carriage return inside stops the masker, boundaries aside. */
  lemma KeyIsMaskableExactly(key: string)
    ensures KeyIsMaskable(key) <==> !KeyHasReturn(Split(key, '\n'))
  {
    hide Trim, Split, KeySecrets;
    var lines := Split(key, '\n');
    forall t | t in KeySecrets(lines) && !KeyHasReturn(lines) ensures !Multiline(t) {
      var k := KeySecretIsLine(lines, t);
      TrimKeepsOut(lines[k], '\n');
    }
    if KeyHasReturn(lines) {
      var k :| 0 <= k < |lines| && !("-----" <= Trim(lines[k])) && '\r' in Trim(lines[k]);
      KeyLineIsRegistered(lines, k);
      assert Multiline(Trim(lines[k]));
    }
  }

  predicate KeyHasReturn(lines: seq<string>) { exists k :: 0 <= k < |lines| && !("-----" <= Trim(lines[k])) && '\r' in Trim(lines[k]) }

  lemma TrimKeepsOut(s: string, c: char)
    requires c !in s
    ensures c !in Trim(s)
  {
    var left, right := TrimTakesSpace(s);
    hide Trim;
    assert forall k :: 0 <= k < |Trim(s)| ==> s[|left| + k] == Trim(s)[k];
  }

  lemma {:induction false} KeySecretIsLine(lines: seq<string>, t: string) returns (k: nat)
    requires t in KeySecrets(lines)
    ensures k < |lines| && Trim(lines[k]) == t && t != "" && !("-----" <= t)
  {
    hide Trim;
    if KeySecretOf(lines[0]) == Some(t) {
      k := 0;
    } else {
      var j := KeySecretIsLine(lines[1..], t);
      k := j + 1;
    }
  }

  lemma OciRegionIsExact(s: string)
    ensures IsOciRegion(s) <==> s != "" && OnlyOf(s, LowerDigits("-"))
  {
  }

  // ── Which value wins ─────────────────────────────────────────────────────────

  /** The subscription a completed Azure run leaves is the input's, else the connection's, else none, from any environment. */
  lemma AzureSubscriptionIsTheInputs(env: Environment, r: AzureRequest)
    requires AzureOutcome(r).ok
    ensures Get(Apply(env, AzureOutcome(r).plan), ArmSubscriptionId) == Preferred(r.subscriptionInput, r.subscriptionField)
  {
    hide IsIdentity, MapAuthorizationScheme, Apply, Get, SetOf;
    FinalValue(env, AzureOutcome(r).plan, ArmSubscriptionId);
    SubscriptionIsListed();
  }

  lemma SubscriptionIsListed()
    ensures ArmSubscriptionId in SetOf([ArmSubscriptionId])
  {
    assert [ArmSubscriptionId][0] == ArmSubscriptionId;
  }

  /** The region a completed AWS run leaves: the input's, else on the static branch the connection's, else what was there. */
  lemma AwsRegionIsTheInputs(env: Environment, r: AwsRequest)
    requires AwsOutcome(r).ok
    ensures var region := if SchemeOf(r.scheme).Static? then Preferred(r.regionInput, r.regionField) else r.regionInput;
      Get(Apply(env, AwsOutcome(r).plan), AwsRegion) == if region.Some? then region else Get(env, AwsRegion)
  {
    hide IsIdentityChar, Apply, Get, SetOf, AwsSessionName, IsSecret;
    FinalValue(env, AwsOutcome(r).plan, AwsRegion);
    RegionIsNotListed();
    if SchemeOf(r.scheme).Static? {
      assert FirstPresent(r.regionInput, r.regionField) == Preferred(r.regionInput, r.regionField);
      assert AwsOutcome(r) == AwsStaticOutcome(r);
    } else {
      assert AwsOutcome(r) == AwsFederatedOutcome(r);
      assert AwsRegion in AwsFederatedOutcome(r).plan.put && AwsFederatedOutcome(r).plan.put[AwsRegion] == r.regionInput.value;
    }
  }

  lemma RegionIsNotListed()
    ensures AwsRegion !in SetOf(AWS_STATIC_CREDENTIAL_ENV) && AwsRegion !in SetOf(AWS_FEDERATED_CREDENTIAL_ENV)
  {
  }
}
