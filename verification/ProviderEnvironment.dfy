/**
 The process environment a provider handler prepares for packer (`credential-guards.ts`, and the
 external `EnvironmentVariableHelper`). A handler clears some variables and writes others.
 */
module ProviderEnvironment {
  import opened JsText

  /** The variables the handlers name; any other variable is an `OtherVariable`. */
  datatype Name =
    | AwsAccessKeyId | AwsSecretAccessKey | AwsSessionToken | AwsProfile | AwsSharedCredentialsFile
    | AwsWebIdentityTokenFile | AwsRoleArn | AwsRoleSessionName | AwsRegion
    | ArmClientSecret | ArmClientJwt | ArmClientCertPath | ArmTenantId | ArmClientId | ArmOidcRequestUrl
    | ArmOidcRequestToken | ArmUseAzureCliAuth | ArmUseInteractiveAuth | ArmSubscriptionId | ArmMetadataUrl
    | OciCliConfigFile | OciCliProfile | OciCliAuth | OciCliTenancy | OciCliUser | OciCliFingerprint
    | OciCliKeyFile | OciCliRegion
    | OciTenancyOcid | OciUserOcid | OciRegion | OciFingerprint | OciKeyFile | OciPassPhrase
    | OciAccessCfgFile | OciAccessCfgFileAccount | OciSecurityTokenFile | OciUseInstancePrincipals
    | OtherVariable(name: string)

  type Environment = map<Name, string>

  function Get(env: Environment, n: Name): Option<string> {
    if n in env then Some(env[n]) else None
  }

  /** Set to something: an empty value counts as unset for every consumer. */
  predicate IsSet(env: Environment, n: Name) { n in env && env[n] != "" }

  function SetOf(names: seq<Name>): (r: set<Name>) { set n | n in names }

  /** What a handler does to the environment: the names it clears and the values it writes afterwards. */
  datatype Plan = Plan(clear: set<Name>, put: Environment)

  /** One handler run, made from the connection and the replies alone: its plan, and whether it completed. */
  datatype Outcome = Outcome(plan: Plan, ok: bool)

  const NOTHING := Plan({}, map[])
  const REFUSED := Outcome(NOTHING, false)

  function Apply(env: Environment, plan: Plan): Environment { (env - plan.clear) + plan.put }

  /** The names whose final value the plan decides. */
  function Determined(plan: Plan): set<Name> { plan.clear + plan.put.Keys }

  /**
   A variable ends with the same value from every starting environment exactly when the plan clears or
   writes it, and every other variable keeps the value it had.
   */
  lemma HistoryIndependentExactly(plan: Plan, n: Name)
    ensures (forall e: Environment, e': Environment :: Get(Apply(e, plan), n) == Get(Apply(e', plan), n)) <==> n in Determined(plan)
    ensures n !in Determined(plan) ==> forall e: Environment :: Get(Apply(e, plan), n) == Get(e, n)
  {
    if n !in Determined(plan) {
      var e: Environment := map[];
      var e': Environment := map[n := ""];
      assert Get(Apply(e, plan), n) == None;
      assert Get(Apply(e', plan), n) == Some("");
    }
  }

  /** The final value of one variable. */
  function Final(env: Environment, plan: Plan, n: Name): Option<string> {
    if n in plan.put then Some(plan.put[n]) else if n in plan.clear then None else Get(env, n)
  }

  lemma FinalValue(env: Environment, plan: Plan, n: Name)
    ensures Get(Apply(env, plan), n) == Final(env, plan, n)
    ensures IsSet(Apply(env, plan), n) <==> Final(env, plan, n).Some? && Final(env, plan, n).value != ""
  {
  }

  /** Clearing some names after a plan, and writing one. */
  function Clearing(plan: Plan, names: set<Name>): Plan { Plan(plan.clear + names, plan.put - names) }

  function Writing(plan: Plan, n: Name, value: string): Plan { Plan(plan.clear, plan.put[n := value]) }

  lemma StepsFollowThePlan(env: Environment, plan: Plan, names: set<Name>, n: Name, value: string)
    ensures Apply(env, Clearing(plan, names)) == Apply(env, plan) - names
    ensures Apply(env, Writing(plan, n, value)) == Apply(env, plan)[n := value]
  {
  }

  lemma FirstClearing(names: set<Name>)
    ensures Clearing(NOTHING, names) == Plan(names, map[])
  {
    assert NOTHING.put - names == map[];
  }

  /**
   A handler at work on the process environment. `inherited` is the environment it started from and
   `plan` what it has done to it; `Valid` ties the two to the variables as they are now.
   */
  class ProviderHandler {
    ghost const inherited: Environment
    ghost var plan: Plan
    var variables: Environment
    var tracked: set<Name>
    var warned: set<Name>
    var providerVarArgs: seq<string>
    var files: map<string, string>

    /** Everything written is tracked for the final clearing; every inherited value removed is warned of. */
    ghost predicate Valid()
      reads this
    {
      variables == Apply(inherited, plan) && plan.put.Keys <= tracked && plan.clear * inherited.Keys <= warned
    }

    constructor (environment: Environment)
      ensures Valid() && inherited == environment == variables && plan == NOTHING
      ensures tracked == {} && warned == {} && providerVarArgs == [] && files == map[]
    {
      inherited, plan, variables := environment, NOTHING, environment;
      tracked, warned, providerVarArgs, files := {}, {}, [], map[];
    }

    /** The external helper: an empty value is skipped, or refused when the variable is required. */
    method SetEnvironmentVariable(n: Name, value: string, required: bool) returns (ok: bool)
      requires Valid()
      modifies this`variables, this`tracked, this`plan
      ensures Valid()
      ensures ok == (value != "" || !required)
      ensures plan == (if value != "" then Writing(old(plan), n, value) else old(plan))
      ensures variables == (if value != "" then old(variables)[n := value] else old(variables))
      ensures tracked == (if value != "" then old(tracked) + {n} else old(tracked))
    {
      if value == "" { return !required; }
      StepsFollowThePlan(inherited, plan, {}, n, value);
      variables := variables[n := value];
      tracked := tracked + {n};
      plan := Writing(plan, n, value);
      return true;
    }

    /** `neutralizeEnvironmentVariables`: each name that is there is deleted, with a warning. */
    method NeutralizeEnvironmentVariables(names: seq<Name>)
      requires Valid()
      modifies this`variables, this`warned, this`plan
      ensures Valid()
      ensures plan == Clearing(old(plan), SetOf(names))
      ensures variables == old(variables) - SetOf(names)
      ensures warned == old(warned) + SetOf(names) * old(variables).Keys
    {
      var i := 0;
      while i < |names|
        invariant i <= |names|
        invariant plan == old(plan)
        invariant variables == old(variables) - SetOf(names[..i])
        invariant warned == old(warned) + SetOf(names[..i]) * old(variables).Keys
      {
        assert names[..i + 1] == names[..i] + [names[i]];
        assert SetOf(names[..i + 1]) == SetOf(names[..i]) + {names[i]};
        if names[i] in variables {
          variables := variables - {names[i]};
          warned := warned + {names[i]};
        }
        i := i + 1;
      }
      assert names[..i] == names;
      StepsFollowThePlan(inherited, plan, SetOf(names), AwsRegion, "");
      plan := Clearing(plan, SetOf(names));
    }
  }
}
