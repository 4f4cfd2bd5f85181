/** The configuration resolver: the environment name and its secret key, read from the
    process environment (after `.env` has been loaded into it). The environment is a
    parameter: a map from variable names to values, without the unset variables. */
module Environment {
  import opened Wrappers
  import opened Text
  import opened TestData

  type Env = map<string, string>

  /** `process.env[key] ?? fallback`. */
  function GetOr(env: Env, key: string, fallback: string): string {
    if key in env then env[key] else fallback
  }

  /** `(process.env.TEST_ENV ?? 'qa').toLowerCase()`. */
  function EnvName(env: Env): string {
    Lower(GetOr(env, "TEST_ENV", "qa"))
  }

  /** The variable the secret is read from: the QA one for `qa`, the CERT one for any
      other name. */
  function SecretVariable(name: string): string {
    if name == "qa" then "SECRET_KEY_QA" else "SECRET_KEY_CERT"
  }

  /** The error raised when the secret is unset or empty. It names the variable after
      the environment name, not the variable that was read. */
  function MissingSecretMessage(name: string): string {
    "SECRET_KEY_" + Upper(name) + NotDefined
  }

  const NotDefined := " is not defined in environment variables. Please check your .env file."

  /** `getEnvironmentConfig`. */
  function GetEnvironmentConfig(env: Env): (r: Result<TestConfig>)
    ensures r.Success? ==> r.value.environment == EnvName(env) && r.value.secretKey != ""
    ensures r.Failure? ==> r.error == MissingSecretMessage(EnvName(env))
  {
    var name := EnvName(env);
    var secretKey := GetOr(env, SecretVariable(name), "");
    if secretKey == "" then Failure(MissingSecretMessage(name))
    else Success(TestConfig(name, secretKey))
  }

  /** `getSecretKey`. */
  function GetSecretKey(env: Env): (r: Result<string>)
    ensures r.Failure? <==> GetEnvironmentConfig(env).Failure?
    ensures r.Failure? ==> r.error == GetEnvironmentConfig(env).error
    ensures r.Success? ==> r.value == GetEnvironmentConfig(env).value.secretKey
  {
    match GetEnvironmentConfig(env)
    case Success(config) => Success(config.secretKey)
    case Failure(e) => Failure(e)
  }

  /** `getEnvironmentName`. */
  function GetEnvironmentName(env: Env): (r: Result<string>)
    ensures r.Failure? <==> GetEnvironmentConfig(env).Failure?
    ensures r.Failure? ==> r.error == GetEnvironmentConfig(env).error
    ensures r.Success? ==> r.value == EnvName(env)
  {
    match GetEnvironmentConfig(env)
    case Success(config) => Success(config.environment)
    case Failure(e) => Failure(e)
  }

  // ---------------------------------------------------------------------------
  // Properties

  /** The configuration is resolved exactly when the selected secret is set and not
      empty, and then it holds the environment name and the secret verbatim. */
  lemma ConfigResolved(env: Env)
    ensures var v := SecretVariable(EnvName(env));
      && (GetEnvironmentConfig(env).Success? <==> v in env && env[v] != "")
      && (GetEnvironmentConfig(env).Success? ==>
            GetEnvironmentConfig(env).value == TestConfig(EnvName(env), env[v]))
  {
  }

  /** Without `TEST_ENV` the environment is `qa`; with it, the environment is its value
      in lower case, whatever that value is. */
  lemma EnvNameDefault(env: Env)
    ensures "TEST_ENV" !in env ==> EnvName(env) == "qa"
    ensures "TEST_ENV" in env ==> EnvName(env) == Lower(env["TEST_ENV"])
    ensures Lower(EnvName(env)) == EnvName(env)
  {
    var n := EnvName(env);
    if "TEST_ENV" !in env {
      assert Lower("qa") == "qa";
    }
    assert Lower(n) == n;
  }

  /** Only a `TEST_ENV` of `qa` in some mix of cases (or none at all) reads the QA
      secret; every other value, `cert`, the empty text and unknown names alike, reads
      the CERT secret. */
  lemma QaOnlyForQa(env: Env)
    ensures SecretVariable(EnvName(env)) == "SECRET_KEY_QA" <==>
      ("TEST_ENV" !in env || env["TEST_ENV"] in {"qa", "qA", "Qa", "QA"})
    ensures SecretVariable(EnvName(env)) != "SECRET_KEY_QA" ==>
      SecretVariable(EnvName(env)) == "SECRET_KEY_CERT"
  {
    EnvNameDefault(env);
    if "TEST_ENV" in env {
      var v := env["TEST_ENV"];
      LowerIsQa(v);
    }
  }

  /** The ASCII lower case of `v` is `qa` exactly when `v` is `qa` in some mix of cases. */
  lemma LowerIsQa(v: string)
    ensures Lower(v) == "qa" <==> v in {"qa", "qA", "Qa", "QA"}
  {
    if Lower(v) == "qa" {
      assert |v| == 2;
      assert LowerChar(v[0]) == 'q' && LowerChar(v[1]) == 'a';
      assert v[0] == 'q' || v[0] == 'Q';
      assert v[1] == 'a' || v[1] == 'A';
      assert v == [v[0], v[1]];
    }
    if v in {"qa", "qA", "Qa", "QA"} {
      assert Lower(v)[0] == 'q' && Lower(v)[1] == 'a';
      assert Lower(v) == "qa";
    }
  }

  /** The secret of the environment not selected does not matter, set or not. */
  lemma OtherSecretIrrelevant(env: Env, value: string)
    ensures var other := if SecretVariable(EnvName(env)) == "SECRET_KEY_QA" then "SECRET_KEY_CERT" else "SECRET_KEY_QA";
      GetEnvironmentConfig(env[other := value]) == GetEnvironmentConfig(env)
      && GetEnvironmentConfig(env - {other}) == GetEnvironmentConfig(env)
  {
    var other := if SecretVariable(EnvName(env)) == "SECRET_KEY_QA" then "SECRET_KEY_CERT" else "SECRET_KEY_QA";
    assert EnvName(env[other := value]) == EnvName(env) by {
      assert GetOr(env[other := value], "TEST_ENV", "qa") == GetOr(env, "TEST_ENV", "qa");
    }
    assert EnvName(env - {other}) == EnvName(env) by {
      assert GetOr(env - {other}, "TEST_ENV", "qa") == GetOr(env, "TEST_ENV", "qa");
    }
  }

  /** For `qa` and `cert` the error names the variable that was read. */
  lemma MessageNamesReadVariable(name: string)
    requires name == "qa" || name == "cert"
    ensures MissingSecretMessage(name) == SecretVariable(name) + NotDefined
  {
    if name == "qa" {
      assert Upper(name) == "QA";
    } else {
      assert Upper(name) == "CERT";
    }
  }

  /** An environment named `Prod` is not rejected: it reads the CERT secret, and when
      that is missing the error names `SECRET_KEY_PROD`, a variable that is never read. */
  lemma UnknownEnvironmentUsesCert(env: Env)
    requires "TEST_ENV" in env && env["TEST_ENV"] == "Prod"
    ensures EnvName(env) == "prod"
    ensures "SECRET_KEY_CERT" in env && env["SECRET_KEY_CERT"] != "" ==>
      GetEnvironmentConfig(env) == Success(TestConfig("prod", env["SECRET_KEY_CERT"]))
    ensures "SECRET_KEY_CERT" !in env ==>
      GetEnvironmentConfig(env) == Failure("SECRET_KEY_PROD" + NotDefined)
  {
    var v := env["TEST_ENV"];
    assert Lower(v) == "prod" by {
      assert Lower(v)[0] == 'p' && Lower(v)[1] == 'r' && Lower(v)[2] == 'o' && Lower(v)[3] == 'd';
    }
    assert Upper("prod") == "PROD" by {
      assert Upper("prod")[0] == 'P' && Upper("prod")[1] == 'R';
      assert Upper("prod")[2] == 'O' && Upper("prod")[3] == 'D';
    }
    assert EnvName(env) == "prod";
    assert "SECRET_KEY_" + "PROD" == "SECRET_KEY_PROD";
  }
}
