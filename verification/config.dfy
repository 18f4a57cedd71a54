/** The storage configuration (src/config.rs): five settings read from the
    environment, each of which a `KEY=VALUE` override can replace. The
    process environment is passed in as a map. */
module AppConfig {
  import opened Results

  /** The settings as read from the environment, plus the overrides given
      on the command line, by key. */
  datatype Config = Config(
    accessKey: string,
    secretKey: string,
    bucketName: string,
    awsRegion: string,
    s3Endpoint: Option<string>,
    overrides: map<string, string>)

  const DefaultRegion := "us-east-1"

  /** The override keys the getters consult. */
  const AccessKeyName := "ACCESS_KEY"
  const SecretKeyName := "SECRET_KEY"
  const BucketNameName := "BUCKET_NAME"
  const RegionName := "AWS_REGION"
  const EndpointName := "S3_ENDPOINT"

  const RecognisedKeys: set<string> :=
    {AccessKeyName, SecretKeyName, BucketNameName, RegionName, EndpointName}

  /** `Config::from_env`: the access key, secret key and bucket name must be
      set (checked in that order); the region defaults to `us-east-1`; the
      endpoint is optional; there are no overrides yet. */
  function FromEnv(env: map<string, string>): (r: Result<Config, string>)
    ensures r.Ok? <==> "S3_ACCESS_KEY" in env && "S3_SECRET_KEY" in env && "S3_BUCKET_NAME" in env
    ensures "S3_ACCESS_KEY" !in env ==>
              r == Err("S3_ACCESS_KEY environment variable is required")
    ensures "S3_ACCESS_KEY" in env && "S3_SECRET_KEY" !in env ==>
              r == Err("S3_SECRET_KEY environment variable is required")
    ensures "S3_ACCESS_KEY" in env && "S3_SECRET_KEY" in env && "S3_BUCKET_NAME" !in env ==>
              r == Err("S3_BUCKET_NAME environment variable is required")
    ensures r.Ok? ==>
              && r.value.accessKey == env["S3_ACCESS_KEY"]
              && r.value.secretKey == env["S3_SECRET_KEY"]
              && r.value.bucketName == env["S3_BUCKET_NAME"]
              && r.value.awsRegion == (if "AWS_REGION" in env then env["AWS_REGION"] else DefaultRegion)
              && (r.value.s3Endpoint.Some? <==> "S3_ENDPOINT" in env)
              && (r.value.s3Endpoint.Some? ==> r.value.s3Endpoint.value == env["S3_ENDPOINT"])
              && r.value.overrides == map[]
  {
    if "S3_ACCESS_KEY" !in env then Err("S3_ACCESS_KEY environment variable is required")
    else if "S3_SECRET_KEY" !in env then Err("S3_SECRET_KEY environment variable is required")
    else if "S3_BUCKET_NAME" !in env then Err("S3_BUCKET_NAME environment variable is required")
    else
      Ok(Config(
        env["S3_ACCESS_KEY"],
        env["S3_SECRET_KEY"],
        env["S3_BUCKET_NAME"],
        Get(env, "AWS_REGION").UnwrapOr(DefaultRegion),
        Get(env, "S3_ENDPOINT"),
        map[]))
  }

  /** `set_override`: records `value` under `key`, replacing any earlier
      value for that key; the settings read from the environment stay. */
  function SetOverride(c: Config, key: string, value: string): (r: Config)
    ensures r.accessKey == c.accessKey && r.secretKey == c.secretKey
    ensures r.bucketName == c.bucketName && r.awsRegion == c.awsRegion
    ensures r.s3Endpoint == c.s3Endpoint
    ensures r.overrides.Keys == c.overrides.Keys + {key}
    ensures r.overrides[key] == value
    ensures forall k :: k in c.overrides && k != key ==> r.overrides[k] == c.overrides[k]
  {
    c.(overrides := c.overrides[key := value])
  }

  /** The override stored under `name`, else `base`. */
  function Overridden(c: Config, name: string, base: string): string {
    Get(c.overrides, name).UnwrapOr(base)
  }

  /** `get_access_key`: the override, else the value from the environment. */
  function AccessKey(c: Config): (r: string)
    ensures AccessKeyName in c.overrides ==> r == c.overrides[AccessKeyName]
    ensures AccessKeyName !in c.overrides ==> r == c.accessKey
  {
    Overridden(c, AccessKeyName, c.accessKey)
  }

  /** `get_secret_key`: the override, else the value from the environment. */
  function SecretKey(c: Config): (r: string)
    ensures SecretKeyName in c.overrides ==> r == c.overrides[SecretKeyName]
    ensures SecretKeyName !in c.overrides ==> r == c.secretKey
  {
    Overridden(c, SecretKeyName, c.secretKey)
  }

  /** `get_bucket_name`: the override, else the value from the environment. */
  function BucketName(c: Config): (r: string)
    ensures BucketNameName in c.overrides ==> r == c.overrides[BucketNameName]
    ensures BucketNameName !in c.overrides ==> r == c.bucketName
  {
    Overridden(c, BucketNameName, c.bucketName)
  }

  /** `get_aws_region`: the override, else the value from the environment. */
  function AwsRegion(c: Config): (r: string)
    ensures RegionName in c.overrides ==> r == c.overrides[RegionName]
    ensures RegionName !in c.overrides ==> r == c.awsRegion
  {
    Overridden(c, RegionName, c.awsRegion)
  }

  /** `get_s3_endpoint`: the override if there is one, else the endpoint
      from the environment, if any. */
  function S3Endpoint(c: Config): (r: Option<string>)
    ensures r.None? <==> EndpointName !in c.overrides && c.s3Endpoint.None?
  {
    if EndpointName in c.overrides then Some(c.overrides[EndpointName]) else c.s3Endpoint
  }

  /** The endpoint getter answers with its override when one is stored
      under `S3_ENDPOINT`, and with the endpoint from the environment
      otherwise. */
  lemma GettersPreferOverrides(c: Config)
    ensures S3Endpoint(c) == (if "S3_ENDPOINT" in c.overrides then Some(c.overrides["S3_ENDPOINT"]) else c.s3Endpoint)
  {
  }

  /** Straight after `from_env` the getters report the environment: the
      three required values, the region or its default, and the endpoint
      if it is set. */
  lemma GettersAfterFromEnv(env: map<string, string>)
    requires FromEnv(env).Ok?
    ensures var c := FromEnv(env).value;
            && AccessKey(c) == env["S3_ACCESS_KEY"]
            && SecretKey(c) == env["S3_SECRET_KEY"]
            && BucketName(c) == env["S3_BUCKET_NAME"]
            && AwsRegion(c) == (if "AWS_REGION" in env then env["AWS_REGION"] else "us-east-1")
            && S3Endpoint(c) == Get(env, "S3_ENDPOINT")
  {
  }

  /** Overriding a recognised key makes its getter return the new value,
      even when the environment already supplied an endpoint. */
  lemma OverrideTakesEffect(c: Config, value: string)
    ensures AccessKey(SetOverride(c, "ACCESS_KEY", value)) == value
    ensures SecretKey(SetOverride(c, "SECRET_KEY", value)) == value
    ensures BucketName(SetOverride(c, "BUCKET_NAME", value)) == value
    ensures AwsRegion(SetOverride(c, "AWS_REGION", value)) == value
    ensures S3Endpoint(SetOverride(c, "S3_ENDPOINT", value)) == Some(value)
  {
  }

  /** Setting the same key twice keeps only the second value. */
  lemma SetOverrideLastWins(c: Config, key: string, first: string, second: string)
    ensures SetOverride(SetOverride(c, key, first), key, second) == SetOverride(c, key, second)
  {
  }

  /** A key none of the getters consults changes no getter's answer. */
  lemma UnrecognisedOverrideIgnored(c: Config, key: string, value: string)
    requires key !in RecognisedKeys
    ensures var r := SetOverride(c, key, value);
            && AccessKey(r) == AccessKey(c)
            && SecretKey(r) == SecretKey(c)
            && BucketName(r) == BucketName(c)
            && AwsRegion(r) == AwsRegion(c)
            && S3Endpoint(r) == S3Endpoint(c)
  {
  }
}
