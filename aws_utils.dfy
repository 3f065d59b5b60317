/**
 * The session provider: it keeps one set of static credentials, builds its
 * SDK session on first use and hands the same session out afterwards; it
 * also assumes roles and reads the region list.
 */
module AwsUtils {
  import opened Wrappers
  import opened Errors
  import opened Dicts

  /** The region ec2_client uses when none is given, as get_all_regions calls it. */
  const Ec2DefaultRegion := "us-east-1"

  /** The lifetime assume_role asks for, in seconds. */
  const AssumeRoleDurationSeconds := 3600

  /** The SDK's session object: an opaque handle holding the credentials it was built from. */
  class BotoSession {
    const awsAccessKeyId: Option<string>
    const awsSecretAccessKey: Option<string>
    const awsSessionToken: Option<string>

    constructor (accessKeyId: Option<string>, secretAccessKey: Option<string>, sessionToken: Option<string>)
      ensures awsAccessKeyId == accessKeyId
      ensures awsSecretAccessKey == secretAccessKey
      ensures awsSessionToken == sessionToken
    {
      awsAccessKeyId := accessKeyId;
      awsSecretAccessKey := secretAccessKey;
      awsSessionToken := sessionToken;
    }
  }

  class AWSBaseSession {
    var awsAccessKeyId: Option<string>
    var awsSecretAccessKey: Option<string>
    var awsSessionToken: Option<string>
    /** The cached session (`_session`); null until first use. */
    var cachedSession: BotoSession?
    /** How many sessions this provider has built. */
    ghost var sessionsBuilt: nat

    /** s was built from exactly the credentials this provider stores. */
    predicate HoldsOwnCredentials(s: BotoSession)
      reads this
    {
      && s.awsAccessKeyId == awsAccessKeyId
      && s.awsSecretAccessKey == awsSecretAccessKey
      && s.awsSessionToken == awsSessionToken
    }

    /** At most one session is ever built, and the cached one is it. */
    ghost predicate Valid()
      reads this
    {
      && sessionsBuilt == (if cachedSession == null then 0 else 1)
      && (cachedSession != null ==> HoldsOwnCredentials(cachedSession))
    }

    /** `__init__`: store the three credentials; no session yet. */
    constructor (accessKeyId: Option<string>, secretAccessKey: Option<string>, sessionToken: Option<string>)
      ensures Valid()
      ensures awsAccessKeyId == accessKeyId
      ensures awsSecretAccessKey == secretAccessKey
      ensures awsSessionToken == sessionToken
      ensures cachedSession == null && sessionsBuilt == 0
    {
      awsAccessKeyId := accessKeyId;
      awsSecretAccessKey := secretAccessKey;
      awsSessionToken := sessionToken;
      cachedSession := null;
      sessionsBuilt := 0;
    }

    /**
     * The `session` property: build a session from the stored credentials
     * when none is cached, and return the cached one. The credentials
     * themselves lie outside what it may change.
     */
    method Session() returns (s: BotoSession)
      requires Valid()
      modifies this`cachedSession, this`sessionsBuilt
      ensures Valid()
      ensures cachedSession == s
      ensures HoldsOwnCredentials(s)
      ensures old(cachedSession) != null ==> s == old(cachedSession) && sessionsBuilt == old(sessionsBuilt)
      ensures old(cachedSession) == null ==> fresh(s) && sessionsBuilt == old(sessionsBuilt) + 1
    {
      if cachedSession == null {
        cachedSession := new BotoSession(awsAccessKeyId, awsSecretAccessKey, awsSessionToken);
        sessionsBuilt := sessionsBuilt + 1;
      }
      s := cachedSession;
    }

    /**
     * get_all_regions: ask the compute service of the default region, through
     * the (possibly new) cached session, for its regions, and project their names.
     */
    method GetAllRegions(describeRegions: (BotoSession, string) -> Result<Dict<Value>, Error>)
      returns (r: Result<seq<Value>, Error>)
      requires Valid()
      modifies this`cachedSession, this`sessionsBuilt
      ensures Valid() && cachedSession != null
      ensures old(cachedSession) != null ==> cachedSession == old(cachedSession) && sessionsBuilt == old(sessionsBuilt)
      ensures old(cachedSession) == null ==> fresh(cachedSession)
      ensures r == AllRegions(describeRegions(cachedSession, Ec2DefaultRegion))
    {
      var session := Session();
      r := AllRegions(describeRegions(session, Ec2DefaultRegion));
    }
  }

  /** Two uses of the property give one and the same session, built once. */
  method RepeatedAccessSharesSession(provider: AWSBaseSession) returns (first: BotoSession, second: BotoSession)
    requires provider.Valid()
    modifies provider`cachedSession, provider`sessionsBuilt
    ensures provider.Valid() && provider.cachedSession == first
    ensures first == second
    ensures provider.sessionsBuilt == 1
    ensures provider.HoldsOwnCredentials(first)
    ensures old(provider.cachedSession) != null ==> first == old(provider.cachedSession)
  {
    first := provider.Session();
    second := provider.Session();
  }

  // ---------------------------------------------------------------------
  // Region listing

  /** `region["RegionName"]`: only a dict can be subscripted by a name. */
  function RegionName(region: Value): (r: Result<Value, Error>)
    ensures !region.Map? ==> r == Err(TypeError)
    ensures region.Map? && "RegionName" !in Keys(region.entries) ==> r == Err(KeyError("RegionName"))
    ensures r.Ok? <==> region.Map? && "RegionName" in Keys(region.entries)
    ensures r.Ok? ==> ("RegionName", r.value) in region.entries
  {
    match region
    case Map(entries) => Subscript(entries, "RegionName")
    case _ => Err(TypeError)
  }

  /**
   * The list comprehension over the regions: every name, in order, or the
   * failure of the first region that has none.
   */
  function RegionNames(regions: seq<Value>): (r: Result<seq<Value>, Error>)
    ensures r.Ok? <==> forall i :: 0 <= i < |regions| ==> RegionName(regions[i]).Ok?
    ensures r.Ok? ==> |r.value| == |regions|
    ensures r.Ok? ==> forall i :: 0 <= i < |regions| ==> r.value[i] == RegionName(regions[i]).value
    ensures r.Err? ==> exists i :: 0 <= i < |regions| && RegionName(regions[i]) == Err(r.error)
                                 && forall j :: 0 <= j < i ==> RegionName(regions[j]).Ok?
  {
    if regions == [] then Ok([])
    else match RegionName(regions[0])
      case Err(e) => Err(e)
      case Ok(name) =>
        match RegionNames(regions[1..])
        case Err(e) =>
          ghost var i :| 0 <= i < |regions[1..]| && RegionName(regions[1..][i]) == Err(e)
                           && forall j :: 0 <= j < i ==> RegionName(regions[1..][j]).Ok?;
          assert RegionName(regions[i + 1]) == Err(e);
          Err(e)
        case Ok(rest) => Ok([name] + rest)
  }

  /** What the response's "Regions" holds, when it is a list. */
  predicate ListsRegions(response: Dict<Value>) {
    Get(response, "Regions").Some? && Get(response, "Regions").value.List?
  }

  /**
   * `[region["RegionName"] for region in response["Regions"]]`, and any
   * failure on the way (the call itself, a missing field) passed on.
   */
  function AllRegions(response: Result<Dict<Value>, Error>): (r: Result<seq<Value>, Error>)
    ensures response.Err? ==> r == Err(response.error)
    ensures response.Ok? && Get(response.value, "Regions").None? ==> r == Err(KeyError("Regions"))
    ensures r.Ok? <==> response.Ok? && ListsRegions(response.value)
                       && var regions := Get(response.value, "Regions").value.elems;
                          forall i :: 0 <= i < |regions| ==> RegionName(regions[i]).Ok?
    ensures r.Ok? ==> var regions := Get(response.value, "Regions").value.elems;
                      && |r.value| == |regions|
                      && forall i :: 0 <= i < |regions| ==> r.value[i] == RegionName(regions[i]).value
  {
    if response.Err? then Err(response.error)
    else
      var regions: Result<Value, Error> := Subscript(response.value, "Regions");
      match regions
      case Err(e) => Err(e)
      case Ok(List(elems)) =>
        assert Get(response.value, "Regions") == Some(List(elems));
        RegionNames(elems)
      case Ok(_) => Err(TypeError)
  }

  // ---------------------------------------------------------------------
  // Role assumption and credentials

  datatype AssumeRoleRequest = AssumeRoleRequest(roleArn: string, roleSessionName: string, durationSeconds: int)

  /**
   * assume_role: one role-assumption call, on a client built from
   * awsSecrets, for a fixed hour; the response's "Credentials" unchanged,
   * and the call's failure passed on.
   */
  function AssumeRole(roleArn: string, roleSession: string, awsSecrets: Dict<Value>,
                      sts: (Dict<Value>, AssumeRoleRequest) -> Result<Dict<Value>, Error>)
    : (r: Result<Value, Error>)
    ensures var resp := sts(awsSecrets, AssumeRoleRequest(roleArn, roleSession, 3600));
      && (resp.Err? ==> r == Err(resp.error))
      && (resp.Ok? && Get(resp.value, "Credentials").Some? ==> r == Ok(Get(resp.value, "Credentials").value))
      && (resp.Ok? && Get(resp.value, "Credentials").None? ==> r == Err(KeyError("Credentials")))
  {
    var resp := sts(awsSecrets, AssumeRoleRequest(roleArn, roleSession, AssumeRoleDurationSeconds));
    if resp.Err? then Err(resp.error) else Subscript(resp.value, "Credentials")
  }

  /**
   * parse_creds: the three fields of a role-assumption result under the
   * names the session takes them by; a KeyError for the first one missing.
   */
  function ParseCreds(awsCreds: Dict<Value>): (r: Result<Dict<Value>, Error>)
    ensures r.Ok? <==> && Get(awsCreds, "AccessKeyId").Some?
                       && Get(awsCreds, "SecretAccessKey").Some?
                       && Get(awsCreds, "SessionToken").Some?
    ensures r.Ok? ==> && |r.value| == 3 && UniqueKeys(r.value)
                      && Get(r.value, "aws_access_key_id") == Get(awsCreds, "AccessKeyId")
                      && Get(r.value, "aws_secret_access_key") == Get(awsCreds, "SecretAccessKey")
                      && Get(r.value, "aws_session_token") == Get(awsCreds, "SessionToken")
    ensures r.Err? ==> && r.error.KeyError?
                       && r.error.key in ["AccessKeyId", "SecretAccessKey", "SessionToken"]
                       && Get(awsCreds, r.error.key).None?
    ensures r == Err(KeyError("SecretAccessKey")) ==> Get(awsCreds, "AccessKeyId").Some?
    ensures r == Err(KeyError("SessionToken")) ==>
      Get(awsCreds, "AccessKeyId").Some? && Get(awsCreds, "SecretAccessKey").Some?
  {
    match (Subscript(awsCreds, "AccessKeyId"), Subscript(awsCreds, "SecretAccessKey"),
           Subscript(awsCreds, "SessionToken"))
    case (Err(e), _, _) => Err(e)
    case (Ok(_), Err(e), _) => Err(e)
    case (Ok(_), Ok(_), Err(e)) => Err(e)
    case (Ok(accessKeyId), Ok(secretAccessKey), Ok(sessionToken)) =>
      var creds := [("aws_access_key_id", accessKeyId),
                    ("aws_secret_access_key", secretAccessKey),
                    ("aws_session_token", sessionToken)];
      assert creds[1..][1..] == [("aws_session_token", sessionToken)];
      assert Get(creds[1..][1..], "aws_session_token") == Some(sessionToken);
      assert Get(creds[1..], "aws_session_token") == Some(sessionToken);
      assert Get(creds, "aws_session_token") == Some(sessionToken);
      Ok(creds)
  }

  /**
   * The credentials a role assumption returns, fed to parse_creds, come out
   * under the session's names with their values unchanged.
   */
  lemma AssumedCredentialsParse(roleArn: string, roleSession: string, awsSecrets: Dict<Value>,
                                sts: (Dict<Value>, AssumeRoleRequest) -> Result<Dict<Value>, Error>)
    requires AssumeRole(roleArn, roleSession, awsSecrets, sts).Ok?
    requires AssumeRole(roleArn, roleSession, awsSecrets, sts).value.Map?
    ensures var creds := AssumeRole(roleArn, roleSession, awsSecrets, sts).value.entries;
      var resp := sts(awsSecrets, AssumeRoleRequest(roleArn, roleSession, 3600));
      && resp.Ok? && Get(resp.value, "Credentials") == Some(Map(creds))
      && (ParseCreds(creds).Ok? ==>
            && Get(ParseCreds(creds).value, "aws_access_key_id") == Get(creds, "AccessKeyId")
            && Get(ParseCreds(creds).value, "aws_secret_access_key") == Get(creds, "SecretAccessKey")
            && Get(ParseCreds(creds).value, "aws_session_token") == Get(creds, "SessionToken"))
  {
  }
}
