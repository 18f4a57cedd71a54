/** The command-line glue of src/main.rs: parsing `--config KEY=VALUE`
    arguments, applying them to the configuration in order, and choosing
    the storage backend by name. */
module Cli {
  import opened Results
  import opened Text
  import opened AppConfig

  const MalformedOverride := "Config must be in format KEY=VALUE"

  /** `parse_config`: splits at the first `=`; the value keeps any further
      `=`, and either side may be empty. */
  function ParseConfig(s: string): (r: Result<(string, string), string>)
    ensures r.Err? <==> '=' !in s
    ensures r.Err? ==> r.error == MalformedOverride
    ensures r.Ok? ==> '=' !in r.value.0 && r.value.0 + "=" + r.value.1 == s
  {
    match FirstIndexOf(s, '=')
    case None => Err(MalformedOverride)
    case Some(i) =>
      assert s == s[..i] + "=" + s[i + 1..];
      Ok((s[..i], s[i + 1..]))
  }

  /** Joining a key without `=` to any value and parsing the result gives
      the two back. */
  lemma ParseConfigJoin(key: string, value: string)
    requires '=' !in key
    ensures ParseConfig(key + "=" + value) == Ok((key, value))
  {
    var s := key + "=" + value;
    assert s[|key|] == '=';
    assert s[..|key|] == key;
    assert s[|key| + 1..] == value;
    FirstIndexUnique(s, '=', |key|);
  }

  /** The override loop of `main`: each pair in command-line order. */
  function ApplyOverrides(c: Config, pairs: seq<(string, string)>): (r: Config)
    ensures r.accessKey == c.accessKey && r.secretKey == c.secretKey
    ensures r.bucketName == c.bucketName && r.awsRegion == c.awsRegion
    ensures r.s3Endpoint == c.s3Endpoint
    decreases |pairs|
  {
    if pairs == [] then c
    else ApplyOverrides(SetOverride(c, pairs[0].0, pairs[0].1), pairs[1..])
  }

  /** The value of the last pair with key `k`, if any. */
  function LastValue(pairs: seq<(string, string)>, k: string): Option<string>
    decreases |pairs|
  {
    if pairs == [] then None
    else if pairs[|pairs| - 1].0 == k then Some(pairs[|pairs| - 1].1)
    else LastValue(pairs[..|pairs| - 1], k)
  }

  /** After the loop, the override under `k` is the last value given for
      `k` on the command line, or what was there before if none was. */
  lemma {:induction false} ApplyOverridesLastWins(c: Config, pairs: seq<(string, string)>, k: string)
    ensures Get(ApplyOverrides(c, pairs).overrides, k)
            == if LastValue(pairs, k).Some? then LastValue(pairs, k) else Get(c.overrides, k)
    decreases |pairs|
  {
    if pairs != [] {
      var p := pairs[0];
      ApplyOverridesLastWins(SetOverride(c, p.0, p.1), pairs[1..], k);
      LastValueCons(p, pairs[1..], k);
      assert [p] + pairs[1..] == pairs;
    }
  }

  /** The last value in `[p] + rest` is the last one in `rest`, or `p`'s
      when `rest` has none for its key. */
  lemma {:induction false} LastValueCons(p: (string, string), rest: seq<(string, string)>, k: string)
    ensures LastValue([p] + rest, k) ==
            if LastValue(rest, k).Some? then LastValue(rest, k)
            else if p.0 == k then Some(p.1) else None
    decreases |rest|
  {
    var all := [p] + rest;
    if rest == [] {
      assert all == [p];
    } else {
      assert all[..|all| - 1] == [p] + rest[..|rest| - 1];
      assert all[|all| - 1] == rest[|rest| - 1];
      LastValueCons(p, rest[..|rest| - 1], k);
    }
  }

  /** A key repeated on the command line: the getter reports the last. */
  lemma RepeatedOverrideLastWins(c: Config, first: string, second: string)
    ensures AccessKey(ApplyOverrides(c, [(AccessKeyName, first), (AccessKeyName, second)])) == second
  {
    var pairs := [(AccessKeyName, first), (AccessKeyName, second)];
    ApplyOverridesLastWins(c, pairs, AccessKeyName);
  }

  /** The storage backends the command can construct. */
  datatype StorageKind = S3

  /** The backend match of `main`: only `s3` proceeds; `webdav` is known
      but not implemented; any other name is refused, named in the
      message. */
  function SelectBackend(name: string): (r: Result<StorageKind, string>)
    ensures r.Ok? <==> name == "s3"
    ensures name == "webdav" ==> r == Err("WebDAV storage backend not implemented yet")
    ensures name != "s3" && name != "webdav" ==>
              r.Err? && r.error == "Unknown storage backend: " + name && IsInfix(name, r.error)
  {
    if name == "s3" then Ok(S3)
    else if name == "webdav" then Err("WebDAV storage backend not implemented yet")
    else
      InfixOfConcat("Unknown storage backend: ", name, "");
      assert "Unknown storage backend: " + name + "" == "Unknown storage backend: " + name;
      Err("Unknown storage backend: " + name)
  }
}
