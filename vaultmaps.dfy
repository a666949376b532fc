/** The string handling of vaultmaps.go: choosing settings from the environment, turning
    the secret's `helmSecretValues` string into the ConfigMap's flat data map, picking the
    service name out of the secret path, and deriving the ConfigMap's name, namespace and
    output file from it.  The HTTP calls, the JSON decoding, the YAML encoding and the file
    itself are not part of this model; the environment is passed in as a map. */
module VaultMaps {
  import opened Results
  import opened GoStrings

  /** The index-out-of-range panics of the program: `values[1]` on a secret piece with no
      `=` (line 147) and `strings.Split(pathPart, "-")[1]` on a path part with no `-`
      (line 153).  Each carries the piece that caused it. */
  datatype Panic = MissingValue(piece: string) | MissingDash(pathPart: string)

  // ---------------------------------------------------------------------------
  // Settings

  /** The environment's value for `key` when the key is set (even to the empty string),
      `defaultVal` otherwise. */
  function LookupEnvOrString(env: map<string, string>, key: string, defaultVal: string): (r: string)
    ensures key in env ==> r == env[key]
    ensures key !in env ==> r == defaultVal
  {
    if key in env then env[key] else defaultVal
  }

  datatype Settings = Settings(vaultAddress: string, githubToken: string, secretPath: string, outputPath: string)

  /** The defaults of the four command-line flags, before any flag on the command line
      overrides them. */
  function FlagDefaults(env: map<string, string>): (s: Settings)
    ensures s.vaultAddress == if "VAULT_ADDRESS" in env then env["VAULT_ADDRESS"] else "https://vault.ps.thmulti.com:8200"
    ensures s.githubToken == if "GITHUB_TOKEN" in env then env["GITHUB_TOKEN"] else "fake-token"
    ensures s.secretPath == if "SECRET_PATH" in env then env["SECRET_PATH"] else "fake-path"
    ensures s.outputPath == if "OUTPUT_PATH" in env then env["OUTPUT_PATH"] else "."
  {
    Settings(
      LookupEnvOrString(env, "VAULT_ADDRESS", "https://vault.ps.thmulti.com:8200"),
      LookupEnvOrString(env, "GITHUB_TOKEN", "fake-token"),
      LookupEnvOrString(env, "SECRET_PATH", "fake-path"),
      LookupEnvOrString(env, "OUTPUT_PATH", "."))
  }

  // ---------------------------------------------------------------------------
  // The flat data map

  /** Lines 145-148 from the map `myYaml` onwards over the remaining `,` pieces. */
  function FillFrom(myYaml: map<string, string>, pieces: seq<string>): (r: Result<map<string, string>, Panic>)
    ensures r.Failure? ==> r.error.MissingValue? && r.error.piece in pieces && '=' !in r.error.piece
    ensures r.Success? ==> myYaml.Keys <= r.value.Keys && forall i :: 0 <= i < |pieces| ==> '=' in pieces[i]
    decreases |pieces|
  {
    if pieces == [] then Success(myYaml)
    else
      SplitFields(pieces[0], '=');
      var values := Split(pieces[0], '=');
      if |values| < 2 then Failure(MissingValue(pieces[0]))
      else FillFrom(myYaml[values[0] := values[1]], pieces[1..])
  }

  /** The ConfigMap's data for a `helmSecretValues` string. */
  function SecretData(helmSecretValues: string): (r: Result<map<string, string>, Panic>)
    ensures r.Failure? ==> r.error.MissingValue? && '=' !in r.error.piece && ',' !in r.error.piece
    ensures r.Success? ==> forall i :: 0 <= i < |Split(helmSecretValues, ',')| ==> '=' in Split(helmSecretValues, ',')[i]
  {
    FillFrom(map[], Split(helmSecretValues, ','))
  }

  /** The keys the pieces assign: the text before each piece's first `=`, dots kept. */
  function KeysOf(pieces: seq<string>): (keys: set<string>)
    ensures |keys| <= |pieces|
    decreases |pieces|
  {
    if pieces == [] then {}
    else KeysOf(pieces[..|pieces| - 1]) + {Before(pieces[|pieces| - 1], '=')}
  }

  /** Every key is the key of some piece, and every piece's key is a key. */
  lemma {:induction false} KeysOfMembers(pieces: seq<string>, k: string)
    ensures k in KeysOf(pieces) <==> exists i :: 0 <= i < |pieces| && Before(pieces[i], '=') == k
    decreases |pieces|
  {
    if pieces != [] {
      var init := pieces[..|pieces| - 1];
      KeysOfMembers(init, k);
      if exists i :: 0 <= i < |pieces| && Before(pieces[i], '=') == k {
        var i :| 0 <= i < |pieces| && Before(pieces[i], '=') == k;
        if i < |init| {
          assert init[i] == pieces[i];
        }
      }
      if exists i :: 0 <= i < |init| && Before(init[i], '=') == k {
        var i :| 0 <= i < |init| && Before(init[i], '=') == k;
        assert pieces[i] == init[i];
      }
    }
  }

  /** Reference definition of the stored value: what the LAST piece whose key is `k`
      assigns, found by searching from the end. */
  function Assigned(pieces: seq<string>, k: string): Option<string>
    decreases |pieces|
  {
    if pieces == [] then None
    else
      var p := pieces[|pieces| - 1];
      if Before(p, '=') == k then Some(SecondField(p, '=')) else Assigned(pieces[..|pieces| - 1], k)
  }

  /** Seen from the front: a later piece's assignment wins over the first piece's. */
  lemma {:induction false} AssignedCons(p: string, rest: seq<string>, k: string)
    ensures Assigned([p] + rest, k) ==
      if Assigned(rest, k).Some? then Assigned(rest, k)
      else if Before(p, '=') == k then Some(SecondField(p, '=')) else None
    decreases |rest|
  {
    var ps := [p] + rest;
    if rest == [] {
      assert ps[..0] == [];
    } else {
      assert ps[|ps| - 1] == rest[|rest| - 1];
      assert ps[..|ps| - 1] == [p] + rest[..|rest| - 1];
      AssignedCons(p, rest[..|rest| - 1], k);
    }
  }

  lemma {:induction false} KeysOfCons(p: string, rest: seq<string>)
    ensures KeysOf([p] + rest) == {Before(p, '=')} + KeysOf(rest)
    decreases |rest|
  {
    var ps := [p] + rest;
    if rest == [] {
      assert ps[..0] == [];
    } else {
      assert ps[|ps| - 1] == rest[|rest| - 1];
      assert ps[..|ps| - 1] == [p] + rest[..|rest| - 1];
      KeysOfCons(p, rest[..|rest| - 1]);
    }
  }

  /** The pieces assign key `k` exactly when `k` is among their keys. */
  lemma {:induction false} AssignedKeys(pieces: seq<string>, k: string)
    ensures Assigned(pieces, k).Some? <==> k in KeysOf(pieces)
    decreases |pieces|
  {
    if pieces != [] {
      AssignedKeys(pieces[..|pieces| - 1], k);
    }
  }

  /** Filling from `myYaml` panics exactly when a piece has no `=`, and then at the first
      such piece. */
  lemma {:induction false} FillFromFailure(myYaml: map<string, string>, pieces: seq<string>)
    ensures FillFrom(myYaml, pieces).Failure? <==> exists j :: 0 <= j < |pieces| && '=' !in pieces[j]
    ensures FillFrom(myYaml, pieces).Failure? ==>
      exists j :: 0 <= j < |pieces| && FillFrom(myYaml, pieces).error == MissingValue(pieces[j]) &&
        '=' !in pieces[j] && forall i :: 0 <= i < j ==> '=' in pieces[i]
    decreases |pieces|
  {
    if pieces != [] {
      var p, rest := pieces[0], pieces[1..];
      var values := Split(p, '=');
      SplitFields(p, '=');
      if |values| >= 2 {
        var next := myYaml[values[0] := values[1]];
        FillFromFailure(next, rest);
        forall j | 1 <= j < |pieces| ensures pieces[j] == rest[j - 1] { }
        if FillFrom(next, rest).Failure? {
          var j :| 0 <= j < |rest| && FillFrom(next, rest).error == MissingValue(rest[j]) &&
            '=' !in rest[j] && forall i :: 0 <= i < j ==> '=' in rest[i];
          assert pieces[j + 1] == rest[j];
        }
      }
    }
  }

  /** When filling from `myYaml` succeeds, the keys are those of `myYaml` and of the
      pieces, and each piece's key holds the value of the last piece with that key; the
      other keys keep their value from `myYaml`. */
  lemma {:induction false} FillFromSuccess(myYaml: map<string, string>, pieces: seq<string>)
    ensures FillFrom(myYaml, pieces).Success? ==>
      var r := FillFrom(myYaml, pieces).value;
      && r.Keys == myYaml.Keys + KeysOf(pieces)
      && forall k :: k in r ==>
           Assigned(pieces, k) == Some(r[k]) ||
           (Assigned(pieces, k) == None && k in myYaml && r[k] == myYaml[k])
    decreases |pieces|
  {
    if pieces != [] && FillFrom(myYaml, pieces).Success? {
      var p, rest := pieces[0], pieces[1..];
      assert pieces == [p] + rest;
      var values := Split(p, '=');
      SplitHead(p, '=');
      SplitFields(p, '=');
      var next := myYaml[values[0] := values[1]];
      assert FillFrom(myYaml, pieces) == FillFrom(next, rest);
      FillFromSuccess(next, rest);
      KeysOfCons(p, rest);
      var r := FillFrom(next, rest).value;
      forall k | k in r
        ensures Assigned(pieces, k) == Some(r[k]) ||
                (Assigned(pieces, k) == None && k in myYaml && r[k] == myYaml[k])
      {
        AssignedCons(p, rest, k);
        if Assigned(rest, k).None? {
          assert k in next && r[k] == next[k];
          if k == values[0] {
            assert Assigned(pieces, k) == Some(values[1]);
          }
        }
      }
    }
  }

  /** What `helmSecretValues` becomes: it fails exactly when one of its `,` pieces has no
      `=` (the empty string is one such piece); otherwise the keys are exactly the pieces'
      un-expanded dotted keys, no more of them than there are pieces, and each holds the
      text between the first and second `=` of the last piece with that key. */
  lemma SecretDataOutcome(helmSecretValues: string)
    ensures var pieces := Split(helmSecretValues, ',');
      && (SecretData(helmSecretValues).Failure? <==> exists j :: 0 <= j < |pieces| && '=' !in pieces[j])
      && (SecretData(helmSecretValues).Success? ==>
            var r := SecretData(helmSecretValues).value;
            && r.Keys == KeysOf(pieces)
            && |r| <= |pieces| == Count(helmSecretValues, ',') + 1
            && forall k :: k in r ==> Assigned(pieces, k) == Some(r[k]))
  {
    var pieces := Split(helmSecretValues, ',');
    FillFromFailure(map[], pieces);
    FillFromSuccess(map[], pieces);
    SplitCount(helmSecretValues, ',');
    if SecretData(helmSecretValues).Success? {
      var r := SecretData(helmSecretValues).value;
      forall k | k in r ensures Assigned(pieces, k) == Some(r[k]) {
      }
      assert |r| == |r.Keys|;
    }
  }

  /** lines 144-148: fill the data map piece by piece. */
  method BuildSecretData(helmSecretValues: string) returns (r: Result<map<string, string>, Panic>)
    ensures r == SecretData(helmSecretValues)
  {
    var pieces := Split(helmSecretValues, ',');
    var myYaml: map<string, string> := map[];
    var i := 0;
    while i < |pieces|
      invariant 0 <= i <= |pieces|
      invariant FillFrom(myYaml, pieces[i..]) == SecretData(helmSecretValues)
    {
      assert pieces[i..][0] == pieces[i] && pieces[i..][1..] == pieces[i + 1..];
      var values := Split(pieces[i], '=');
      if |values| < 2 {
        return Failure(MissingValue(pieces[i]));
      }
      myYaml := myYaml[values[0] := values[1]];
      i := i + 1;
    }
    return Success(myYaml);
  }

  // ---------------------------------------------------------------------------
  // The service name

  /** Lines 151-155 from the current `serviceName` onwards over the remaining path parts. */
  function ServiceNameFrom(serviceName: string, parts: seq<string>): (r: Result<string, Panic>)
    ensures r.Failure? ==>
      r.error.MissingDash? && r.error.pathPart in parts
      && Contains(r.error.pathPart, "service") && '-' !in r.error.pathPart
    ensures r.Success? ==> r.value == serviceName || '-' !in r.value
    decreases |parts|
  {
    if parts == [] then Success(serviceName)
    else if Contains(parts[0], "service") then
      SplitFields(parts[0], '-');
      var dashed := Split(parts[0], '-');
      if |dashed| < 2 then Failure(MissingDash(parts[0]))
      else ServiceNameFrom(dashed[1], parts[1..])
    else ServiceNameFrom(serviceName, parts[1..])
  }

  /** The service name chosen from a `/`-separated secret path. */
  function ServiceName(secretPath: string): (r: Result<string, Panic>)
    ensures r.Failure? ==> r.error.MissingDash? && '/' !in r.error.pathPart && '-' !in r.error.pathPart
    ensures r.Success? ==> '-' !in r.value
  {
    ServiceNameFrom("", Split(secretPath, '/'))
  }

  /** Reference definition: the last part containing "service", searching from the end. */
  function LastServicePart(parts: seq<string>): Option<string>
    decreases |parts|
  {
    if parts == [] then None
    else if Contains(parts[|parts| - 1], "service") then Some(parts[|parts| - 1])
    else LastServicePart(parts[..|parts| - 1])
  }

  lemma {:induction false} LastServicePartCons(p: string, rest: seq<string>)
    ensures LastServicePart([p] + rest) ==
      if LastServicePart(rest).Some? then LastServicePart(rest)
      else if Contains(p, "service") then Some(p) else None
    decreases |rest|
  {
    var ps := [p] + rest;
    if rest == [] {
      assert ps[..0] == [];
    } else {
      assert ps[|ps| - 1] == rest[|rest| - 1];
      assert ps[..|ps| - 1] == [p] + rest[..|rest| - 1];
      LastServicePartCons(p, rest[..|rest| - 1]);
    }
  }

  lemma {:induction false} LastServicePartIn(parts: seq<string>)
    ensures LastServicePart(parts).Some? ==>
      LastServicePart(parts).value in parts && Contains(LastServicePart(parts).value, "service")
    decreases |parts|
  {
    if parts != [] {
      LastServicePartIn(parts[..|parts| - 1]);
    }
  }

  /** The walk over the parts panics exactly when a part containing "service" has no `-`;
      otherwise the name is the text between the first and second `-` of the last such
      part, or the starting name when no part contains "service". */
  lemma {:induction false} ServiceNameFromOutcome(serviceName: string, parts: seq<string>)
    ensures ServiceNameFrom(serviceName, parts).Failure? <==>
      exists j :: 0 <= j < |parts| && Contains(parts[j], "service") && '-' !in parts[j]
    ensures ServiceNameFrom(serviceName, parts).Success? ==>
      ServiceNameFrom(serviceName, parts).value ==
        match LastServicePart(parts)
        case None => serviceName
        case Some(p) => SecondField(p, '-')
    decreases |parts|
  {
    if parts != [] {
      var p, rest := parts[0], parts[1..];
      assert parts == [p] + rest;
      forall j | 1 <= j < |parts| ensures parts[j] == rest[j - 1] { }
      LastServicePartCons(p, rest);
      if Contains(p, "service") {
        var dashed := Split(p, '-');
        SplitFields(p, '-');
        if |dashed| >= 2 {
          ServiceNameFromOutcome(dashed[1], rest);
        }
      } else {
        ServiceNameFromOutcome(serviceName, rest);
      }
    }
  }

  /** What a secret path yields: a panic exactly when one of its `/` parts contains
      "service" but no `-`; otherwise the text between the first and second `-` of the
      last part containing "service", or "" when there is none.  The name has neither a
      `/` nor a `-` in it. */
  lemma ServiceNameOutcome(secretPath: string)
    ensures var parts := Split(secretPath, '/');
      && (ServiceName(secretPath).Failure? <==>
            exists j :: 0 <= j < |parts| && Contains(parts[j], "service") && '-' !in parts[j])
      && (ServiceName(secretPath).Success? ==>
            var name := ServiceName(secretPath).value;
            && name == (match LastServicePart(parts)
                        case None => ""
                        case Some(p) => SecondField(p, '-'))
            && '/' !in name && '-' !in name)
  {
    var parts := Split(secretPath, '/');
    ServiceNameFromOutcome("", parts);
    LastServicePartIn(parts);
    if ServiceName(secretPath).Success? && LastServicePart(parts).Some? {
      var p := LastServicePart(parts).value;
      SplitFields(p, '-');
      SplitAvoids(p, '-', '/');
    }
  }

  /** Lines 149-155: the loop that overwrites `serviceName` for each matching part. */
  method FindServiceName(secretPath: string) returns (r: Result<string, Panic>)
    ensures r == ServiceName(secretPath)
  {
    var s := Split(secretPath, '/');
    var serviceName := "";
    var i := 0;
    while i < |s|
      invariant 0 <= i <= |s|
      invariant ServiceNameFrom(serviceName, s[i..]) == ServiceName(secretPath)
    {
      assert s[i..][0] == s[i] && s[i..][1..] == s[i + 1..];
      var pathPart := s[i];
      if Contains(pathPart, "service") {
        var dashed := Split(pathPart, '-');
        if |dashed| < 2 {
          return Failure(MissingDash(pathPart));
        }
        serviceName := dashed[1];
      }
      i := i + 1;
    }
    return Success(serviceName);
  }

  // ---------------------------------------------------------------------------
  // Names derived from the service name

  /** The namespace: the service name lower-cased, with no upper-case letter left. */
  function Namespace(serviceName: string): (ns: string)
    ensures |ns| == |serviceName|
    ensures forall i :: 0 <= i < |ns| ==> !('A' <= ns[i] <= 'Z')
  {
    ToLowerIsLower(serviceName);
    ToLower(serviceName)
  }

  /** The ConfigMap's name: the namespace followed by "-secure". */
  function ConfigMapName(serviceName: string): (name: string)
    ensures |name| == |serviceName| + 7
    ensures name[..|serviceName|] == Namespace(serviceName)
    ensures name[|serviceName|..] == "-secure"
  {
    Namespace(serviceName) + "-secure"
  }

  /** The output file: `<namespace>.yaml` inside the output directory.  Its `/` parts are
      the directory's, then the file name, whenever the service name holds no `/`. */
  function OutputFile(outputPath: string, serviceName: string): (f: string)
    ensures '/' !in serviceName ==>
      Split(f, '/') == Split(outputPath, '/') + [Namespace(serviceName) + ".yaml"]
  {
    var base := Namespace(serviceName) + ".yaml";
    if '/' !in serviceName then
      ToLowerKeeps(serviceName, '/');
      assert '/' !in base;
      SplitConcat(outputPath, '/', base);
      SplitNoSeparator(base, '/');
      assert outputPath + "/" + base == outputPath + ['/'] + base;
      outputPath + "/" + base
    else
      outputPath + "/" + base
  }

  /** What the program writes: the ConfigMap's name, namespace and data, and the file. */
  datatype Manifest = Manifest(name: string, namespace: string, data: map<string, string>, file: string)

  /** Lines 144-167 once the secret has been fetched: the data map first, then the service
      name, then the names derived from it. */
  function BuildManifest(helmSecretValues: string, secretPath: string, outputPath: string): (r: Result<Manifest, Panic>)
    ensures r.Success? <==> SecretData(helmSecretValues).Success? && ServiceName(secretPath).Success?
    ensures SecretData(helmSecretValues).Failure? ==> r == Failure(SecretData(helmSecretValues).error)
    ensures r.Failure? ==> r.error.MissingValue? || r.error.MissingDash?
  {
    match SecretData(helmSecretValues)
    case Failure(e) => Failure(e)
    case Success(data) =>
      match ServiceName(secretPath)
      case Failure(e) => Failure(e)
      case Success(serviceName) =>
        Success(Manifest(ConfigMapName(serviceName), Namespace(serviceName), data,
                         OutputFile(outputPath, serviceName)))
  }

  /** The namespace is the lower-cased service name, the ConfigMap is named after it with
      "-secure" appended, and the file is `<namespace>.yaml` directly inside the output
      directory: the last `/` part of its path. */
  lemma ManifestNames(helmSecretValues: string, secretPath: string, outputPath: string)
    ensures BuildManifest(helmSecretValues, secretPath, outputPath).Success? ==>
      var m := BuildManifest(helmSecretValues, secretPath, outputPath).value;
      var parts := Split(m.file, '/');
      && m.data == SecretData(helmSecretValues).value
      && m.namespace == ToLower(ServiceName(secretPath).value)
      && (forall i :: 0 <= i < |m.namespace| ==> !('A' <= m.namespace[i] <= 'Z'))
      && m.name == m.namespace + "-secure"
      && m.file == outputPath + "/" + m.namespace + ".yaml"
      && parts[|parts| - 1] == m.namespace + ".yaml"
      && parts[..|parts| - 1] == Split(outputPath, '/')
  {
    if BuildManifest(helmSecretValues, secretPath, outputPath).Success? {
      var serviceName := ServiceName(secretPath).value;
      ServiceNameOutcome(secretPath);
      assert '/' !in serviceName;
    }
  }

  /** Lines 144-167 as the program runs them, with its two loops. */
  method WriteManifest(helmSecretValues: string, secretPath: string, outputPath: string) returns (r: Result<Manifest, Panic>)
    ensures r == BuildManifest(helmSecretValues, secretPath, outputPath)
  {
    var myYaml := BuildSecretData(helmSecretValues);
    if myYaml.Failure? {
      return Failure(myYaml.error);
    }
    var serviceName := FindServiceName(secretPath);
    if serviceName.Failure? {
      return Failure(serviceName.error);
    }
    var name := serviceName.value;
    return Success(Manifest(ConfigMapName(name), Namespace(name), myYaml.value, OutputFile(outputPath, name)));
  }
}
