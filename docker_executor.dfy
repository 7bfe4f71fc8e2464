/** The Docker executor's configuration: the builder setters, the
    environment built from one-entry maps, the output mount and environment
    variable Execute adds, and the container command and mounts built by
    createContainer. The Docker client calls themselves are left out. */
module DockerExecutor {
  import opened Common

  /** The container's working directory. */
  const WorkingDir: string := "/app"

  /** Where the container writes its outputs. */
  const OutputPath: string := "/tmp/flow/output"

  const DockerSocket: string := "/var/run/docker.sock"

  datatype MountType = Bind | Volume | Tmpfs

  datatype Mount = Mount(kind: MountType, source: string, target: string)

  /** Every field of the executor that the builders and Execute set. */
  datatype Settings = Settings(
    name: string, image: string, src: string, env: seq<string>, cmd: seq<string>,
    entrypoint: seq<string>, mounts: seq<Mount>, auth: (string, string),
    showImagePull: bool, mountDockerSocket: bool)

  /** The "k=v" string of a map with at most one entry: none for an empty map. */
  ghost function EntryOf(m: map<string, string>): seq<string>
    requires |m| <= 1
  {
    if |m| == 0 then [] else var k :| k in m; [k + "=" + m[k]]
  }

  /** A one-entry map's entry is the one for any key found in it. */
  lemma OneEntry(m: map<string, string>, k: string)
    requires |m| == 1 && k in m
    ensures EntryOf(m) == [k + "=" + m[k]]
  {
    var j :| j in m && EntryOf(m) == [j + "=" + m[j]];
    if j != k {
      SubsetSize({j, k}, m.Keys);
      assert false;
    }
  }

  /** The variables withEnv builds from maps of at most one entry each. */
  ghost function EnvOf(env: seq<map<string, string>>): seq<string>
    requires forall i :: 0 <= i < |env| ==> |env[i]| <= 1
  {
    if env == [] then [] else EntryOf(env[0]) + EnvOf(env[1..])
  }

  /** One-entry maps for a list of key/value pairs. */
  function Singletons(pairs: seq<(string, string)>): (r: seq<map<string, string>>)
    ensures |r| == |pairs|
    ensures forall i :: 0 <= i < |pairs| ==> r[i] == map[pairs[i].0 := pairs[i].1]
  {
    seq(|pairs|, i requires 0 <= i < |pairs| => map[pairs[i].0 := pairs[i].1])
  }

  function Assignments(pairs: seq<(string, string)>): (r: seq<string>)
    ensures |r| == |pairs|
    ensures forall i :: 0 <= i < |pairs| ==> r[i] == pairs[i].0 + "=" + pairs[i].1
  {
    seq(|pairs|, i requires 0 <= i < |pairs| => pairs[i].0 + "=" + pairs[i].1)
  }

  /** Each one-entry map becomes exactly its "k=v", in order. */
  lemma {:induction false} EnvOfSingletons(pairs: seq<(string, string)>)
    ensures forall i :: 0 <= i < |Singletons(pairs)| ==> |Singletons(pairs)[i]| <= 1
    ensures EnvOf(Singletons(pairs)) == Assignments(pairs)
  {
    var s := Singletons(pairs);
    forall i | 0 <= i < |s| ensures |s[i]| <= 1 {
      assert s[i].Keys == {pairs[i].0};
    }
    if pairs != [] {
      EnvOfSingletons(pairs[1..]);
      assert s[1..] == Singletons(pairs[1..]);
      var m := s[0];
      assert m == map[pairs[0].0 := pairs[0].1];
      assert EntryOf(m) == [pairs[0].0 + "=" + pairs[0].1];
      assert Assignments(pairs) == [pairs[0].0 + "=" + pairs[0].1] + Assignments(pairs[1..]);
    }
  }

  /** The pairs list each key of m exactly once, with its value. */
  ghost predicate Enumerates(pairs: seq<(string, string)>, m: map<string, string>)
  {
    && |pairs| == |m|
    && (forall i :: 0 <= i < |pairs| ==> pairs[i].0 in m && m[pairs[i].0] == pairs[i].1)
    && (forall i, j :: 0 <= i < j < |pairs| ==> pairs[i].0 != pairs[j].0)
  }

  /** An enumeration reaches every key of the map. */
  lemma EnumerationCovers(pairs: seq<(string, string)>, m: map<string, string>, k: string)
    requires Enumerates(pairs, m)
    requires k in m
    ensures exists i :: 0 <= i < |pairs| && pairs[i] == (k, m[k])
  {
    var keys := set i | 0 <= i < |pairs| :: pairs[i].0;
    IndexKeysSize(pairs);
    if k !in keys {
      SubsetSize(keys, m.Keys - {k});
      assert false;
    }
    var i :| 0 <= i < |pairs| && pairs[i].0 == k;
    assert pairs[i] == (k, m[k]);
  }

  /** A subset is no larger than its superset. */
  lemma {:induction false} SubsetSize<T>(a: set<T>, b: set<T>)
    requires a <= b
    ensures |a| <= |b|
    decreases |b|
  {
    if a != {} {
      var x :| x in a;
      SubsetSize(a - {x}, b - {x});
    }
  }

  /** Every input reaches the container as its "k=v" variable, ahead of
      OUTPUT, whatever order the map is walked in. */
  lemma EveryInputPassed(pairs: seq<(string, string)>, inputs: map<string, string>, k: string)
    requires Enumerates(pairs, inputs)
    requires k in inputs
    ensures k + "=" + inputs[k] in (Assignments(pairs) + ["OUTPUT=" + OutputPath])[..|inputs|]
  {
    EnumerationCovers(pairs, inputs, k);
    var i :| 0 <= i < |pairs| && pairs[i] == (k, inputs[k]);
    var env := Assignments(pairs) + ["OUTPUT=" + OutputPath];
    assert env[..|inputs|][i] == k + "=" + inputs[k];
  }

  /** Distinct keys at distinct positions: as many keys as pairs. */
  lemma {:induction false} IndexKeysSize(pairs: seq<(string, string)>)
    requires forall i, j :: 0 <= i < j < |pairs| ==> pairs[i].0 != pairs[j].0
    ensures |set i | 0 <= i < |pairs| :: pairs[i].0| == |pairs|
  {
    if pairs != [] {
      var last := |pairs| - 1;
      var init := pairs[..last];
      IndexKeysSize(init);
      var before := set i | 0 <= i < |init| :: init[i].0;
      var after := set i | 0 <= i < |pairs| :: pairs[i].0;
      assert after == before + {pairs[last].0};
      assert pairs[last].0 !in before;
    }
  }

  class DockerExecutor {
    var name: string
    var image: string
    var src: string
    var env: seq<string>
    var cmd: seq<string>
    var entrypoint: seq<string>
    var mounts: seq<Mount>
    /** The registry credentials; their JSON and base64 encoding is left out. */
    var auth: (string, string)
    var showImagePull: bool
    var mountDockerSocket: bool

    ghost function Snapshot(): Settings
      reads this
    {
      Settings(name, image, src, env, cmd, entrypoint, mounts, auth, showImagePull, mountDockerSocket)
    }

    /** NewDockerExecutor, given the job name it derives from the action's
        name and a unique suffix. */
    constructor (jobName: string, showPull: bool, mountSocket: bool)
      ensures Snapshot() == Settings(jobName, "", "", [], [], [], [], ("", ""), showPull, mountSocket)
    {
      name := jobName;
      image := "";
      src := "";
      env := [];
      cmd := [];
      entrypoint := [];
      mounts := [];
      auth := ("", "");
      showImagePull := showPull;
      mountDockerSocket := mountSocket;
    }

    method WithImage(newImage: string)
      modifies this
      ensures Snapshot() == old(Snapshot()).(image := newImage)
    {
      image := newImage;
    }

    /** withSrc stores the cleaned path; `clean` is filepath.Clean. */
    method WithSrc(newSrc: string, clean: string -> string)
      modifies this
      ensures Snapshot() == old(Snapshot()).(src := clean(newSrc))
    {
      src := clean(newSrc);
    }

    method WithCmd(newCmd: seq<string>)
      modifies this
      ensures Snapshot() == old(Snapshot()).(cmd := newCmd)
    {
      cmd := newCmd;
    }

    method WithEntrypoint(newEntrypoint: seq<string>)
      modifies this
      ensures Snapshot() == old(Snapshot()).(entrypoint := newEntrypoint)
    {
      entrypoint := newEntrypoint;
    }

    method WithCredentials(username: string, password: string)
      modifies this
      ensures Snapshot() == old(Snapshot()).(auth := (username, password))
    {
      auth := (username, password);
    }

    /** withMount appends, keeping the earlier mounts. */
    method WithMount(m: Mount)
      modifies this
      ensures Snapshot() == old(Snapshot()).(mounts := old(mounts) + [m])
    {
      mounts := mounts + [m];
    }

    /** withEnv: a map with more than one entry is fatal (the process exits
        and nothing is stored); otherwise the env list is replaced by one
        "k=v" per one-entry map, in order. */
    method WithEnv(vars: seq<map<string, string>>) returns (fatal: bool)
      modifies this
      ensures fatal <==> exists i :: 0 <= i < |vars| && |vars[i]| > 1
      ensures fatal ==> Snapshot() == old(Snapshot())
      ensures !fatal ==> Snapshot() == old(Snapshot()).(env := EnvOf(vars))
    {
      var variables: seq<string> := [];
      var i := 0;
      while i < |vars|
        invariant 0 <= i <= |vars|
        invariant forall j :: 0 <= j < i ==> |vars[j]| <= 1
        invariant variables == EnvOf(vars[..i])
        invariant Snapshot() == old(Snapshot())
      {
        if |vars[i]| > 1 {
          return true;
        }
        assert forall j :: 0 <= j < i ==> vars[..i][j] == vars[j];
        EnvOfSnoc(vars[..i], vars[i]);
        assert vars[..i + 1] == vars[..i] + [vars[i]];
        if |vars[i]| == 1 {
          var k :| k in vars[i];
          OneEntry(vars[i], k);
          variables := variables + [k + "=" + vars[i][k]];
        }
        i := i + 1;
      }
      assert vars[..i] == vars;
      env := variables;
      fatal := false;
    }

    /** The part of Execute that configures the run: a bind mount of the
        output file, one variable per input (in the map's iteration order,
        which is any order) followed by OUTPUT last, the image, and the
        script as the command. */
    method PrepareRun(inputs: map<string, string>, tempFile: string, configImage: string, script: string)
      modifies this
      ensures mounts == old(mounts) + [Mount(Bind, tempFile, OutputPath)]
      ensures image == configImage && cmd == [script]
      ensures exists pairs :: Enumerates(pairs, inputs) && env == Assignments(pairs) + ["OUTPUT=" + OutputPath]
      ensures |env| == |inputs| + 1 && env[|env| - 1] == "OUTPUT=" + OutputPath
      ensures name == old(name) && src == old(src) && entrypoint == old(entrypoint) && auth == old(auth)
      ensures showImagePull == old(showImagePull) && mountDockerSocket == old(mountDockerSocket)
    {
      mounts := mounts + [Mount(Bind, tempFile, OutputPath)];
      var vars, pairs := InputVariables(inputs);
      SingletonsSnoc(pairs, ("OUTPUT", OutputPath));
      vars := vars + [map["OUTPUT" := OutputPath]];
      OutputLast(pairs);
      image := configImage;
      cmd := [script];
      var fatal := WithEnv(vars);
      if fatal {
        assert false;
      }
    }

    /** createContainer: the script lines joined by newlines run through
        /bin/sh -c, or as the single argument when there is an entrypoint;
        the docker socket is mounted iff the option asks for it. The result is
        the command, the mounts and the working directory handed to Docker. */
    method CreateContainer() returns (command: seq<string>, containerMounts: seq<Mount>, workingDir: string)
      modifies this
      ensures |entrypoint| > 0 ==> command == [Join(cmd, "\n")]
      ensures |entrypoint| == 0 ==> command == ["/bin/sh", "-c", Join(cmd, "\n")]
      ensures mountDockerSocket ==> mounts == old(mounts) + [Mount(Bind, DockerSocket, DockerSocket)]
      ensures !mountDockerSocket ==> mounts == old(mounts)
      ensures Snapshot() == old(Snapshot()).(mounts := mounts)
      ensures containerMounts == mounts && workingDir == WorkingDir
    {
      var commandScript := Join(cmd, "\n");
      command := ["/bin/sh", "-c", commandScript];
      if |entrypoint| > 0 {
        command := [commandScript];
      }
      if mountDockerSocket {
        mounts := mounts + [Mount(Bind, DockerSocket, DockerSocket)];
      }
      containerMounts := mounts;
      workingDir := WorkingDir;
    }
  }

  /** The variables Execute builds from the inputs, one one-entry map per
      input in the map's iteration order (any order). */
  method InputVariables(inputs: map<string, string>) returns (vars: seq<map<string, string>>, ghost pairs: seq<(string, string)>)
    ensures Enumerates(pairs, inputs) && vars == Singletons(pairs)
  {
    pairs := [];
    vars := [];
    var remaining := inputs.Keys;
    while remaining != {}
      invariant remaining <= inputs.Keys
      invariant vars == Singletons(pairs)
      invariant |pairs| + |remaining| == |inputs|
      invariant forall i :: 0 <= i < |pairs| ==> pairs[i].0 in inputs && pairs[i].0 !in remaining
      invariant forall i :: 0 <= i < |pairs| ==> inputs[pairs[i].0] == pairs[i].1
      invariant forall i, j :: 0 <= i < j < |pairs| ==> pairs[i].0 != pairs[j].0
      decreases |remaining|
    {
      var k :| k in remaining;
      vars := vars + [map[k := inputs[k]]];
      SingletonsSnoc(pairs, (k, inputs[k]));
      pairs := pairs + [(k, inputs[k])];
      remaining := remaining - {k};
    }
  }

  lemma SingletonsSnoc(pairs: seq<(string, string)>, p: (string, string))
    ensures Singletons(pairs + [p]) == Singletons(pairs) + [map[p.0 := p.1]]
  {
    assert forall i :: 0 <= i < |pairs| ==> (pairs + [p])[i] == pairs[i];
  }

  /** The environment Execute hands to withEnv: the inputs' assignments and
      OUTPUT last, with no map that would be fatal. */
  lemma OutputLast(pairs: seq<(string, string)>)
    ensures var all := Singletons(pairs + [("OUTPUT", OutputPath)]);
      && (forall i :: 0 <= i < |all| ==> |all[i]| <= 1)
      && EnvOf(all) == Assignments(pairs) + ["OUTPUT=" + OutputPath]
  {
    var all := pairs + [("OUTPUT", OutputPath)];
    EnvOfSingletons(all);
    forall i | 0 <= i < |all|
      ensures Assignments(all)[i] == (Assignments(pairs) + ["OUTPUT=" + OutputPath])[i]
    {
      if i < |pairs| {
        assert all[i] == pairs[i];
      }
    }
    assert Assignments(all) == Assignments(pairs) + ["OUTPUT=" + OutputPath];
  }

  /** Appending one map of at most one entry appends its entry. */
  lemma {:induction false} EnvOfSnoc(env: seq<map<string, string>>, m: map<string, string>)
    requires forall i :: 0 <= i < |env| ==> |env[i]| <= 1
    requires |m| <= 1
    ensures EnvOf(env + [m]) == EnvOf(env) + EntryOf(m)
  {
    if env != [] {
      assert (env + [m])[1..] == env[1..] + [m];
      EnvOfSnoc(env[1..], m);
    } else {
      assert env + [m] == [m];
      assert [m][1..] == [];
    }
  }
}
