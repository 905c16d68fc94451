/** Partial patches of the agent's stored configuration, and the seeding of auxiliary task defaults. */
module AgentConfig {
  import opened Prelude
  import opened Json
  import opened DeepMerge

  /** The statuses the agent's web server gives to one GET and one PUT of its configuration. */
  datatype Answer = Answer(getStatus: int, putStatus: int)
  {
    /** The PUT happens only when the GET succeeded. */
    function Status(): int { if getStatus >= 400 then getStatus else putStatus }
  }

  function AsDict(j: Json): Json { if j.Dict? then j else Dict(map[]) }

  function AuxPatch(bodies: map<string, Json>): Json { Dict(map["auxiliary" := Dict(bodies)]) }

  function Only(bodies: map<string, Json>, tasks: set<string>): map<string, Json>
  {
    map k | k in bodies && k in tasks :: bodies[k]
  }

  /** The configuration after the given tasks, and no others, were patched in. */
  function WithTasks(config: Json, bodies: map<string, Json>, tasks: set<string>): Json
  {
    if tasks == {} then config else Overlay(AsDict(config), AuxPatch(Only(bodies, tasks)))
  }

  function AuxOf(config: Json): Json
    requires config.Dict?
  {
    if "auxiliary" in config.m then config.m["auxiliary"] else Null
  }

  function WithAux(base: Json, aux: Json): Json
    requires base.Dict?
  {
    Dict(base.m["auxiliary" := aux])
  }

  lemma AuxTwice(base: Json, x: Json, y: Json)
    requires base.Dict?
    ensures AuxOf(WithAux(base, x)) == x && WithAux(WithAux(base, x), y) == WithAux(base, y)
  {
    assert base.m["auxiliary" := x]["auxiliary" := y] == base.m["auxiliary" := y];
  }

  lemma AuxPatchTouchesOneKey(base: Json, b: map<string, Json>)
    requires base.Dict?
    ensures Overlay(base, AuxPatch(b)) == WithAux(base, Overlay(AuxOf(base), Dict(b)))
  {
    var patched := base.m["auxiliary" := Overlay(AuxOf(base), Dict(b))];
    assert AuxPatch(b).m.Keys == {"auxiliary"};
    assert Overlay(base, AuxPatch(b)).m.Keys == patched.Keys;
    assert Overlay(base, AuxPatch(b)).m == patched;
  }

  lemma OneMoreKey(aux: Json, b: map<string, Json>, k: string, v: Json)
    requires k !in b
    ensures Overlay(Overlay(aux, Dict(b)), Dict(map[k := v])) == Overlay(aux, Dict(b[k := v]))
  {
  }

  lemma OneMorePatch(base: Json, b: map<string, Json>, k: string, v: Json)
    requires base.Dict? && k !in b
    ensures Overlay(Overlay(base, AuxPatch(b)), AuxPatch(map[k := v])) == Overlay(base, AuxPatch(b[k := v]))
  {
    var x, one := Overlay(AuxOf(base), Dict(b)), map[k := v];
    AuxPatchTouchesOneKey(base, b);
    AuxPatchTouchesOneKey(WithAux(base, x), one);
    AuxPatchTouchesOneKey(base, b[k := v]);
    AuxTwice(base, x, Overlay(x, Dict(one)));
    OneMoreKey(AuxOf(base), b, k, v);
  }

  /** One more task on top of a nested patch is the nested patch with that task in it. */
  lemma OneMoreTask(config: Json, bodies: map<string, Json>, tasks: set<string>, k: string)
    requires k in bodies && k !in tasks && tasks <= bodies.Keys
    ensures Overlay(AsDict(WithTasks(config, bodies, tasks)), AuxPatch(map[k := bodies[k]]))
            == WithTasks(config, bodies, tasks + {k})
  {
    var base, b, one := AsDict(config), Only(bodies, tasks), map[k := bodies[k]];
    if tasks == {} {
      assert Only(bodies, tasks + {k}) == one;
    } else {
      assert Only(bodies, tasks + {k}) == b[k := bodies[k]];
      OneMorePatch(base, b, k, bodies[k]);
    }
  }

  /** One-task patches applied one after another. */
  function Sequentially(config: Json, bodies: map<string, Json>, tasks: seq<string>): Json
    requires forall k | k in tasks :: k in bodies
  {
    if tasks == [] then config else
      var last := tasks[|tasks| - 1];
      Overlay(AsDict(Sequentially(config, bodies, tasks[..|tasks| - 1])), AuxPatch(map[last := bodies[last]]))
  }

  lemma {:induction false} SequentialIsWithTasks(config: Json, bodies: map<string, Json>, tasks: seq<string>)
    requires Distinct(tasks) && forall k | k in tasks :: k in bodies
    ensures Sequentially(config, bodies, tasks) == WithTasks(config, bodies, Members(tasks))
  {
    if tasks != [] {
      var before, last := tasks[..|tasks| - 1], tasks[|tasks| - 1];
      SequentialIsWithTasks(config, bodies, before);
      assert Members(tasks) == Members(before) + {last};
      OneMoreTask(config, bodies, Members(before), last);
    }
  }

  /** In any order, the one-task patches end in the configuration of the single nested patch. */
  lemma {:induction false} AnyOrderEqualsNested(config: Json, bodies: map<string, Json>, tasks: seq<string>)
    requires Distinct(tasks) && Members(tasks) == bodies.Keys && tasks != []
    ensures (forall k | k in tasks :: k in bodies)
            && Sequentially(config, bodies, tasks) == Overlay(AsDict(config), AuxPatch(bodies))
  {
    assert forall k | k in tasks :: k in Members(tasks);
    SequentialIsWithTasks(config, bodies, tasks);
    assert tasks[0] in Members(tasks);
    assert Only(bodies, Members(tasks)) == bodies;
  }

  /** The first n tasks whose own patch was stored, in order. */
  function Accepted(tasks: seq<string>, fallback: seq<Answer>, n: nat): seq<string>
    requires n <= |tasks| == |fallback|
  {
    if n == 0 then [] else
      Accepted(tasks, fallback, n - 1) + if fallback[n - 1].Status() < 400 then [tasks[n - 1]] else []
  }

  function Rejected(tasks: seq<string>, fallback: seq<Answer>, n: nat): seq<string>
    requires n <= |tasks| == |fallback|
  {
    if n == 0 then [] else
      Rejected(tasks, fallback, n - 1) + if fallback[n - 1].Status() < 400 then [] else [tasks[n - 1]]
  }

  lemma {:induction false} AcceptedAreTasks(tasks: seq<string>, fallback: seq<Answer>, n: nat)
    requires n <= |tasks| == |fallback|
    ensures Members(Accepted(tasks, fallback, n)) <= Members(tasks[..n])
  {
    if n > 0 {
      AcceptedAreTasks(tasks, fallback, n - 1);
      assert tasks[..n] == tasks[..n - 1] + [tasks[n - 1]];
      assert Members(tasks[..n]) == Members(tasks[..n - 1]) + {tasks[n - 1]};
      assert Members(Accepted(tasks, fallback, n)) <= Members(Accepted(tasks, fallback, n - 1)) + {tasks[n - 1]};
    }
  }

  /** How often x is on the list. */
  function Count<T(==)>(s: seq<T>, x: T): nat
  {
    if s == [] then 0 else Count(s[..|s| - 1], x) + if s[|s| - 1] == x then 1 else 0
  }

  lemma CountAppend<T>(s: seq<T>, k: T, x: T)
    ensures Count(s + [k], x) == Count(s, x) + if k == x then 1 else 0
    ensures Count(s + [], x) == Count(s, x)
  {
    assert (s + [k])[..|s|] == s && s + [] == s;
  }

  /** The two lists together name every task as often as the tasks do: each is reported exactly once. */
  lemma {:induction false} AcceptedAndRejectedPartition(tasks: seq<string>, fallback: seq<Answer>, n: nat, k: string)
    requires n <= |tasks| == |fallback|
    ensures Count(Accepted(tasks, fallback, n), k) + Count(Rejected(tasks, fallback, n), k) == Count(tasks[..n], k)
  {
    if n > 0 {
      AcceptedAndRejectedPartition(tasks, fallback, n - 1, k);
      CountAppend(Accepted(tasks, fallback, n - 1), tasks[n - 1], k);
      CountAppend(Rejected(tasks, fallback, n - 1), tasks[n - 1], k);
      assert tasks[..n][..n - 1] == tasks[..n - 1];
    }
  }

  /** A task is reported as seeded exactly when its own patch was stored. */
  lemma {:induction false} AcceptedIff(tasks: seq<string>, fallback: seq<Answer>, n: nat, i: nat)
    requires i < n <= |tasks| == |fallback| && Distinct(tasks)
    ensures tasks[i] in Members(Accepted(tasks, fallback, n)) <==> fallback[i].Status() < 400
  {
    var before, k := Accepted(tasks, fallback, n - 1), tasks[n - 1];
    assert Members(Accepted(tasks, fallback, n))
        == Members(before) + if fallback[n - 1].Status() < 400 then {k} else {};
    if i < n - 1 {
      AcceptedIff(tasks, fallback, n - 1, i);
    } else {
      AcceptedAreTasks(tasks, fallback, n - 1);
      assert k !in Members(tasks[..n - 1]);
    }
  }

  /** What one accepted one-task patch does to the stored configuration. */
  lemma NextAccepted(config: Json, bodies: map<string, Json>, tasks: seq<string>, fallback: seq<Answer>, i: nat)
    requires i < |tasks| == |fallback| && Distinct(tasks) && Members(tasks) == bodies.Keys
    ensures tasks[i] in bodies
    ensures fallback[i].Status() < 400 ==>
              Overlay(AsDict(WithTasks(config, bodies, Members(Accepted(tasks, fallback, i)))),
                      AuxPatch(map[tasks[i] := bodies[tasks[i]]]))
              == WithTasks(config, bodies, Members(Accepted(tasks, fallback, i + 1)))
  {
    var k, done := tasks[i], Accepted(tasks, fallback, i);
    assert k in Members(tasks);
    AcceptedAreTasks(tasks, fallback, i);
    assert k !in Members(tasks[..i]);
    assert Members(tasks[..i]) <= Members(tasks);
    assert Members(done + [k]) == Members(done) + {k};
    OneMoreTask(config, bodies, Members(done), k);
  }

  class AgentServer {
    var config: Json

    constructor (initial: Json)
      ensures config == initial
    {
      config := initial;
    }

    /** GET, merge, PUT. The server stores the body it accepts and nothing else. */
    method PatchAgentConfig(patch: map<string, Json>, answer: Answer) returns (status: int)
      modifies this
      ensures status == answer.Status()
      ensures status == if answer.getStatus >= 400 then answer.getStatus else answer.putStatus
      ensures config == if status < 400 then Overlay(AsDict(old(config)), Dict(patch)) else old(config)
    {
      if answer.getStatus >= 400 { return answer.getStatus; }
      var body := config;
      var merged := DeepMerge.DeepMerge(if body.Dict? then body.m else map[], patch);
      if answer.putStatus < 400 { config := Dict(merged); }
      status := answer.putStatus;
    }

    /**
     Seeds the auxiliary tasks with one nested patch, or one patch a task when the server rejects that. Whatever the
     statuses, the stored configuration has exactly what is reported as seeded.
     */
    method SeedAuxDefaults(bodies: map<string, Json>, tasks: seq<string>, nested: Answer, fallback: seq<Answer>)
        returns (seeded: seq<string>, skipped: seq<string>)
      requires Distinct(tasks) && Members(tasks) == bodies.Keys && |fallback| == |tasks|
      modifies this
      ensures config == WithTasks(old(config), bodies, Members(seeded))
      ensures if nested.Status() == 400 || nested.Status() == 422 then
                seeded == Accepted(tasks, fallback, |tasks|) && skipped == Rejected(tasks, fallback, |tasks|)
              else if nested.Status() < 400 then seeded == tasks && skipped == []
              else seeded == [] && skipped == tasks
    {
      seeded, skipped := [], [];
      if tasks == [] { return; }
      var status := PatchAgentConfig(map["auxiliary" := Dict(bodies)], nested);
      if status == 400 || status == 422 {
        for i := 0 to |tasks|
          invariant config == WithTasks(old(config), bodies, Members(seeded))
          invariant seeded == Accepted(tasks, fallback, i) && skipped == Rejected(tasks, fallback, i)
        {
          NextAccepted(old(config), bodies, tasks, fallback, i);
          var answer := PatchAgentConfig(map["auxiliary" := Dict(map[tasks[i] := bodies[tasks[i]]])], fallback[i]);
          if answer < 400 { seeded := seeded + [tasks[i]]; } else { skipped := skipped + [tasks[i]]; }
        }
      } else if status < 400 {
        seeded := tasks;
        assert tasks[0] in Members(tasks);
        assert Only(bodies, Members(tasks)) == bodies;
      } else {
        skipped := tasks;
      }
    }
  }
}
