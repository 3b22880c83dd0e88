/** Crashes between the writes of the flat driver: when a context that is loaded still
    describes the configuration file (exordos_core/network/driver/flat.py). */
module DhcpCrash {
  import opened FlatDriver

  /** The rendering, and the hash of a text under the seed of a process. */
  datatype Env = Env(render: seq<(Subnet, seq<Port>)> -> string, hash: (int, string) -> int)

  function Text(env: Env, pl: Plane): string
  {
    env.render(SubnetMap(pl))
  }

  /** How far an operation has come. */
  datatype Phase =
    | Idle
    | Writing(plane: Plane)
    | Written(plane: Plane)
    | Hashed(plane: Plane, hash: Hash)
    | Saving(plane: Plane, hash: Hash)

  datatype State = State(cfg: string, ctxFile: CtxFile, seed: int, phase: Phase)

  datatype Step =
    | Start(plane: Plane)       // an operation has changed the context it loaded
    | WritePart(text: string)   // a part of the configuration is on disk
    | FinishWrite
    | TakeHash                  // after the service restarted
    | OpenCtx                   // the context file is truncated and partly written
    | FinishCtx
    | Abort                     // an exception leaves the operation
    | Crash(seed: int)          // the process dies, and another one starts
    | Edit(text: string)        // somebody else changes the configuration file
    | LoseCtx                   // somebody deletes the context file
    | FillCtx(torn: bool)       // an empty context is saved in its place

  ghost predicate Next(env: Env, s: State, step: Step, t: State)
  {
    match step
    case Start(pl) => s.phase.Idle? && t == s.(phase := Writing(pl))
    case WritePart(text) => s.phase.Writing? && t == s.(cfg := text)
    case FinishWrite => s.phase.Writing? && t == s.(cfg := Text(env, s.phase.plane), phase := Written(s.phase.plane))
    case TakeHash => s.phase.Written? && t == s.(phase := Hashed(s.phase.plane, Hash(env.hash(s.seed, s.cfg))))
    case OpenCtx => s.phase.Hashed? && t == s.(ctxFile := Torn, phase := Saving(s.phase.plane, s.phase.hash))
    case FinishCtx => s.phase.Saving? && t == s.(ctxFile := Stored(s.phase.hash, s.phase.plane), phase := Idle)
    case Abort => t == s.(phase := Idle)
    case Crash(seed) => t == s.(phase := Idle, seed := seed)
    case Edit(text) => s.phase.Idle? && t == s.(cfg := text)
    case LoseCtx => s.phase.Idle? && t == s.(ctxFile := Missing)
    case FillCtx(torn) =>
      s.phase.Idle? && s.ctxFile.Missing? && t == s.(ctxFile := if torn then Torn else Stored(NoHash, EMPTY))
  }

  /** What an operation that starts now would load. */
  ghost function Loaded(env: Env, s: State): Plane
  {
    if s.ctxFile.Stored? && s.ctxFile.hash == Hash(env.hash(s.seed, s.cfg)) then s.ctxFile.plane else EMPTY
  }

  ghost predicate Initial(s: State)
  {
    s.phase.Idle? && (s.ctxFile.Missing? || s.ctxFile == Stored(NoHash, EMPTY))
  }

  ghost predicate IsRun(env: Env, states: seq<State>, steps: seq<Step>)
  {
    && |states| == |steps| + 1
    && Initial(states[0])
    && forall i :: 0 <= i < |steps| ==> Next(env, states[i], steps[i], states[i + 1])
  }

  /** A context that is not empty describes the configuration file. */
  ghost predicate Agrees(env: Env, s: State)
  {
    Loaded(env, s) != EMPTY ==> s.cfg == Text(env, Loaded(env, s))
  }

  // ------------------------------------------------------------------
  // Every reachable state
  // ------------------------------------------------------------------

  /** The hash is that of the plane's rendering, under the seed of some process. */
  ghost predicate HashOf(env: Env, h: Hash, pl: Plane)
  {
    h.NoHash? || exists seed :: h == Hash(env.hash(seed, Text(env, pl)))
  }

  ghost predicate Inv(env: Env, s: State)
  {
    && (s.ctxFile.Stored? ==> HashOf(env, s.ctxFile.hash, s.ctxFile.plane))
    && (s.phase.Written? ==> s.cfg == Text(env, s.phase.plane))
    && (s.phase.Hashed? || s.phase.Saving? ==> HashOf(env, s.phase.hash, s.phase.plane))
  }

  lemma NextKeepsInv(env: Env, s: State, step: Step, t: State)
    requires Inv(env, s) && Next(env, s, step, t)
    ensures Inv(env, t)
  {
  }

  lemma {:induction false} ReachableInv(env: Env, states: seq<State>, steps: seq<Step>, n: nat)
    requires IsRun(env, states, steps) && n < |states|
    ensures Inv(env, states[n])
  {
    if n > 0 {
      ReachableInv(env, states, steps, n - 1);
      assert Next(env, states[n - 1], steps[n - 1], states[n - 1 + 1]);
      NextKeepsInv(env, states[n - 1], steps[n - 1], states[n]);
    }
  }

  /** No text but the rendering itself has the hash of a rendering, whatever the seeds. */
  ghost predicate CollisionFree(env: Env)
  {
    forall pl, seed, other, text ::
      pl != EMPTY && env.hash(seed, Text(env, pl)) == env.hash(other, text) ==> text == Text(env, pl)
  }

  // ------------------------------------------------------------------
  // What a run can do
  // ------------------------------------------------------------------

  /** An operation without a crash ends with both files written. */
  function Apply(env: Env, s: State, pl: Plane): State
  {
    State(Text(env, pl), Stored(Hash(env.hash(s.seed, Text(env, pl))), pl), s.seed, Idle)
  }

  /** From any reachable state in which no operation is under way, an operation that meets
      no failure ends so. */
  lemma ApplyIsRun(env: Env, states: seq<State>, steps: seq<Step>, pl: Plane)
    returns (longer: seq<State>, more: seq<Step>)
    requires IsRun(env, states, steps) && states[|steps|].phase.Idle?
    ensures IsRun(env, longer, more) && |more| == |steps| + 5 && states <= longer && steps <= more
    ensures longer[|more|] == Apply(env, states[|steps|], pl)
  {
    var s := states[|steps|];
    var a := s.(phase := Writing(pl));
    var b := State(Text(env, pl), s.ctxFile, s.seed, Written(pl));
    var h := Hash(env.hash(s.seed, Text(env, pl)));
    var c := b.(phase := Hashed(pl, h));
    var d := c.(ctxFile := Torn, phase := Saving(pl, h));
    longer := states + [a, b, c, d, Apply(env, s, pl)];
    more := steps + [Start(pl), FinishWrite, TakeHash, OpenCtx, FinishCtx];
    forall i | 0 <= i < |more| ensures Next(env, longer[i], more[i], longer[i + 1]) {
      if i < |steps| { assert Next(env, states[i], steps[i], states[i + 1]); }
    }
  }

  // ------------------------------------------------------------------
  // The driver, between two operations
  // ------------------------------------------------------------------

  function EnvOf(d: FlatBridgeNetworkDriver): Env
  {
    Env(d.render, d.hash)
  }

  function StateOf(d: FlatBridgeNetworkDriver): State
    reads d
  {
    State(d.cfg, d.ctxFile, d.seed, Idle)
  }

  /** What the driver loads is what the state says, and a context is applied exactly when
      the state is the one an operation ends in. */
  lemma DriverIsState(d: FlatBridgeNetworkDriver, pl: Plane)
    requires d.Valid()
    ensures d.Loaded() == Loaded(EnvOf(d), StateOf(d))
    ensures d.Applied(pl) <==> StateOf(d) == Apply(EnvOf(d), StateOf(d), pl)
  {
  }

  /** A colliding text shows: write a configuration, let the process restart with another
      seed, let somebody put the colliding text in its place. */
  lemma CollisionShows(env: Env, pl: Plane, seed: int, other: int, text: string)
    returns (states: seq<State>, steps: seq<Step>)
    requires pl != EMPTY && env.hash(seed, Text(env, pl)) == env.hash(other, text) && text != Text(env, pl)
    ensures IsRun(env, states, steps) && !Agrees(env, states[|steps|])
  {
    var s := State("", Missing, seed, Idle);
    states, steps := ApplyIsRun(env, [s], [], pl);
    var restarted := Apply(env, s, pl).(seed := other);
    states, steps := states + [restarted], steps + [Crash(other)];
    var edited := restarted.(cfg := text);
    states, steps := states + [edited], steps + [Edit(text)];
  }

  ghost predicate AlwaysAgrees(env: Env)
  {
    forall states, steps :: IsRun(env, states, steps) ==> forall i :: 0 <= i < |states| ==> Agrees(env, states[i])
  }

  /** Torn files, failed restarts, crashes and foreign edits never make a stale context
      look current, and a collision of hashes is the only thing that could. */
  lemma CrashConsistentIff(env: Env)
    ensures AlwaysAgrees(env) <==> CollisionFree(env)
  {
    if CollisionFree(env) {
      forall states, steps, i | IsRun(env, states, steps) && 0 <= i < |states| ensures Agrees(env, states[i]) {
        ReachableInv(env, states, steps, i);
      }
    } else {
      var pl, seed, other, text :|
        pl != EMPTY && env.hash(seed, Text(env, pl)) == env.hash(other, text) && text != Text(env, pl);
      var states, steps := CollisionShows(env, pl, seed, other, text);
      assert IsRun(env, states, steps) && !Agrees(env, states[|steps|]);
    }
  }

  /** The hash is kept only while the process lives: where hashes of one text differ
      between seeds, a restart forgets the context although nothing else changed. */
  lemma RestartForgets(env: Env, s: State, t: State, seed: int)
    requires Inv(env, s) && Loaded(env, s) != EMPTY && CollisionFree(env)
    requires Next(env, s, Crash(seed), t)
    ensures Loaded(env, t) != EMPTY <==> env.hash(seed, s.cfg) == env.hash(s.seed, s.cfg)
    ensures Loaded(env, t) == EMPTY || Loaded(env, t) == Loaded(env, s)
  {
  }
}
