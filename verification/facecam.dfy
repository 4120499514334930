/**
 The per-room face-camera simulator.

 State: the visible-face set, the motion flag and whether the publish timer
 is running, plus the last state object built for publishing. Three kinds of
 event drive it: a motion message, a sync command, and a timer tick. Each
 tick performs one jitter step (one random draw deciding add / remove /
 nothing) and then publishes the visible frames.

 Random draws, the frame pool and the occasionally generated frame are
 parameters; timestamps are opaque (`Clock` stands for "the time when the
 state object was built").
 */
module FaceCam {
  import opened FaceHash
  import opened VisibleSet
  import opened Optional
  import Draws

  // ---------------------------------------------------------------------------
  // Configuration and state.

  /** Per-room settings of the `facecam` sensor entry. */
  datatype Config = Config(maxFaces: int, pAdd: real, pRemove: real, pNewFace: real, pool: seq<Frame>)

  /** The defaults used when the room file leaves a setting out. */
  function DefaultConfig(pool: seq<Frame>): Config {
    Config(5, 0.45, 0.35, 0.01, pool)
  }

  datatype Stamp = Clock | Given(text: string)

  /** The state object `{faces, count, ts}` that is published. */
  datatype Snapshot = Snapshot(faces: seq<Frame>, count: nat, ts: Stamp)

  const EmptySnapshot: Snapshot := Snapshot([], 0, Clock)

  datatype Cam = Cam(
    visible: seq<Frame>,
    visibleHashes: set<Digest>,
    motionActive: bool,
    timerOn: bool,
    state: Snapshot)

  const Init: Cam := Cam([], {}, false, false, EmptySnapshot)

  /** The invariant kept by every event: the digest set mirrors the sequence,
      and the timer runs exactly while motion is active. */
  predicate Valid(c: Cam) {
    Synced(c.visible, c.visibleHashes, HashFace) && c.timerOn == c.motionActive
  }

  // ---------------------------------------------------------------------------
  // pickUniqueFace

  /** Number of pool samples tried: `min(10, 2 * poolSize)`, none for an empty pool. */
  function Attempts(poolSize: nat): (k: nat)
    ensures k <= 10 && k <= 2 * poolSize
    ensures poolSize > 0 ==> k == 10 || k == 2 * poolSize
  {
    if poolSize == 0 then 0 else if 2 * poolSize < 10 then 2 * poolSize else 10
  }

  /** The draws one pick may consume: one per pool sample, one for the
      novel-frame coin, and the frame `generatePixels` would produce. */
  datatype PickDraws = PickDraws(tries: seq<real>, novel: real, generated: Frame)

  predicate ValidPickDraws(poolSize: nat, d: PickDraws) {
    && |d.tries| >= Attempts(poolSize)
    && (forall t :: 0 <= t < |d.tries| ==> Draws.IsUnit(d.tries[t]))
    && Draws.IsUnit(d.novel)
  }

  /** `FACE_POOL[Math.floor(u * FACE_POOL.length)]` */
  function Candidate(pool: seq<Frame>, u: real): Frame
    requires |pool| > 0 && Draws.IsUnit(u)
  {
    pool[Draws.Pick(u, |pool|)]
  }

  /** The pool loop from try `t` on: the first candidate whose digest is not in `hs`. */
  function TryPool(pool: seq<Frame>, hs: set<Digest>, tries: seq<real>, t: nat, attempts: nat): (r: Option<Frame>)
    requires |pool| > 0
    requires attempts <= |tries|
    requires forall k :: 0 <= k < |tries| ==> Draws.IsUnit(tries[k])
    decreases attempts - t
    ensures r.Some? ==> exists k :: t <= k < attempts && r.value == Candidate(pool, tries[k])
                                   && forall j :: t <= j < k ==> HashFace(Candidate(pool, tries[j])) in hs
    ensures r.Some? ==> HashFace(r.value) !in hs
    ensures r.None? <==> forall k :: t <= k < attempts ==> HashFace(Candidate(pool, tries[k])) in hs
  {
    if t >= attempts then None
    else
      var cand := Candidate(pool, tries[t]);
      if HashFace(cand) !in hs then Some(cand) else TryPool(pool, hs, tries, t + 1, attempts)
  }

  /** `pickUniqueFace`: a frame whose digest is not yet visible, from the pool
      first, else (when the novel-frame coin fires) the generated frame, else none. */
  function PickUnique(cfg: Config, hs: set<Digest>, d: PickDraws): (r: Option<Frame>)
    requires ValidPickDraws(|cfg.pool|, d)
  {
    var fromPool := if |cfg.pool| > 0 then TryPool(cfg.pool, hs, d.tries, 0, Attempts(|cfg.pool|)) else None;
    if fromPool.Some? then fromPool
    else if d.novel < cfg.pNewFace && HashFace(d.generated) !in hs then Some(d.generated)
    else None
  }

  /** What a pick returns: a fresh frame, which is the first pool sample not
      yet visible when there is one, and otherwise the generated frame; and it
      returns nothing exactly when every pool sample was already visible and
      the generated frame was not taken. */
  lemma PickUniqueSpec(cfg: Config, hs: set<Digest>, d: PickDraws)
    requires ValidPickDraws(|cfg.pool|, d)
    ensures var r := PickUnique(cfg, hs, d);
      && (r.Some? ==> HashFace(r.value) !in hs)
      && (r.Some? ==> r.value in cfg.pool || r.value == d.generated)
      && (|cfg.pool| > 0 && (exists k :: 0 <= k < Attempts(|cfg.pool|) && HashFace(Candidate(cfg.pool, d.tries[k])) !in hs) ==>
            r.Some? && exists k :: 0 <= k < Attempts(|cfg.pool|) && r.value == Candidate(cfg.pool, d.tries[k])
                                   && forall j :: 0 <= j < k ==> HashFace(Candidate(cfg.pool, d.tries[j])) in hs)
      && (r.Some? && (|cfg.pool| == 0 || forall k :: 0 <= k < Attempts(|cfg.pool|) ==> HashFace(Candidate(cfg.pool, d.tries[k])) in hs) ==>
            r.value == d.generated && d.novel < cfg.pNewFace)
      && (r.None? <==>
            (|cfg.pool| > 0 ==>
               forall k :: 0 <= k < Attempts(|cfg.pool|) ==> HashFace(Candidate(cfg.pool, d.tries[k])) in hs)
            && !(d.novel < cfg.pNewFace && HashFace(d.generated) !in hs))
  {
    if |cfg.pool| > 0 {
      var fromPool := TryPool(cfg.pool, hs, d.tries, 0, Attempts(|cfg.pool|));
      if fromPool.Some? {
        var k :| 0 <= k < Attempts(|cfg.pool|) && fromPool.value == Candidate(cfg.pool, d.tries[k]);
        assert fromPool.value in cfg.pool;
      }
    }
  }

  // ---------------------------------------------------------------------------
  // maybeJitterFacesArr

  /** The string `maybeJitterFacesArr` returns: "generate", "remove" or "none". */
  datatype Outcome = Generate | Remove | NoChange

  /** One tick's draws: `r`, the pick's draws, and the index draw for a removal. */
  datatype JitterDraws = JitterDraws(r: real, pick: PickDraws, removeAt: real)

  predicate ValidJitterDraws(cfg: Config, d: JitterDraws) {
    Draws.IsUnit(d.r) && Draws.IsUnit(d.removeAt) && ValidPickDraws(|cfg.pool|, d.pick)
  }

  datatype Jittered = Jittered(visible: seq<Frame>, visibleHashes: set<Digest>, outcome: Outcome)

  /** One jitter step on the visible set. */
  function Jitter(cfg: Config, v: seq<Frame>, hs: set<Digest>, d: JitterDraws): (j: Jittered)
    requires ValidJitterDraws(cfg, d)
    ensures j.outcome == Generate <==> |j.visible| == |v| + 1
    ensures j.outcome == Remove <==> |j.visible| == |v| - 1
    ensures j.outcome == NoChange <==> j.visible == v && j.visibleHashes == hs
    ensures |j.visible| <= if |v| < cfg.maxFaces then cfg.maxFaces else |v|
  {
    if d.r < cfg.pAdd then
      if |v| < cfg.maxFaces then
        match PickUnique(cfg, hs, d.pick)
        case Some(f) => Jittered(v + [f], hs + {HashFace(f)}, Generate)
        case None => Jittered(v, hs, NoChange)
      else Jittered(v, hs, NoChange)
    else if d.r > 1.0 - cfg.pRemove then
      if |v| > 0 then
        var i := Draws.Pick(d.removeAt, |v|);
        Jittered(RemoveAt(v, i), hs - {HashFace(v[i])}, Remove)
      else Jittered(v, hs, NoChange)
    else Jittered(v, hs, NoChange)
  }

  /** Every jitter step keeps the visible set synced with its digests. */
  lemma JitterKeepsSynced(cfg: Config, v: seq<Frame>, hs: set<Digest>, d: JitterDraws)
    requires ValidJitterDraws(cfg, d)
    requires Synced(v, hs, HashFace)
    ensures var j := Jitter(cfg, v, hs, d); Synced(j.visible, j.visibleHashes, HashFace)
  {
    if d.r < cfg.pAdd {
      if |v| < cfg.maxFaces && PickUnique(cfg, hs, d.pick).Some? {
        PickUniqueSpec(cfg, hs, d.pick);
        AddKeepsSynced(v, hs, PickUnique(cfg, hs, d.pick).value, HashFace);
      }
    } else if d.r > 1.0 - cfg.pRemove && |v| > 0 {
      RemoveKeepsSynced(v, hs, Draws.Pick(d.removeAt, |v|), HashFace);
    }
  }

  /** The add branch is taken whenever `r < pAdd`, so it wins any overlap with
      the remove range: nothing is ever removed by such a draw, and a frame is
      appended at the end only below capacity, with a digest not yet visible. */
  lemma JitterAddBranch(cfg: Config, v: seq<Frame>, hs: set<Digest>, d: JitterDraws)
    requires ValidJitterDraws(cfg, d)
    requires d.r < cfg.pAdd
    ensures var j := Jitter(cfg, v, hs, d);
      && j.outcome != Remove
      && (j.outcome == Generate ==>
            && |v| < cfg.maxFaces
            && j.visible[..|v|] == v
            && HashFace(j.visible[|v|]) !in hs
            && j.visibleHashes == hs + {HashFace(j.visible[|v|])})
      && (j.outcome == Generate <==> |v| < cfg.maxFaces && PickUnique(cfg, hs, d.pick).Some?)
  {
    var j := Jitter(cfg, v, hs, d);
    if j.outcome == Generate {
      PickUniqueSpec(cfg, hs, d.pick);
      assert j.visible == v + [PickUnique(cfg, hs, d.pick).value];
      assert j.visible[..|v|] == v;
    }
  }

  /** The remove branch needs `r >= pAdd`, `r > 1 - pRemove` and a non-empty
      sequence; it splices out exactly the frame at the drawn index. */
  lemma JitterRemoveBranch(cfg: Config, v: seq<Frame>, hs: set<Digest>, d: JitterDraws)
    requires ValidJitterDraws(cfg, d)
    ensures var j := Jitter(cfg, v, hs, d);
      (j.outcome == Remove <==> d.r >= cfg.pAdd && d.r > 1.0 - cfg.pRemove && |v| > 0)
    ensures var j := Jitter(cfg, v, hs, d);
      j.outcome == Remove ==>
        var i := Draws.Pick(d.removeAt, |v|);
        && j.visible == v[..i] + v[i + 1..]
        && j.visibleHashes == hs - {HashFace(v[i])}
  {
  }

  /** A draw between the two ranges changes nothing. */
  lemma JitterMiddleIsNoOp(cfg: Config, v: seq<Frame>, hs: set<Digest>, d: JitterDraws)
    requires ValidJitterDraws(cfg, d)
    requires cfg.pAdd <= d.r <= 1.0 - cfg.pRemove
    ensures Jitter(cfg, v, hs, d) == Jittered(v, hs, NoChange)
  {
  }

  // ---------------------------------------------------------------------------
  // Timer, publishing and the message handler.

  /** `publishState`: nothing while motion is off; otherwise one jitter step,
      then the state object is rebuilt from the visible frames and published. */
  function PublishState(cfg: Config, c: Cam, d: JitterDraws): (res: (Cam, seq<Snapshot>))
    requires ValidJitterDraws(cfg, d)
  {
    if !c.motionActive then (c, [])
    else
      var j := Jitter(cfg, c.visible, c.visibleHashes, d);
      var snap := Snapshot(j.visible, |j.visible|, Clock);
      (c.(visible := j.visible, visibleHashes := j.visibleHashes, state := snap), [snap])
  }

  /** `startPublishing`: start the timer unless it already runs. */
  function StartPublishing(c: Cam): (c': Cam)
    ensures c'.timerOn
    ensures c' == c.(timerOn := true)
  {
    if c.timerOn then c else c.(timerOn := true)
  }

  /** `stopPublishingAndClear`: stop the timer, empty the visible set, reset the
      state object and publish it. */
  function StopPublishingAndClear(c: Cam): (res: (Cam, Snapshot)) {
    (c.(timerOn := false, visible := [], visibleHashes := {}, state := EmptySnapshot), EmptySnapshot)
  }

  /** A message on the motion topic: unparsable, or `motion` of some type
      (`Some(b)` when it is a boolean). */
  datatype MotionMsg = MotionBadJson | MotionJson(motion: Option<bool>)

  /** A message on the command topic: unparsable, or with `faces` (`Some` when
      it is an array) and `ts` (`Some` when it is a string). */
  datatype CmdMsg = CmdBadJson | CmdJson(faces: Option<seq<Frame>>, ts: Option<string>)

  function OnMotion(c: Cam, m: MotionMsg): (res: (Cam, seq<Snapshot>)) {
    match m
    case MotionBadJson => (c, [])
    case MotionJson(None) => (c, [])
    case MotionJson(Some(on)) =>
      var prev := c.motionActive;
      var c1 := c.(motionActive := on);
      if on && !prev then (StartPublishing(c1), [])
      else if !on && prev then
        var (c2, published) := StopPublishingAndClear(c1);
        (c2, [published, c2.state])
      else (c1, [])
  }

  /** `msg.ts || new Date().toISOString()` */
  function CmdStamp(ts: Option<string>): Stamp {
    if ts.Some? && ts.value != "" then Given(ts.value) else Clock
  }

  function OnCmd(c: Cam, m: CmdMsg): Cam {
    match m
    case CmdBadJson => c
    case CmdJson(faces, ts) =>
      if !c.motionActive then
        var v := Dedup(faces.GetOr([]), HashFace);
        c.(visible := v, visibleHashes := Hashes(v, HashFace), state := Snapshot(v, |v|, CmdStamp(ts)))
      else
        c.(visible := [], visibleHashes := {}, state := EmptySnapshot)
  }

  /** The events the simulator reacts to. A tick fires only while the timer runs. */
  datatype Event = Motion(motion: MotionMsg) | Cmd(cmd: CmdMsg) | Tick(draws: JitterDraws)

  predicate ValidEvent(cfg: Config, e: Event) {
    e.Tick? ==> ValidJitterDraws(cfg, e.draws)
  }

  /** One event: the new state and the state objects published, in order. */
  function OnEvent(cfg: Config, c: Cam, e: Event): (res: (Cam, seq<Snapshot>))
    requires ValidEvent(cfg, e)
  {
    match e
    case Motion(m) => OnMotion(c, m)
    case Cmd(m) => (OnCmd(c, m), [])
    case Tick(d) =>
      if c.timerOn then PublishState(cfg, c, d) else (c, [])
  }

  /** The state after a sequence of events, and everything published on the way. */
  function Run(cfg: Config, c: Cam, es: seq<Event>): (res: (Cam, seq<Snapshot>))
    requires forall k :: 0 <= k < |es| ==> ValidEvent(cfg, es[k])
    decreases |es|
  {
    if |es| == 0 then (c, [])
    else
      var (c1, p1) := OnEvent(cfg, c, es[0]);
      var (c2, p2) := Run(cfg, c1, es[1..]);
      (c2, p1 + p2)
  }

  // ---------------------------------------------------------------------------
  // Properties of the handler.

  /** The initial state satisfies the invariant, so every reachable state does. */
  lemma InitValid()
    ensures Valid(Init)
  {
    ClearKeepsSynced(HashFace);
  }

  /** Every event keeps the invariant. */
  lemma StepKeepsValid(cfg: Config, c: Cam, e: Event)
    requires ValidEvent(cfg, e)
    requires Valid(c)
    ensures Valid(OnEvent(cfg, c, e).0)
  {
    ClearKeepsSynced(HashFace);
    match e
    case Motion(m) =>
    case Cmd(m) =>
      if m.CmdJson? {
        DedupHashes(m.faces.GetOr([]), HashFace);
      }
    case Tick(d) =>
      if c.timerOn {
        JitterKeepsSynced(cfg, c.visible, c.visibleHashes, d);
      }
  }

  /** Every run of events keeps the invariant; with `InitValid`, every state
      the simulator can reach satisfies it. */
  lemma {:induction false} RunKeepsValid(cfg: Config, c: Cam, es: seq<Event>)
    requires forall k :: 0 <= k < |es| ==> ValidEvent(cfg, es[k])
    requires Valid(c)
    ensures Valid(Run(cfg, c, es).0)
    decreases |es|
  {
    if |es| > 0 {
      StepKeepsValid(cfg, c, es[0]);
      RunKeepsValid(cfg, OnEvent(cfg, c, es[0]).0, es[1..]);
    }
  }

  /** Without sync commands, a run that starts within capacity stays within it. */
  lemma {:induction false} RunWithinCapacity(cfg: Config, c: Cam, es: seq<Event>)
    requires forall k :: 0 <= k < |es| ==> ValidEvent(cfg, es[k]) && !es[k].Cmd?
    requires |c.visible| <= cfg.maxFaces
    ensures |Run(cfg, c, es).0.visible| <= cfg.maxFaces
    decreases |es|
  {
    if |es| > 0 {
      var c1 := OnEvent(cfg, c, es[0]).0;
      assert |c1.visible| <= cfg.maxFaces;
      RunWithinCapacity(cfg, c1, es[1..]);
    }
  }

  /** A sync command has no capacity check: syncing while idle keeps every
      distinct digest of the command, however many. */
  lemma CmdHasNoCap(c: Cam, faces: seq<Frame>, ts: Option<string>)
    requires !c.motionActive
    requires NoDupHash(faces, HashFace)
    ensures OnCmd(c, CmdJson(Some(faces), ts)).visible == faces
  {
    DedupOfUnique(faces, HashFace);
    assert Some(faces).GetOr([]) == faces;
  }

  /** A sync command while idle: the visible frames become the first occurrence
      of each digest among the command's frames, in order (none when `faces` is
      not an array); the timestamp is the command's when truthy; motion and the
      timer are untouched. */
  lemma CmdWhileIdle(c: Cam, faces: Option<seq<Frame>>, ts: Option<string>)
    requires !c.motionActive
    ensures var c' := OnCmd(c, CmdJson(faces, ts));
      && c'.visible == FirstOccurrences(faces.GetOr([]), |faces.GetOr([])|, HashFace)
      && Synced(c'.visible, c'.visibleHashes, HashFace)
      && Hashes(c'.visible, HashFace) == Hashes(faces.GetOr([]), HashFace)
      && c'.state.count == |c'.visible|
      && (ts.Some? && ts.value != "" ==> c'.state.ts == Given(ts.value))
      && c'.motionActive == c.motionActive && c'.timerOn == c.timerOn
    ensures faces.None? ==> OnCmd(c, CmdJson(faces, ts)).visible == []
  {
    var fs := faces.GetOr([]);
    assert fs[..|fs|] == fs;
    DedupIsFirstOccurrences(fs, |fs|, HashFace);
    DedupHashes(fs, HashFace);
  }

  /** Syncing with the frames that are already visible changes nothing visible. */
  lemma CmdResyncIsIdentity(c: Cam, ts: Option<string>)
    requires Valid(c) && !c.motionActive
    ensures OnCmd(c, CmdJson(Some(c.visible), ts)).visible == c.visible
    ensures OnCmd(c, CmdJson(Some(c.visible), ts)).visibleHashes == c.visibleHashes
  {
    DedupOfUnique(c.visible, HashFace);
  }

  /** A sync command while active ignores its payload and clears the visible
      set, leaving motion and the timer as they were. */
  lemma CmdWhileActive(c: Cam, m: CmdMsg)
    requires c.motionActive && m.CmdJson?
    ensures var c' := OnCmd(c, m);
      c'.visible == [] && c'.visibleHashes == {} && c'.motionActive && c'.timerOn == c.timerOn
  {
  }

  /** Unparsable messages and non-boolean motion values change nothing and
      publish nothing. */
  lemma MalformedIgnored(c: Cam, motion: Option<bool>)
    ensures OnMotion(c, MotionBadJson) == (c, [])
    ensures motion.None? ==> OnMotion(c, MotionJson(motion)) == (c, [])
    ensures OnCmd(c, CmdBadJson) == c
  {
  }

  /** Motion false to true starts the timer and publishes nothing; true to false
      stops it, empties the visible set and publishes the empty state twice;
      a repeated value only records it. */
  lemma MotionTransitions(c: Cam, on: bool)
    ensures var (c', pub) := OnMotion(c, MotionJson(Some(on)));
      && c'.motionActive == on
      && (on && !c.motionActive ==> c'.timerOn && pub == [] && c'.visible == c.visible)
      && (!on && c.motionActive ==>
            !c'.timerOn && c'.visible == [] && c'.visibleHashes == {}
            && pub == [EmptySnapshot, EmptySnapshot])
      && (on == c.motionActive ==> c' == c && pub == [])
  {
  }

  /** Starting to publish twice is starting once. */
  lemma StartIdempotent(c: Cam)
    ensures StartPublishing(StartPublishing(c)) == StartPublishing(c)
  {
  }

  /** A tick while motion is off does nothing; otherwise it performs exactly
      one jitter step and publishes the visible frames with their count. */
  lemma TickSpec(cfg: Config, c: Cam, d: JitterDraws)
    requires ValidJitterDraws(cfg, d)
    ensures !c.motionActive ==> PublishState(cfg, c, d) == (c, [])
    ensures c.motionActive ==>
      var (c', pub) := PublishState(cfg, c, d);
      var j := Jitter(cfg, c.visible, c.visibleHashes, d);
      && c'.visible == j.visible && c'.visibleHashes == j.visibleHashes
      && pub == [Snapshot(c'.visible, |c'.visible|, Clock)]
      && c'.motionActive && c'.timerOn == c.timerOn
  {
  }
}
