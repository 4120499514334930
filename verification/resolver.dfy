/**
 The face resolver: one `faceData` message in, one `FaceNames` message out.

 The resolver digests every frame of the batch with the fixed 64 by 64
 hasher, looks the digests up in the face collection in one query, and
 answers, position by position, the name on file and the user's current
 mood. Moods are remembered per user id across messages (`moodByUser`): a
 user seen for the first time gets a random mood; a known user keeps theirs
 unless the keep draw fails, in which case a fresh mood is drawn from all
 four (possibly the same one again).

 The store's reply, the random draws and the keep probability are parameters;
 timestamps are left out of the published record.
 */
module Resolver {
  import opened FaceHash
  import opened Optional
  import Draws
  import Topics

  // ---------------------------------------------------------------------------
  // Moods.

  const Moods: seq<string> := ["relax", "focus", "sleep", "energize"]

  /** The default chance of keeping a known user's mood. */
  const DefaultKeep: real := 0.99

  predicate IsMood(m: string) {
    m in Moods
  }

  /** `moodByUser`: user id to current mood. */
  type MoodMap = map<string, string>

  /** Every remembered mood is one of the four. */
  predicate AllMoods(moods: MoodMap) {
    forall id :: id in moods ==> IsMood(moods[id])
  }

  /** `pickRandomMood`: `MOODS[Math.floor(u * MOODS.length)]`. */
  function PickRandomMood(u: real): (m: string)
    requires Draws.IsUnit(u)
    ensures IsMood(m)
  {
    Moods[Draws.Pick(u, |Moods|)]
  }

  /** Each of the four moods is drawn by some value of `Math.random()`. */
  lemma PickRandomMoodCovers(i: nat)
    requires i < |Moods|
    ensures Draws.IsUnit(i as real / |Moods| as real)
    ensures PickRandomMood(i as real / |Moods| as real) == Moods[i]
  {
    Draws.PickSurjective(i, |Moods|);
  }

  /** The two draws one frame may consume: the keep coin, and the mood draw
      (used only when a mood is picked). */
  datatype MoodDraw = MoodDraw(keep: real, mood: real)

  predicate ValidDraws(ds: seq<MoodDraw>) {
    forall i :: 0 <= i < |ds| ==> Draws.IsUnit(ds[i].keep) && Draws.IsUnit(ds[i].mood)
  }

  /** One pass of the mood update for user `id`: an unseen id gets a random
      mood; a seen id keeps its mood when `keep < pKeep`, and is otherwise
      given a freshly drawn one. */
  function MoodStep(moods: MoodMap, id: string, d: MoodDraw, pKeep: real): (m: MoodMap)
    requires Draws.IsUnit(d.keep) && Draws.IsUnit(d.mood)
    ensures m.Keys == moods.Keys + {id}
    ensures forall k :: k in moods && k != id ==> m[k] == moods[k]
    ensures IsMood(m[id]) || (id in moods && m[id] == moods[id])
  {
    var keep := d.keep < pKeep;
    if id !in moods then moods[id := PickRandomMood(d.mood)]
    else if !keep then moods[id := PickRandomMood(d.mood)]
    else moods
  }

  /** The three cases of the mood update, and what each leaves behind. */
  lemma MoodStepCases(moods: MoodMap, id: string, d: MoodDraw, pKeep: real)
    requires Draws.IsUnit(d.keep) && Draws.IsUnit(d.mood)
    ensures id !in moods ==> MoodStep(moods, id, d, pKeep)[id] == PickRandomMood(d.mood)
    ensures id in moods && d.keep < pKeep ==> MoodStep(moods, id, d, pKeep) == moods
    ensures id in moods && d.keep >= pKeep ==> MoodStep(moods, id, d, pKeep) == moods[id := PickRandomMood(d.mood)]
    ensures AllMoods(moods) ==> AllMoods(MoodStep(moods, id, d, pKeep))
  {
  }

  /** A failed keep coin resamples from all four moods, so the current mood can
      be drawn again: for any keep probability below one there is a failing
      coin whose fresh draw is the old mood. */
  lemma ResampleMayKeepMood(moods: MoodMap, id: string, pKeep: real)
    requires id in moods && IsMood(moods[id])
    requires pKeep < 1.0
    ensures exists d: MoodDraw :: Draws.IsUnit(d.keep) && Draws.IsUnit(d.mood) && d.keep >= pKeep
                                 && MoodStep(moods, id, d, pKeep)[id] == moods[id]
  {
    var i :| 0 <= i < |Moods| && Moods[i] == moods[id];
    PickRandomMoodCovers(i);
    var keep := if pKeep < 0.0 then 0.0 else pKeep;
    var d := MoodDraw(keep, i as real / |Moods| as real);
    assert MoodStep(moods, id, d, pKeep)[id] == moods[id];
  }

  // ---------------------------------------------------------------------------
  // Records.

  /** A document of the face collection, projected to the three fields read. */
  datatype FaceDoc = FaceDoc(faceHash: Digest, name: Option<string>, userId: Option<string>)

  /** The part of a document kept per digest. */
  datatype Rec = Rec(name: Option<string>, userId: Option<string>)

  /** `new Map(docs.map(d => [d.face_hash, {name, user_id}]))`: documents are
      entered in order, so a later document replaces an earlier one with the
      same digest. */
  function RecordMap(docs: seq<FaceDoc>): map<Digest, Rec>
    decreases |docs|
  {
    if |docs| == 0 then map[]
    else
      var d := docs[|docs| - 1];
      RecordMap(docs[..|docs| - 1])[d.faceHash := Rec(d.name, d.userId)]
  }

  /** The digests of a list of documents. */
  function DocHashes(docs: seq<FaceDoc>): set<Digest> {
    set i | 0 <= i < |docs| :: docs[i].faceHash
  }

  /** The map holds exactly the digests of the documents. */
  lemma {:induction false} RecordMapKeys(docs: seq<FaceDoc>)
    ensures RecordMap(docs).Keys == DocHashes(docs)
    decreases |docs|
  {
    if |docs| > 0 {
      var n := |docs| - 1;
      var p := docs[..n];
      RecordMapKeys(p);
      forall i | 0 <= i < |docs|
        ensures docs[i].faceHash in DocHashes(p) + {docs[n].faceHash}
      {
        if i < n {
          assert p[i] == docs[i];
        }
      }
      forall i | 0 <= i < |p|
        ensures p[i].faceHash in DocHashes(docs)
      {
        assert p[i] == docs[i];
      }
      assert DocHashes(docs) == DocHashes(p) + {docs[n].faceHash};
    }
  }

  /** The last document with a digest is the one kept for it. */
  lemma {:induction false} RecordMapLastWins(docs: seq<FaceDoc>, i: nat)
    requires i < |docs|
    requires forall j :: i < j < |docs| ==> docs[j].faceHash != docs[i].faceHash
    ensures docs[i].faceHash in RecordMap(docs)
    ensures RecordMap(docs)[docs[i].faceHash] == Rec(docs[i].name, docs[i].userId)
    decreases |docs|
  {
    var n := |docs| - 1;
    if i < n {
      RecordMapLastWins(docs[..n], i);
    }
  }

  /** The name reported for a digest without a name on file. */
  const UnknownName: string := "unknown"

  /** `rec?.name ?? "unknown"` */
  function NameOf(recs: map<Digest, Rec>, h: Digest): string {
    if h in recs then recs[h].name.GetOr(UnknownName) else UnknownName
  }

  /** `rec?.user_id ?? h`: the user id on file, else the digest itself. */
  function IdOf(recs: map<Digest, Rec>, h: Digest): string {
    if h in recs then recs[h].userId.GetOr(h) else h
  }

  /** Name and id resolution, case by case. */
  lemma ResolutionDefaults(recs: map<Digest, Rec>, h: Digest)
    ensures h !in recs ==> NameOf(recs, h) == "unknown" && IdOf(recs, h) == h
    ensures h in recs && recs[h].name.Some? ==> NameOf(recs, h) == recs[h].name.value
    ensures h in recs && recs[h].name.None? ==> NameOf(recs, h) == "unknown"
    ensures h in recs && recs[h].userId.Some? ==> IdOf(recs, h) == recs[h].userId.value
    ensures h in recs && recs[h].userId.None? ==> IdOf(recs, h) == h
  {
  }

  // ---------------------------------------------------------------------------
  // The per-frame loop.

  datatype UserMood = UserMood(id: string, mood: string)

  /** What the loop builds: the names, the `{id, mood}` entries, and the mood map. */
  datatype Batch = Batch(names: seq<string>, userMoods: seq<UserMood>, moods: MoodMap)

  /** The loop over the digests in order, as a fold over the prefix: frame `i`
      updates the mood of its id, then reports the name and the id's mood. */
  function Resolve(recs: map<Digest, Rec>, hashes: seq<Digest>, ds: seq<MoodDraw>, pKeep: real, moods: MoodMap): (b: Batch)
    requires |ds| >= |hashes| && ValidDraws(ds)
    ensures |b.names| == |hashes| && |b.userMoods| == |hashes|
    ensures |hashes| > 0 ==> IdOf(recs, hashes[|hashes| - 1]) in b.moods
    decreases |hashes|
  {
    if |hashes| == 0 then Batch([], [], moods)
    else
      var n := |hashes| - 1;
      var prev := Resolve(recs, hashes[..n], ds, pKeep, moods);
      var id := IdOf(recs, hashes[n]);
      var m := MoodStep(prev.moods, id, ds[n], pKeep);
      Batch(prev.names + [NameOf(recs, hashes[n])], prev.userMoods + [UserMood(id, m[id])], m)
  }

  /** The fold extended by one digest. */
  lemma ResolveSnoc(recs: map<Digest, Rec>, hashes: seq<Digest>, ds: seq<MoodDraw>, pKeep: real, moods: MoodMap, i: nat)
    requires |ds| >= |hashes| && ValidDraws(ds)
    requires i < |hashes|
    ensures var prev := Resolve(recs, hashes[..i], ds, pKeep, moods);
      var id := IdOf(recs, hashes[i]);
      var m := MoodStep(prev.moods, id, ds[i], pKeep);
      Resolve(recs, hashes[..i + 1], ds, pKeep, moods)
        == Batch(prev.names + [NameOf(recs, hashes[i])], prev.userMoods + [UserMood(id, m[id])], m)
  {
    assert hashes[..i + 1][..i] == hashes[..i];
  }

  /** The ids the batch resolves to. */
  function Ids(recs: map<Digest, Rec>, hashes: seq<Digest>): set<string> {
    set i | 0 <= i < |hashes| :: IdOf(recs, hashes[i])
  }

  /** Entry `i` of the output belongs to frame `i`: its name and id are frame
      `i`'s, and its mood is the id's mood right after step `i`, so a later
      frame with the same id sees the earlier update. */
  lemma {:induction false} ResolvePositional(recs: map<Digest, Rec>, hashes: seq<Digest>, ds: seq<MoodDraw>, pKeep: real, moods: MoodMap, i: nat)
    requires |ds| >= |hashes| && ValidDraws(ds)
    requires i < |hashes|
    ensures var b := Resolve(recs, hashes, ds, pKeep, moods);
      && b.names[i] == NameOf(recs, hashes[i])
      && b.userMoods[i].id == IdOf(recs, hashes[i])
      && b.userMoods[i].mood == Resolve(recs, hashes[..i + 1], ds, pKeep, moods).moods[IdOf(recs, hashes[i])]
    decreases |hashes|
  {
    var n := |hashes| - 1;
    if i < n {
      ResolvePositional(recs, hashes[..n], ds, pKeep, moods, i);
      assert hashes[..n][..i + 1] == hashes[..i + 1];
    } else {
      assert hashes[..i + 1] == hashes;
    }
  }

  /** One more digest adds its id to the batch's ids. */
  lemma IdsSnoc(recs: map<Digest, Rec>, hashes: seq<Digest>)
    requires |hashes| > 0
    ensures Ids(recs, hashes) == Ids(recs, hashes[..|hashes| - 1]) + {IdOf(recs, hashes[|hashes| - 1])}
  {
    var n := |hashes| - 1;
    var p := hashes[..n];
    forall i | 0 <= i < |hashes|
      ensures IdOf(recs, hashes[i]) in Ids(recs, p) + {IdOf(recs, hashes[n])}
    {
      if i < n {
        assert p[i] == hashes[i];
      }
    }
    forall i | 0 <= i < |p|
      ensures IdOf(recs, p[i]) in Ids(recs, hashes)
    {
      assert hashes[i] == p[i];
    }
  }

  /** The map after a batch holds the old ids and exactly the batch's ids
      besides: keys are only ever added. */
  lemma {:induction false} ResolveKeys(recs: map<Digest, Rec>, hashes: seq<Digest>, ds: seq<MoodDraw>, pKeep: real, moods: MoodMap)
    requires |ds| >= |hashes| && ValidDraws(ds)
    ensures Resolve(recs, hashes, ds, pKeep, moods).moods.Keys == moods.Keys + Ids(recs, hashes)
    decreases |hashes|
  {
    if |hashes| > 0 {
      var n := |hashes| - 1;
      ResolveKeys(recs, hashes[..n], ds, pKeep, moods);
      IdsSnoc(recs, hashes);
    }
  }

  /** Ids outside the batch keep their moods. */
  lemma {:induction false} ResolveLeavesOthers(recs: map<Digest, Rec>, hashes: seq<Digest>, ds: seq<MoodDraw>, pKeep: real, moods: MoodMap, id: string)
    requires |ds| >= |hashes| && ValidDraws(ds)
    requires id in moods && id !in Ids(recs, hashes)
    ensures id in Resolve(recs, hashes, ds, pKeep, moods).moods
    ensures Resolve(recs, hashes, ds, pKeep, moods).moods[id] == moods[id]
    decreases |hashes|
  {
    if |hashes| > 0 {
      var n := |hashes| - 1;
      IdsSnoc(recs, hashes);
      ResolveLeavesOthers(recs, hashes[..n], ds, pKeep, moods, id);
    }
  }

  /** Every remembered mood stays one of the four. */
  lemma {:induction false} ResolveKeepsMoods(recs: map<Digest, Rec>, hashes: seq<Digest>, ds: seq<MoodDraw>, pKeep: real, moods: MoodMap)
    requires |ds| >= |hashes| && ValidDraws(ds)
    requires AllMoods(moods)
    ensures AllMoods(Resolve(recs, hashes, ds, pKeep, moods).moods)
    decreases |hashes|
  {
    if |hashes| > 0 {
      var n := |hashes| - 1;
      var p := hashes[..n];
      ResolveKeepsMoods(recs, p, ds, pKeep, moods);
      var prev := Resolve(recs, p, ds, pKeep, moods);
      MoodStepCases(prev.moods, IdOf(recs, hashes[n]), ds[n], pKeep);
    }
  }

  /** Every reported mood is one of the four. */
  lemma {:induction false} ResolveReportsMoods(recs: map<Digest, Rec>, hashes: seq<Digest>, ds: seq<MoodDraw>, pKeep: real, moods: MoodMap)
    requires |ds| >= |hashes| && ValidDraws(ds)
    requires AllMoods(moods)
    ensures forall i :: 0 <= i < |hashes| ==> IsMood(Resolve(recs, hashes, ds, pKeep, moods).userMoods[i].mood)
    decreases |hashes|
  {
    if |hashes| > 0 {
      var n := |hashes| - 1;
      var p := hashes[..n];
      ResolveReportsMoods(recs, p, ds, pKeep, moods);
      ResolveKeepsMoods(recs, p, ds, pKeep, moods);
      var prev := Resolve(recs, p, ds, pKeep, moods);
      var id := IdOf(recs, hashes[n]);
      var m := MoodStep(prev.moods, id, ds[n], pKeep);
      MoodStepCases(prev.moods, id, ds[n], pKeep);
      var b := Resolve(recs, hashes, ds, pKeep, moods);
      assert b.userMoods == prev.userMoods + [UserMood(id, m[id])];
      forall i | 0 <= i < |hashes|
        ensures IsMood(b.userMoods[i].mood)
      {
        if i < n {
          assert b.userMoods[i] == prev.userMoods[i];
        } else {
          assert AllMoods(m) && id in m;
          assert b.userMoods[i].mood == m[id];
        }
      }
    }
  }

  /** The loop body as written for one digest: look up the record, default
      the name and id, draw the keep coin, and update the user's mood. The
      name and id are the record's when it has them; only the entry's user
      is touched, and that user keeps the old mood exactly when already known
      and the coin is below `pKeep`, else gets the freshly drawn one. */
  method ResolveOne(recs: map<Digest, Rec>, h: Digest, d: MoodDraw, pKeep: real, moods0: MoodMap)
    returns (name: string, entry: UserMood, moods: MoodMap)
    requires Draws.IsUnit(d.keep) && Draws.IsUnit(d.mood)
    ensures h in recs && recs[h].name.Some? ==> name == recs[h].name.value
    ensures !(h in recs && recs[h].name.Some?) ==> name == UnknownName
    ensures h in recs && recs[h].userId.Some? ==> entry.id == recs[h].userId.value
    ensures !(h in recs && recs[h].userId.Some?) ==> entry.id == h
    ensures moods.Keys == moods0.Keys + {entry.id}
    ensures forall k :: k in moods0 && k != entry.id ==> moods[k] == moods0[k]
    ensures entry.id in moods0 && d.keep < pKeep ==> moods == moods0
    ensures !(entry.id in moods0 && d.keep < pKeep) ==> moods[entry.id] == PickRandomMood(d.mood)
    ensures entry.mood == moods[entry.id]
  {
    var rec: Option<Rec> := if h in recs then Some(recs[h]) else None;
    name := if rec.Some? then rec.value.name.GetOr(UnknownName) else UnknownName;
    var id := if rec.Some? then rec.value.userId.GetOr(h) else h;
    var keep := d.keep < pKeep;
    moods := moods0;
    if !(id in moods) {
      moods := moods[id := PickRandomMood(d.mood)];
    } else if !keep {
      moods := moods[id := PickRandomMood(d.mood)];
    }
    entry := UserMood(id, moods[id]);
  }

  /** A map that agrees with the mood update case by case is the update. */
  lemma MoodStepDetermined(moods0: MoodMap, id: string, d: MoodDraw, pKeep: real, moods: MoodMap)
    requires Draws.IsUnit(d.keep) && Draws.IsUnit(d.mood)
    requires moods.Keys == moods0.Keys + {id}
    requires forall k :: k in moods0 && k != id ==> moods[k] == moods0[k]
    requires id in moods0 && d.keep < pKeep ==> moods == moods0
    requires !(id in moods0 && d.keep < pKeep) ==> moods[id] == PickRandomMood(d.mood)
    ensures moods == MoodStep(moods0, id, d, pKeep)
  {
    if !(id in moods0 && d.keep < pKeep) {
      assert moods == moods0[id := PickRandomMood(d.mood)];
    }
  }

  /** The loop as written: for each digest in order, resolve it and append the
      name and `{id, mood}`. */
  method ResolveLoop(recs: map<Digest, Rec>, hashes: seq<Digest>, ds: seq<MoodDraw>, pKeep: real, moods0: MoodMap)
    returns (names: seq<string>, userMoods: seq<UserMood>, moods: MoodMap)
    requires |ds| >= |hashes| && ValidDraws(ds)
    ensures Batch(names, userMoods, moods) == Resolve(recs, hashes, ds, pKeep, moods0)
  {
    names, userMoods, moods := [], [], moods0;
    var i := 0;
    while i < |hashes|
      invariant 0 <= i <= |hashes|
      invariant Batch(names, userMoods, moods) == Resolve(recs, hashes[..i], ds, pKeep, moods0)
    {
      var name, entry;
      var before := moods;
      name, entry, moods := ResolveOne(recs, hashes[i], ds[i], pKeep, moods);
      assert name == NameOf(recs, hashes[i]) && entry.id == IdOf(recs, hashes[i]);
      MoodStepDetermined(before, entry.id, ds[i], pKeep, moods);
      ResolveSnoc(recs, hashes, ds, pKeep, moods0, i);
      names := names + [name];
      userMoods := userMoods + [entry];
      i := i + 1;
    }
    assert hashes[..|hashes|] == hashes;
  }

  // ---------------------------------------------------------------------------
  // The message handler.

  /** A `faceData` message: unparsable, or an object with `faces` (`Some` when
      it is an array) and `count` (`Some` when it is a number). A JSON `null`
      payload reads as neither. */
  datatype FacePayload = BadJson | Json(faces: Option<seq<Frame>>, count: Option<real>)

  /** The reply of the batched lookup by digest. */
  datatype Lookup = LookupFailed | Found(docs: seq<FaceDoc>)

  /** `user_moods` is an array of entries, except on the empty paths where it
      is the empty object `{}`. */
  datatype UserMoods = EmptyObject | MoodList(entries: seq<UserMood>)

  /** The published `{room, names, user_moods, count}` (the timestamp is left out). */
  datatype FaceNames = FaceNames(room: string, names: seq<string>, userMoods: UserMoods, count: nat)

  /** What a message leads to: nothing (unparsable), an exception (a frame too
      small for the 64 by 64 hasher), or one publication. */
  datatype Outcome = Dropped | Rejected | Published(topic: string, msg: FaceNames)

  datatype Handled = Handled(outcome: Outcome, moods: MoodMap)

  /** `homeA/<room>/FaceNames` */
  function NamesTopic(room: string): string {
    "homeA/" + room + "/FaceNames"
  }

  function EmptyNames(room: string): FaceNames {
    FaceNames(room, [], EmptyObject, 0)
  }

  /** Every frame of the batch can be read by the 64 by 64 hasher. */
  predicate Readable(fs: seq<Frame>) {
    forall i :: 0 <= i < |fs| ==> Covers(fs[i], ResolverRes, ResolverRes)
  }

  /** `faces.map(hashFace)` */
  function Digests(fs: seq<Frame>): (hs: seq<Digest>)
    requires Readable(fs)
    ensures |hs| == |fs|
    ensures forall i :: 0 <= i < |fs| ==> hs[i] == HashFixed(fs[i])
  {
    seq(|fs|, i requires 0 <= i < |fs| => HashFixed(fs[i]))
  }

  /** On frames of exactly 64 rows of 64 pixels, the digests the resolver
      looks up are the ones the camera computes for the same frames. */
  lemma DigestsMatchCamera(fs: seq<Frame>)
    requires forall i :: 0 <= i < |fs| ==> |fs[i]| == ResolverRes
    requires forall i, y :: 0 <= i < |fs| && 0 <= y < |fs[i]| ==> |fs[i][y]| == ResolverRes
    ensures Readable(fs)
    ensures forall i :: 0 <= i < |fs| ==> Digests(fs)[i] == HashFace(fs[i])
  {
    forall i | 0 <= i < |fs|
      ensures Covers(fs[i], ResolverRes, ResolverRes) && Digests(fs)[i] == HashFace(fs[i])
    {
      FixedAgreesOnExactFrame(fs[i]);
    }
  }

  /** The `message` handler. The digests are computed before the emptiness
      test, so an unreadable frame throws even when `count` is 0. */
  function OnFaceData(topic: string, p: FacePayload, lookup: Lookup, ds: seq<MoodDraw>, pKeep: real, moods: MoodMap): (r: Handled)
    requires ValidDraws(ds)
    requires p.Json? ==> |ds| >= |p.faces.GetOr([])|
  {
    var room := Topics.Room(topic);
    match p
    case BadJson => Handled(Dropped, moods)
    case Json(faces, count) =>
      var fs := faces.GetOr([]);
      if !Readable(fs) then Handled(Rejected, moods)
      else
        var hashes := Digests(fs);
        if |fs| == 0 || count == Some(0.0) then Handled(Published(NamesTopic(room), EmptyNames(room)), moods)
        else match lookup
          case LookupFailed => Handled(Published(NamesTopic(room), EmptyNames(room)), moods)
          case Found(docs) =>
            var b := Resolve(RecordMap(docs), hashes, ds, pKeep, moods);
            Handled(Published(NamesTopic(room), FaceNames(room, b.names, MoodList(b.userMoods), |b.names|)), b.moods)
  }

  /** Unparsable messages publish nothing and leave the moods alone; so do
      batches with a frame the hasher cannot read. */
  lemma NothingPublished(topic: string, p: FacePayload, lookup: Lookup, ds: seq<MoodDraw>, pKeep: real, moods: MoodMap)
    requires ValidDraws(ds)
    requires p.Json? ==> |ds| >= |p.faces.GetOr([])|
    ensures var r := OnFaceData(topic, p, lookup, ds, pKeep, moods);
      !r.outcome.Published? <==> (p.BadJson? || !Readable(p.faces.GetOr([])))
    ensures OnFaceData(topic, p, lookup, ds, pKeep, moods).outcome.Rejected? ==>
      OnFaceData(topic, p, lookup, ds, pKeep, moods).moods == moods
    ensures p.BadJson? ==> OnFaceData(topic, p, lookup, ds, pKeep, moods) == Handled(Dropped, moods)
  {
  }

  /** No frames, `count === 0`, or a failed lookup: the empty record (with
      `user_moods` the empty object) is published to the room's topic, and the
      moods are unchanged. */
  lemma EmptyPaths(topic: string, faces: Option<seq<Frame>>, count: Option<real>, lookup: Lookup, ds: seq<MoodDraw>, pKeep: real, moods: MoodMap)
    requires ValidDraws(ds) && |ds| >= |faces.GetOr([])|
    requires Readable(faces.GetOr([]))
    requires |faces.GetOr([])| == 0 || count == Some(0.0) || lookup.LookupFailed?
    ensures var room := Topics.Room(topic);
      OnFaceData(topic, Json(faces, count), lookup, ds, pKeep, moods)
        == Handled(Published(NamesTopic(room), FaceNames(room, [], EmptyObject, 0)), moods)
  {
  }

  /** A successful lookup publishes what the per-frame loop built and keeps
      the loop's mood map. */
  lemma FoundOutcome(topic: string, fs: seq<Frame>, count: Option<real>, docs: seq<FaceDoc>, ds: seq<MoodDraw>, pKeep: real, moods: MoodMap)
    requires ValidDraws(ds) && |ds| >= |fs|
    requires Readable(fs) && |fs| > 0 && count != Some(0.0)
    ensures var room := Topics.Room(topic);
      var b := Resolve(RecordMap(docs), Digests(fs), ds, pKeep, moods);
      OnFaceData(topic, Json(Some(fs), count), Found(docs), ds, pKeep, moods)
        == Handled(Published(NamesTopic(room), FaceNames(room, b.names, MoodList(b.userMoods), |fs|)), b.moods)
  {
    assert Some(fs).GetOr([]) == fs;
  }

  /** Across a successful message the mood map gains exactly the batch's ids,
      keeps every mood one of the four, and leaves users outside the batch alone. */
  lemma FoundMoods(topic: string, fs: seq<Frame>, count: Option<real>, docs: seq<FaceDoc>, ds: seq<MoodDraw>, pKeep: real, moods: MoodMap)
    requires ValidDraws(ds) && |ds| >= |fs|
    requires Readable(fs) && |fs| > 0 && count != Some(0.0)
    requires AllMoods(moods)
    ensures var r := OnFaceData(topic, Json(Some(fs), count), Found(docs), ds, pKeep, moods);
      && r.moods.Keys == moods.Keys + Ids(RecordMap(docs), Digests(fs))
      && AllMoods(r.moods)
      && (forall id :: id in moods && id !in Ids(RecordMap(docs), Digests(fs)) ==> r.moods[id] == moods[id])
  {
    FoundOutcome(topic, fs, count, docs, ds, pKeep, moods);
    var recs := RecordMap(docs);
    var hs := Digests(fs);
    ResolveKeys(recs, hs, ds, pKeep, moods);
    ResolveKeepsMoods(recs, hs, ds, pKeep, moods);
    forall id | id in moods && id !in Ids(recs, hs)
      ensures Resolve(recs, hs, ds, pKeep, moods).moods[id] == moods[id]
    {
      ResolveLeavesOthers(recs, hs, ds, pKeep, moods, id);
    }
  }
}
