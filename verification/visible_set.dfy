/**
 The camera's visible-face set: an ordered sequence of frames (`visible`) and
 the companion set of their digests (`visibleHashes`).

 The source keeps the two in step by hand at every mutation. Here the
 invariant is stated once (`Synced`) and each mutation the camera performs
 (append a fresh frame, splice one out, clear, rebuild from a command) is
 shown to keep it. The facts hold for any digest function `key`; the camera
 instantiates it with `HashFace`.
 */
module VisibleSet {
  import opened FaceHash

  /** The digests of the frames in a sequence. */
  function Hashes(v: seq<Frame>, key: Frame -> Digest): set<Digest> {
    set f | f in v :: key(f)
  }

  /** No two frames of the sequence share a digest. */
  predicate NoDupHash(v: seq<Frame>, key: Frame -> Digest) {
    forall i, j :: 0 <= i < j < |v| ==> key(v[i]) != key(v[j])
  }

  /** The invariant: the set is exactly the digests of the sequence, and the
      sequence holds each digest once. */
  predicate Synced(v: seq<Frame>, hs: set<Digest>, key: Frame -> Digest) {
    hs == Hashes(v, key) && NoDupHash(v, key)
  }

  /** `facesArr.splice(i, 1)`: drop the frame at `i`, keep the others in order. */
  function RemoveAt(v: seq<Frame>, i: nat): (r: seq<Frame>)
    requires i < |v|
    ensures |r| == |v| - 1
    ensures forall k :: 0 <= k < i ==> r[k] == v[k]
    ensures forall k :: i <= k < |r| ==> r[k] == v[k + 1]
  {
    v[..i] + v[i + 1..]
  }

  // ---------------------------------------------------------------------------
  // Each mutation keeps the invariant.

  /** A digest that is in the set of a sequence belongs to one of its frames. */
  lemma HashWitness(v: seq<Frame>, key: Frame -> Digest, h: Digest) returns (k: nat)
    requires h in Hashes(v, key)
    ensures k < |v| && key(v[k]) == h
  {
    var f :| f in v && key(f) == h;
    k :| k < |v| && v[k] == f;
  }

  /** A digest no frame of the sequence has is not in its digest set. */
  lemma NotInHashes(v: seq<Frame>, key: Frame -> Digest, h: Digest)
    requires forall j :: 0 <= j < |v| ==> key(v[j]) != h
    ensures h !in Hashes(v, key)
  {
    forall f | f in v
      ensures key(f) != h
    {
      var j :| 0 <= j < |v| && v[j] == f;
    }
  }

  /** A synced pair holds exactly as many digests as frames. */
  lemma {:induction false} SyncedCardinality(v: seq<Frame>, hs: set<Digest>, key: Frame -> Digest)
    requires Synced(v, hs, key)
    ensures |hs| == |v|
  {
    if |v| > 0 {
      var n := |v| - 1;
      var p := v[..n];
      assert NoDupHash(p, key);
      SyncedCardinality(p, Hashes(p, key), key);
      assert v == p + [v[n]];
      NotInHashes(p, key, key(v[n]));
      assert Hashes(v, key) == Hashes(p, key) + {key(v[n])};
    }
  }

  /** The empty pair is synced (`visible.length = 0; visibleHashes.clear()`). */
  lemma ClearKeepsSynced(key: Frame -> Digest)
    ensures Synced([], {}, key)
  {
    assert Hashes([], key) == {};
  }

  /** Appending a frame whose digest is not in the set, and adding the digest, keeps the invariant. */
  lemma AddKeepsSynced(v: seq<Frame>, hs: set<Digest>, f: Frame, key: Frame -> Digest)
    requires Synced(v, hs, key)
    requires key(f) !in hs
    ensures Synced(v + [f], hs + {key(f)}, key)
  {
    var w := v + [f];
    assert Hashes(w, key) == Hashes(v, key) + {key(f)} by {
      assert forall g :: g in w <==> g in v || g == f;
    }
    forall i, j | 0 <= i < j < |w|
      ensures key(w[i]) != key(w[j])
    {
      if j == |v| {
        assert w[i] in v;
      } else {
        assert w[i] == v[i] && w[j] == v[j];
      }
    }
  }

  /** Splicing out the frame at `i` and deleting its digest keeps the invariant. */
  lemma RemoveKeepsSynced(v: seq<Frame>, hs: set<Digest>, i: nat, key: Frame -> Digest)
    requires Synced(v, hs, key)
    requires i < |v|
    ensures Synced(RemoveAt(v, i), hs - {key(v[i])}, key)
  {
    var w := RemoveAt(v, i);
    forall a, b | 0 <= a < b < |w|
      ensures key(w[a]) != key(w[b])
    {
      var a' := if a < i then a else a + 1;
      var b' := if b < i then b else b + 1;
      assert w[a] == v[a'] && w[b] == v[b'] && a' < b';
    }
    forall h | h in Hashes(w, key)
      ensures h in hs - {key(v[i])}
    {
      var k := HashWitness(w, key, h);
      var k' := if k < i then k else k + 1;
      assert w[k] == v[k'] && k' != i;
    }
    forall h | h in hs - {key(v[i])}
      ensures h in Hashes(w, key)
    {
      var k := HashWitness(v, key, h);
      assert k != i;
      if k < i {
        assert w[k] == v[k];
      } else {
        assert w[k - 1] == v[k];
      }
    }
  }

  // ---------------------------------------------------------------------------
  // Rebuilding from a command: first occurrence of each digest wins.

  /** The frames kept by the sync loop, in input order: a frame is appended
      unless a frame with the same digest is already kept. */
  function Dedup(fs: seq<Frame>, key: Frame -> Digest): seq<Frame> {
    if |fs| == 0 then []
    else
      var kept := Dedup(fs[..|fs| - 1], key);
      var f := fs[|fs| - 1];
      if key(f) in Hashes(kept, key) then kept else kept + [f]
  }

  /** Index `i` holds the first frame of `fs` with its digest. */
  predicate IsFirst(fs: seq<Frame>, i: nat, key: Frame -> Digest)
    requires i < |fs|
  {
    forall j :: 0 <= j < i ==> key(fs[j]) != key(fs[i])
  }

  /** Reference definition: the first occurrences among the first `n` frames,
      in input order. */
  function FirstOccurrences(fs: seq<Frame>, n: nat, key: Frame -> Digest): seq<Frame>
    requires n <= |fs|
  {
    if n == 0 then []
    else FirstOccurrences(fs, n - 1, key) + (if IsFirst(fs, n - 1, key) then [fs[n - 1]] else [])
  }

  /** Deduplication keeps every digest of the input, and each only once. */
  lemma {:induction false} DedupHashes(fs: seq<Frame>, key: Frame -> Digest)
    ensures Hashes(Dedup(fs, key), key) == Hashes(fs, key)
    ensures NoDupHash(Dedup(fs, key), key)
  {
    if |fs| > 0 {
      var n := |fs| - 1;
      var p := fs[..n];
      var f := fs[n];
      DedupHashes(p, key);
      assert fs == p + [f];
      assert Hashes(fs, key) == Hashes(p, key) + {key(f)} by {
        assert forall g :: g in fs <==> g in p || g == f;
      }
      var kept := Dedup(p, key);
      if key(f) !in Hashes(kept, key) {
        AddKeepsSynced(kept, Hashes(kept, key), f, key);
      }
    }
  }

  /** The sync loop keeps exactly the first occurrence of each digest, in order. */
  lemma {:induction false} DedupIsFirstOccurrences(fs: seq<Frame>, n: nat, key: Frame -> Digest)
    requires n <= |fs|
    ensures Dedup(fs[..n], key) == FirstOccurrences(fs, n, key)
  {
    if n > 0 {
      DedupIsFirstOccurrences(fs, n - 1, key);
      var p := fs[..n - 1];
      assert fs[..n][..n - 1] == p;
      assert fs[..n][n - 1] == fs[n - 1];
      DedupHashes(p, key);
      var h := key(fs[n - 1]);
      if IsFirst(fs, n - 1, key) {
        NotInHashes(p, key, h);
      } else {
        var j :| 0 <= j < n - 1 && key(fs[j]) == h;
        assert p[j] == fs[j];
        assert h in Hashes(p, key);
      }
    }
  }

  /** A sequence that already holds each digest once is kept as it is. */
  lemma {:induction false} DedupOfUnique(fs: seq<Frame>, key: Frame -> Digest)
    requires NoDupHash(fs, key)
    ensures Dedup(fs, key) == fs
  {
    if |fs| > 0 {
      var n := |fs| - 1;
      var p := fs[..n];
      assert NoDupHash(p, key) by {
        forall i, j | 0 <= i < j < |p|
          ensures key(p[i]) != key(p[j])
        {
          assert p[i] == fs[i] && p[j] == fs[j];
        }
      }
      DedupOfUnique(p, key);
      assert forall j :: 0 <= j < |p| ==> key(p[j]) != key(fs[n]) by {
        forall j | 0 <= j < |p|
          ensures key(p[j]) != key(fs[n])
        {
          assert p[j] == fs[j];
        }
      }
      NotInHashes(p, key, key(fs[n]));
      assert Dedup(fs, key) == p + [fs[n]];
      assert p + [fs[n]] == fs;
    }
  }

  /** Syncing twice is syncing once. */
  lemma DedupIdempotent(fs: seq<Frame>, key: Frame -> Digest)
    ensures Dedup(Dedup(fs, key), key) == Dedup(fs, key)
  {
    DedupHashes(fs, key);
    DedupOfUnique(Dedup(fs, key), key);
  }

  /** Every kept frame comes from the input, and the result is never longer. */
  lemma {:induction false} DedupSubset(fs: seq<Frame>, key: Frame -> Digest)
    ensures |Dedup(fs, key)| <= |fs|
    ensures forall f :: f in Dedup(fs, key) ==> f in fs
  {
    if |fs| > 0 {
      var n := |fs| - 1;
      DedupSubset(fs[..n], key);
      assert fs == fs[..n] + [fs[n]];
    }
  }

  /** The sync loop as written: clear, then for each frame in order push it and
      add its digest unless the digest is already present. */
  method SyncLoop(faces: seq<Frame>, key: Frame -> Digest) returns (v: seq<Frame>, hs: set<Digest>)
    ensures v == Dedup(faces, key)
    ensures Synced(v, hs, key)
  {
    v := [];
    hs := {};
    ClearKeepsSynced(key);
    var i := 0;
    while i < |faces|
      invariant 0 <= i <= |faces|
      invariant v == Dedup(faces[..i], key)
      invariant Synced(v, hs, key)
    {
      var f := faces[i];
      var h := key(f);
      assert faces[..i + 1][..i] == faces[..i];
      if h !in hs {
        AddKeepsSynced(v, hs, f, key);
        v := v + [f];
        hs := hs + {h};
      }
      i := i + 1;
    }
    assert faces[..|faces|] == faces;
  }
}
