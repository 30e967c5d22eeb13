/**
 * The generator and one sinkhole together: publications interleaved anywhere between the sinkhole's manifest
 * fetch, its blob fetch and its durable writes, with crashes in between.
 */
module World {
  import opened Bytes
  import opened Generate
  import opened Flash
  import opened Manifest
  import opened SlotStore

  /**
   * node: the sinkhole; manifest: the last one it accepted; current: what the generator serves now;
   * published: every blob ever published; hashed: every content whose digest has been relied on.
   */
  datatype World = World(
    node: Node, manifest: Option<Manifest>, current: Option<Artifact>, published: set<bytes>, hashed: set<bytes>)

  /** The generator swaps in another artifact, whose digest is its blob's own. */
  ghost predicate Publication(sha: Sha256, w: World, w': World) {
    exists art: Artifact :: sha(art.blob) == art.sha256
      && w' == w.(current := Some(art), published := w.published + {art.blob}, hashed := w.hashed + {art.blob})
  }

  /** The sinkhole reads the manifest of whatever is being served at that moment. */
  ghost predicate ManifestFetch(w: World, w': World) {
    w.current.Some? && exists v, url ::
      var doc := BuildManifest(w.current.value, v, url);
      Acceptable(doc) && w' == w.(manifest := Some(Content(doc)))
  }

  /** One step of the sinkhole under the manifest it has: any durable write, any received bytes, any crash. */
  ghost predicate NodeStep(sha: Sha256, w: World, w': World) {
    && w' == w.(node := w'.node, hashed := w.hashed + {w'.node.session.blob})
    && (Moves(sha, w.node, w'.node) || (w.manifest.Some? && WritesFor(w.manifest.value, w.node, w'.node)))
  }

  /** A durable write of some update to m. */
  ghost predicate WritesFor(m: Manifest, n: Node, n': Node) {
    exists slot :: Writes(Update(m, slot, n.session), n, n')
  }

  ghost predicate Next(sha: Sha256, w: World, w': World) {
    Publication(sha, w, w') || ManifestFetch(w, w') || NodeStep(sha, w, w')
  }

  ghost predicate Run(sha: Sha256, trace: seq<World>) {
    forall i :: 0 < i < |trace| ==> Next(sha, trace[i - 1], trace[i])
  }

  /** A sinkhole fresh from the factory: no digest on record, nothing served, nothing published yet. */
  ghost predicate Factory(w: World) {
    && WellFormed(w.node.disk, SLOT_SIZE) && w.node.session == NOTHING
    && w.node.disk.nvs.sha == [None, None]
    && w.manifest.None? && w.current.None? && w.published == {}
  }

  ghost predicate PublishedDigest(sha: Sha256, published: set<bytes>, digest: bytes) {
    exists b :: b in published && sha(b) == digest
  }

  /** Every digest the sinkhole holds, in NVS or in its manifest, is that of some published blob. */
  ghost predicate Provenance(sha: Sha256, w: World) {
    && Inv(sha, w.node)
    && (w.current.Some? ==> w.current.value.blob in w.published && sha(w.current.value.blob) == w.current.value.sha256)
    && (w.manifest.Some? ==> PublishedDigest(sha, w.published, w.manifest.value.sha256))
    && KnownDigests(sha, w.published, w.node.disk.nvs)
    && w.published <= w.hashed
    && (Serving(w.node) ==> w.node.session.blob in w.hashed)
  }

  /** Every digest on record is a published one. */
  ghost predicate KnownDigests(sha: Sha256, published: set<bytes>, nvs: Nvs)
    requires |nvs.sha| == SLOTS
  {
    forall s :: 0 <= s < SLOTS && nvs.sha[s].Some? ==> PublishedDigest(sha, published, nvs.sha[s].value)
  }

  lemma WriteKeepsDigests(sha: Sha256, m: Manifest, slot: nat, n: Node, n': Node, published: set<bytes>)
    requires Inv(sha, n) && Writes(Update(m, slot, n.session), n, n') && PublishedDigest(sha, published, m.sha256)
    requires |n.disk.nvs.sha| == |n'.disk.nvs.sha| == SLOTS && KnownDigests(sha, published, n.disk.nvs)
    ensures Inv(sha, n') && KnownDigests(sha, published, n'.disk.nvs)
  {
    StepSafe(sha, Update(m, slot, n.session), n, n');
    hide PublishedDigest, Validates, Inv;
    forall s | 0 <= s < SLOTS && n'.disk.nvs.sha[s].Some?
      ensures PublishedDigest(sha, published, n'.disk.nvs.sha[s].value)
    {
      assert s == 0 || s == 1;
    }
  }

  lemma MoveKeepsDigests(sha: Sha256, n: Node, n': Node, published: set<bytes>)
    requires Inv(sha, n) && Moves(sha, n, n')
    requires |n.disk.nvs.sha| == SLOTS && KnownDigests(sha, published, n.disk.nvs)
    ensures Inv(sha, n') && n'.disk.nvs.sha == n.disk.nvs.sha
  {
    StepOfSafe(sha, {}, n, n');
  }

  lemma InvWellFormed(sha: Sha256, n: Node)
    requires Inv(sha, n)
    ensures |n.disk.nvs.sha| == SLOTS
  {
  }

  lemma NextKeepsProvenance(sha: Sha256, w: World, w': World)
    requires Provenance(sha, w) && Next(sha, w, w')
    ensures Provenance(sha, w')
    ensures w.published <= w'.published && w.hashed <= w'.hashed
  {
    InvWellFormed(sha, w.node);
    if Publication(sha, w, w') {
      hide Inv, Moves, Writes;
    } else if ManifestFetch(w, w') {
      HexRoundTrip(w.current.value.sha256);
      hide Inv, Moves, Writes;
    } else {
      NodeKeepsProvenance(sha, w, w');
    }
  }

  lemma NodeKeepsProvenance(sha: Sha256, w: World, w': World)
    requires Provenance(sha, w) && NodeStep(sha, w, w')
    ensures Provenance(sha, w')
    ensures w.published <= w'.published && w.hashed <= w'.hashed
  {
    InvWellFormed(sha, w.node);
    hide Inv, Moves, Writes, PublishedDigest;
    if Moves(sha, w.node, w'.node) {
      MoveKeepsDigests(sha, w.node, w'.node, w.published);
    } else {
      var slot :| Writes(Update(w.manifest.value, slot, w.node.session), w.node, w'.node);
      WriteShape(Update(w.manifest.value, slot, w.node.session), w.node, w'.node);
      WriteKeepsDigests(sha, w.manifest.value, slot, w.node, w'.node, w.published);
    }
  }

  lemma WriteShape(u: Update, n: Node, n': Node)
    requires Writes(u, n, n')
    ensures |n'.disk.nvs.sha| == SLOTS
  {
  }

  /** The log of a poll of the sinkhole, from any state of the world that has its manifest, is a run of the world. */
  lemma {:induction false} LogIsRun(sha: Sha256, u: Update, log: seq<Node>, w: World) returns (trace: seq<World>)
    requires log != [] && Chain(sha, {u}, log) && w.node == log[0] && w.manifest == Some(u.m)
    ensures |trace| == |log| && Run(sha, trace) && trace[0] == w
    ensures forall i :: 0 <= i < |log| ==>
              trace[i].node == log[i] && trace[i].manifest == w.manifest && trace[i].published == w.published
    decreases |log|
  {
    if |log| == 1 {
      trace := [w];
    } else {
      var k := |log| - 1;
      assert StepOf(sha, {u}, log[k - 1], log[k]);
      hide Moves, Writes, Next;
      assert Chain(sha, {u}, log[..k]) by { ChainUpTo(sha, u, log, k); }
      var before := LogIsRun(sha, u, log[..k], w);
      var next := before[k - 1].(node := log[k], hashed := before[k - 1].hashed + {log[k].session.blob});
      OneMore(sha, u, before[k - 1], next);
      trace := before + [next];
      forall i | 0 < i < |trace| ensures Next(sha, trace[i - 1], trace[i]) {
        if i < k {
          assert trace[i - 1] == before[i - 1] && trace[i] == before[i];
        }
      }
    }
  }

  lemma ChainUpTo(sha: Sha256, u: Update, log: seq<Node>, k: nat)
    requires Chain(sha, {u}, log) && k <= |log|
    ensures Chain(sha, {u}, log[..k])
  {
    hide StepOf;
    forall i | 0 < i < k ensures StepOf(sha, {u}, log[..k][i - 1], log[..k][i]) {
      assert log[..k][i - 1] == log[i - 1] && log[..k][i] == log[i];
    }
  }

  lemma OneMore(sha: Sha256, u: Update, w: World, w': World)
    requires StepOf(sha, {u}, w.node, w'.node) && w.manifest == Some(u.m)
    requires w' == w.(node := w'.node, hashed := w.hashed + {w'.node.session.blob})
    ensures Next(sha, w, w')
  {
    if !Moves(sha, w.node, w'.node) {
      assert Writes(u, w.node, w'.node);
      assert u == Update(u.m, u.slot, w.node.session);
    }
    hide Moves, SlotWrite, Publication, ManifestFetch;
  }

  lemma FactoryKnows(sha: Sha256, w: World)
    requires Factory(w)
    ensures Provenance(sha, w)
  {
  }

  lemma RunNext(sha: Sha256, trace: seq<World>, j: nat)
    requires Run(sha, trace) && 0 < j < |trace|
    ensures Next(sha, trace[j - 1], trace[j])
  {
    hide Next;
  }

  lemma {:induction false} RunKeepsProvenance(sha: Sha256, trace: seq<World>, i: nat, j: nat)
    requires i <= j < |trace| && Run(sha, trace) && Factory(trace[0])
    ensures Provenance(sha, trace[i]) && Provenance(sha, trace[j])
    ensures trace[i].published <= trace[j].published && trace[i].hashed <= trace[j].hashed
    decreases j
  {
    hide *;
    if j == 0 {
      FactoryKnows(sha, trace[0]);
    } else {
      RunNext(sha, trace, j);
      RunKeepsProvenance(sha, trace, if i < j then i else j - 1, j - 1);
      NextKeepsProvenance(sha, trace[j - 1], trace[j]);
    }
  }

  /** What is served validated against a digest on record, so without a collision it is the published blob. */
  lemma ServedIsPublished(sha: Sha256, w: World, hashed: set<bytes>)
    requires Provenance(sha, w) && Serving(w.node) && w.hashed <= hashed && NoCollision(sha, hashed)
    ensures w.node.session.blob in w.published
  {
    var a := w.node.session.active;
    var b :| b in w.published && sha(b) == w.node.disk.nvs.sha[a].value;
    assert sha(w.node.session.blob) == sha(b);
  }

  /**
   * Over every interleaving, whatever the responses contained and wherever power failed: if no two contents
   * hashed in the run collide, every list the sinkhole serves is byte for byte one whole published blob.
   */
  lemma EveryServedListWasPublished(sha: Sha256, trace: seq<World>, i: nat)
    requires i < |trace| && Run(sha, trace) && Factory(trace[0])
    requires NoCollision(sha, trace[|trace| - 1].hashed)
    ensures Serving(trace[i].node) ==> trace[i].node.session.blob in trace[i].published
  {
    RunKeepsProvenance(sha, trace, i, |trace| - 1);
    if Serving(trace[i].node) {
      ServedIsPublished(sha, trace[i], trace[|trace| - 1].hashed);
    }
  }
}
