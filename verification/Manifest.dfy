/** The manifest of a blob archive: one index layer and one data layer. */
module Manifest {
  import opened Bytes

  datatype MediaType = NoType | ImageManifest | IndexLayer | DataLayer | OtherType(name: string)
  datatype ArtifactType = BlobArtifact | OtherArtifact(name: string)
  datatype Descriptor = Descriptor(mediaType: MediaType, digest: Bytes, size: int)
  datatype OciManifest = OciManifest(mediaType: MediaType, artifactType: ArtifactType, layers: seq<Descriptor>)
  datatype BlobManifest = BlobManifest(raw: OciManifest, digest: Bytes, indexDesc: Descriptor, dataDesc: Descriptor)

  datatype Error =
    | InvalidReference | InvalidManifest | MissingIndex | MissingData | InvalidDescriptor
    | NetworkFailed | SizeMismatch | DigestMismatch | PolicyViolation | TooLarge | CacheFailed
  datatype Outcome<+T> = Done(value: T) | Failed(error: Error)

  function Count(layers: seq<Descriptor>, t: MediaType): nat {
    if layers == [] then 0
    else Count(layers[..|layers| - 1], t) + if layers[|layers| - 1].mediaType == t then 1 else 0
  }

  /** A blob manifest has exactly two layers, an index and a data layer in either order. */
  ghost predicate WellFormed(m: OciManifest) {
    && m.mediaType == ImageManifest && m.artifactType == BlobArtifact && |m.layers| == 2
    && ((m.layers[0].mediaType == IndexLayer && m.layers[1].mediaType == DataLayer)
        || (m.layers[0].mediaType == DataLayer && m.layers[1].mediaType == IndexLayer))
  }

  /** The parsed form of m under a digest. */
  ghost predicate Describes(b: BlobManifest, m: OciManifest, digest: Bytes) {
    && b.raw == m && b.digest == digest
    && b.indexDesc in m.layers && b.indexDesc.mediaType == IndexLayer
    && b.dataDesc in m.layers && b.dataDesc.mediaType == DataLayer
  }

  /** A well-formed manifest has one parsed form. */
  lemma DescribesUnique(a: BlobManifest, b: BlobManifest, m: OciManifest, digest: Bytes)
    requires WellFormed(m) && Describes(a, m, digest) && Describes(b, m, digest)
    ensures a == b
  {
  }

  lemma {:induction false} CountPrefix(layers: seq<Descriptor>, k: nat, t: MediaType)
    requires k <= |layers|
    ensures Count(layers[..k], t) <= Count(layers, t)
    decreases |layers| - k
  {
    if k < |layers| {
      assert layers[..k + 1][..k] == layers[..k];
      CountPrefix(layers, k + 1, t);
    } else {
      assert layers[..k] == layers;
    }
  }

  lemma CountStep(layers: seq<Descriptor>, k: nat, t: MediaType)
    requires k < |layers|
    ensures Count(layers[..k + 1], t) == Count(layers[..k], t) + if layers[k].mediaType == t then 1 else 0
    ensures Count(layers[..k + 1], t) <= Count(layers, t)
  {
    assert layers[..k + 1][..k] == layers[..k];
    CountPrefix(layers, k + 1, t);
  }

  lemma OneOfEach(m: OciManifest)
    ensures WellFormed(m) <==>
            && m.mediaType == ImageManifest && m.artifactType == BlobArtifact && |m.layers| == 2
            && Count(m.layers, IndexLayer) == 1 && Count(m.layers, DataLayer) == 1
  {
    if |m.layers| == 2 {
      var x := m.layers[0];
      assert m.layers[..1] == [x] && [x][..0] == [];
      assert forall t :: Count([x], t) == if x.mediaType == t then 1 else 0;
      assert forall t :: Count(m.layers, t) == Count(m.layers[..1], t) + if m.layers[1].mediaType == t then 1 else 0;
    }
  }

  ghost predicate NoLayer(layers: seq<Descriptor>, t: MediaType) {
    forall i :: 0 <= i < |layers| ==> layers[i].mediaType != t
  }

  ghost predicate TwoLayers(layers: seq<Descriptor>, t: MediaType) {
    exists i, j :: 0 <= i < j < |layers| && layers[i].mediaType == t && layers[j].mediaType == t
  }

  lemma LastLayer(front: seq<Descriptor>, last: Descriptor, t: MediaType)
    ensures NoLayer(front + [last], t) <==> NoLayer(front, t) && last.mediaType != t
    ensures TwoLayers(front + [last], t) <==> TwoLayers(front, t) || (!NoLayer(front, t) && last.mediaType == t)
  {
    var layers, n := front + [last], |front|;
    assert layers[n] == last && forall i :: 0 <= i < n ==> layers[i] == front[i];
    if !NoLayer(front, t) && last.mediaType == t {
      var i :| 0 <= i < n && front[i].mediaType == t;
      assert layers[i].mediaType == t && layers[n].mediaType == t;
    }
    if i, j :| 0 <= i < j < n && front[i].mediaType == t && front[j].mediaType == t {
      assert layers[i].mediaType == t && layers[j].mediaType == t;
    }
  }

  /** What the counts say about the layers. */
  lemma {:induction false} CountMeans(layers: seq<Descriptor>, t: MediaType)
    ensures Count(layers, t) == 0 <==> NoLayer(layers, t)
    ensures Count(layers, t) > 1 <==> TwoLayers(layers, t)
    decreases |layers|
  {
    if layers != [] {
      var n := |layers| - 1;
      CountMeans(layers[..n], t);
      LastLayer(layers[..n], layers[n], t);
      assert layers == layers[..n] + [layers[n]];
    }
  }

  /** Why a manifest is refused. */
  ghost function Refusal(m: OciManifest): Error {
    if m.mediaType != ImageManifest || m.artifactType != BlobArtifact then InvalidManifest
    else if Count(m.layers, IndexLayer) > 1 || Count(m.layers, DataLayer) > 1 then InvalidManifest
    else if Count(m.layers, IndexLayer) == 0 then MissingIndex
    else if Count(m.layers, DataLayer) == 0 then MissingData
    else InvalidManifest
  }

  /** parseBlobManifest. */
  method ParseBlobManifest(m: OciManifest, digest: Bytes) returns (r: Outcome<BlobManifest>)
    ensures r.Done? <==> WellFormed(m)
    ensures r.Done? ==> Describes(r.value, m, digest)
    ensures r.Failed? ==> r.error == Refusal(m)
    ensures r == Failed(MissingIndex) <==>
              && m.mediaType == ImageManifest && m.artifactType == BlobArtifact
              && NoLayer(m.layers, IndexLayer) && !TwoLayers(m.layers, DataLayer)
    ensures r == Failed(MissingData) <==>
              && m.mediaType == ImageManifest && m.artifactType == BlobArtifact
              && !NoLayer(m.layers, IndexLayer) && !TwoLayers(m.layers, IndexLayer) && NoLayer(m.layers, DataLayer)
    ensures r.Failed? ==> r.error in {InvalidManifest, MissingIndex, MissingData}
  {
    OneOfEach(m);
    CountMeans(m.layers, IndexLayer);
    CountMeans(m.layers, DataLayer);
    if m.mediaType != ImageManifest { return Failed(InvalidManifest); }
    if m.artifactType != BlobArtifact { return Failed(InvalidManifest); }
    var indexDesc, dataDesc := Descriptor(NoType, [], 0), Descriptor(NoType, [], 0);
    var foundIndex, foundData := false, false;
    for i := 0 to |m.layers|
      invariant Count(m.layers[..i], IndexLayer) == if foundIndex then 1 else 0
      invariant Count(m.layers[..i], DataLayer) == if foundData then 1 else 0
      invariant foundIndex ==> indexDesc in m.layers && indexDesc.mediaType == IndexLayer
      invariant foundData ==> dataDesc in m.layers && dataDesc.mediaType == DataLayer
    {
      var layer := m.layers[i];
      CountStep(m.layers, i, IndexLayer);
      CountStep(m.layers, i, DataLayer);
      match layer.mediaType {
        case IndexLayer =>
          if foundIndex { return Failed(InvalidManifest); }
          indexDesc, foundIndex := layer, true;
        case DataLayer =>
          if foundData { return Failed(InvalidManifest); }
          dataDesc, foundData := layer, true;
        case _ =>
      }
    }
    assert m.layers[..|m.layers|] == m.layers;
    if !foundIndex { return Failed(MissingIndex); }
    if !foundData { return Failed(MissingData); }
    if |m.layers| != 2 { return Failed(InvalidManifest); }
    return Done(BlobManifest(m, digest, indexDesc, dataDesc));
  }
}
