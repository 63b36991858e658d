/** The multi-image segmentation store: a dictionary from an image path to the
    ordered list of the segmentations made on that image. */
module Storage {
  import opened Wrappers

  datatype Rgb = Rgb(red: int, green: int, blue: int)

  /** One stored segmentation. The mask, the polygon of (x, y) points and the
      colour travel with the entry; the store itself only looks at `id` and
      `imagePath`. */
  datatype SegmentationEntry = SegmentationEntry(
    id: int,
    imagePath: string,
    labelText: string,
    mask: Option<seq<seq<bool>>>,
    polygon: Option<seq<(real, real)>>,
    color: Option<Rgb>)

  /** The list comprehension `[s for s in segs if s.id != seg_id]`. */
  function WithoutId(segs: seq<SegmentationEntry>, segId: int): (r: seq<SegmentationEntry>)
    ensures |r| <= |segs|
    ensures forall i :: 0 <= i < |r| ==> r[i].id != segId
  {
    if segs == [] then []
    else (if segs[0].id != segId then [segs[0]] else []) + WithoutId(segs[1..], segId)
  }

  /** Filtering keeps every entry whose id differs exactly as often as it
      occurred, and no entry with the removed id. */
  lemma {:induction false} WithoutIdCounts(segs: seq<SegmentationEntry>, segId: int, e: SegmentationEntry)
    ensures multiset(WithoutId(segs, segId))[e] == if e.id == segId then 0 else multiset(segs)[e]
  {
    if segs != [] {
      WithoutIdCounts(segs[1..], segId, e);
      assert segs == [segs[0]] + segs[1..];
    }
  }

  /** Filtering works element by element, so it keeps the original order. */
  lemma {:induction false} WithoutIdDistributes(a: seq<SegmentationEntry>, b: seq<SegmentationEntry>, segId: int)
    ensures WithoutId(a + b, segId) == WithoutId(a, segId) + WithoutId(b, segId)
  {
    if a != [] {
      assert (a + b)[0] == a[0] && (a + b)[1..] == a[1..] + b;
      WithoutIdDistributes(a[1..], b, segId);
      var head := if a[0].id != segId then [a[0]] else [];
      assert WithoutId(a + b, segId) == head + WithoutId(a[1..] + b, segId);
      assert WithoutId(a, segId) == head + WithoutId(a[1..], segId);
    } else {
      assert a + b == b;
    }
  }

  /** Removing the same id twice has the effect of removing it once. */
  lemma {:induction false} WithoutIdIdempotent(segs: seq<SegmentationEntry>, segId: int)
    ensures WithoutId(WithoutId(segs, segId), segId) == WithoutId(segs, segId)
  {
    if segs != [] {
      WithoutIdIdempotent(segs[1..], segId);
      WithoutIdDistributes(if segs[0].id != segId then [segs[0]] else [], WithoutId(segs[1..], segId), segId);
    }
  }

  /** The list is left as it is exactly when no entry carries the id. */
  lemma {:induction false} WithoutIdUnchanged(segs: seq<SegmentationEntry>, segId: int)
    ensures WithoutId(segs, segId) == segs <==> forall i :: 0 <= i < |segs| ==> segs[i].id != segId
  {
    if segs != [] {
      WithoutIdUnchanged(segs[1..], segId);
      if forall i :: 0 <= i < |segs| ==> segs[i].id != segId {
        assert forall i :: 0 <= i < |segs[1..]| ==> segs[1..][i].id != segId by {
          forall i | 0 <= i < |segs[1..]| ensures segs[1..][i].id != segId {
            assert segs[1..][i] == segs[i + 1];
          }
        }
      }
    }
  }

  class SegmentationStorage {
    /** `{image_path: [SegmentationEntry, ...]}` */
    var segmentationsByImage: map<string, seq<SegmentationEntry>>

    constructor ()
      ensures segmentationsByImage == map[]
    {
      segmentationsByImage := map[];
    }

    /** Appends `entry` to the list of its image, creating the key first when
        the image has none yet; every other image keeps its list. */
    method AddSegmentation(entry: SegmentationEntry)
      modifies this
      ensures segmentationsByImage.Keys == old(segmentationsByImage.Keys) + {entry.imagePath}
      ensures segmentationsByImage[entry.imagePath] == old(GetSegmentations(entry.imagePath)) + [entry]
      ensures forall p :: p in old(segmentationsByImage) && p != entry.imagePath ==>
                segmentationsByImage[p] == old(segmentationsByImage[p])
    {
      if entry.imagePath !in segmentationsByImage {
        segmentationsByImage := segmentationsByImage[entry.imagePath := []];
      }
      segmentationsByImage := segmentationsByImage[entry.imagePath := segmentationsByImage[entry.imagePath] + [entry]];
    }

    /** Filters `segId` out of the list of `imagePath`. An unknown path is a
        no-op, and the key stays even when its list becomes empty. */
    method RemoveSegmentationById(imagePath: string, segId: int)
      modifies this
      ensures segmentationsByImage.Keys == old(segmentationsByImage.Keys)
      ensures imagePath !in old(segmentationsByImage) ==> segmentationsByImage == old(segmentationsByImage)
      ensures imagePath in old(segmentationsByImage) ==>
                segmentationsByImage == old(segmentationsByImage)[imagePath := WithoutId(old(segmentationsByImage[imagePath]), segId)]
    {
      if imagePath in segmentationsByImage {
        var segs := segmentationsByImage[imagePath];
        segmentationsByImage := segmentationsByImage[imagePath := WithoutId(segs, segId)];
      }
    }

    /** `dict.get(image_path, [])`: the stored list, or the empty list for an
        image the store does not know. */
    function GetSegmentations(imagePath: string): (r: seq<SegmentationEntry>)
      reads this
      ensures imagePath in segmentationsByImage ==> r == segmentationsByImage[imagePath]
      ensures imagePath !in segmentationsByImage ==> r == []
    {
      if imagePath in segmentationsByImage then segmentationsByImage[imagePath] else []
    }

    /** The whole mapping; it agrees with `GetSegmentations` on every path. */
    function GetAllSegmentations(): (r: map<string, seq<SegmentationEntry>>)
      reads this
      ensures r.Keys == segmentationsByImage.Keys
      ensures forall p :: GetSegmentations(p) == if p in r then r[p] else []
    {
      segmentationsByImage
    }

    /** Forgets every image, keys included. */
    method Clear()
      modifies this
      ensures segmentationsByImage == map[]
    {
      segmentationsByImage := map[];
    }
  }

  /** A client of the store: a second removal of the same id changes nothing. */
  method RemoveTwice(store: SegmentationStorage, imagePath: string, segId: int)
    modifies store
    ensures imagePath !in old(store.segmentationsByImage) ==> store.segmentationsByImage == old(store.segmentationsByImage)
    ensures imagePath in old(store.segmentationsByImage) ==>
              store.segmentationsByImage == old(store.segmentationsByImage)[imagePath := WithoutId(old(store.segmentationsByImage[imagePath]), segId)]
  {
    store.RemoveSegmentationById(imagePath, segId);
    store.RemoveSegmentationById(imagePath, segId);
    if imagePath in old(store.segmentationsByImage) {
      WithoutIdIdempotent(old(store.segmentationsByImage[imagePath]), segId);
    }
  }
}
