/**
 * The lightbox: a cyclic index over either the static gallery or the
 * filtered shared photos, with previous/next as modular arithmetic.
 */
module Lightbox {
  import opened Wrappers
  import opened SharedPhotos
  import opened JsStrings
  import opened Sequences

  datatype GalleryImage = GalleryImage(src: string, alt: string)

  /** `(i + 1) % n`. Both operands are non-negative, so JavaScript's `%` and Dafny's agree. */
  function NextIndex(i: nat, n: nat): (r: nat)
    requires n > 0
    ensures r < n
    ensures i < n ==> r == if i == n - 1 then 0 else i + 1
  {
    (i + 1) % n
  }

  /** `(i - 1 + n) % n`, for an index `i` that is at least zero. */
  function PrevIndex(i: nat, n: nat): (r: nat)
    requires n > 0
    ensures r < n
    ensures i < n ==> r == if i == 0 then n - 1 else i - 1
  {
    (i - 1 + n) % n
  }

  /** One step round `n` places: forward as next, backward as previous. */
  function Step(i: nat, n: nat, forward: bool): (r: nat)
    requires n > 0
    ensures r < n
  {
    if forward then NextIndex(i, n) else PrevIndex(i, n)
  }

  /** Previous undoes next and next undoes previous. */
  lemma PrevUndoesNext(i: nat, n: nat)
    requires i < n
    ensures PrevIndex(NextIndex(i, n), n) == i
    ensures NextIndex(PrevIndex(i, n), n) == i
  {
  }

  /** Index reached from `i` after `k` presses of next. */
  function NextTimes(i: nat, n: nat, k: nat): (r: nat)
    requires n > 0 && i < n
    ensures r < n
  {
    if k == 0 then i else NextIndex(NextTimes(i, n, k - 1), n)
  }

  /** Away from the end, `k` presses of next move `k` places forward. */
  lemma {:induction false} NextTimesBelowEnd(i: nat, n: nat, k: nat)
    requires i + k < n
    ensures NextTimes(i, n, k) == i + k
  {
    if k > 0 {
      NextTimesBelowEnd(i, n, k - 1);
    }
  }

  lemma {:induction false} NextTimesAdd(i: nat, n: nat, a: nat, b: nat)
    requires n > 0 && i < n
    ensures NextTimes(i, n, a + b) == NextTimes(NextTimes(i, n, a), n, b)
  {
    if b > 0 {
      NextTimesAdd(i, n, a, b - 1);
    }
  }

  /** Pressing next once per photo returns to the starting photo. */
  lemma FullCycle(i: nat, n: nat)
    requires n > 0 && i < n
    ensures NextTimes(i, n, n) == i
  {
    var toLast := n - 1 - i;
    NextTimesBelowEnd(i, n, toLast);
    NextTimesAdd(i, n, toLast, 1);
    assert NextTimes(i, n, toLast + 1) == 0;
    NextTimesAdd(i, n, toLast + 1, i);
    NextTimesBelowEnd(0, n, i);
    assert toLast + 1 + i == n;
  }

  /** The caption the lightbox shows under a shared photo. */
  function SharedCaption(photo: SharedPhoto): string {
    if Truthy(photo.caption) then photo.caption.value + " - " + photo.uploaderName
    else "Shared by " + photo.uploaderName
  }

  /** The images of the gallery items that have one, in item order. */
  function ImagesOf(items: seq<Option<GalleryImage>>): seq<GalleryImage> {
    if items == [] then []
    else
      var last := items[|items| - 1];
      ImagesOf(items[..|items| - 1]) + (if last.Some? then [last.value] else [])
  }

  /** The item values an image list stands for. */
  function AsItems(images: seq<GalleryImage>): (r: seq<Option<GalleryImage>>)
    ensures |r| == |images| && forall j :: 0 <= j < |r| ==> r[j] == Some(images[j])
  {
    seq(|images|, j requires 0 <= j < |images| => Some(images[j]))
  }

  /** Every item's image is collected, as often as it occurs, nothing else is, and the
      collected images keep the order of their items. */
  lemma ImagesOfSpec(items: seq<Option<GalleryImage>>)
    ensures forall x :: multiset(ImagesOf(items))[x] == multiset(items)[Some(x)]
    ensures forall i :: 0 <= i < |items| && items[i].Some? ==> items[i].value in ImagesOf(items)
    ensures IsSubsequence(AsItems(ImagesOf(items)), items)
  {
    ImagesOfCounts(items);
    ImagesOfOrder(items);
    forall i | 0 <= i < |items| && items[i].Some? ensures items[i].value in ImagesOf(items) {
      assert items[i] in multiset(items);
      assert multiset(ImagesOf(items))[items[i].value] > 0;
    }
  }

  lemma {:induction false} ImagesOfCounts(items: seq<Option<GalleryImage>>)
    ensures forall x :: multiset(ImagesOf(items))[x] == multiset(items)[Some(x)]
  {
    if items != [] {
      var init := items[..|items| - 1];
      ImagesOfCounts(init);
      assert init + [items[|items| - 1]] == items;
    }
  }

  lemma {:induction false} ImagesOfOrder(items: seq<Option<GalleryImage>>)
    ensures IsSubsequence(AsItems(ImagesOf(items)), items)
  {
    if items != [] {
      var init := items[..|items| - 1];
      var last := items[|items| - 1];
      ImagesOfOrder(init);
      assert init + [last] == items;
      var r := ImagesOf(init);
      if last.Some? {
        assert ImagesOf(items) == r + [last.value];
        AsItemsSnoc(r, last.value);
        SubsequenceSnoc(AsItems(r), init, last);
      } else {
        assert ImagesOf(items) == r;
        SubsequenceExtend(AsItems(r), init, last);
      }
    }
  }

  /** When every gallery item has an image, a click on item `i` opens image `i`: the collected
      images line up with the items. */
  lemma {:induction false} ImagesOfAllPresent(items: seq<Option<GalleryImage>>)
    requires forall i :: 0 <= i < |items| ==> items[i].Some?
    ensures AsItems(ImagesOf(items)) == items
  {
    if items != [] {
      var init := items[..|items| - 1];
      var last := items[|items| - 1];
      ImagesOfAllPresent(init);
      AsItemsSnoc(ImagesOf(init), last.value);
      assert init + [last] == items;
    }
  }

  lemma AsItemsSnoc(r: seq<GalleryImage>, x: GalleryImage)
    ensures AsItems(r + [x]) == AsItems(r) + [Some(x)]
  {
    var a, b := AsItems(r + [x]), AsItems(r) + [Some(x)];
    assert |a| == |b|;
    forall j | 0 <= j < |a| ensures a[j] == b[j] {
      if j < |r| {
        assert (r + [x])[j] == r[j];
      }
    }
  }

  class LightboxView {
    var galleryImages: seq<GalleryImage>
    var currentGalleryIndex: nat
    var currentSharedPhotoIndex: nat
    var isSharedPhotoLightbox: bool
    var active: bool
    var navVisible: bool
    var caption: string

    /** The shared-photo mode is only ever on while the lightbox is open. */
    ghost predicate Valid()
      reads this
    {
      isSharedPhotoLightbox ==> active
    }

    /** `initGalleryLightbox`: collect the images of the gallery items that have one. */
    constructor (items: seq<Option<GalleryImage>>)
      ensures Valid() && !active && !isSharedPhotoLightbox
      ensures galleryImages == ImagesOf(items)
    {
      var images := [];
      for i := 0 to |items|
        invariant images == ImagesOf(items[..i])
      {
        assert items[..i + 1][..i] == items[..i];
        if items[i].Some? {
          images := images + [items[i].value];
        }
      }
      assert items[..|items|] == items;
      galleryImages := images;
      currentGalleryIndex, currentSharedPhotoIndex := 0, 0;
      isSharedPhotoLightbox, active, navVisible := false, false, false;
      caption := "";
    }

    /** A click on gallery item `index` (its position among all gallery items). */
    method OpenGalleryAt(index: nat)
      requires Valid()
      modifies this
      ensures Valid()
      ensures !isSharedPhotoLightbox && currentGalleryIndex == index
      ensures index < |galleryImages| ==>
                active && caption == galleryImages[index].alt && navVisible == (|galleryImages| > 1)
      ensures index >= |galleryImages| ==>
                active == old(active) && navVisible == old(navVisible) && caption == old(caption)
      ensures galleryImages == old(galleryImages) && currentSharedPhotoIndex == old(currentSharedPhotoIndex)
    {
      isSharedPhotoLightbox := false;
      currentGalleryIndex := index;
      if index < |galleryImages| {
        caption := galleryImages[index].alt;
        active := true;
        navVisible := |galleryImages| > 1;
      }
    }

    /** A click on shared photo `index` of the filtered list `photos`. */
    method OpenSharedAt(index: nat, photos: seq<SharedPhoto>)
      requires Valid()
      modifies this
      ensures Valid()
      ensures |photos| == 0 ==> unchanged(this)
      ensures |photos| > 0 ==>
                active && isSharedPhotoLightbox && currentSharedPhotoIndex == index
                && navVisible == (|photos| > 1)
                && caption == if index < |photos| then SharedCaption(photos[index]) else old(caption)
      ensures galleryImages == old(galleryImages) && currentGalleryIndex == old(currentGalleryIndex)
    {
      if |photos| == 0 {
        return;
      }
      isSharedPhotoLightbox := true;
      currentSharedPhotoIndex := index;
      if index < |photos| {
        caption := SharedCaption(photos[index]);
      }
      active := true;
      navVisible := |photos| > 1;
    }

    /** What `closeLightbox` does: the lightbox closes and leaves shared-photo mode; the
        indices, the caption and the navigation buttons stay as they were. */
    twostate predicate Closed()
      reads this
    {
      && !active && !isSharedPhotoLightbox
      && galleryImages == old(galleryImages) && currentGalleryIndex == old(currentGalleryIndex)
      && currentSharedPhotoIndex == old(currentSharedPhotoIndex)
      && caption == old(caption) && navVisible == old(navVisible)
    }

    method Close()
      modifies this
      ensures Valid()
      ensures Closed()
    {
      active := false;
      isSharedPhotoLightbox := false;
    }

    /** What one press of next (`forward`) or previous does: the index of the collection
        shown moves one step round, and the caption becomes that of the new image; the other
        index, the mode, the visibility and the buttons stay. On an empty collection nothing
        moves. */
    twostate predicate Stepped(photos: seq<SharedPhoto>, forward: bool)
      reads this
    {
      && isSharedPhotoLightbox == old(isSharedPhotoLightbox) && active == old(active)
      && navVisible == old(navVisible) && galleryImages == old(galleryImages)
      && (isSharedPhotoLightbox ==>
            && currentGalleryIndex == old(currentGalleryIndex)
            && if |photos| > 0 then
                 && currentSharedPhotoIndex == Step(old(currentSharedPhotoIndex), |photos|, forward)
                 && caption == SharedCaption(photos[currentSharedPhotoIndex])
               else
                 currentSharedPhotoIndex == old(currentSharedPhotoIndex) && caption == old(caption))
      && (!isSharedPhotoLightbox ==>
            && currentSharedPhotoIndex == old(currentSharedPhotoIndex)
            && if |galleryImages| > 0 then
                 && currentGalleryIndex == Step(old(currentGalleryIndex), |galleryImages|, forward)
                 && caption == galleryImages[currentGalleryIndex].alt
               else
                 currentGalleryIndex == old(currentGalleryIndex) && caption == old(caption))
    }

    /** `handleNext`: one step forward, round the end, in whichever collection is shown. */
    method HandleNext(photos: seq<SharedPhoto>)
      requires Valid()
      modifies this
      ensures Valid()
      ensures Stepped(photos, true)
    {
      if isSharedPhotoLightbox {
        if |photos| > 0 {
          currentSharedPhotoIndex := NextIndex(currentSharedPhotoIndex, |photos|);
          caption := SharedCaption(photos[currentSharedPhotoIndex]);
        }
      } else if |galleryImages| > 0 {
        currentGalleryIndex := NextIndex(currentGalleryIndex, |galleryImages|);
        caption := galleryImages[currentGalleryIndex].alt;
      }
    }

    /** `handlePrev`: one step back, round the start, in whichever collection is shown. */
    method HandlePrev(photos: seq<SharedPhoto>)
      requires Valid()
      modifies this
      ensures Valid()
      ensures Stepped(photos, false)
    {
      if isSharedPhotoLightbox {
        if |photos| > 0 {
          currentSharedPhotoIndex := PrevIndex(currentSharedPhotoIndex, |photos|);
          caption := SharedCaption(photos[currentSharedPhotoIndex]);
        }
      } else if |galleryImages| > 0 {
        currentGalleryIndex := PrevIndex(currentGalleryIndex, |galleryImages|);
        caption := galleryImages[currentGalleryIndex].alt;
      }
    }

    /** The keyboard handler: Escape closes, the arrow keys step; nothing happens while closed. */
    method KeyDown(key: string, photos: seq<SharedPhoto>)
      requires Valid()
      modifies this
      ensures Valid()
      ensures !old(active) ==> unchanged(this)
      ensures old(active) && key == "Escape" ==> Closed()
      ensures old(active) && key == "ArrowLeft" ==> Stepped(photos, false)
      ensures old(active) && key == "ArrowRight" ==> Stepped(photos, true)
      ensures key !in {"Escape", "ArrowLeft", "ArrowRight"} ==> unchanged(this)
    {
      if !active {
        return;
      }
      if key == "Escape" {
        Close();
      } else if key == "ArrowLeft" {
        HandlePrev(photos);
      } else if key == "ArrowRight" {
        HandleNext(photos);
      }
    }
  }
}
