/**
 * The shared-photo grid: photos are fetched from the hosted table fifty at a
 * time, newest first, appended to `allSharedPhotos`, and narrowed by a text
 * filter into `filteredSharedPhotos`.
 */
module SharedPhotos {
  import opened Wrappers
  import opened JsStrings
  import opened Sequences

  datatype SharedPhoto = SharedPhoto(filePath: string, fileUrl: string, uploaderName: string, caption: Option<string>)

  const PhotosLimit := 50

  /** What `.range(offset, offset + 49)` returns from the table (newest first). */
  function Page(table: seq<SharedPhoto>, offset: nat): (r: seq<SharedPhoto>)
    ensures |r| <= PhotosLimit
    ensures offset <= |table| ==> offset + |r| <= |table| && r == table[offset..offset + |r|]
    ensures offset <= |table| ==> |r| == if |table| - offset < PhotosLimit then |table| - offset else PhotosLimit
  {
    if offset >= |table| then []
    else if |table| - offset < PhotosLimit then table[offset..]
    else table[offset..offset + PhotosLimit]
  }

  /** The pages a visitor gets by pressing "load more" for as long as the page before was full. */
  function PagesFrom(table: seq<SharedPhoto>, offset: nat): seq<SharedPhoto>
    decreases |table| - offset
  {
    var page := Page(table, offset);
    if |page| == PhotosLimit then page + PagesFrom(table, offset + PhotosLimit) else page
  }

  /** Loading pages until a short one arrives yields exactly the rest of the table, in order. */
  lemma {:induction false} PagesFromCoversTable(table: seq<SharedPhoto>, offset: nat)
    requires offset <= |table|
    ensures PagesFrom(table, offset) == table[offset..]
    decreases |table| - offset
  {
    var page := Page(table, offset);
    if |page| == PhotosLimit {
      PagesFromCoversTable(table, offset + PhotosLimit);
      assert table[offset..] == table[offset..offset + PhotosLimit] + table[offset + PhotosLimit..];
    }
  }

  // ------------------------------------------------------------ filter

  /** The filter's test, for a query already lower-cased and trimmed. */
  predicate Matches(photo: SharedPhoto, query: string) {
    Contains(Lower(photo.uploaderName), query)
    || (Truthy(photo.caption) && Contains(Lower(photo.caption.value), query))
  }

  /** `allSharedPhotos.filter(...)`. */
  function FilterPhotos(photos: seq<SharedPhoto>, query: string): (r: seq<SharedPhoto>)
    ensures forall i :: 0 <= i < |r| ==> Matches(r[i], query)
    ensures forall i :: 0 <= i < |photos| && Matches(photos[i], query) ==> photos[i] in r
    ensures IsSubsequence(r, photos)
  {
    if photos == [] then []
    else
      var rest := FilterPhotos(photos[1..], query);
      if Matches(photos[0], query) then [photos[0]] + rest
      else rest
  }

  /** The filter keeps each matching photo as often as it occurs, and no other. */
  lemma {:induction false} FilterPhotosCounts(photos: seq<SharedPhoto>, query: string)
    ensures forall x :: multiset(FilterPhotos(photos, query))[x] == if Matches(x, query) then multiset(photos)[x] else 0
  {
    if photos != [] {
      FilterPhotosCounts(photos[1..], query);
      assert photos == [photos[0]] + photos[1..];
    }
  }

  /** The photos the filter input shows for `input`. */
  function FilterView(all: seq<SharedPhoto>, input: string): seq<SharedPhoto> {
    var query := Trim(Lower(input));
    if query == "" then all else FilterPhotos(all, query)
  }

  /** A blank query shows every photo; any other shows, in order, exactly those photos whose
      uploader name or caption contains it, ignoring case, each as often as it was loaded. */
  lemma FilterViewSpec(all: seq<SharedPhoto>, input: string)
    ensures Trim(Lower(input)) == "" ==> FilterView(all, input) == all
    ensures var v := FilterView(all, input);
            IsSubsequence(v, all)
            && (forall i :: 0 <= i < |all| ==> (all[i] in v <==> Matches(all[i], Trim(Lower(input)))))
            && forall x :: multiset(v)[x] == if Matches(x, Trim(Lower(input))) then multiset(all)[x] else 0
  {
    var q := Trim(Lower(input));
    FilterPhotosCounts(all, q);
    if q == "" {
      SubsequenceOfSelf(all);
      forall x ensures Matches(x, q) {
        assert Lower(x.uploaderName)[..0] == q;
      }
    }
  }

  const NoPhotosYet := "Photos shared during the celebration will appear here."
  const NoPhotosMatch := "No photos match your filter."

  class SharedPhotoFeed {
    /** Whether a database client is configured. */
    const live: bool

    var photosOffset: nat
    var allSharedPhotos: seq<SharedPhoto>
    var filteredSharedPhotos: seq<SharedPhoto>
    var loadMoreVisible: bool
    var noPhotosVisible: bool
    var noPhotosText: string

    /** The offset counts exactly the photos loaded so far. */
    ghost predicate Valid()
      reads this
    {
      photosOffset == |allSharedPhotos|
    }

    constructor (live: bool)
      ensures Valid() && this.live == live
      ensures allSharedPhotos == [] && filteredSharedPhotos == [] && !loadMoreVisible
    {
      this.live := live;
      photosOffset := 0;
      allSharedPhotos, filteredSharedPhotos := [], [];
      loadMoreVisible, noPhotosVisible := false, false;
      noPhotosText := NoPhotosYet;
    }

    /** `renderSharedPhotos`, as far as it concerns the empty-grid message. */
    method Render()
      modifies this
      ensures noPhotosVisible == (|filteredSharedPhotos| == 0)
      ensures |filteredSharedPhotos| == 0 ==>
                noPhotosText == if |allSharedPhotos| == 0 then NoPhotosYet else NoPhotosMatch
      ensures |filteredSharedPhotos| != 0 ==> noPhotosText == old(noPhotosText)
      ensures photosOffset == old(photosOffset) && allSharedPhotos == old(allSharedPhotos)
      ensures filteredSharedPhotos == old(filteredSharedPhotos) && loadMoreVisible == old(loadMoreVisible)
    {
      if |filteredSharedPhotos| == 0 {
        noPhotosVisible := true;
        noPhotosText := if |allSharedPhotos| == 0 then NoPhotosYet else NoPhotosMatch;
        return;
      }
      noPhotosVisible := false;
    }

    /** `loadSharedPhotos(loadMore)` against `table`, the hosted photos newest first;
        `fetchFails` stands for an error answer or a thrown exception. */
    method LoadSharedPhotos(loadMore: bool, table: seq<SharedPhoto>, fetchFails: bool)
      requires Valid()
      modifies this
      ensures Valid()
      ensures var base := if loadMore then old(allSharedPhotos) else [];
              var page := Page(table, |base|);
              if !live || fetchFails then
                allSharedPhotos == base && filteredSharedPhotos == old(filteredSharedPhotos)
                && loadMoreVisible == old(loadMoreVisible)
              else if |page| > 0 then
                allSharedPhotos == base + page && filteredSharedPhotos == allSharedPhotos
                && loadMoreVisible == (|page| == PhotosLimit) && !noPhotosVisible
              else
                allSharedPhotos == base && filteredSharedPhotos == old(filteredSharedPhotos)
                && (!loadMore ==> noPhotosVisible && !loadMoreVisible)
                && (loadMore ==> loadMoreVisible == old(loadMoreVisible))
      ensures live && !fetchFails && (!loadMore || (old(photosOffset) <= |table| && old(allSharedPhotos) == table[..old(photosOffset)]))
              ==> photosOffset <= |table| && allSharedPhotos == table[..photosOffset]
      ensures noPhotosText == old(noPhotosText)
      ensures !live || fetchFails || (loadMore && |Page(table, |old(allSharedPhotos)|)| == 0)
              ==> noPhotosVisible == old(noPhotosVisible)
    {
      if !loadMore {
        photosOffset := 0;
        allSharedPhotos := [];
      }
      if live {
        if fetchFails {
          return;
        }
        var data := Page(table, photosOffset);
        if |data| > 0 {
          noPhotosVisible := false;
          allSharedPhotos := allSharedPhotos + data;
          filteredSharedPhotos := allSharedPhotos;
          Render();
          photosOffset := photosOffset + |data|;
          loadMoreVisible := |data| == PhotosLimit;
        } else if !loadMore {
          noPhotosVisible := true;
          loadMoreVisible := false;
        }
      }
    }

    /** The filter input's handler: recompute the shown photos; the loaded list is left alone. */
    method ApplyFilter(input: string)
      requires Valid()
      modifies this
      ensures Valid()
      ensures filteredSharedPhotos == FilterView(allSharedPhotos, input)
      ensures allSharedPhotos == old(allSharedPhotos) && photosOffset == old(photosOffset)
      ensures loadMoreVisible == old(loadMoreVisible)
      ensures noPhotosVisible == (|filteredSharedPhotos| == 0)
      ensures |filteredSharedPhotos| == 0 ==>
                noPhotosText == if |allSharedPhotos| == 0 then NoPhotosYet else NoPhotosMatch
      ensures |filteredSharedPhotos| != 0 ==> noPhotosText == old(noPhotosText)
    {
      var query := Trim(Lower(input));
      if query == "" {
        filteredSharedPhotos := allSharedPhotos;
      } else {
        filteredSharedPhotos := FilterPhotos(allSharedPhotos, query);
      }
      Render();
    }
  }
}
