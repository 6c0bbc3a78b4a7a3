/** The body of `main`: list a page of images, and for each image with a URL
    download it under its sanitised file name and, once the download has
    succeeded, delete it from the remote account; list again until a listing
    comes back empty. The remote service and the download client are
    abstract: a listing is a page or a fatal error, a download and a delete
    succeed or fail. Every `log.Fatal` and `log.Panic` on the way ends the
    run, recorded as one `Abort` event. */
module Drain {
  import opened Api
  import opened FileName

  /** What one call to the listing endpoint gave: a page of images, or
      `ListingFailed` when the request or the reading of its body failed. */
  datatype Listing = Page(images: seq<ImageApiResponse>) | ListingFailed

  /** Why the run stopped early. */
  datatype AbortReason =
    | ListingError      // `requestImages` hit a network or read error
    | BadTimestamp      // `getNewFileName` sliced a timestamp shorter than 5
    | DownloadError     // the download request could not be made or failed
    | DeleteError       // `deleteImage` failed or got a status other than 200

  /** The observable steps of a run, in order. */
  datatype Event =
    | Download(id: string, fileName: string, ok: bool)
    | Delete(id: string, ok: bool)
    | Abort(reason: AbortReason)

  /** The trace ends with an abort. */
  predicate Aborted(t: seq<Event>) {
    t != [] && t[|t| - 1].Abort?
  }

  /** A listing that ends the outer loop: an empty page, or a fatal error. */
  predicate Final(l: Listing) {
    l.ListingFailed? || l.images == []
  }

  /** Sequencing of two parts of a run: the second part only happens if the
      first did not abort. */
  function Then(a: seq<Event>, b: seq<Event>): (t: seq<Event>)
    ensures Aborted(a) ==> t == a
    ensures !Aborted(a) ==> t == a + b
  {
    if Aborted(a) then a else a + b
  }

  /** The events one image of a page produces (main.go's inner loop body).
      `name` gives the file name of an image; the run uses `FileNameOf`,
      and the lemmas below hold for any naming. */
  function ImageEvents(image: ImageApiResponse,
                       name: ImageApiResponse -> string,
                       fetch: ImageApiResponse -> bool,
                       remove: ImageApiResponse -> bool): seq<Event>
  {
    if image.url == "" then []
    else if |image.createdAt| < 5 then [Abort(BadTimestamp)]
    else
      var download := Download(image.imageId, name(image), fetch(image));
      if !fetch(image) then [download, Abort(DownloadError)]
      else if !remove(image) then [download, Delete(image.imageId, false), Abort(DeleteError)]
      else [download, Delete(image.imageId, true)]
  }

  /** The events of one page: its images in order, up to the first abort. */
  function PageTrace(page: seq<ImageApiResponse>,
                     name: ImageApiResponse -> string,
                     fetch: ImageApiResponse -> bool,
                     remove: ImageApiResponse -> bool): seq<Event>
  {
    if page == [] then []
    else Then(ImageEvents(page[0], name, fetch, remove), PageTrace(page[1..], name, fetch, remove))
  }

  /** The events of a run whose successive listings are `listings`: each
      non-empty page in turn, until a failed listing, an empty page or an
      abort. */
  function RunTrace(listings: seq<Listing>,
                    name: ImageApiResponse -> string,
                    fetch: ImageApiResponse -> bool,
                    remove: ImageApiResponse -> bool): seq<Event>
  {
    if listings == [] then []
    else match listings[0]
      case ListingFailed => [Abort(ListingError)]
      case Page(images) =>
        if images == [] then []
        else Then(PageTrace(images, name, fetch, remove), RunTrace(listings[1..], name, fetch, remove))
  }

  lemma ThenAssociative(a: seq<Event>, b: seq<Event>, c: seq<Event>)
    ensures Then(a, Then(b, c)) == Then(Then(a, b), c)
  {
    if !Aborted(a) {
      if Aborted(b) {
        assert (a + b)[|a + b| - 1] == b[|b| - 1];
      } else if b != [] {
        assert (a + b)[|a + b| - 1] == b[|b| - 1];
        assert a + (b + c) == (a + b) + c;
      } else {
        assert a + b == a;
      }
    }
  }

  /** An aborted tail makes the whole trace aborted. */
  lemma AbortedAppend(a: seq<Event>, b: seq<Event>)
    requires Aborted(b)
    ensures Aborted(a + b)
  {
    assert (a + b)[|a + b| - 1] == b[|b| - 1];
  }

  /** One step of a loop that builds `whole` from `before`, the events
      `here` of the current item and what the remaining items give: an
      aborted step ends the loop with `before + here`, and otherwise the
      loop carries on from `before + here`. */
  lemma Step(before: seq<Event>, here: seq<Event>, later: seq<Event>, whole: seq<Event>)
    requires !Aborted(before) && Then(before, Then(here, later)) == whole
    ensures Aborted(here) ==> before + here == whole && Aborted(before + here)
    ensures !Aborted(here) ==> Then(before + here, later) == whole && !Aborted(before + here)
  {
    ThenAssociative(before, here, later);
    if Aborted(here) {
      AbortedAppend(before, here);
    } else if here == [] {
      assert before + here == before;
    } else {
      assert (before + here)[|before + here| - 1] == here[|here| - 1];
    }
  }

  /** The page from its i-th image on: that image, then the rest. */
  lemma PageTraceAt(images: seq<ImageApiResponse>, i: nat,
                    name: ImageApiResponse -> string,
                    fetch: ImageApiResponse -> bool, remove: ImageApiResponse -> bool)
    requires i < |images|
    ensures PageTrace(images[i..], name, fetch, remove)
            == Then(ImageEvents(images[i], name, fetch, remove), PageTrace(images[i + 1..], name, fetch, remove))
  {
    assert images[i..][0] == images[i];
    assert images[i..][1..] == images[i + 1..];
  }

  /** The body of main.go's inner loop (lines 53-90) for one image: skip it
      without a URL, build its file name, download it, and delete it once
      the download succeeded. */
  method DrainImage(image: ImageApiResponse,
                    fetch: ImageApiResponse -> bool,
                    remove: ImageApiResponse -> bool)
    returns (events: seq<Event>)
    ensures events == ImageEvents(image, FileNameOf, fetch, remove)
  {
    if image.url == "" {
      return [];
    }
    if |image.createdAt| < 5 {
      return [Abort(BadTimestamp)];
    }
    var fileName := SanitizedFileName(image);
    var ok := fetch(image);
    var download := Download(image.imageId, fileName, ok);
    if !ok {
      return [download, Abort(DownloadError)];
    }
    var deleted := remove(image);
    if !deleted {
      return [download, Delete(image.imageId, deleted), Abort(DeleteError)];
    }
    events := [download, Delete(image.imageId, deleted)];
  }

  /** The inner loop of main.go (lines 52-91) over one page: the images in
      order, stopping at the first abort. */
  method DrainPage(images: seq<ImageApiResponse>,
                   fetch: ImageApiResponse -> bool,
                   remove: ImageApiResponse -> bool)
    returns (trace: seq<Event>)
    ensures trace == PageTrace(images, FileNameOf, fetch, remove)
  {
    trace := [];
    for i := 0 to |images|
      invariant !Aborted(trace)
      invariant Then(trace, PageTrace(images[i..], FileNameOf, fetch, remove)) == PageTrace(images, FileNameOf, fetch, remove)
    {
      var events := DrainImage(images[i], fetch, remove);
      PageTraceAt(images, i, FileNameOf, fetch, remove);
      Step(trace, events, PageTrace(images[i + 1..], FileNameOf, fetch, remove), PageTrace(images, FileNameOf, fetch, remove));
      if Aborted(events) {
        return trace + events;
      }
      trace := trace + events;
    }
    assert images[|images|..] == [];
    assert trace + [] == trace;
  }

  /** What the run does once the k-th listing is in, given that `trace` is
      what happened before it: a failed listing aborts, an empty page ends
      the run. */
  lemma ListingStep(listings: seq<Listing>, k: nat, trace: seq<Event>,
                    name: ImageApiResponse -> string,
                    fetch: ImageApiResponse -> bool, remove: ImageApiResponse -> bool)
    requires k < |listings| && !Aborted(trace)
    requires Then(trace, RunTrace(listings[k..], name, fetch, remove)) == RunTrace(listings, name, fetch, remove)
    ensures listings[k].ListingFailed? ==>
              trace + [Abort(ListingError)] == RunTrace(listings, name, fetch, remove)
              && Aborted(trace + [Abort(ListingError)])
    ensures listings[k] == Page([]) ==> trace == RunTrace(listings, name, fetch, remove)
  {
    assert listings[k..][0] == listings[k];
    assert trace + [] == trace;
    if listings[k].ListingFailed? {
      AbortedAppend(trace, [Abort(ListingError)]);
    }
  }

  /** The run from its k-th listing on, when that listing is a non-empty
      page: that page, then the rest. */
  lemma RunTraceAt(listings: seq<Listing>, k: nat,
                   name: ImageApiResponse -> string,
                   fetch: ImageApiResponse -> bool, remove: ImageApiResponse -> bool)
    requires k < |listings| && listings[k].Page? && listings[k].images != []
    ensures RunTrace(listings[k..], name, fetch, remove)
            == Then(PageTrace(listings[k].images, name, fetch, remove), RunTrace(listings[k + 1..], name, fetch, remove))
  {
    assert listings[k..][0] == listings[k];
    assert listings[k..][1..] == listings[k + 1..];
  }

  /** main.go:48-95: list, drain the page, list again, until a listing comes
      back empty. The k-th listing request is answered by `listings[k]`; the
      last answer is final, so the run stops within them. */
  method Run(listings: seq<Listing>,
             fetch: ImageApiResponse -> bool,
             remove: ImageApiResponse -> bool)
    returns (trace: seq<Event>, finished: bool)
    requires |listings| > 0 && Final(listings[|listings| - 1])
    ensures trace == RunTrace(listings, FileNameOf, fetch, remove)
    ensures finished <==> !Aborted(trace)
  {
    trace := [];
    var k := 0;
    ListingStep(listings, k, trace, FileNameOf, fetch, remove);
    if listings[k].ListingFailed? {
      trace, finished := trace + [Abort(ListingError)], false;
      return;
    }
    var images := listings[k].images;
    while images != []
      invariant 0 <= k < |listings|
      invariant listings[k] == Page(images)
      invariant !Aborted(trace)
      invariant Then(trace, RunTrace(listings[k..], FileNameOf, fetch, remove)) == RunTrace(listings, FileNameOf, fetch, remove)
      decreases |listings| - k
    {
      var pageTrace := DrainPage(images, fetch, remove);
      RunTraceAt(listings, k, FileNameOf, fetch, remove);
      Step(trace, pageTrace, RunTrace(listings[k + 1..], FileNameOf, fetch, remove), RunTrace(listings, FileNameOf, fetch, remove));
      if Aborted(pageTrace) {
        trace, finished := trace + pageTrace, false;
        return;
      }
      trace := trace + pageTrace;
      k := k + 1;
      ListingStep(listings, k, trace, FileNameOf, fetch, remove);
      if listings[k].ListingFailed? {
        trace, finished := trace + [Abort(ListingError)], false;
        return;
      }
      images := listings[k].images;
    }
    ListingStep(listings, k, trace, FileNameOf, fetch, remove);
    finished := true;
  }

  // ---------------------------------------------------------------------
  // Safety of a trace: the order in which downloads, deletes and aborts may
  // occur.

  /** The conditions on the event at index i:
      - an abort is the last event;
      - a delete comes right after a successful download of the same image;
      - a successful download is followed by the delete of the same image;
      - a failed download or a failed delete is followed by the matching
        abort, which ends the trace. */
  predicate WellFormedAt(t: seq<Event>, i: nat)
    requires i < |t|
  {
    && (t[i].Abort? ==> i == |t| - 1)
    && (t[i].Delete? ==> 0 < i && t[i - 1].Download? && t[i - 1].ok && t[i - 1].id == t[i].id)
    && (t[i].Download? && t[i].ok ==> i + 1 < |t| && t[i + 1].Delete? && t[i + 1].id == t[i].id)
    && (t[i].Download? && !t[i].ok ==> i + 2 == |t| && t[i + 1] == Abort(DownloadError))
    && (t[i].Delete? && !t[i].ok ==> i + 2 == |t| && t[i + 1] == Abort(DeleteError))
  }

  predicate WellFormed(t: seq<Event>) {
    forall i :: 0 <= i < |t| ==> WellFormedAt(t, i)
  }

  lemma ImageEventsWellFormed(image: ImageApiResponse,
                              name: ImageApiResponse -> string,
                              fetch: ImageApiResponse -> bool,
                              remove: ImageApiResponse -> bool)
    ensures WellFormed(ImageEvents(image, name, fetch, remove))
  {
    var t := ImageEvents(image, name, fetch, remove);
    if image.url != "" && |image.createdAt| >= 5 {
      var download := Download(image.imageId, name(image), fetch(image));
      if !fetch(image) {
        assert t == [download, Abort(DownloadError)];
        assert WellFormedAt(t, 0) && WellFormedAt(t, 1);
      } else if !remove(image) {
        assert t == [download, Delete(image.imageId, false), Abort(DeleteError)];
        assert WellFormedAt(t, 0) && WellFormedAt(t, 1) && WellFormedAt(t, 2);
      } else {
        assert t == [download, Delete(image.imageId, true)];
        assert WellFormedAt(t, 0) && WellFormedAt(t, 1);
      }
    } else if t != [] {
      assert WellFormedAt(t, 0);
    }
  }

  /** Sequencing keeps a trace well formed: the first part can only end with
      an abort or a completed image, so nothing of it is left waiting for
      the second part. */
  lemma ThenWellFormed(a: seq<Event>, b: seq<Event>)
    requires WellFormed(a) && WellFormed(b)
    ensures WellFormed(Then(a, b))
  {
    if !Aborted(a) {
      var t := a + b;
      forall i | 0 <= i < |t| ensures WellFormedAt(t, i) {
        if i < |a| {
          assert WellFormedAt(a, i);
          if a[i].Download? && a[i].ok {
            assert t[i + 1] == a[i + 1];
          }
          if 0 < i {
            assert t[i - 1] == a[i - 1];
          }
        } else {
          assert WellFormedAt(b, i - |a|);
          assert t[i] == b[i - |a|];
          if i + 1 < |t| {
            assert t[i + 1] == b[i + 1 - |a|];
          }
          if i - |a| > 0 {
            assert t[i - 1] == b[i - 1 - |a|];
          }
        }
      }
    }
  }

  lemma {:induction false} PageTraceWellFormed(page: seq<ImageApiResponse>,
                                               name: ImageApiResponse -> string,
                                               fetch: ImageApiResponse -> bool,
                                               remove: ImageApiResponse -> bool)
    ensures WellFormed(PageTrace(page, name, fetch, remove))
  {
    if page != [] {
      ImageEventsWellFormed(page[0], name, fetch, remove);
      PageTraceWellFormed(page[1..], name, fetch, remove);
      ThenWellFormed(ImageEvents(page[0], name, fetch, remove), PageTrace(page[1..], name, fetch, remove));
    }
  }

  /** Over a whole run, an image is deleted only right after it was
      downloaded successfully, and a failed download or delete ends the run. */
  lemma {:induction false} RunTraceWellFormed(listings: seq<Listing>,
                                              name: ImageApiResponse -> string,
                                              fetch: ImageApiResponse -> bool,
                                              remove: ImageApiResponse -> bool)
    ensures WellFormed(RunTrace(listings, name, fetch, remove))
  {
    if listings != [] && listings[0].Page? && listings[0].images != [] {
      PageTraceWellFormed(listings[0].images, name, fetch, remove);
      RunTraceWellFormed(listings[1..], name, fetch, remove);
      ThenWellFormed(PageTrace(listings[0].images, name, fetch, remove), RunTrace(listings[1..], name, fetch, remove));
    } else if listings != [] && listings[0].ListingFailed? {
      assert WellFormedAt([Abort(ListingError)], 0);
    }
  }

  // ---------------------------------------------------------------------
  // Images without a URL.

  /** An image without a URL leaves no trace wherever it sits in the page. */
  lemma {:induction false} SkipEmptyUrl(before: seq<ImageApiResponse>, image: ImageApiResponse,
                                        after: seq<ImageApiResponse>,
                                        name: ImageApiResponse -> string,
                                        fetch: ImageApiResponse -> bool,
                                        remove: ImageApiResponse -> bool)
    requires image.url == ""
    ensures PageTrace(before + [image] + after, name, fetch, remove) == PageTrace(before + after, name, fetch, remove)
  {
    if before == [] {
      assert (before + [image] + after)[1..] == before + after;
      assert [] + PageTrace(after, name, fetch, remove) == PageTrace(after, name, fetch, remove);
    } else {
      assert (before + [image] + after)[1..] == before[1..] + [image] + after;
      assert (before + after)[1..] == before[1..] + after;
      SkipEmptyUrl(before[1..], image, after, name, fetch, remove);
    }
  }

  /** A page none of whose images has a URL produces no events. */
  lemma {:induction false} BlankPageProducesNothing(page: seq<ImageApiResponse>,
                                                    name: ImageApiResponse -> string,
                                                    fetch: ImageApiResponse -> bool,
                                                    remove: ImageApiResponse -> bool)
    requires forall i :: 0 <= i < |page| ==> page[i].url == ""
    ensures PageTrace(page, name, fetch, remove) == []
  {
    if page != [] {
      BlankPageProducesNothing(page[1..], name, fetch, remove);
    }
  }

  // ---------------------------------------------------------------------
  // Which images are downloaded.

  /** The images of a page that have a URL, in page order. */
  function Downloadable(page: seq<ImageApiResponse>): (d: seq<ImageApiResponse>)
    ensures |d| <= |page|
    ensures forall k :: 0 <= k < |d| ==> d[k].url != ""
  {
    if page == [] then []
    else (if page[0].url == "" then [] else [page[0]]) + Downloadable(page[1..])
  }

  /** The download events of a trace, in order. */
  function Downloads(t: seq<Event>): (ds: seq<Event>)
    ensures |ds| <= |t|
    ensures forall k :: 0 <= k < |ds| ==> ds[k].Download?
  {
    if t == [] then []
    else (if t[0].Download? then [t[0]] else []) + Downloads(t[1..])
  }

  lemma {:induction false} DownloadsAppend(a: seq<Event>, b: seq<Event>)
    ensures Downloads(a + b) == Downloads(a) + Downloads(b)
  {
    if a == [] {
      assert a + b == b;
    } else {
      assert (a + b)[0] == a[0];
      assert (a + b)[1..] == a[1..] + b;
      DownloadsAppend(a[1..], b);
    }
  }

  /** The downloads are attempted for the first images with a URL, in page
      order, each under the name `name` gives its own image. */
  predicate DownloadsFollow(ds: seq<Event>, d: seq<ImageApiResponse>, name: ImageApiResponse -> string) {
    && |ds| <= |d|
    && forall k :: 0 <= k < |ds| ==>
         && ds[k].Download?
         && ds[k].id == d[k].imageId
         && |d[k].createdAt| >= 5
         && ds[k].fileName == name(d[k])
  }

  /** One image gives one download attempt when it has a URL and a long
      enough timestamp, and none otherwise. */
  lemma ImageDownloads(image: ImageApiResponse,
                       name: ImageApiResponse -> string,
                       fetch: ImageApiResponse -> bool,
                       remove: ImageApiResponse -> bool)
    ensures Downloads(ImageEvents(image, name, fetch, remove)) ==
            if image.url == "" || |image.createdAt| < 5 then []
            else [Download(image.imageId, name(image), fetch(image))]
  {
    var t := ImageEvents(image, name, fetch, remove);
    if image.url == "" {
    } else if |image.createdAt| < 5 {
      assert Downloads(t) == [] + Downloads(t[1..]);
    } else {
      assert Downloads(t) == [t[0]] + Downloads(t[1..]);
      assert Downloads(t[1..]) == [] by {
        var u := t[1..];
        assert Downloads(u) == [] + Downloads(u[1..]);
        if |u| > 1 {
          assert Downloads(u[1..]) == [] + Downloads(u[1..][1..]);
        }
      }
    }
  }

  lemma ConsFollow(name: ImageApiResponse -> string, image: ImageApiResponse, ok: bool, ds: seq<Event>, d: seq<ImageApiResponse>)
    requires DownloadsFollow(ds, d, name)
    requires |image.createdAt| >= 5
    ensures DownloadsFollow([Download(image.imageId, name(image), ok)] + ds, [image] + d, name)
  {
    var ds', d' := [Download(image.imageId, name(image), ok)] + ds, [image] + d;
    forall k | 0 <= k < |ds'|
      ensures ds'[k].Download? && ds'[k].id == d'[k].imageId && |d'[k].createdAt| >= 5
              && ds'[k].fileName == name(d'[k])
    {
      if k > 0 {
        assert ds'[k] == ds[k - 1] && d'[k] == d[k - 1];
      }
    }
  }

  /** The first image of a page has a URL and a usable timestamp: its
      download comes first, followed by those of the rest of the page unless
      the image aborted the page. */
  lemma DownloadsTake(page: seq<ImageApiResponse>,
                      name: ImageApiResponse -> string,
                      fetch: ImageApiResponse -> bool,
                      remove: ImageApiResponse -> bool)
    requires page != [] && page[0].url != "" && |page[0].createdAt| >= 5
    ensures var x := Download(page[0].imageId, name(page[0]), fetch(page[0]));
            || Downloads(PageTrace(page, name, fetch, remove)) == [x]
            || Downloads(PageTrace(page, name, fetch, remove)) == [x] + Downloads(PageTrace(page[1..], name, fetch, remove))
    ensures Downloadable(page) == [page[0]] + Downloadable(page[1..])
  {
    var here := ImageEvents(page[0], name, fetch, remove);
    var rest := PageTrace(page[1..], name, fetch, remove);
    ImageDownloads(page[0], name, fetch, remove);
    if !Aborted(here) {
      DownloadsAppend(here, rest);
    }
  }

  /** The downloads of a page are attempted for its first images with a
      URL, in page order, each under the name `name` gives that image. */
  lemma {:induction false} PageDownloadsInOrder(page: seq<ImageApiResponse>,
                                                name: ImageApiResponse -> string,
                                                fetch: ImageApiResponse -> bool,
                                                remove: ImageApiResponse -> bool)
    ensures DownloadsFollow(Downloads(PageTrace(page, name, fetch, remove)), Downloadable(page), name)
  {
    if page != [] {
      var image := page[0];
      PageDownloadsInOrder(page[1..], name, fetch, remove);
      if image.url == "" {
        SkipFirst(page, name, fetch, remove);
      } else if |image.createdAt| < 5 {
        assert Downloads(PageTrace(page, name, fetch, remove)) == [];
      } else {
        DownloadsTake(page, name, fetch, remove);
        ConsFollow(name, image, fetch(image), [], Downloadable(page[1..]));
        ConsFollow(name, image, fetch(image), Downloads(PageTrace(page[1..], name, fetch, remove)), Downloadable(page[1..]));
        assert [Download(image.imageId, name(image), fetch(image))] + []
               == [Download(image.imageId, name(image), fetch(image))];
      }
    }
  }

  /** With the names the run uses: each download of a page is of the next
      image with a URL, saved under that image's sanitised name, which holds
      none of the nine characters of `[\\/:*?"<>|]`. */
  lemma PageDownloadNames(page: seq<ImageApiResponse>,
                          fetch: ImageApiResponse -> bool,
                          remove: ImageApiResponse -> bool)
    ensures var ds, d := Downloads(PageTrace(page, FileNameOf, fetch, remove)), Downloadable(page);
            && |ds| <= |d|
            && forall k :: 0 <= k < |ds| ==>
                 && ds[k].id == d[k].imageId
                 && |d[k].createdAt| >= 5
                 && ds[k].fileName == SanitizedFileName(d[k])
                 && Legal(ds[k].fileName)
  {
    PageDownloadsInOrder(page, FileNameOf, fetch, remove);
  }

  // ---------------------------------------------------------------------
  // A page on which nothing fails.

  /** Every image with a URL has a usable timestamp and is downloaded and
      deleted successfully. */
  predicate AllSucceed(page: seq<ImageApiResponse>,
                       fetch: ImageApiResponse -> bool,
                       remove: ImageApiResponse -> bool)
  {
    forall i :: 0 <= i < |page| && page[i].url != "" ==>
      |page[i].createdAt| >= 5 && fetch(page[i]) && remove(page[i])
  }

  /** `t` downloads and then deletes each image of `d` in turn, and does
      nothing else. */
  predicate Completed(t: seq<Event>, d: seq<ImageApiResponse>, name: ImageApiResponse -> string) {
    && |t| == 2 * |d|
    && forall k :: 0 <= k < |d| ==>
         && |d[k].createdAt| >= 5
         && t[2 * k] == Download(d[k].imageId, name(d[k]), true)
         && t[2 * k + 1] == Delete(d[k].imageId, true)
  }

  lemma ConsCompleted(name: ImageApiResponse -> string, image: ImageApiResponse, t: seq<Event>, d: seq<ImageApiResponse>)
    requires Completed(t, d, name) && |image.createdAt| >= 5
    ensures Completed([Download(image.imageId, name(image), true),
                       Delete(image.imageId, true)] + t, [image] + d, name)
  {
    var t' := [Download(image.imageId, name(image), true), Delete(image.imageId, true)] + t;
    var d' := [image] + d;
    forall k | 0 <= k < |d'|
      ensures |d'[k].createdAt| >= 5
              && t'[2 * k] == Download(d'[k].imageId, name(d'[k]), true)
              && t'[2 * k + 1] == Delete(d'[k].imageId, true)
    {
      if k > 0 {
        assert d'[k] == d[k - 1];
        assert t'[2 * k] == t[2 * (k - 1)] && t'[2 * k + 1] == t[2 * (k - 1) + 1];
      }
    }
  }

  /** A completed trace does not end with an abort. */
  lemma CompletedNotAborted(t: seq<Event>, d: seq<ImageApiResponse>, name: ImageApiResponse -> string)
    requires Completed(t, d, name)
    ensures !Aborted(t)
  {
    if d != [] {
      var k := |d| - 1;
      assert t[|t| - 1] == t[2 * k + 1] == Delete(d[k].imageId, true);
    }
  }

  /** The first image of a successful page has a URL: its download and its
      delete come first. */
  lemma SucceedFirst(page: seq<ImageApiResponse>,
                     name: ImageApiResponse -> string,
                     fetch: ImageApiResponse -> bool,
                     remove: ImageApiResponse -> bool)
    requires page != [] && page[0].url != "" && AllSucceed(page, fetch, remove)
    ensures |page[0].createdAt| >= 5
    ensures PageTrace(page, name, fetch, remove) ==
            [Download(page[0].imageId, name(page[0]), true), Delete(page[0].imageId, true)]
            + PageTrace(page[1..], name, fetch, remove)
    ensures Downloadable(page) == [page[0]] + Downloadable(page[1..])
  {
    assert |page[0].createdAt| >= 5 && fetch(page[0]) && remove(page[0]);
  }

  lemma AllSucceedTail(page: seq<ImageApiResponse>,
                       name: ImageApiResponse -> string,
                       fetch: ImageApiResponse -> bool,
                       remove: ImageApiResponse -> bool)
    requires page != [] && AllSucceed(page, fetch, remove)
    ensures AllSucceed(page[1..], fetch, remove)
  {
    forall i | 0 <= i < |page[1..]| && page[1..][i].url != ""
      ensures |page[1..][i].createdAt| >= 5 && fetch(page[1..][i]) && remove(page[1..][i])
    {
      assert page[1..][i] == page[i + 1];
    }
  }

  /** The first image of a page has no URL: the page does what its rest does. */
  lemma SkipFirst(page: seq<ImageApiResponse>,
                  name: ImageApiResponse -> string,
                  fetch: ImageApiResponse -> bool,
                  remove: ImageApiResponse -> bool)
    requires page != [] && page[0].url == ""
    ensures PageTrace(page, name, fetch, remove) == PageTrace(page[1..], name, fetch, remove)
    ensures Downloadable(page) == Downloadable(page[1..])
  {
    assert [] + PageTrace(page[1..], name, fetch, remove) == PageTrace(page[1..], name, fetch, remove);
    assert Downloadable(page) == [] + Downloadable(page[1..]);
  }

  /** When nothing fails, the page downloads and deletes every image that has
      a URL, in page order, and does not abort. */
  lemma {:induction false} PageAllSucceed(page: seq<ImageApiResponse>,
                                          name: ImageApiResponse -> string,
                                          fetch: ImageApiResponse -> bool,
                                          remove: ImageApiResponse -> bool)
    requires AllSucceed(page, fetch, remove)
    ensures Completed(PageTrace(page, name, fetch, remove), Downloadable(page), name)
    ensures !Aborted(PageTrace(page, name, fetch, remove))
  {
    if page != [] {
      AllSucceedTail(page, name, fetch, remove);
      PageAllSucceed(page[1..], name, fetch, remove);
      if page[0].url == "" {
        SkipFirst(page, name, fetch, remove);
      } else {
        SucceedFirst(page, name, fetch, remove);
        ConsCompleted(name, page[0], PageTrace(page[1..], name, fetch, remove), Downloadable(page[1..]));
      }
    }
    CompletedNotAborted(PageTrace(page, name, fetch, remove), Downloadable(page), name);
  }
}
