/** The page component's state and its event handlers (src/App.tsx, App):
    drag-over and drag-leave toggle the overlay, a drop of an image file
    replaces the background, and each loaded background recolours the bell. */
module Page {
  import opened Wrappers
  import opened Luma
  import opened BellContrast

  /** A dropped file, as far as the drop handler looks at it. */
  datatype DroppedFile = DroppedFile(mediaType: string)

  /** The three pieces of component state. `bgUrl` None is the source's null. */
  datatype PageState = PageState(bgUrl: Option<string>, dragActive: bool, bellColor: BellColor)

  /** Before anything happens: no background, no overlay, dark bell. */
  const Initial: PageState := PageState(None, false, Dark)

  /** What the browser delivers to the component. The object URL minted for
      a dropped file and the buffer read back for a loaded image are inputs:
      both come from browser calls outside this model. */
  datatype Event =
    | DragOver
    | DragLeave
    | Drop(files: seq<DroppedFile>, objectUrl: string)
    | ImageLoaded(imageWidth: int, pixels: Option<seq<byte>>)

  const ImagePrefix: string := "image/"

  predicate StartsWith(s: string, prefix: string)
  {
    |prefix| <= |s| && s[..|prefix|] == prefix
  }

  /** Only a first file whose media type starts with `image/` is taken. */
  predicate AcceptsDrop(files: seq<DroppedFile>)
  {
    |files| > 0 && StartsWith(files[0].mediaType, ImagePrefix)
  }

  /** What the browser guarantees about its events: an object URL is never
      empty, and the read-back buffer has four bytes per window pixel. */
  predicate WellFormed(e: Event)
  {
    match e
    case Drop(_, url) => |url| > 0
    case ImageLoaded(width, pixels) =>
      pixels.Some? ==> |pixels.value| == BufferLength(BellWindow(width))
    case _ => true
  }

  /** The load effect only runs when the background URL is truthy. */
  predicate HasBackground(s: PageState)
  {
    s.bgUrl.Some? && |s.bgUrl.value| > 0
  }

  function OnDragOver(s: PageState): (t: PageState)
    ensures t.dragActive
    ensures t.bgUrl == s.bgUrl && t.bellColor == s.bellColor
  {
    s.(dragActive := true)
  }

  function OnDragLeave(s: PageState): (t: PageState)
    ensures !t.dragActive
    ensures t.bgUrl == s.bgUrl && t.bellColor == s.bellColor
  {
    s.(dragActive := false)
  }

  /** The drop handler: the overlay always goes away; the background changes
      exactly when the drop is accepted; the bell is left to the load. */
  function OnDrop(s: PageState, files: seq<DroppedFile>, objectUrl: string): (t: PageState)
    ensures !t.dragActive
    ensures t.bellColor == s.bellColor
    ensures AcceptsDrop(files) ==> t.bgUrl == Some(objectUrl)
    ensures !AcceptsDrop(files) ==> t.bgUrl == s.bgUrl
  {
    var t := s.(dragActive := false);
    if AcceptsDrop(files) then t.(bgUrl := Some(objectUrl)) else t
  }

  /** The image load callback: recolour the bell from the sampled window.
      Without a background no image is created, so nothing happens. */
  function OnImageLoaded(s: PageState, imageWidth: int, pixels: Option<seq<byte>>): (t: PageState)
    requires pixels.Some? ==> |pixels.value| == BufferLength(BellWindow(imageWidth))
    ensures t.bgUrl == s.bgUrl && t.dragActive == s.dragActive
    ensures HasBackground(s) ==> t.bellColor == LoadedColor(imageWidth, pixels)
    ensures !HasBackground(s) ==> t == s
  {
    if HasBackground(s) then s.(bellColor := LoadedColor(imageWidth, pixels)) else s
  }

  function Step(s: PageState, e: Event): PageState
    requires WellFormed(e)
  {
    match e
    case DragOver => OnDragOver(s)
    case DragLeave => OnDragLeave(s)
    case Drop(files, url) => OnDrop(s, files, url)
    case ImageLoaded(width, pixels) => OnImageLoaded(s, width, pixels)
  }

  predicate AllWellFormed(events: seq<Event>)
  {
    forall i :: 0 <= i < |events| ==> WellFormed(events[i])
  }

  /** The state after the events, in order. */
  function Run(s: PageState, events: seq<Event>): PageState
    requires AllWellFormed(events)
    decreases |events|
  {
    if |events| == 0 then s
    else Step(Run(s, events[..|events| - 1]), events[|events| - 1])
  }

  /** The colour a load event would give the bell. */
  function LoadEventColor(e: Event): (c: BellColor)
    requires e.ImageLoaded? && WellFormed(e)
    ensures e.pixels.None? ==> c == Dark
  {
    LoadedColor(e.imageWidth, e.pixels)
  }

  /** The colour of the most recent load among the events, if any. */
  function LastLoadColor(events: seq<Event>): Option<BellColor>
    requires AllWellFormed(events)
    decreases |events|
  {
    if |events| == 0 then None
    else if events[|events| - 1].ImageLoaded? then Some(LoadEventColor(events[|events| - 1]))
    else LastLoadColor(events[..|events| - 1])
  }

  /** The URL of the most recent accepted drop among the events, if any. */
  function LastAcceptedUrl(events: seq<Event>): Option<string>
    decreases |events|
  {
    if |events| == 0 then None
    else
      var e := events[|events| - 1];
      if e.Drop? && AcceptsDrop(e.files) then Some(e.objectUrl)
      else LastAcceptedUrl(events[..|events| - 1])
  }

  /** A drop whose first file is missing or not an image changes neither
      the background nor the bell. */
  lemma RejectedDropKeepsPage(s: PageState, files: seq<DroppedFile>, objectUrl: string)
    requires |files| == 0 || !StartsWith(files[0].mediaType, ImagePrefix)
    ensures OnDrop(s, files, objectUrl) == s.(dragActive := false)
  {
  }

  /** Concrete media types: `image/png` is accepted; `text/plain`, the
      upper-case `IMAGE/PNG`, a bare `image`, and an empty drop are not. */
  lemma DropExamples()
    ensures AcceptsDrop([DroppedFile("image/png")])
    ensures !AcceptsDrop([DroppedFile("text/plain")])
    ensures !AcceptsDrop([DroppedFile("IMAGE/PNG")])
    ensures !AcceptsDrop([DroppedFile("image")])
    ensures !AcceptsDrop([])
    ensures AcceptsDrop([DroppedFile("image/jpeg"), DroppedFile("text/plain")])
    ensures !AcceptsDrop([DroppedFile("text/plain"), DroppedFile("image/jpeg")])
  {
    assert "image/png"[..6] == ImagePrefix;
    assert "text/plain"[0] != ImagePrefix[0];
    assert "IMAGE/PNG"[0] != ImagePrefix[0];
    assert "image/jpeg"[..6] == ImagePrefix;
  }

  /** Every media type of the form `image/...` is accepted, whatever follows
      the prefix and whatever other files are dropped with it. */
  lemma AcceptsImageTypes(t: string, rest: seq<DroppedFile>)
    ensures AcceptsDrop([DroppedFile(ImagePrefix + t)] + rest)
  {
    assert (ImagePrefix + t)[..|ImagePrefix|] == ImagePrefix;
  }

  /** Only the first dropped file is inspected: the files after it never
      change the decision. */
  lemma OnlyFirstFileMatters(f: DroppedFile, r1: seq<DroppedFile>, r2: seq<DroppedFile>)
    ensures AcceptsDrop([f] + r1) == AcceptsDrop([f] + r2)
  {
    assert ([f] + r1)[0] == f && ([f] + r2)[0] == f;
  }

  /** A media type is accepted only if it really starts with `image/`. */
  lemma AcceptedTypesHaveImagePrefix(files: seq<DroppedFile>)
    requires AcceptsDrop(files)
    ensures exists t :: files[0].mediaType == ImagePrefix + t
  {
    var m := files[0].mediaType;
    assert m == ImagePrefix + m[|ImagePrefix|..];
  }

  /** Once there is a background, well-formed events never remove it. */
  lemma {:induction false} BackgroundPersists(s: PageState, events: seq<Event>)
    requires HasBackground(s) && AllWellFormed(events)
    ensures HasBackground(Run(s, events))
    decreases |events|
  {
    if |events| > 0 {
      BackgroundPersists(s, events[..|events| - 1]);
    }
  }

  /** The background is the URL of the last accepted drop, or the starting
      one if no drop was accepted. */
  lemma {:induction false} BackgroundIsLastAcceptedDrop(s: PageState, events: seq<Event>)
    requires AllWellFormed(events)
    ensures Run(s, events).bgUrl == (if LastAcceptedUrl(events).Some? then Some(LastAcceptedUrl(events).value) else s.bgUrl)
    decreases |events|
  {
    if |events| > 0 {
      BackgroundIsLastAcceptedDrop(s, events[..|events| - 1]);
    }
  }

  /** Running two batches of events one after the other is running their
      concatenation. */
  lemma {:induction false} RunAppend(s: PageState, a: seq<Event>, b: seq<Event>)
    requires AllWellFormed(a) && AllWellFormed(b)
    ensures AllWellFormed(a + b)
    ensures Run(s, a + b) == Run(Run(s, a), b)
    decreases |b|
  {
    assert AllWellFormed(a + b) by {
      forall i | 0 <= i < |a + b|
        ensures WellFormed((a + b)[i])
      {
        if i < |a| {
          assert (a + b)[i] == a[i];
        } else {
          assert (a + b)[i] == b[i - |a|];
        }
      }
    }
    if |b| == 0 {
      assert a + b == a;
    } else {
      var b' := b[..|b| - 1];
      assert (a + b)[..|a + b| - 1] == a + b';
      assert (a + b)[|a + b| - 1] == b[|b| - 1];
      RunAppend(s, a, b');
    }
  }

  /** A drop that is accepted carries the URL minted for it, which is never
      empty. */
  lemma {:induction false} AcceptedUrlNonEmpty(events: seq<Event>)
    requires AllWellFormed(events) && LastAcceptedUrl(events).Some?
    ensures |LastAcceptedUrl(events).value| > 0
    decreases |events|
  {
    var e := events[|events| - 1];
    if !(e.Drop? && AcceptsDrop(e.files)) {
      AcceptedUrlNonEmpty(events[..|events| - 1]);
    }
  }

  /** With a background in place, the bell shows the colour of the last
      image load; earlier loads and all other events leave no trace. */
  lemma {:induction false} ColorIsLastLoad(s: PageState, events: seq<Event>)
    requires HasBackground(s) && AllWellFormed(events)
    ensures Run(s, events).bellColor == LastLoadColor(events).GetOr(s.bellColor)
    decreases |events|
  {
    if |events| > 0 {
      var prefix := events[..|events| - 1];
      ColorIsLastLoad(s, prefix);
      BackgroundPersists(s, prefix);
    }
  }

  /** Whatever happens, the bell's colour is its starting colour or the
      colour of one of the loads. */
  lemma {:induction false} ColorComesFromALoad(s: PageState, events: seq<Event>)
    requires AllWellFormed(events)
    ensures var c := Run(s, events).bellColor;
      c == s.bellColor ||
      exists i :: 0 <= i < |events| && events[i].ImageLoaded? && c == LoadEventColor(events[i])
    decreases |events|
  {
    if |events| > 0 {
      var prefix := events[..|events| - 1];
      ColorComesFromALoad(s, prefix);
      var c := Run(s, prefix).bellColor;
      if c != s.bellColor {
        var i :| 0 <= i < |prefix| && prefix[i].ImageLoaded? && c == LoadEventColor(prefix[i]);
        assert events[i] == prefix[i];
      }
    }
  }

  /** Before any image has loaded the bell is dark, whatever drags and
      drops happened. */
  lemma {:induction false} DarkUntilFirstLoad(events: seq<Event>)
    requires AllWellFormed(events)
    requires forall i :: 0 <= i < |events| ==> !events[i].ImageLoaded?
    ensures Run(Initial, events).bellColor == Dark
    ensures Run(Initial, events).bgUrl == LastAcceptedUrl(events)
    decreases |events|
  {
    if |events| > 0 {
      DarkUntilFirstLoad(events[..|events| - 1]);
    }
  }

  /** After a second accepted drop and its load, the bell depends only on
      the new image, not on anything before. */
  lemma NewImageDecidesColor(s: PageState, files: seq<DroppedFile>, url: string,
                             imageWidth: int, pixels: Option<seq<byte>>)
    requires AcceptsDrop(files) && |url| > 0
    requires pixels.Some? ==> |pixels.value| == BufferLength(BellWindow(imageWidth))
    ensures var t := OnImageLoaded(OnDrop(s, files, url), imageWidth, pixels);
      t.bgUrl == Some(url) && !t.dragActive && t.bellColor == LoadedColor(imageWidth, pixels)
  {
  }

  /** From the initial page: once some drop has been accepted, the bell
      shows the colour of the last image load after it, and stays as it was
      if none has happened yet. */
  lemma ColorAfterAcceptedDrop(before: seq<Event>, after: seq<Event>)
    requires AllWellFormed(before) && AllWellFormed(after)
    requires LastAcceptedUrl(before).Some?
    ensures AllWellFormed(before + after)
    ensures Run(Initial, before + after).bellColor
      == LastLoadColor(after).GetOr(Run(Initial, before).bellColor)
  {
    RunAppend(Initial, before, after);
    BackgroundIsLastAcceptedDrop(Initial, before);
    AcceptedUrlNonEmpty(before);
    ColorIsLastLoad(Run(Initial, before), after);
  }
}
