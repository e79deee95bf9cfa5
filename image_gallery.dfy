/** The image gallery of src/components/ImageGallery/ImageGallery.tsx: the
    URL of each image, and the lightbox whose state is the index of the image
    it shows (none while it is closed). */
module ImageGallery {
  import opened Common

  // ---------------------------------------------------------------------------
  // Image URLs

  /** The data-root-relative path of an image: a leading `/` makes `src`
      relative to the data root (the `/` dropped), anything else is relative
      to the page's directory. */
  function ImagePath(basePath: string, src: string): (r: string)
    ensures StartsWith(src, "/") ==> "/" + r == src
    ensures !StartsWith(src, "/") ==>
              |r| == |basePath| + 1 + |src| && StartsWith(r, basePath + "/") && EndsWith(r, src)
  {
    if StartsWith(src, "/") then src[1..] else basePath + "/" + src
  }

  /** `getImageUrl`: the image endpoint with the path as its `path` parameter. */
  function ImageUrl(basePath: string, src: string): (r: string)
    ensures StartsWith(r, "/api/image?path=")
    ensures r[|"/api/image?path="|..] == ImagePath(basePath, src)
  {
    "/api/image?path=" + ImagePath(basePath, src)
  }

  /** Exactly one leading `/` is dropped: `//x` keeps its second `/`. */
  lemma OneSlashDropped(basePath: string, rest: string)
    ensures ImagePath(basePath, "/" + rest) == rest
    ensures ImagePath(basePath, "//" + rest) == "/" + rest
  {
    assert ("/" + rest)[..1] == "/";
    assert ("//" + rest)[..1] == "/";
    assert ("//" + rest)[1..] == "/" + rest;
  }

  // ---------------------------------------------------------------------------
  // The lightbox

  /** Where a click lands. */
  datatype Target =
    | Thumbnail(index: nat)  // the button of image `index` in the grid
    | CloseButton
    | Overlay                // the dark background of the open lightbox
    | PrevButton
    | NextButton
    | LightboxImage          // the large image itself

  /** Whether the element is on screen for the state `selected`: the grid is
      always there, the lightbox only while an image is selected, "previous"
      only after the first image and "next" only before the last one. */
  predicate Offered(count: nat, selected: Option<nat>, t: Target) {
    match t
    case Thumbnail(i) => i < count
    case PrevButton => selected.Some? && selected.value > 0
    case NextButton => selected.Some? && selected.value < count - 1
    case _ => selected.Some?
  }

  /** The state after a click. Clicks on what is not on screen change nothing;
      the close button and the overlay close the lightbox; "previous" and
      "next" move by one and, like the image itself, stop the click there, so
      the overlay does not close the lightbox under them. */
  function Next(count: nat, selected: Option<nat>, t: Target): (r: Option<nat>)
    ensures !Offered(count, selected, t) ==> r == selected
    ensures Offered(count, selected, t) ==>
              match t
              case Thumbnail(i) => r == Some(i)
              case CloseButton => r == None
              case Overlay => r == None
              case PrevButton => r.Some? && r.value + 1 == selected.value
              case NextButton => r.Some? && r.value == selected.value + 1
              case LightboxImage => r == selected
  {
    if !Offered(count, selected, t) then selected
    else match t
      case Thumbnail(i) => Some(i)
      case CloseButton => None
      case Overlay => None
      case PrevButton => Some(selected.value - 1)
      case NextButton => Some(selected.value + 1)
      case LightboxImage => selected
  }

  predicate InRange(count: nat, selected: Option<nat>) {
    selected.Some? ==> selected.value < count
  }

  /** The state after a sequence of clicks. */
  function Run(count: nat, selected: Option<nat>, clicks: seq<Target>): Option<nat>
    decreases |clicks|
  {
    if clicks == [] then selected else Run(count, Next(count, selected, clicks[0]), clicks[1..])
  }

  /** Every click keeps the index in range. */
  lemma NextInRange(count: nat, selected: Option<nat>, t: Target)
    requires InRange(count, selected)
    ensures InRange(count, Next(count, selected, t))
  {
  }

  /** Whatever the clicks, starting closed, `images[selectedIndex]` is defined. */
  lemma {:induction false} RunInRange(count: nat, selected: Option<nat>, clicks: seq<Target>)
    requires InRange(count, selected)
    ensures InRange(count, Run(count, selected, clicks))
    decreases |clicks|
  {
    if clicks != [] {
      NextInRange(count, selected, clicks[0]);
      RunInRange(count, Next(count, selected, clicks[0]), clicks[1..]);
    }
  }

  /** "Previous" then "next" comes back to the same image. */
  lemma PrevThenNext(count: nat, selected: Option<nat>)
    requires InRange(count, selected)
    requires Offered(count, selected, PrevButton)
    ensures Offered(count, Next(count, selected, PrevButton), NextButton)
    ensures Next(count, Next(count, selected, PrevButton), NextButton) == selected
  {
  }

  /** What the lightbox shows on a render. */
  datatype View =
    | Closed
    | Open(url: string)
    | RenderThrows  // `images[selectedIndex]` is undefined: `src.startsWith` throws

  /** The gallery component: the props of the latest render (its images and
      the directory they are relative to) and the lightbox state. */
  class Gallery {
    var images: seq<string>
    var basePath: string
    var selectedIndex: Option<nat>

    predicate Valid()
      reads this
    {
      InRange(|images|, selectedIndex)
    }

    /** The lightbox starts closed. */
    constructor (images: seq<string>, basePath: string)
      ensures this.images == images && this.basePath == basePath
      ensures selectedIndex == None
      ensures Valid()
    {
      this.images := images;
      this.basePath := basePath;
      selectedIndex := None;
    }

    /** A render with other props: `useState` keeps the selected index, so
        an open lightbox may now point past the end of a shorter list. */
    method SetImages(images: seq<string>, basePath: string)
      modifies this`images, this`basePath
      ensures this.images == images && this.basePath == basePath
      ensures selectedIndex == old(selectedIndex)
    {
      this.images := images;
      this.basePath := basePath;
    }

    /** A click, with the handlers of the element it lands on. Clicks reach
        only a page that rendered, hence an index in range. */
    method Click(t: Target)
      requires Valid()
      modifies this`selectedIndex
      ensures selectedIndex == Next(|images|, old(selectedIndex), t)
      ensures Valid()
    {
      match t
      case Thumbnail(i) =>
        if i < |images| {
          selectedIndex := Some(i);
        }
      case CloseButton =>
        // the button's handler, then the overlay's: both set null
        if selectedIndex.Some? {
          selectedIndex := None;
        }
      case Overlay =>
        if selectedIndex.Some? {
          selectedIndex := None;
        }
      case PrevButton =>
        if selectedIndex.Some? && selectedIndex.value > 0 {
          selectedIndex := Some(selectedIndex.value - 1);
        }
      case NextButton =>
        if selectedIndex.Some? && selectedIndex.value < |images| - 1 {
          selectedIndex := Some(selectedIndex.value + 1);
        }
      case LightboxImage =>
    }

    /** The lightbox of a render: closed, the large image with its URL, or a
        throw when the selected index is past the end of the images. */
    method Shown() returns (v: View)
      ensures v == Closed <==> selectedIndex.None?
      ensures v == RenderThrows <==> !Valid()
      ensures v.Open? ==> selectedIndex.Some? && selectedIndex.value < |images|
      ensures v.Open? ==> v.url == ImageUrl(basePath, images[selectedIndex.value])
    {
      if selectedIndex.None? {
        v := Closed;
      } else if selectedIndex.value < |images| {
        v := Open(ImageUrl(basePath, images[selectedIndex.value]));
      } else {
        v := RenderThrows;
      }
    }
  }

  /** An open lightbox on the last of two images, re-rendered with one image:
      the kept index points past the end and the render throws. */
  method ShrunkWhileOpen() returns (v: View)
    ensures v == RenderThrows
  {
    var g := new Gallery(["a.png", "b.png"], "notes");
    g.Click(Thumbnail(1));
    g.SetImages(["a.png"], "notes");
    v := g.Shown();
  }
}
