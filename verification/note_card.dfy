/**
  The note card's pure state updates: the image list (append capped at five,
  remove by index), the image viewer (open, cyclic navigation), the favorite
  flag, and the `mm:ss` rendering of audio positions.
 */
module NoteCard {
  import opened Wrappers
  import opened Text

  const MaxImages: nat := 5

  /** `handleImageUpload`: `file` is the data URL the reader produced for the chosen file,
      `None` when no file was chosen. The image is appended only while fewer than five are
      attached. */
  function AddImage(images: seq<string>, file: Option<string>): (r: seq<string>)
    ensures |r| == |images| || |r| == |images| + 1
    ensures |images| <= MaxImages ==> |r| <= MaxImages
    ensures r[..|images|] == images
    ensures |r| == |images| + 1 <==> file.Some? && |images| < MaxImages
    ensures |r| == |images| + 1 ==> r[|images|] == file.value
  {
    if file.Some? && |images| < MaxImages then images + [file.value] else images
  }

  /** `prev.filter((_, index) => index !== indexToRemove)`, walking the list with the index
      of its first element. */
  function DropIndex(images: seq<string>, indexToRemove: int, start: int): (r: seq<string>)
    decreases |images|
    ensures start <= indexToRemove < start + |images| ==>
      var i := indexToRemove - start;
      |r| == |images| - 1 && r[..i] == images[..i] && r[i..] == images[i + 1..]
    ensures !(start <= indexToRemove < start + |images|) ==> r == images
  {
    if images == [] then []
    else
      var rest := DropIndex(images[1..], indexToRemove, start + 1);
      (if start == indexToRemove then [] else [images[0]]) + rest
  }

  /** `removeImage(i)`: drops exactly the element at index `i`, keeping the order of the rest;
      an index outside the list leaves it unchanged. */
  function RemoveImage(images: seq<string>, i: int): (r: seq<string>)
    ensures 0 <= i < |images| ==> |r| == |images| - 1 && r[..i] == images[..i] && r[i..] == images[i + 1..]
    ensures !(0 <= i < |images|) ==> r == images
  {
    DropIndex(images, i, 0)
  }

  /** Removing the image just added gives back the list before the upload. */
  lemma RemoveAddedImage(images: seq<string>, file: string)
    requires |images| < MaxImages
    ensures RemoveImage(AddImage(images, Some(file)), |images|) == images
  {
    var added := AddImage(images, Some(file));
    var r := RemoveImage(added, |images|);
    assert r == r[..|images|] + r[|images|..];
  }

  datatype Direction = Prev | Next

  /** `navigateImage(direction)`: steps the selected index, wrapping at both ends; nothing
      happens without a selection or without images. */
  function Navigate(selected: Option<int>, count: nat, dir: Direction): (r: Option<int>)
    ensures selected.None? || count == 0 ==> r == selected
    ensures selected.Some? && count > 0 ==> r.Some?
    // on an in-range selection the step is cyclic: +1 or -1 modulo the number of images
    ensures selected.Some? && 0 <= selected.value < count ==>
      && 0 <= r.value < count
      && r.value == (if dir == Next then selected.value + 1 else selected.value - 1 + count) % count
  {
    match selected
    case None => selected
    case Some(i) =>
      if count == 0 then selected
      else if dir == Prev then
        ModWindow(i - 1 + count, count);
        Some(if i == 0 then count - 1 else i - 1)
      else
        ModWindow(i + 1, count);
        assert 0 <= i < count - 1 ==> (i + 1) % count == i + 1;
        assert dir == Next;
        Some(if i == count - 1 then 0 else i + 1)
  }

  /** `x % n` for `x` in [0, 2n). */
  lemma ModWindow(x: int, n: nat)
    requires n > 0
    ensures 0 <= x < n ==> x % n == x
    ensures n <= x < 2 * n ==> x % n == x - n
  {
    if n <= x < 2 * n {
      assert (x - n) % n == (x - n + n) % n;
    }
  }

  /** "prev" undoes "next" and "next" undoes "prev" on an in-range selection. */
  lemma NavigateInverse(i: int, count: nat)
    requires 0 <= i < count
    ensures Navigate(Navigate(Some(i), count, Next), count, Prev) == Some(i)
    ensures Navigate(Navigate(Some(i), count, Prev), count, Next) == Some(i)
  {
  }

  /** The full-screen viewer: the selected index and whether it is open. */
  datatype Viewer = Viewer(selected: Option<int>, open: bool)

  /** `openImageViewer(index)`: only outside edit mode, and then at `index`. */
  function OpenImageViewer(v: Viewer, isEditing: bool, index: int): (r: Viewer)
    ensures isEditing ==> r == v
    ensures !isEditing ==> r.open && r.selected == Some(index)
  {
    if !isEditing then Viewer(Some(index), true) else v
  }

  /** `closeImageViewer`. */
  function CloseImageViewer(v: Viewer): (r: Viewer)
    ensures !r.open && r.selected.None?
  {
    Viewer(None, false)
  }

  /** Opening the viewer at an image and stepping through the images keeps the selection in
      range; closing it afterwards clears the selection, after which navigation does nothing. */
  lemma ViewerSession(v: Viewer, index: int, count: nat, dir: Direction)
    requires 0 <= index < count
    ensures OpenImageViewer(v, false, index).selected == Some(index)
    ensures var stepped := Navigate(OpenImageViewer(v, false, index).selected, count, dir);
      stepped.Some? && 0 <= stepped.value < count
    ensures var closed := CloseImageViewer(OpenImageViewer(v, false, index));
      closed == Viewer(None, false) && Navigate(closed.selected, count, dir).None?
  {
  }

  /** `toggleFavorite`. */
  function ToggleFavorite(favorite: bool): (r: bool)
    ensures r != favorite
  {
    !favorite
  }

  lemma ToggleFavoriteTwice(favorite: bool)
    ensures ToggleFavorite(ToggleFavorite(favorite)) == favorite
  {
  }

  /** `formatTime(seconds)` on whole seconds: minutes and remaining seconds, each
      zero-padded to two digits, joined by a colon. */
  function FormatTime(seconds: nat): (r: string)
    ensures |r| >= 5 && r[|r| - 3] == ':'
    ensures seconds < 6000 ==> |r| == 5
    // the two colon-separated fields are the minutes and the seconds within the minute
    ensures var p := Split(r, ":");
      && |p| == 2 && AllDigits(p[0]) && AllDigits(p[1])
      && |p[0]| >= 2 && |p[1]| == 2
      && ParseDigits(p[0]) == seconds / 60 && ParseDigits(p[1]) == seconds % 60
  {
    var minutes, rest := Pad2(seconds / 60), Pad2(seconds % 60);
    ClockSplit(minutes, rest);
    var r := minutes + ":" + rest;
    assert r[|r| - 3] == ':';
    r
  }

  /** `n.toString().padStart(2, "0")`: at least two digits that read back as `n`. */
  function Pad2(n: nat): (r: string)
    ensures AllDigits(r) && ParseDigits(r) == n
    ensures |r| >= 2 && (n < 100 ==> |r| == 2)
  {
    DecimalLength(n);
    PaddedDecimal(n);
    PadStart(Decimal(n), 2, '0')
  }

  /** Two digit strings joined by a colon split back into the two. */
  lemma ClockSplit(a: string, b: string)
    requires AllDigits(a) && AllDigits(b)
    ensures Split(a + ":" + b, ":") == [a, b]
  {
    DigitsHaveNoColon(a);
    DigitsHaveNoColon(b);
    SplitAfterFree(a, ":", b);
    SplitFree(b, ":");
  }

  /** Naturals below 100 have at most two decimal digits. */
  lemma DecimalLength(n: nat)
    ensures n < 100 ==> |Decimal(n)| <= 2
  {
    if 10 <= n < 100 {
      assert Decimal(n) == Decimal(n / 10) + [DigitChar(n % 10)];
    }
  }

  /** Reads an `m:ss` rendering back as a number of seconds. */
  function ParseClock(r: string): Option<nat> {
    var parts := Split(r, ":");
    if |parts| == 2 && AllDigits(parts[0]) && AllDigits(parts[1]) then
      Some(60 * ParseDigits(parts[0]) + ParseDigits(parts[1]))
    else
      None
  }

  lemma DigitsHaveNoColon(s: string)
    requires AllDigits(s)
    ensures !Includes(s, ":")
  {
    Excludes(s, ':');
  }

  /** A zero-padded decimal still reads as its number. */
  lemma {:induction false} PaddedDecimal(n: nat)
    ensures AllDigits(PadStart(Decimal(n), 2, '0'))
    ensures ParseDigits(PadStart(Decimal(n), 2, '0')) == n
  {
    var d := Decimal(n);
    var p := PadStart(d, 2, '0');
    var z := p[..|p| - |d|];
    assert p == z + d;
    LeadingZeros(z, d);
    DecimalRoundTrip(n);
  }

  /** Reading back `formatTime(s)` gives `s`. */
  lemma FormatTimeRoundTrip(seconds: nat)
    ensures ParseClock(FormatTime(seconds)) == Some(seconds)
  {
  }
}
