/** Placement of the caption block on the image: the text is centred, and a
    translucent box is drawn behind it with a fixed padding. */
module Overlay {

  datatype Point = Point(x: int, y: int)

  /** A rectangle given by its left, top, right and bottom edges. */
  datatype Box = Box(left: int, top: int, right: int, bottom: int)

  const Padding: int := 10

  /** Python's `n // 2` (floor division). */
  function Half(n: int): (h: int)
    ensures 2 * h <= n < 2 * h + 2
  {
    n / 2
  }

  /** Where the text block of size `textWidth` x `textHeight` is drawn on an
      image of size `imageWidth` x `imageHeight`: the margins left and right
      (above and below) differ by at most one pixel, the extra one going right
      (below). A block larger than the image gets negative coordinates. */
  function TextPosition(imageWidth: nat, imageHeight: nat, textWidth: nat, textHeight: nat): (p: Point)
    ensures var right := imageWidth - (p.x + textWidth); 0 <= right - p.x <= 1
    ensures var below := imageHeight - (p.y + textHeight); 0 <= below - p.y <= 1
  {
    Point(Half(imageWidth - textWidth), Half(imageHeight - textHeight))
  }

  /** The backing rectangle: the text rectangle grown by `Padding` on every
      side. */
  function BackingBox(p: Point, textWidth: nat, textHeight: nat): (b: Box)
    ensures b.right - b.left == textWidth + 2 * Padding
    ensures b.bottom - b.top == textHeight + 2 * Padding
    ensures p.x - b.left == Padding && b.right - (p.x + textWidth) == Padding
    ensures p.y - b.top == Padding && b.bottom - (p.y + textHeight) == Padding
  {
    Box(p.x - Padding, p.y - Padding, p.x + textWidth + Padding, p.y + textHeight + Padding)
  }

  /** A block no larger than the image lies inside it, and so does its box
      when the image leaves room for the padding on each side. */
  lemma {:induction false} BlockInsideImage(imageWidth: nat, imageHeight: nat, textWidth: nat, textHeight: nat)
    requires textWidth <= imageWidth && textHeight <= imageHeight
    ensures var p := TextPosition(imageWidth, imageHeight, textWidth, textHeight);
      && 0 <= p.x && p.x + textWidth <= imageWidth
      && 0 <= p.y && p.y + textHeight <= imageHeight
    ensures var p := TextPosition(imageWidth, imageHeight, textWidth, textHeight);
      var b := BackingBox(p, textWidth, textHeight);
      textWidth + 2 * Padding <= imageWidth && textHeight + 2 * Padding <= imageHeight ==>
        0 <= b.left && b.right <= imageWidth && 0 <= b.top && b.bottom <= imageHeight
  {
    var p := TextPosition(imageWidth, imageHeight, textWidth, textHeight);
    assert 2 * p.x <= imageWidth - textWidth;
    assert 2 * p.y <= imageHeight - textHeight;
  }
}
