/**
 * Rotation augmentation of a PascalVOC-annotated image: the integer box rotation, the
 * in-place rewrite of an annotation tree's `bndbox` texts, and the names of the files
 * written for each rotation angle.
 */
module DatasetAugmentation {
  import opened Decimal

  /** The rotation angles applied to every image, in order (0 keeps the original). */
  const ROTATIONS: seq<int> := [0, 90, 180, 270]

  /** A box as parsed from a `bndbox` element: (x_min, y_min, x_max, y_max). */
  datatype Box = Box(xMin: int, yMin: int, xMax: int, yMax: int)

  /** The four texts of a `bndbox` element (`xmin`, `ymin`, `xmax`, `ymax`). */
  datatype BndBoxText = BndBoxText(xmin: string, ymin: string, xmax: string, ymax: string)

  predicate WellFormed(b: Box) {
    b.xMin <= b.xMax && b.yMin <= b.yMax
  }

  function Width(b: Box): int { b.xMax - b.xMin }

  function Height(b: Box): int { b.yMax - b.yMin }

  /** The box lies in a `w` by `h` image. */
  predicate Inside(b: Box, w: int, h: int) {
    0 <= b.xMin <= b.xMax <= w && 0 <= b.yMin <= b.yMax <= h
  }

  /**
   * The box after rotating a `w` by `h` image by `angle` degrees; any angle other than
   * 90, 180 or 270 leaves it as it is.
   */
  function RotateBox(b: Box, angle: int, w: int, h: int): (r: Box)
    ensures WellFormed(b) ==> WellFormed(r)
    ensures angle == 90 || angle == 270 ==> Width(r) == Height(b) && Height(r) == Width(b)
    ensures angle != 90 && angle != 270 ==> Width(r) == Width(b) && Height(r) == Height(b)
    ensures angle == 90 || angle == 270 ==> (Inside(b, w, h) ==> Inside(r, h, w))
    ensures angle != 90 && angle != 270 ==> (Inside(b, w, h) ==> Inside(r, w, h))
  {
    if angle == 90 then Box(b.yMin, w - b.xMax, b.yMax, w - b.xMin)
    else if angle == 180 then Box(w - b.xMax, h - b.yMax, w - b.xMin, h - b.yMin)
    else if angle == 270 then Box(h - b.yMax, b.xMin, h - b.yMin, b.xMax)
    else b
  }

  /** Angle 0, and every angle the function does not handle, is the identity. */
  lemma RotateByOtherAngleIsIdentity(b: Box, angle: int, w: int, h: int)
    requires angle != 90 && angle != 180 && angle != 270
    ensures RotateBox(b, angle, w, h) == b
  {
  }

  /** Rotating by 180 twice in the same image gives the box back. */
  lemma Rotate180Involution(b: Box, w: int, h: int)
    ensures RotateBox(RotateBox(b, 180, w, h), 180, w, h) == b
  {
  }

  /** 270 in the rotated (`h` by `w`) image undoes 90, and 90 undoes 270. */
  lemma Rotate90Then270(b: Box, w: int, h: int)
    ensures RotateBox(RotateBox(b, 90, w, h), 270, h, w) == b
    ensures RotateBox(RotateBox(b, 270, w, h), 90, h, w) == b
  {
  }

  /** Two quarter turns, the second in the rotated image, are one half turn. */
  lemma Rotate90Twice(b: Box, w: int, h: int)
    ensures RotateBox(RotateBox(b, 90, w, h), 90, h, w) == RotateBox(b, 180, w, h)
  {
  }

  /** The texts `str()` writes for each coordinate. */
  function ToText(b: Box): BndBoxText {
    BndBoxText(IntToString(b.xMin), IntToString(b.yMin), IntToString(b.xMax), IntToString(b.yMax))
  }

  /** Distinct boxes are written as distinct texts. */
  lemma ToTextInjective(a: Box, b: Box)
    ensures ToText(a) == ToText(b) <==> a == b
  {
    IntToStringInjective(a.xMin, b.xMin);
    IntToStringInjective(a.yMin, b.yMin);
    IntToStringInjective(a.xMax, b.xMax);
    IntToStringInjective(a.yMax, b.yMax);
  }

  /** Object i's `bndbox` texts after rotating every original box by `angle`. */
  function RotatedTexts(boxes: seq<Box>, angle: int, w: int, h: int): (r: seq<BndBoxText>)
    ensures |r| == |boxes|
  {
    seq(|boxes|, i requires 0 <= i < |boxes| => ToText(RotateBox(boxes[i], angle, w, h)))
  }

  /**
   * Overwrites each object's `bndbox` with its original box rotated by `angle`.  Slot i
   * of `tree` is the `bndbox` of `boxes[i]`'s object; what the tree held before does
   * not matter.
   */
  method UpdateAnnotation(tree: array<BndBoxText>, boxes: seq<Box>, angle: int, w: int, h: int)
    requires tree.Length == |boxes|
    modifies tree
    ensures tree[..] == RotatedTexts(boxes, angle, w, h)
  {
    var i := 0;
    while i < |boxes|
      invariant 0 <= i <= |boxes|
      invariant forall j :: 0 <= j < i ==> tree[j] == ToText(RotateBox(boxes[j], angle, w, h))
    {
      var newBox := RotateBox(boxes[i], angle, w, h);
      tree[i] := ToText(newBox);
      i := i + 1;
    }
  }

  /** `{base}_rot{angle}{ext}`. */
  function RotatedName(base: string, angle: int, ext: string): (name: string)
    ensures |name| > |base| + |ext| && name[..|base|] == base && name[|name| - |ext|..] == ext
  {
    base + "_rot" + IntToString(angle) + ext
  }

  /** A name is the base, `_rot`, the angle's decimal text and the extension, in that order. */
  lemma RotatedNameShape(base: string, angle: int, ext: string)
    ensures var name := RotatedName(base, angle, ext);
      && |name| == |base| + 4 + |IntToString(angle)| + |ext|
      && name[..|base| + 4] == base + "_rot"
      && name[|base| + 4..|name| - |ext|] == IntToString(angle)
      && name[|name| - |ext|..] == ext
  {
  }

  /** Names of distinct angles differ; a name determines its angle. */
  lemma RotatedNameInjective(base: string, a: int, b: int, ext: string)
    ensures RotatedName(base, a, ext) == RotatedName(base, b, ext) <==> a == b
  {
    var na, nb := RotatedName(base, a, ext), RotatedName(base, b, ext);
    RotatedNameShape(base, a, ext);
    RotatedNameShape(base, b, ext);
    if na == nb {
      assert na[|base| + 4..|na| - |ext|] == IntToString(a);
      assert nb[|base| + 4..|nb| - |ext|] == IntToString(b);
      IntToStringInjective(a, b);
    }
  }

  /** The image and annotation names of the first `n` rotations. */
  function RotationNames(base: string, n: nat): (names: seq<(string, string)>)
    requires n <= |ROTATIONS|
    ensures |names| == n && forall k :: 0 <= k < n ==>
      names[k] == (RotatedName(base, ROTATIONS[k], ".jpg"), RotatedName(base, ROTATIONS[k], ".xml"))
  {
    seq(n, k requires 0 <= k < n => (RotatedName(base, ROTATIONS[k], ".jpg"), RotatedName(base, ROTATIONS[k], ".xml")))
  }

  /** The annotation contents written for the first `n` rotations. */
  function RotationTexts(boxes: seq<Box>, w: int, h: int, n: nat): (texts: seq<seq<BndBoxText>>)
    requires n <= |ROTATIONS|
    ensures |texts| == n && forall k :: 0 <= k < n ==> texts[k] == RotatedTexts(boxes, ROTATIONS[k], w, h)
  {
    seq(n, k requires 0 <= k < n => RotatedTexts(boxes, ROTATIONS[k], w, h))
  }

  lemma RotationNamesStep(base: string, n: nat)
    requires n < |ROTATIONS|
    ensures RotationNames(base, n + 1) == RotationNames(base, n)
      + [(RotatedName(base, ROTATIONS[n], ".jpg"), RotatedName(base, ROTATIONS[n], ".xml"))]
  {
  }

  lemma RotationTextsStep(boxes: seq<Box>, w: int, h: int, n: nat)
    requires n < |ROTATIONS|
    ensures RotationTexts(boxes, w, h, n + 1) == RotationTexts(boxes, w, h, n) + [RotatedTexts(boxes, ROTATIONS[n], w, h)]
  {
  }

  /**
   * The rotation loop: for each angle of `ROTATIONS`, rewrite the tree from the original
   * boxes, write it out (the snapshot in `written`) and record the image and annotation
   * names.  Image rotation and file writes are not modelled.
   */
  method AugmentAndSave(base: string, tree: array<BndBoxText>, boxes: seq<Box>, w: int, h: int)
      returns (newFiles: seq<(string, string)>, written: seq<seq<BndBoxText>>)
    requires tree.Length == |boxes|
    modifies tree
    ensures newFiles == RotationNames(base, |ROTATIONS|)
    ensures written == RotationTexts(boxes, w, h, |ROTATIONS|)
    ensures tree[..] == RotatedTexts(boxes, 270, w, h)
  {
    newFiles, written := [], [];
    var k := 0;
    while k < |ROTATIONS|
      invariant 0 <= k <= |ROTATIONS|
      invariant newFiles == RotationNames(base, k)
      invariant written == RotationTexts(boxes, w, h, k)
      invariant k > 0 ==> tree[..] == RotatedTexts(boxes, ROTATIONS[k - 1], w, h)
    {
      var angle := ROTATIONS[k];
      var newImgName := RotatedName(base, angle, ".jpg");
      var newXmlName := RotatedName(base, angle, ".xml");
      UpdateAnnotation(tree, boxes, angle, w, h);
      RotationTextsStep(boxes, w, h, k);
      written := written + [tree[..]];
      RotationNamesStep(base, k);
      newFiles := newFiles + [(newImgName, newXmlName)];
      k := k + 1;
    }
  }

  /**
   * The pairs `AugmentAndSave` returns share their stem, and no two pairs share a name,
   * so the four rotations never overwrite each other's files.
   */
  lemma AugmentedNamesDistinct(base: string, j: int, k: int)
    requires 0 <= j < k < |ROTATIONS|
    ensures RotatedName(base, ROTATIONS[j], ".jpg") != RotatedName(base, ROTATIONS[k], ".jpg")
    ensures RotatedName(base, ROTATIONS[j], ".xml") != RotatedName(base, ROTATIONS[k], ".xml")
    ensures RotatedName(base, ROTATIONS[k], ".jpg")[..|base| + 4 + |IntToString(ROTATIONS[k])|]
         == RotatedName(base, ROTATIONS[k], ".xml")[..|base| + 4 + |IntToString(ROTATIONS[k])|]
  {
    RotatedNameInjective(base, ROTATIONS[j], ROTATIONS[k], ".jpg");
    RotatedNameInjective(base, ROTATIONS[j], ROTATIONS[k], ".xml");
    var stem := base + "_rot" + IntToString(ROTATIONS[k]);
    assert RotatedName(base, ROTATIONS[k], ".jpg") == stem + ".jpg";
    assert RotatedName(base, ROTATIONS[k], ".xml") == stem + ".xml";
  }
}
