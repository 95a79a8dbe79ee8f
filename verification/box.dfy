/** `computeWidth` / `computeHeight`: the inner extent of a box inside its
    parent once the two insets along one axis are taken off. */
module Box {

  /** Inner width: the parent width less the left and right insets. Nothing
      is clamped, so insets wider than the parent give a negative width. */
  function ComputeWidth(parentWidth: real, left: real, right: real): (w: real)
    // adding the insets back recovers the parent width
    ensures w + left + right == parentWidth
  {
    parentWidth - left - right
  }

  /** Inner height: the parent height less the top and bottom insets,
      unclamped like `ComputeWidth`. */
  function ComputeHeight(parentHeight: real, top: real, bottom: real): (h: real)
    ensures h + top + bottom == parentHeight
  {
    parentHeight - top - bottom
  }

  /** The inner width is non-negative exactly when the insets fit. */
  lemma WidthNonNegativeIffInsetsFit(parentWidth: real, left: real, right: real)
    ensures ComputeWidth(parentWidth, left, right) >= 0.0 <==> left + right <= parentWidth
  {
  }

  /** The inner height is non-negative exactly when the insets fit. */
  lemma HeightNonNegativeIffInsetsFit(parentHeight: real, top: real, bottom: real)
    ensures ComputeHeight(parentHeight, top, bottom) >= 0.0 <==> top + bottom <= parentHeight
  {
  }

  /** Only the total inset matters, not how it is split between the sides. */
  lemma WidthDependsOnTotalInset(parentWidth: real, left: real, right: real, left': real, right': real)
    requires left + right == left' + right'
    ensures ComputeWidth(parentWidth, left, right) == ComputeWidth(parentWidth, left', right')
  {
  }

  /** 100 less insets of 10 and 10 is 80; less 60 and 60 it is -20, not 0. */
  lemma InsetExamples()
    ensures ComputeWidth(100.0, 10.0, 10.0) == 80.0
    ensures ComputeWidth(100.0, 60.0, 60.0) == -20.0
    ensures ComputeHeight(100.0, 60.0, 60.0) == -20.0
  {
  }
}
