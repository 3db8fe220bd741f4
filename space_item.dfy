/**
 * One item of a Space layout: the style that spaces it from its successor and
 * whether a split node follows it.
 */
module SpaceItem {
  import opened Wrappers

  datatype Direction = Horizontal | Vertical

  /** The style property the horizontal margin goes to. */
  datatype MarginSide = MarginLeft | MarginRight

  /** What the Space provides to its items: the index of the last present child
      and the two gap sizes in pixels. */
  datatype SpaceContext = SpaceContext(latestIndex: nat, horizontalSize: real, verticalSize: real)

  /** A CSS value as handed to the style binding: a plain number, or a Vue ref
      object wrapping a number (which the style binding does not unwrap). */
  datatype CssValue = Number(n: real) | RefObject(n: real)

  /** The inline style of an item; `None` fields are properties left unset. */
  datatype Style = Style(
    marginBottom: Option<real>,
    marginLeft: Option<real>,
    marginRight: Option<real>,
    paddingBottom: Option<CssValue>)

  /** The props of an item. `split` says whether the split node is truthy;
      `child` is the filtered default slot, `None` when it is absent. */
  datatype ItemProps<C> = ItemProps(
    index: nat,
    direction: Direction,
    marginDirection: MarginSide,
    split: bool,
    wrap: bool,
    child: Option<C>)

  /** What an item renders: its wrapper's style, its content, and whether the
      split span (which carries the same style) follows it. */
  datatype ItemView<C> = ItemView(style: Option<Style>, content: C, showSplit: bool)

  /** `horizontalSize / (split ? 2 : 1)`. */
  function Gap(ctx: SpaceContext, split: bool): real
  {
    ctx.horizontalSize / (if split then 2.0 else 1.0)
  }

  /** The `style` computation, with the value it passes as `paddingBottom`. */
  function StyleWithPadding<C>(p: ItemProps<C>, ctx: SpaceContext, padding: CssValue): Option<Style>
  {
    if p.direction == Vertical then
      if p.index < ctx.latestIndex then Some(Style(Some(Gap(ctx, p.split)), None, None, None)) else None
    else
      var margin := if p.index < ctx.latestIndex then Some(Gap(ctx, p.split)) else None;
      Some(Style(
        None,
        if p.marginDirection == MarginLeft then margin else None,
        if p.marginDirection == MarginRight then margin else None,
        if p.wrap then Some(padding) else None))
  }

  /** The style as written: `paddingBottom` receives the `verticalSize` ref itself. */
  function ItemStyleAsWritten<C>(p: ItemProps<C>, ctx: SpaceContext): Option<Style>
  {
    StyleWithPadding(p, ctx, RefObject(ctx.verticalSize))
  }

  /** The style as intended: `paddingBottom` receives the vertical gap in pixels. */
  function ItemStyle<C>(p: ItemProps<C>, ctx: SpaceContext): Option<Style>
  {
    StyleWithPadding(p, ctx, Number(ctx.verticalSize))
  }

  /** With wrapping, the as-written style hands a ref object, not the vertical
      gap, to `paddingBottom`; the intended style differs from it exactly there. */
  lemma WrapPaddingAsWrittenIsRef<C>(p: ItemProps<C>, ctx: SpaceContext)
    requires p.direction == Horizontal && p.wrap
    ensures ItemStyleAsWritten(p, ctx).Some? && ItemStyle(p, ctx).Some?
    ensures ItemStyleAsWritten(p, ctx).value.paddingBottom == Some(RefObject(ctx.verticalSize))
    ensures ItemStyle(p, ctx).value.paddingBottom == Some(Number(ctx.verticalSize))
    ensures ItemStyleAsWritten(p, ctx) != ItemStyle(p, ctx)
    ensures ItemStyleAsWritten(p, ctx).value.(paddingBottom := None) == ItemStyle(p, ctx).value.(paddingBottom := None)
  {
  }

  /** A vertical item gets `marginBottom` of the (halved when split) horizontal
      gap when it is not the last, and no style at all otherwise. */
  lemma VerticalItemStyle<C>(p: ItemProps<C>, ctx: SpaceContext)
    requires p.direction == Vertical
    ensures ItemStyle(p, ctx).Some? <==> p.index < ctx.latestIndex
    ensures ItemStyle(p, ctx).Some? ==> ItemStyle(p, ctx) == Some(Style(Some(Gap(ctx, p.split)), None, None, None))
  {
  }

  /** A horizontal item always gets a style: the margin on its margin side is
      the (halved when split) horizontal gap exactly when it is not the last,
      the other side and `marginBottom` stay unset, and `paddingBottom` is the
      vertical gap exactly when wrapping. */
  lemma HorizontalItemStyle<C>(p: ItemProps<C>, ctx: SpaceContext)
    requires p.direction == Horizontal
    ensures ItemStyle(p, ctx).Some?
    ensures var st := ItemStyle(p, ctx).value;
      var side := if p.marginDirection == MarginRight then st.marginRight else st.marginLeft;
      var other := if p.marginDirection == MarginRight then st.marginLeft else st.marginRight;
      && (side.Some? <==> p.index < ctx.latestIndex)
      && (side.Some? ==> side.value == Gap(ctx, p.split))
      && other.None? && st.marginBottom.None?
      && (st.paddingBottom.Some? <==> p.wrap)
      && (st.paddingBottom.Some? ==> st.paddingBottom.value == Number(ctx.verticalSize))
  {
  }

  /** A split halves the gap exactly. */
  lemma SplitHalvesGap(ctx: SpaceContext)
    ensures Gap(ctx, true) * 2.0 == Gap(ctx, false)
    ensures Gap(ctx, false) == ctx.horizontalSize
  {
  }

  /** The Item component: nothing without a child; otherwise the styled
      wrapper, followed by the split span between items. */
  function RenderItem<C>(p: ItemProps<C>, ctx: SpaceContext): Option<ItemView<C>>
  {
    if p.child.None? then None
    else Some(ItemView(ItemStyle(p, ctx), p.child.value, p.index < ctx.latestIndex && p.split))
  }

  /** An item renders exactly when it has a child, with the item style, and the
      split span is shown exactly when a split is set and the item is not the last. */
  lemma RenderItemSpec<C>(p: ItemProps<C>, ctx: SpaceContext)
    ensures RenderItem(p, ctx).None? <==> p.child.None?
    ensures RenderItem(p, ctx).Some? ==>
      && RenderItem(p, ctx).value.content == p.child.value
      && RenderItem(p, ctx).value.style == ItemStyle(p, ctx)
      && (RenderItem(p, ctx).value.showSplit <==> p.split && p.index < ctx.latestIndex)
  {
  }
}
