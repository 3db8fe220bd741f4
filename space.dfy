/**
 * The Space layout container: resolves its size prop to a pair of pixel gaps,
 * defaults its alignment, finds the last present child and lays the children
 * out as items.
 */
module Space {
  import opened Wrappers
  import opened SpaceItem

  /** The named sizes of the `spaceSize` table. */
  datatype SizeType = Small | Middle | Large

  /** One size value: a name, a number of pixels, or left undefined. */
  datatype SpaceSize = Named(name: SizeType) | Px(px: real) | Unset

  /** The `size` prop: one size for both axes, or a `[horizontal, vertical]` array. */
  datatype SizeProp = Scalar(size: SpaceSize) | Pair(horizontal: SpaceSize, vertical: SpaceSize)

  datatype Align = Start | End | Center | Baseline

  /** The props the layout reads; absent ones are `None`. */
  datatype SpaceProps = SpaceProps(
    size: Option<SizeProp>,
    direction: Option<Direction>,
    align: Option<Align>,
    split: bool,
    wrap: bool)

  /** What the Space renders: its direction and alignment classes, whether the
      container sets `flexWrap: 'wrap'`, the container's negative `marginBottom`
      when wrapping, the context it
      provides to its items, and the items in order. */
  datatype SpaceView<C> = SpaceView(
    direction: Direction,
    align: Option<Align>,
    flexWrap: bool,
    marginBottom: Option<real>,
    context: SpaceContext,
    items: seq<ItemProps<C>>)

  /** The `spaceSize` table. */
  function SpaceSizePx(t: SizeType): real
  {
    match t
    case Small => 8.0
    case Middle => 16.0
    case Large => 24.0
  }

  /** `getNumberSize`: a name through the table, a number as itself (`size || 0`), undefined as 0. */
  function GetNumberSize(size: SpaceSize): real
  {
    match size
    case Named(t) => SpaceSizePx(t)
    case Px(n) => if n != 0.0 then n else 0.0
    case Unset => 0.0
  }

  /** Named sizes are 8, 16 and 24 pixels, positive and in increasing order; a number,
      including 0, comes back unchanged; an undefined size is 0. */
  lemma GetNumberSizeSpec(n: real)
    ensures GetNumberSize(Named(Small)) == 8.0
    ensures GetNumberSize(Named(Middle)) == 16.0
    ensures GetNumberSize(Named(Large)) == 24.0
    ensures GetNumberSize(Px(n)) == n
    ensures GetNumberSize(Unset) == 0.0
    ensures forall t :: 0.0 < GetNumberSize(Named(t))
    ensures GetNumberSize(Named(Small)) < GetNumberSize(Named(Middle)) < GetNumberSize(Named(Large))
  {
  }

  /** `[horizontalSize, verticalSize]`: the `size` prop (default `'small'`),
      duplicated when it is a single value, mapped through `getNumberSize`. */
  function Sizes(size: Option<SizeProp>): (real, real)
  {
    var pair := match size.GetOr(Scalar(Named(Small)))
      case Scalar(x) => (x, x)
      case Pair(h, v) => (h, v);
    (GetNumberSize(pair.0), GetNumberSize(pair.1))
  }

  /** A single size gives two equal gaps; an absent one gives 8 on both axes;
      an array is converted element by element. */
  lemma SizesSpec(size: Option<SizeProp>)
    ensures size.None? ==> Sizes(size) == (8.0, 8.0)
    ensures size.Some? && size.value.Scalar? ==>
      Sizes(size).0 == Sizes(size).1 == GetNumberSize(size.value.size)
    ensures size.Some? && size.value.Pair? ==>
      Sizes(size) == (GetNumberSize(size.value.horizontal), GetNumberSize(size.value.vertical))
  {
  }

  /** `mergedAlign`. */
  function MergedAlign(align: Option<Align>, direction: Direction): Option<Align>
  {
    if align.None? && direction == Horizontal then Some(Center) else align
  }

  /** The alignment becomes `center` exactly when none is given and the layout
      is horizontal; otherwise it is the given one (possibly none). */
  lemma MergedAlignSpec(align: Option<Align>, direction: Direction)
    ensures align.None? && direction == Horizontal ==> MergedAlign(align, direction) == Some(Center)
    ensures !(align.None? && direction == Horizontal) ==> MergedAlign(align, direction) == align
    ensures MergedAlign(align, direction).None? <==> align.None? && direction == Vertical
  {
  }

  /** `k` is the index of the last present child, or 0 when none is present. */
  ghost predicate IsLatestIndex<C>(items: seq<Option<C>>, k: nat)
  {
    || (k == 0 && forall i :: 0 <= i < |items| ==> items[i].None?)
    || (k < |items| && items[k].Some? && forall j :: k < j < |items| ==> items[j].None?)
  }

  /** The latest index is determined by the children. */
  lemma LatestIndexUnique<C>(items: seq<Option<C>>, k: nat, k': nat)
    requires IsLatestIndex(items, k) && IsLatestIndex(items, k')
    ensures k == k'
  {
  }

  /** A present child is before the latest index exactly when a present child
      follows it, so margins and split nodes go between items and never after
      the last one. */
  lemma LatestIndexSeparates<C>(items: seq<Option<C>>, k: nat, i: nat)
    requires IsLatestIndex(items, k)
    requires i < |items| && items[i].Some?
    ensures i < k <==> exists j :: i < j < |items| && items[j].Some?
  {
    if i < k {
      assert items[k].Some?;
    }
  }

  /** In a laid-out Space, the split span follows a present child exactly when
      a split is set and another present child comes after it. */
  lemma SplitOnlyBetweenItems<C>(props: SpaceProps, items: seq<Option<C>>, ctx: SpaceContext, i: nat)
    requires IsLatestIndex(items, ctx.latestIndex)
    requires i < |items| && items[i].Some?
    ensures var p := ItemProps(i, props.direction.GetOr(Horizontal), MarginRight, props.split, props.wrap, items[i]);
      && RenderItem(p, ctx).Some?
      && (RenderItem(p, ctx).value.showSplit <==>
            props.split && exists j :: i < j < |items| && items[j].Some?)
  {
    var p := ItemProps(i, props.direction.GetOr(Horizontal), MarginRight, props.split, props.wrap, items[i]);
    RenderItemSpec(p, ctx);
    LatestIndexSeparates(items, ctx.latestIndex, i);
  }

  /** The Space component: nothing for an empty child list; otherwise the
      items in input order with `index = i`, the context, and the wrap margin. */
  method Render<C>(props: SpaceProps, items: seq<Option<C>>) returns (view: Option<SpaceView<C>>)
    ensures view.None? <==> |items| == 0
    ensures view.Some? ==>
      var v := view.value;
      && v.direction == props.direction.GetOr(Horizontal)
      && v.align == MergedAlign(props.align, v.direction)
      && v.context.horizontalSize == Sizes(props.size).0
      && v.context.verticalSize == Sizes(props.size).1
      && IsLatestIndex(items, v.context.latestIndex)
      && v.flexWrap == props.wrap
      && v.marginBottom == (if props.wrap then Some(-Sizes(props.size).1) else None)
      && |v.items| == |items|
      && forall i :: 0 <= i < |items| ==>
           v.items[i] == ItemProps(i, v.direction, MarginRight, props.split, props.wrap, items[i])
  {
    var direction := props.direction.GetOr(Horizontal);
    var sizes := Sizes(props.size);
    var len := |items|;
    if len == 0 {
      return None;
    }
    var mergedAlign := MergedAlign(props.align, direction);
    var marginDirection := MarginRight;
    var latestIndex: nat := 0;
    var nodes: seq<ItemProps<C>> := [];
    var i := 0;
    while i < len
      invariant 0 <= i <= len
      invariant |nodes| == i
      invariant forall j :: 0 <= j < i ==>
        nodes[j] == ItemProps(j, direction, marginDirection, props.split, props.wrap, items[j])
      invariant latestIndex <= i && (i > 0 ==> latestIndex < i)
      invariant || (latestIndex == 0 && forall j :: 0 <= j < i ==> items[j].None?)
                || (items[latestIndex].Some? && forall j :: latestIndex < j < i ==> items[j].None?)
    {
      if items[i].Some? {
        latestIndex := i;
      }
      nodes := nodes + [ItemProps(i, direction, marginDirection, props.split, props.wrap, items[i])];
      i := i + 1;
    }
    var marginBottom := if props.wrap then Some(-sizes.1) else None;
    view := Some(SpaceView(direction, mergedAlign, props.wrap, marginBottom,
                           SpaceContext(latestIndex, sizes.0, sizes.1), nodes));
  }
}
