/** The format-item tree: the borrowed form the format-description
    compiler produces and the owned form with its own copies of the
    literal bytes, the conversions between them and the equalities across
    types. */
module OwnedFormatItems {
  import opened Wrappers
  import opened Combinators

  /** One parametrised non-literal field of a format description; only its
      equality matters here. */
  type Component(==)

  /** A format item borrowing its literals and children. */
  datatype BorrowedFormatItem =
    | Literal(literal: seq<byte>)
    | Component(component: Component)
    | Compound(items: seq<BorrowedFormatItem>)
    | Optional(item: BorrowedFormatItem)
    | First(items: seq<BorrowedFormatItem>)

  /** A format item owning its data (`Box<[u8]>`, `Box<[Self]>`, `Box<Self>`). */
  datatype OwnedFormatItem =
    | Literal(literal: seq<byte>)
    | Component(component: Component)
    | Compound(items: seq<OwnedFormatItem>)
    | Optional(item: OwnedFormatItem)
    | First(items: seq<OwnedFormatItem>)

  /** The error of a `TryFrom` applied to the wrong variant. */
  datatype DifferentVariant = DifferentVariant

  /** `From<&BorrowedFormatItem>` (and `From<BorrowedFormatItem>`, which
      converts through a reference): the same tree, with literals copied and
      children converted one by one. Every node keeps its variant, its
      literal bytes, its component and the number and order of its children. */
  function FromBorrowed(item: BorrowedFormatItem): (r: OwnedFormatItem)
    ensures item.Literal? <==> r.Literal?
    ensures item.Component? <==> r.Component?
    ensures item.Compound? <==> r.Compound?
    ensures item.Optional? <==> r.Optional?
    ensures item.First? <==> r.First?
    ensures item.Literal? ==> r.literal == item.literal
    ensures item.Component? ==> r.component == item.component
    ensures item.Optional? ==> r.item == FromBorrowed(item.item)
    ensures item.Compound? || item.First? ==>
      && |r.items| == |item.items|
      && forall i :: 0 <= i < |item.items| ==> r.items[i] == FromBorrowed(item.items[i])
    decreases item, 1
  {
    match item
    case Literal(literal) => OwnedFormatItem.Literal(literal)
    case Component(component) => OwnedFormatItem.Component(component)
    case Compound(items) => OwnedFormatItem.Compound(FromBorrowedItems(items, item))
    case Optional(inner) => OwnedFormatItem.Optional(FromBorrowed(inner))
    case First(items) => OwnedFormatItem.First(FromBorrowedItems(items, item))
  }

  /** The children of `parent` converted in order
      (`iter().cloned().map(Into::into).collect()`). */
  function FromBorrowedItems(items: seq<BorrowedFormatItem>, parent: BorrowedFormatItem): (r: seq<OwnedFormatItem>)
    requires forall i :: 0 <= i < |items| ==> items[i] < parent
    ensures |r| == |items|
    ensures forall i :: 0 <= i < |items| ==> r[i] == FromBorrowed(items[i])
    decreases parent, 0, |items|
  {
    if |items| == 0 then []
    else FromBorrowedItems(items[..|items| - 1], parent) + [FromBorrowed(items[|items| - 1])]
  }

  /** The borrowed view of an owned tree: the reference the conversion is
      checked against. */
  function Borrow(item: OwnedFormatItem): (r: BorrowedFormatItem)
    decreases item, 1
  {
    match item
    case Literal(literal) => BorrowedFormatItem.Literal(literal)
    case Component(component) => BorrowedFormatItem.Component(component)
    case Compound(items) => BorrowedFormatItem.Compound(BorrowItems(items, item))
    case Optional(inner) => BorrowedFormatItem.Optional(Borrow(inner))
    case First(items) => BorrowedFormatItem.First(BorrowItems(items, item))
  }

  function BorrowItems(items: seq<OwnedFormatItem>, parent: OwnedFormatItem): (r: seq<BorrowedFormatItem>)
    requires forall i :: 0 <= i < |items| ==> items[i] < parent
    ensures |r| == |items|
    ensures forall i :: 0 <= i < |items| ==> r[i] == Borrow(items[i])
    decreases parent, 0, |items|
  {
    if |items| == 0 then []
    else BorrowItems(items[..|items| - 1], parent) + [Borrow(items[|items| - 1])]
  }

  /** Converting a borrowed tree and borrowing it back gives the original:
      the conversion loses nothing. */
  lemma {:induction false} BorrowFromBorrowed(item: BorrowedFormatItem)
    ensures Borrow(FromBorrowed(item)) == item
    decreases item
  {
    match item
    case Literal(_) =>
    case Component(_) =>
    case Optional(inner) => BorrowFromBorrowed(inner);
    case Compound(items) => BorrowFromBorrowedItems(item, items);
    case First(items) => BorrowFromBorrowedItems(item, items);
  }

  lemma {:induction false} BorrowFromBorrowedItems(parent: BorrowedFormatItem, items: seq<BorrowedFormatItem>)
    requires forall i :: 0 <= i < |items| ==> items[i] < parent
    ensures forall i :: 0 <= i < |items| ==> Borrow(FromBorrowed(items[i])) == items[i]
    ensures var owned := FromBorrowedItems(items, parent);
      BorrowItems(owned, OwnedFormatItem.Compound(owned)) == items
    decreases parent, 0
  {
    forall i | 0 <= i < |items|
      ensures Borrow(FromBorrowed(items[i])) == items[i]
    {
      BorrowFromBorrowed(items[i]);
    }
    var owned := FromBorrowedItems(items, parent);
    assert forall i :: 0 <= i < |owned| ==> owned[i] < OwnedFormatItem.Compound(owned);
    assert BorrowItems(owned, OwnedFormatItem.Compound(owned)) == items;
  }

  /** Every owned tree is the conversion of its borrowed view. */
  lemma {:induction false} FromBorrowedBorrow(item: OwnedFormatItem)
    ensures FromBorrowed(Borrow(item)) == item
    decreases item
  {
    match item
    case Literal(_) =>
    case Component(_) =>
    case Optional(inner) => FromBorrowedBorrow(inner);
    case Compound(items) => FromBorrowedBorrowItems(item, items);
    case First(items) => FromBorrowedBorrowItems(item, items);
  }

  lemma {:induction false} FromBorrowedBorrowItems(parent: OwnedFormatItem, items: seq<OwnedFormatItem>)
    requires forall i :: 0 <= i < |items| ==> items[i] < parent
    ensures var borrowed := BorrowItems(items, parent);
      FromBorrowedItems(borrowed, BorrowedFormatItem.Compound(borrowed)) == items
    decreases parent, 0
  {
    forall i | 0 <= i < |items|
      ensures FromBorrowed(Borrow(items[i])) == items[i]
    {
      FromBorrowedBorrow(items[i]);
    }
    var borrowed := BorrowItems(items, parent);
    assert forall i :: 0 <= i < |borrowed| ==> borrowed[i] < BorrowedFormatItem.Compound(borrowed);
    assert FromBorrowedItems(borrowed, BorrowedFormatItem.Compound(borrowed)) == items;
  }

  /** So the conversion is one to one. */
  lemma FromBorrowedInjective(a: BorrowedFormatItem, b: BorrowedFormatItem)
    requires FromBorrowed(a) == FromBorrowed(b)
    ensures a == b
  {
    BorrowFromBorrowed(a);
    BorrowFromBorrowed(b);
  }

  /** `From<&[BorrowedFormatItem]>` (and `From<Vec<BorrowedFormatItem>>`,
      which converts through a slice): a `Compound` of the converted items. */
  function FromBorrowedSlice(items: seq<BorrowedFormatItem>): (r: OwnedFormatItem)
    ensures r.Compound? && |r.items| == |items|
    ensures forall i :: 0 <= i < |items| ==> r.items[i] == FromBorrowed(items[i])
  {
    var parent := BorrowedFormatItem.Compound(items);
    OwnedFormatItem.Compound(FromBorrowedItems(items, parent))
  }

  /** A slice converts as the borrowed `Compound` that holds it would. */
  lemma FromBorrowedSliceIsCompound(items: seq<BorrowedFormatItem>)
    ensures FromBorrowedSlice(items) == FromBorrowed(BorrowedFormatItem.Compound(items))
  {
  }

  /** `From<Component>`. */
  function FromComponent(component: Component): (r: OwnedFormatItem)
    ensures r.Component? && r.component == component
  {
    OwnedFormatItem.Component(component)
  }

  /** `TryFrom<OwnedFormatItem> for Component`. */
  function ComponentTryFrom(item: OwnedFormatItem): (r: Result<Component, DifferentVariant>)
    ensures r.Ok? <==> item.Component?
    ensures r.Ok? ==> FromComponent(r.value) == item
  {
    match item
    case Component(component) => Ok(component)
    case _ => Err(DifferentVariant)
  }

  /** A component survives the trip through an item and back. */
  lemma ComponentRoundTrip(component: Component)
    ensures ComponentTryFrom(FromComponent(component)) == Ok(component)
  {
  }

  /** `From<Vec<Self>>`: the items as a `Compound`. */
  function FromItems(items: seq<OwnedFormatItem>): (r: OwnedFormatItem)
    ensures r.Compound? && r.items == items
  {
    OwnedFormatItem.Compound(items)
  }

  /** `TryFrom<OwnedFormatItem> for Vec<OwnedFormatItem>`. */
  function ItemsTryFrom(item: OwnedFormatItem): (r: Result<seq<OwnedFormatItem>, DifferentVariant>)
    ensures r.Ok? <==> item.Compound?
    ensures r.Ok? ==> FromItems(r.value) == item
  {
    match item
    case Compound(items) => Ok(items)
    case _ => Err(DifferentVariant)
  }

  /** A vector of items survives the trip through a `Compound` and back. */
  lemma ItemsRoundTrip(items: seq<OwnedFormatItem>)
    ensures ItemsTryFrom(FromItems(items)) == Ok(items)
  {
  }

  /** `PartialEq<Component> for OwnedFormatItem`. */
  predicate ItemEqualsComponent(item: OwnedFormatItem, component: Component)
    ensures ItemEqualsComponent(item, component) <==> item == FromComponent(component)
  {
    match item
    case Component(c) => c == component
    case _ => false
  }

  /** `PartialEq<OwnedFormatItem> for Component`: the same comparison from the
      other side. */
  predicate ComponentEqualsItem(component: Component, item: OwnedFormatItem)
    ensures ComponentEqualsItem(component, item) <==> item.Component? && item.component == component
  {
    ItemEqualsComponent(item, component)
  }

  /** `PartialEq<&[Self]> for OwnedFormatItem`. */
  predicate ItemEqualsSlice(item: OwnedFormatItem, items: seq<OwnedFormatItem>)
    ensures ItemEqualsSlice(item, items) <==> item == FromItems(items)
  {
    match item
    case Compound(compound) => compound == items
    case _ => false
  }

  /** `PartialEq<OwnedFormatItem> for &[OwnedFormatItem]`. */
  predicate SliceEqualsItem(items: seq<OwnedFormatItem>, item: OwnedFormatItem)
    ensures SliceEqualsItem(items, item) <==>
      && item.Compound?
      && |item.items| == |items|
      && forall i :: 0 <= i < |items| ==> item.items[i] == items[i]
  {
    ItemEqualsSlice(item, items)
  }
}
