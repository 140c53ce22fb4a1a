/** Nested lists from a flat sequence of (depth, type, item). */
module Depth {
  import opened Bytes
  import opened NonEmptyVec

  datatype DepthItem<L, T> =
    | Item(item: T)
    | List(ltype: L, items: seq<DepthItem<L, T>>)

  /** One flat input entry. */
  datatype Entry<L, T> = Entry(depth: nat, ltype: L, item: T)

  /** One finished tree, or one open layer of the stack. */
  datatype Layer<L, T> = Layer(ltype: L, items: seq<DepthItem<L, T>>)

  // ----- reading a forest back

  function Flatten<L, T>(depth: nat, ltype: L, items: seq<DepthItem<L, T>>): seq<Entry<L, T>>
    decreases items
  {
    if items == [] then []
    else FlattenOne(depth, ltype, items[0]) + Flatten(depth, ltype, items[1..])
  }

  function FlattenOne<L, T>(depth: nat, ltype: L, it: DepthItem<L, T>): seq<Entry<L, T>>
    decreases it
  {
    match it
    case Item(t) => [Entry(depth, ltype, t)]
    case List(l, sub) => Flatten(depth + 1, l, sub)
  }

  /** Every item with its nesting depth and the type of its innermost list. */
  function FlattenForest<L, T>(trees: seq<Layer<L, T>>): seq<Entry<L, T>> {
    if trees == [] then []
    else Flatten(0, trees[0].ltype, trees[0].items) + FlattenForest(trees[1..])
  }

  // ----- canonical forests

  /** A list that may stand right after a list of type `before`: its type
      differs and it begins with an item. */
  predicate MayFollow<L(==), T>(before: DepthItem<L, T>, after: DepthItem<L, T>) {
    before.List? && after.List? ==> before.ltype != after.ltype && after.items != [] && after.items[0].Item?
  }

  ghost predicate CanonicalItem<L, T>(it: DepthItem<L, T>) {
    it.List? ==>
      && it.items != []
      && (it.items[0].List? ==> it.items[0].ltype == it.ltype)
      && CanonicalItems(it.items)
  }

  ghost predicate CanonicalItems<L, T>(items: seq<DepthItem<L, T>>) {
    && (forall k | 0 <= k < |items| :: CanonicalItem(items[k]))
    && (forall k | 0 < k < |items| :: MayFollow(items[k - 1], items[k]))
  }

  /** The image of the builder: no empty list or tree; neighbouring lists, and
      neighbouring trees, differ in type and the later one begins with an item;
      a list or first tree beginning with a list has that list's type, or
      `topType`. */
  ghost predicate CanonicalForest<L, T>(topType: L, trees: seq<Layer<L, T>>) {
    && (forall k | 0 <= k < |trees| :: trees[k].items != [] && CanonicalItems(trees[k].items))
    && (forall k | 0 < k < |trees| :: trees[k - 1].ltype != trees[k].ltype && trees[k].items[0].Item?)
    && (trees != [] && trees[0].items[0].List? ==> trees[0].ltype == topType)
  }

  // ----- flattening loses nothing

  lemma {:induction false} FlattenAppend<L, T>(depth: nat, ltype: L, a: seq<DepthItem<L, T>>, b: seq<DepthItem<L, T>>)
    ensures Flatten(depth, ltype, a + b) == Flatten(depth, ltype, a) + Flatten(depth, ltype, b)
  {
    if a == [] {
      assert a + b == b;
    } else {
      assert (a + b)[1..] == a[1..] + b;
      FlattenAppend(depth, ltype, a[1..], b);
    }
  }

  /** What follows a list's entries cannot be read as one more of its own. */
  ghost predicate Ends<L, T>(depth: nat, ltype: L, rest: seq<Entry<L, T>>) {
    rest == [] || rest[0].depth < depth || (rest[0].depth == depth && rest[0].ltype != ltype)
  }

  /** The first entry of a canonical list has the list's own type, at the list's
      depth exactly when the list begins with an item. */
  lemma {:induction false} FirstEntry<L, T>(depth: nat, ltype: L, items: seq<DepthItem<L, T>>)
    requires items != [] && CanonicalItems(items)
    ensures Flatten(depth, ltype, items) != []
    ensures var e := Flatten(depth, ltype, items)[0];
            && e.depth >= depth && (e.depth == depth <==> items[0].Item?)
            && (items[0].List? ==> e.ltype == items[0].ltype) && (items[0].Item? ==> e.ltype == ltype)
    decreases items
  {
    if items[0].List? {
      assert CanonicalItem(items[0]);
      FirstEntry(depth + 1, items[0].ltype, items[0].items);
    }
  }

  lemma CanonicalTail<L, T>(items: seq<DepthItem<L, T>>)
    requires items != [] && CanonicalItems(items)
    ensures CanonicalItem(items[0]) && CanonicalItems(items[1..])
  {
    var tail := items[1..];
    forall k | 0 < k < |tail| ensures MayFollow(tail[k - 1], tail[k]) {
      assert tail[k - 1] == items[k] && tail[k] == items[k + 1];
      assert MayFollow(items[k + 1 - 1], items[k + 1]);
    }
  }

  /** After a sublist, whatever is left of its parent ends it. */
  lemma RestEndsSublist<L, T>(depth: nat, ltype: L, items: seq<DepthItem<L, T>>, rest: seq<Entry<L, T>>)
    requires items != [] && items[0].List? && CanonicalItems(items) && Ends(depth, ltype, rest)
    ensures Ends(depth + 1, items[0].ltype, Flatten(depth, ltype, items[1..]) + rest)
  {
    CanonicalTail(items);
    var tail := items[1..];
    if tail != [] {
      assert MayFollow(items[1 - 1], items[1]);
      FirstEntry(depth, ltype, tail);
      if tail[0].List? {
        FirstEntry(depth + 1, tail[0].ltype, tail[0].items);
      }
    }
  }

  /** Peels one element off the front of a flattened list. */
  lemma PeelHead<L, T>(depth: nat, ltype: L, items: seq<DepthItem<L, T>>, rest: seq<Entry<L, T>>)
    requires items != []
    ensures Flatten(depth, ltype, items) + rest ==
            FlattenOne(depth, ltype, items[0]) + (Flatten(depth, ltype, items[1..]) + rest)
  {
  }

  lemma HeadEntry<L, T>(depth: nat, ltype: L, items: seq<DepthItem<L, T>>, rest: seq<Entry<L, T>>, all: seq<Entry<L,
                        T>>)
    requires CanonicalItems(items) && Ends(depth, ltype, rest)
    requires all == Flatten(depth, ltype, items) + rest
    ensures items == [] ==> all == rest
    ensures items != [] ==>
              && all != [] && all[0].depth >= depth && (all[0].depth == depth <==> items[0].Item?)
              && (items[0].Item? ==> all[0] == Entry(depth, ltype, items[0].item))
              && (items[0].List? ==> all[0].ltype == items[0].ltype)
  {
    if items != [] {
      FirstEntry(depth, ltype, items);
      assert all[0] == Flatten(depth, ltype, items)[0];
    }
  }

  /** Canonical lists are read back from their entries in only one way. */
  lemma {:induction false} FlattenInjective<L, T>(depth: nat, ltype: L, a: seq<DepthItem<L, T>>, b: seq<DepthItem<L,
                                                  T>>,
                                                  x: seq<Entry<L, T>>, y: seq<Entry<L, T>>)
    requires CanonicalItems(a) && CanonicalItems(b)
    requires Ends(depth, ltype, x) && Ends(depth, ltype, y)
    requires Flatten(depth, ltype, a) + x == Flatten(depth, ltype, b) + y
    ensures a == b && x == y
    decreases a
  {
    hide CanonicalItems, Flatten;
    var all := Flatten(depth, ltype, a) + x;
    HeadEntry(depth, ltype, a, x, all);
    HeadEntry(depth, ltype, b, y, all);
    if a != [] && b != [] {
      CanonicalTail(a);
      CanonicalTail(b);
      PeelHead(depth, ltype, a, x);
      PeelHead(depth, ltype, b, y);
      var restA, restB := Flatten(depth, ltype, a[1..]) + x, Flatten(depth, ltype, b[1..]) + y;
      if a[0].List? {
        RestEndsSublist(depth, ltype, a, x);
        RestEndsSublist(depth, ltype, b, y);
        FlattenInjective(depth + 1, a[0].ltype, a[0].items, b[0].items, restA, restB);
      } else {
        assert all[1..] == restA && all[1..] == restB;
      }
      FlattenInjective(depth, ltype, a[1..], b[1..], x, y);
      assert a == [a[0]] + a[1..] && b == [b[0]] + b[1..];
    }
  }

  lemma ForestTail<L, T>(topType: L, trees: seq<Layer<L, T>>)
    requires CanonicalForest(topType, trees) && trees != []
    ensures CanonicalForest(topType, trees[1..])
    ensures Ends(0, trees[0].ltype, FlattenForest(trees[1..]))
    ensures trees[1..] != [] ==> trees[1..][0].items[0].Item?
  {
    var tail := trees[1..];
    forall k | 0 < k < |tail| ensures tail[k - 1].ltype != tail[k].ltype && tail[k].items[0].Item? {
      assert tail[k - 1] == trees[k] && tail[k] == trees[k + 1];
      assert trees[k + 1 - 1].ltype != trees[k + 1].ltype;
    }
    if tail != [] {
      assert trees[1 - 1].ltype != trees[1].ltype;
      FirstEntry(0, tail[0].ltype, tail[0].items);
    }
  }

  lemma HeadTree<L, T>(topType: L, f: seq<Layer<L, T>>)
    requires CanonicalForest(topType, f) && f != []
    ensures CanonicalItems(f[0].items)
    ensures var e := FlattenForest(f);
            e != [] && f[0].ltype == if e[0].depth == 0 then e[0].ltype else topType
  {
    FirstEntry(0, f[0].ltype, f[0].items);
  }

  /** A canonical forest is determined by its entries: with the contract of
      `ProcessDepths`, building is a bijection from flat inputs onto canonical
      forests, and rebuilding a canonical forest from its entries gives it back. */
  lemma {:induction false} ForestDetermined<L, T>(topType: L, f: seq<Layer<L, T>>, g: seq<Layer<L, T>>)
    requires CanonicalForest(topType, f) && CanonicalForest(topType, g)
    requires FlattenForest(f) == FlattenForest(g)
    ensures f == g
  {
    hide CanonicalForest, CanonicalItems, Ends, Flatten, FlattenForest;
    ForestFirst(f);
    ForestFirst(g);
    if f != [] { HeadTree(topType, f); }
    if g != [] { HeadTree(topType, g); }
    if f != [] && g != [] {
      ForestTail(topType, f);
      ForestTail(topType, g);
      FlattenInjective(0, f[0].ltype, f[0].items, g[0].items, FlattenForest(f[1..]), FlattenForest(g[1..]));
      ForestDetermined(topType, f[1..], g[1..]);
      assert f == [f[0]] + f[1..] && g == [g[0]] + g[1..];
    }
  }

  lemma ForestFirst<L, T>(trees: seq<Layer<L, T>>)
    ensures FlattenForest(trees)
         == if trees == [] then [] else Flatten(0, trees[0].ltype, trees[0].items) + FlattenForest(trees[1..])
  {
  }

  // ----- the builder

  /** The entries held by the open layers, the bottom one at depth 0. */
  ghost function FlattenLayers<L, T>(layers: seq<Layer<L, T>>): seq<Entry<L, T>> {
    if layers == [] then []
    else
      var n := |layers| - 1;
      FlattenLayers(layers[..n]) + Flatten(n, layers[n].ltype, layers[n].items)
  }

  lemma {:induction false} ForestAppend<L, T>(trees: seq<Layer<L, T>>, tree: Layer<L, T>)
    ensures FlattenForest(trees + [tree]) == FlattenForest(trees) + Flatten(0, tree.ltype, tree.items)
  {
    if trees == [] {
      assert trees + [tree] == [tree];
    } else {
      assert (trees + [tree])[1..] == trees[1..] + [tree];
      ForestAppend(trees[1..], tree);
    }
  }

  /** The open layer `above` may be closed onto `below`. */
  ghost predicate Nests<L, T>(below: Layer<L, T>, above: Layer<L, T>, onBottom: bool) {
    && (below.items == [] ==> onBottom || below.ltype == above.ltype)
    && (below.items != [] ==> MayFollow(below.items[|below.items| - 1], List(above.ltype, above.items)))
    && (above.items != [] && above.items[0].List? ==> above.items[0].ltype == above.ltype)
  }

  /** Every open layer is canonical so far and nests in the one below it. */
  ghost predicate OpenLayers<L, T>(layers: seq<Layer<L, T>>) {
    && layers != []
    && (forall k | 0 <= k < |layers| :: CanonicalItems(layers[k].items))
    && (forall k | 0 < k < |layers| :: Nests(layers[k - 1], layers[k], k == 1))
  }

  /** Trees already finished, followed by the bottom layer. */
  ghost predicate TreesSoFar<L, T>(topType: L, finished: seq<Layer<L, T>>, bottom: Layer<L, T>) {
    && CanonicalForest(topType, finished)
    && (finished == [] && (bottom.items == [] || bottom.items[0].List?) ==> bottom.ltype == topType)
    && (finished != [] ==>
        bottom.ltype != finished[|finished| - 1].ltype && bottom.items != [] && bottom.items[0].Item?)
  }

  /** The layers once the top one is closed onto the one below. */
  ghost function CloseTop<L, T>(layers: seq<Layer<L, T>>): (r: seq<Layer<L, T>>)
    requires |layers| > 1
    ensures |r| == |layers| - 1
  {
    var n := |layers| - 1;
    layers[..n][n - 1 := Append(layers[n - 1], List(layers[n].ltype, layers[n].items))]
  }

  function Append<L, T>(layer: Layer<L, T>, it: DepthItem<L, T>): Layer<L, T> {
    layer.(items := layer.items + [it])
  }

  ghost function AppendTop<L, T>(layers: seq<Layer<L, T>>, it: DepthItem<L, T>): seq<Layer<L, T>>
    requires layers != []
  {
    layers[|layers| - 1 := Append(layers[|layers| - 1], it)]
  }

  lemma AppendFlattens<L, T>(layers: seq<Layer<L, T>>, it: DepthItem<L, T>)
    requires layers != []
    ensures var n := |layers| - 1;
            FlattenLayers(AppendTop(layers, it)) == FlattenLayers(layers) + FlattenOne(n, layers[n].ltype, it)
  {
    var n := |layers| - 1;
    assert AppendTop(layers, it)[..n] == layers[..n];
    FlattenAppend(n, layers[n].ltype, layers[n].items, [it]);
  }

  lemma CloseFlattens<L, T>(layers: seq<Layer<L, T>>)
    requires |layers| > 1
    ensures FlattenLayers(CloseTop(layers)) == FlattenLayers(layers)
  {
    var n := |layers| - 1;
    AppendFlattens(layers[..n], List(layers[n].ltype, layers[n].items));
    assert CloseTop(layers) == AppendTop(layers[..n], List(layers[n].ltype, layers[n].items));
  }

  lemma AppendCanonical<L, T>(items: seq<DepthItem<L, T>>, it: DepthItem<L, T>)
    requires CanonicalItems(items) && CanonicalItem(it)
    requires items != [] ==> MayFollow(items[|items| - 1], it)
    ensures CanonicalItems(items + [it])
  {
    hide CanonicalItem, MayFollow;
    var up := items + [it];
    assert forall k | 0 <= k < |up| :: CanonicalItem(up[k]);
    forall k | 0 < k < |up| ensures MayFollow(up[k - 1], up[k]) {
      if k < |items| { assert MayFollow(items[k - 1], items[k]); }
    }
  }

  /** Appending to the top layer keeps every layer open. */
  lemma AppendKeepsOpen<L, T>(layers: seq<Layer<L, T>>, it: DepthItem<L, T>)
    requires OpenLayers(layers) && CanonicalItem(it)
    requires var top := layers[|layers| - 1];
             && (top.items != [] ==> MayFollow(top.items[|top.items| - 1], it))
             && (|layers| > 1 && top.items == [] && it.List? ==>
                   it.ltype == top.ltype
                   && var below := layers[|layers| - 2].items; below == [] || below[|below| - 1].Item?)
    ensures OpenLayers(AppendTop(layers, it))
  {
    var n := |layers| - 1;
    var up := AppendTop(layers, it);
    AppendCanonical(layers[n].items, it);
    forall k | 0 < k < |up| ensures Nests(up[k - 1], up[k], k == 1) {
      assert Nests(layers[k - 1], layers[k], k == 1);
    }
  }

  lemma CloseKeepsOpen<L, T>(layers: seq<Layer<L, T>>)
    requires OpenLayers(layers) && |layers| > 1 && layers[|layers| - 1].items != []
    ensures OpenLayers(CloseTop(layers))
  {
    var n := |layers| - 1;
    var below := layers[..n];
    assert Nests(layers[n - 1], layers[n], n == 1);
    forall k | 0 < k < n ensures Nests(below[k - 1], below[k], k == 1) {
      assert Nests(layers[k - 1], layers[k], k == 1);
    }
    if n > 1 { assert Nests(layers[n - 2], layers[n - 1], n == 2); }
    AppendKeepsOpen(below, List(layers[n].ltype, layers[n].items));
    assert CloseTop(layers) == AppendTop(below, List(layers[n].ltype, layers[n].items));
  }

  lemma LayerOnTop<L, T>(layers: seq<Layer<L, T>>, top: Layer<L, T>)
    requires OpenLayers(layers) && CanonicalItems(top.items)
    requires Nests(layers[|layers| - 1], top, |layers| == 1)
    ensures OpenLayers(layers + [top])
    ensures FlattenLayers(layers + [top]) == FlattenLayers(layers) + Flatten(|layers|, top.ltype, top.items)
  {
    hide CanonicalItems, Nests, Flatten;
    var up := layers + [top];
    assert up[..|layers|] == layers;
    forall k | 0 < k < |up| ensures Nests(up[k - 1], up[k], k == 1) {
      if k < |layers| { assert Nests(layers[k - 1], layers[k], k == 1); }
    }
  }

  lemma OpenOneMore<L, T>(layers: seq<Layer<L, T>>, ltype: L)
    requires OpenLayers(layers)
    requires var top := layers[|layers| - 1];
             if top.items == [] then |layers| == 1 || top.ltype == ltype else top.items[|top.items| - 1].Item?
    ensures OpenLayers(layers + [Layer(ltype, [])])
    ensures FlattenLayers(layers + [Layer(ltype, [])]) == FlattenLayers(layers)
  {
    hide OpenLayers, FlattenLayers;
    LayerOnTop(layers, Layer(ltype, []));
  }

  // ----- the stack and its methods

  class DepthStack<L(==), T> {
    var finished: seq<Layer<L, T>>
    const stack: NonEmptyVec<Layer<L, T>>

    function Layers(): (s: seq<Layer<L, T>>)
      reads this, stack
      ensures s != []
    {
      stack.Elements()
    }

    constructor (topType: L)
      ensures fresh(stack) && finished == [] && Layers() == [Layer(topType, [])]
    {
      finished := [];
      stack := new NonEmptyVec(Layer(topType, []));
    }

    method IncreaseDepth(ltype: L)
      modifies stack
      ensures Layers() == old(Layers()) + [Layer(ltype, [])]
    {
      stack.Push(Layer(ltype, []));
    }

    /** Closes the top layer; the caller never closes the bottom one. */
    method DecreaseDepth()
      requires |Layers()| > 1
      modifies stack
      ensures Layers() == CloseTop(old(Layers()))
    {
      var top := stack.Pop();
      Push(List(top.value.ltype, top.value.items));
    }

    method Push(it: DepthItem<L, T>)
      modifies stack
      ensures Layers() == AppendTop(old(Layers()), it)
    {
      var last := stack.Last();
      stack.SetLast(Append(last, it));
    }

    method PushItem(item: T)
      modifies stack
      ensures Layers() == AppendTop(old(Layers()), Item(item))
    {
      Push(Item(item));
    }

    method LastType() returns (ltype: L)
      ensures ltype == Layers()[|Layers()| - 1].ltype
    {
      var last := stack.Last();
      ltype := last.ltype;
    }

    /** Starts a list of another type at the current depth. */
    method NewList(ltype: L)
      modifies this`finished, stack
      ensures |old(Layers())| == 1 ==>
                && Layers() == [Layer(ltype, [])]
                && finished == if old(Layers())[0].items == [] then old(finished) else old(finished) + old(Layers())
      ensures |old(Layers())| > 1 ==>
              finished == old(finished) && Layers() == CloseTop(old(Layers())) + [Layer(ltype, [])]
    {
      var single := stack.IsSingle();
      if single {
        FinishDepthList(Some(ltype));
      } else {
        DecreaseDepth();
        IncreaseDepth(ltype);
      }
    }

    /** Collapses the stack and moves the bottom layer to the finished trees. */
    method FinishDepthList(newType: Option<L>)
      modifies this`finished, stack
      ensures |Layers()| == 1 && Layers()[0].items == []
      ensures newType.Some? ==> Layers()[0].ltype == newType.value
      ensures var bottom := Collapse(old(Layers()))[0];
              finished == if bottom.items == [] then old(finished) else old(finished) + [bottom]
    {
      var n := stack.Len();
      for k := 1 to n
        invariant |Layers()| == n - k + 1 && finished == old(finished)
        invariant Collapse(Layers()) == Collapse(old(Layers()))
      {
        DecreaseDepth();
      }
      var ltype := if newType.Some? then newType.value else stack.first.ltype;
      var bottom := stack.ReplaceFirst(Layer(ltype, []));
      if bottom.items != [] {
        finished := finished + [bottom];
      }
    }
  }

  ghost function Collapse<L, T>(layers: seq<Layer<L, T>>): (r: seq<Layer<L, T>>)
    requires layers != []
    ensures |r| == 1
    decreases |layers|
  {
    if |layers| == 1 then layers else Collapse(CloseTop(layers))
  }

  /** The invariant between two items. */
  ghost predicate Building<L, T>(topType: L, finished: seq<Layer<L, T>>, layers: seq<Layer<L, T>>) {
    && OpenLayers(layers) && TreesSoFar(topType, finished, layers[0])
    && (layers[|layers| - 1].items == [] ==> |layers| == 1)
  }

  lemma CloseKeepsBuilding<L, T>(topType: L, finished: seq<Layer<L, T>>, layers: seq<Layer<L, T>>)
    requires Building(topType, finished, layers) && |layers| > 1
    ensures Building(topType, finished, CloseTop(layers))
    ensures FlattenLayers(CloseTop(layers)) == FlattenLayers(layers)
    ensures CloseTop(layers)[|layers| - 2].items != []
  {
    CloseKeepsOpen(layers);
    CloseFlattens(layers);
    assert Nests(layers[|layers| - 2], layers[|layers| - 1], |layers| == 2);
  }

  /** The item's depth and type match the top layer. */
  lemma ItemKeepsBuilding<L, T>(topType: L, finished: seq<Layer<L, T>>, layers: seq<Layer<L, T>>, item: T)
    requires OpenLayers(layers) && TreesSoFar(topType, finished, layers[0])
    ensures Building(topType, finished, AppendTop(layers, Item(item)))
    ensures FlattenLayers(AppendTop(layers, Item(item))) ==
            FlattenLayers(layers) + [Entry(|layers| - 1, layers[|layers| - 1].ltype, item)]
  {
    AppendKeepsOpen(layers, Item(item));
    AppendFlattens(layers, Item(item));
  }

  lemma SingleItem<L, T>(item: T)
    ensures forall it: DepthItem<L, T> | it == Item(item) :: CanonicalItems([] + [it]) && CanonicalItems([it])
  {
    forall it: DepthItem<L, T> | it == Item(item) ensures CanonicalItems([] + [it]) && CanonicalItems([it]) {
      AppendCanonical([], it);
      assert [] + [it] == [it];
    }
  }

  /** A new list beside the one it closes. */
  lemma SiblingKeepsOpen<L, T>(topType: L, finished: seq<Layer<L, T>>, layers: seq<Layer<L, T>>, ltype: L, item: T)
    requires Building(topType, finished, layers) && |layers| > 1 && layers[|layers| - 1].ltype != ltype
    ensures var up := AppendTop(CloseTop(layers) + [Layer(ltype, [])], Item(item));
            && Building(topType, finished, up)
            && FlattenLayers(up) == FlattenLayers(layers) + [Entry(|layers| - 1, ltype, item)]
  {
    hide FlattenLayers, CanonicalForest, CanonicalItems, OpenLayers;
    CloseKeepsBuilding(topType, finished, layers);
    var closed := CloseTop(layers);
    var below := closed[|closed| - 1].items;
    assert below[|below| - 1] == List(layers[|layers| - 1].ltype, layers[|layers| - 1].items);
    SiblingLayer(closed, ltype, item);
    assert Append(Layer(ltype, []), Item(item)).items == [Item(item)];
    assert AppendTop(closed + [Layer(ltype, [])], Item(item)) == closed + [Layer(ltype, [Item(item)])];
  }

  lemma SiblingLayer<L, T>(layers: seq<Layer<L, T>>, ltype: L, item: T)
    requires OpenLayers(layers) && layers[|layers| - 1].items != []
    requires var below := layers[|layers| - 1].items; below[|below| - 1].List? && below[|below| - 1].ltype != ltype
    ensures OpenLayers(layers + [Layer(ltype, [Item(item)])])
    ensures FlattenLayers(layers + [Layer(ltype, [Item(item)])])
            == FlattenLayers(layers) + [Entry(|layers|, ltype, item)]
  {
    hide OpenLayers, FlattenLayers, CanonicalItems;
    SingleItem<L, T>(item);
    assert Flatten(|layers|, ltype, [Item(item)]) == [Entry(|layers|, ltype, item)];
    LayerOnTop(layers, Layer(ltype, [Item(item)]));
  }

  /** A new tree beside the one it finishes. */
  lemma TreeKeepsBuilding<L, T>(topType: L, finished: seq<Layer<L, T>>, bottom: Layer<L, T>, ltype: L, item: T)
    requires Building(topType, finished, [bottom]) && bottom.ltype != ltype
    ensures var done := if bottom.items == [] then finished else finished + [bottom];
            var up := AppendTop([Layer(ltype, [])], Item(item));
            && Building(topType, done, up)
            && FlattenForest(done) + FlattenLayers(up) ==
               FlattenForest(finished) + FlattenLayers([bottom]) + [Entry(0, ltype, item)]
  {
    hide CanonicalForest;
    SingleItem<L, T>(item);
    FinishKeepsForest(topType, finished, bottom);
    TreeFlattens(finished, bottom, ltype, item);
  }

  lemma TreeFlattens<L, T>(finished: seq<Layer<L, T>>, bottom: Layer<L, T>, ltype: L, item: T)
    ensures var done := if bottom.items == [] then finished else finished + [bottom];
            FlattenForest(done) + FlattenLayers(AppendTop([Layer(ltype, [])], Item(item))) ==
            FlattenForest(finished) + FlattenLayers([bottom]) + [Entry(0, ltype, item)]
  {
    var newTree: seq<Layer<L, T>> := [Layer(ltype, [])];
    AppendFlattens(newTree, Item(item));
    SingleLayer(newTree);
    SingleLayer([bottom]);
    ForestAppend(finished, bottom);
  }

  lemma SingleLayer<L, T>(layers: seq<Layer<L, T>>)
    requires |layers| == 1
    ensures FlattenLayers(layers) == Flatten(0, layers[0].ltype, layers[0].items)
  {
    assert layers[..0] == [];
  }

  lemma FinishKeepsForest<L, T>(topType: L, finished: seq<Layer<L, T>>, bottom: Layer<L, T>)
    requires TreesSoFar(topType, finished, bottom) && CanonicalItems(bottom.items)
    ensures CanonicalForest(topType, if bottom.items == [] then finished else finished + [bottom])
  {
    var done := finished + [bottom];
    forall k | 0 < k < |done| && bottom.items != []
      ensures done[k - 1].ltype != done[k].ltype && done[k].items[0].Item?
    {
      if k < |finished| { assert finished[k - 1].ltype != finished[k].ltype; }
    }
  }

  lemma {:induction false} CollapseKeepsBuilding<L, T>(topType: L, finished: seq<Layer<L, T>>, layers: seq<Layer<L, T>>)
    requires Building(topType, finished, layers)
    ensures Building(topType, finished, Collapse(layers))
    ensures FlattenLayers(Collapse(layers)) == FlattenLayers(layers)
    decreases |layers|
  {
    if |layers| > 1 {
      CloseKeepsBuilding(topType, finished, layers);
      CollapseKeepsBuilding(topType, finished, CloseTop(layers));
    }
  }

  /** The last thing added to the top layer was an item. */
  ghost predicate ItemOnTop<L, T>(layers: seq<Layer<L, T>>)
    requires layers != []
  {
    var top := layers[|layers| - 1].items;
    top != [] ==> top[|top| - 1].Item?
  }

  /** Brings the stack to the entry's depth. */
  method MoveToDepth<L(==), T>(stack: DepthStack<L, T>, previous: nat, depth: nat, ltype: L, ghost topType: L)
    requires |stack.Layers()| == previous + 1
    requires Building(topType, stack.finished, stack.Layers()) && ItemOnTop(stack.Layers())
    modifies stack.stack
    ensures |stack.Layers()| == depth + 1
    ensures FlattenLayers(stack.Layers()) == old(FlattenLayers(stack.Layers()))
    ensures depth > previous ==>
              && OpenLayers(stack.Layers()) && TreesSoFar(topType, stack.finished, stack.Layers()[0])
              && stack.Layers()[depth].ltype == ltype
    ensures depth <= previous ==> Building(topType, stack.finished, stack.Layers())
  {
    hide OpenLayers, TreesSoFar, FlattenLayers, CloseTop;
    ghost var finished := stack.finished;
    var k := previous;
    while k < depth
      invariant previous <= k && (k <= depth || k == previous) && stack.finished == finished
      invariant |stack.Layers()| == k + 1
      invariant FlattenLayers(stack.Layers()) == old(FlattenLayers(stack.Layers()))
      invariant k == previous ==> stack.Layers() == old(stack.Layers())
      invariant k > previous ==> stack.Layers()[k] == Layer(ltype, [])
      invariant OpenLayers(stack.Layers()) && TreesSoFar(topType, finished, stack.Layers()[0])
    {
      OpenOneMore(stack.Layers(), ltype);
      stack.IncreaseDepth(ltype);
      k := k + 1;
    }
    while depth < k
      invariant depth <= k && stack.finished == finished
      invariant |stack.Layers()| == k + 1
      invariant FlattenLayers(stack.Layers()) == old(FlattenLayers(stack.Layers()))
      invariant k > depth || depth <= previous ==> Building(topType, finished, stack.Layers())
      invariant k == depth && depth > previous ==>
                  && OpenLayers(stack.Layers()) && TreesSoFar(topType, finished, stack.Layers()[0])
                  && stack.Layers()[depth].ltype == ltype
    {
      CloseKeepsBuilding(topType, finished, stack.Layers());
      stack.DecreaseDepth();
      k := k - 1;
    }
  }

  method AddEntry<L(==), T>(stack: DepthStack<L, T>, previous: nat, entry: Entry<L, T>, ghost topType: L)
    requires |stack.Layers()| == previous + 1
    requires Building(topType, stack.finished, stack.Layers()) && ItemOnTop(stack.Layers())
    modifies stack`finished, stack.stack
    ensures |stack.Layers()| == entry.depth + 1
    ensures Building(topType, stack.finished, stack.Layers()) && ItemOnTop(stack.Layers())
    ensures FlattenForest(stack.finished) + FlattenLayers(stack.Layers()) ==
            old(FlattenForest(stack.finished) + FlattenLayers(stack.Layers())) + [entry]
  {
    hide Building, OpenLayers, TreesSoFar, FlattenForest, FlattenLayers;
    MoveToDepth(stack, previous, entry.depth, entry.ltype, topType);
    var last := stack.LastType();
    ghost var layers, finished := stack.Layers(), stack.finished;
    if last != entry.ltype {
      if |layers| > 1 {
        SiblingKeepsOpen(topType, finished, layers, entry.ltype, entry.item);
      } else {
        assert layers == [layers[0]];
        TreeKeepsBuilding(topType, finished, layers[0], entry.ltype, entry.item);
      }
      stack.NewList(entry.ltype);
    } else {
      OpenParts(topType, finished, layers);
      ItemKeepsBuilding(topType, finished, layers, entry.item);
    }
    stack.PushItem(entry.item);
  }

  lemma OpenParts<L, T>(topType: L, finished: seq<Layer<L, T>>, layers: seq<Layer<L, T>>)
    requires layers != []
    ensures Building(topType, finished, layers) ==> OpenLayers(layers) && TreesSoFar(topType, finished, layers[0])
  {
  }

  lemma StartBuilding<L, T>(topType: L, layers: seq<Layer<L, T>>)
    requires layers == [Layer(topType, [])]
    ensures Building(topType, [], layers) && ItemOnTop(layers)
    ensures FlattenForest<L, T>([]) + FlattenLayers(layers) == []
  {
    assert layers[..0] == [];
  }

  lemma FinishBuilding<L, T>(topType: L, finished: seq<Layer<L, T>>, layers: seq<Layer<L, T>>)
    requires Building(topType, finished, layers)
    ensures var bottom := Collapse(layers)[0];
            var done := if bottom.items == [] then finished else finished + [bottom];
            && CanonicalForest(topType, done)
            && FlattenForest(done) == FlattenForest(finished) + FlattenLayers(layers)
  {
    hide CanonicalForest;
    CollapseKeepsBuilding(topType, finished, layers);
    var bottom := Collapse(layers)[0];
    SingleLayer(Collapse(layers));
    FinishKeepsForest(topType, finished, bottom);
    ForestAppend(finished, bottom);
  }

  /** Builds the canonical forest whose entries are exactly the input. */
  method ProcessDepths<L(==), T>(topType: L, items: seq<Entry<L, T>>) returns (trees: seq<Layer<L, T>>)
    ensures CanonicalForest(topType, trees)
    ensures FlattenForest(trees) == items
  {
    hide Building, FlattenForest, FlattenLayers, CanonicalForest;
    var stack := new DepthStack<L, T>(topType);
    StartBuilding(topType, stack.Layers());
    var previous := 0;
    for i := 0 to |items|
      invariant fresh(stack) && fresh(stack.stack)
      invariant |stack.Layers()| == previous + 1
      invariant Building(topType, stack.finished, stack.Layers()) && ItemOnTop(stack.Layers())
      invariant FlattenForest(stack.finished) + FlattenLayers(stack.Layers()) == items[..i]
    {
      AddEntry(stack, previous, items[i], topType);
      assert items[..i + 1] == items[..i] + [items[i]];
      previous := items[i].depth;
    }
    assert items[..|items|] == items;
    FinishBuilding(topType, stack.finished, stack.Layers());
    stack.FinishDepthList(None);
    trees := stack.finished;
  }

  /** Rebuilding a canonical forest from its entries gives the forest back. */
  method Rebuild<L(==), T>(topType: L, forest: seq<Layer<L, T>>) returns (trees: seq<Layer<L, T>>)
    requires CanonicalForest(topType, forest)
    ensures trees == forest
  {
    hide *;
    trees := ProcessDepths(topType, FlattenForest(forest));
    ForestDetermined(topType, trees, forest);
  }
}
