/**
  The markup tree of the HTML-style builder: a `Tag` is a name and the
  ordered list of child tags appended to it, and `Render` is its
  `toString`, which writes the tree depth-first as an open tag, the
  children's renderings joined with the empty separator, and a close tag.
 */
module Markup {

  /** One markup element. `items` keeps the children in insertion order. */
  datatype Tag = Tag(name: string, items: seq<Tag>)

  /** A freshly constructed tag: a name and no items yet. */
  function NewTag(name: string): (t: Tag)
    ensures t.name == name && |t.items| == 0
  {
    Tag(name, [])
  }

  /** `items.add(item)`: the list grows by one, the new item last. */
  function AddItem(parent: Tag, item: Tag): (r: Tag)
    ensures r.name == parent.name
    ensures |r.items| == |parent.items| + 1
    ensures r.items[..|parent.items|] == parent.items
    ensures r.items[|parent.items|] == item
  {
    parent.(items := parent.items + [item])
  }

  function Open(name: string): string { "<" + name + ">" }

  function Close(name: string): string { "</" + name + ">" }

  /** `toString`: open tag, every item rendered in order, close tag. */
  function Render(t: Tag): string
    decreases t, 1
  {
    Open(t.name) + RenderItems(t.items) + Close(t.name)
  }

  /** `items.joinToString("")`: the items' renderings, concatenated in order. */
  function RenderItems(ts: seq<Tag>): string
    decreases ts, 0
  {
    if |ts| == 0 then "" else Render(ts[0]) + RenderItems(ts[1..])
  }

  /** Joining with the empty separator distributes over concatenation of item lists. */
  lemma {:induction false} RenderItemsAppend(xs: seq<Tag>, ys: seq<Tag>)
    ensures RenderItems(xs + ys) == RenderItems(xs) + RenderItems(ys)
    decreases |xs|
  {
    if |xs| == 0 {
      assert xs + ys == ys;
    } else {
      assert (xs + ys)[0] == xs[0];
      assert (xs + ys)[1..] == xs[1..] + ys;
      RenderItemsAppend(xs[1..], ys);
    }
  }

  /** A tag without items renders as its open tag immediately followed by its close tag. */
  lemma RenderEmpty(name: string)
    ensures Render(NewTag(name)) == "<" + name + "></" + name + ">"
  {
  }

  /** A tag with one item renders as that item framed by the tag. */
  lemma RenderSingle(name: string, item: Tag)
    ensures Render(Tag(name, [item])) == "<" + name + ">" + Render(item) + "</" + name + ">"
  {
    assert [item][1..] == [];
    assert RenderItems([item]) == Render(item) + RenderItems([]);
    assert RenderItems([item]) == Render(item);
  }

  /** A tag with two items renders as both items, in order, framed by the tag. */
  lemma RenderPair(name: string, a: Tag, b: Tag)
    ensures Render(Tag(name, [a, b])) == "<" + name + ">" + Render(a) + Render(b) + "</" + name + ">"
  {
    assert [a, b][1..] == [b];
    assert [b][1..] == [];
    assert RenderItems([b]) == Render(b) + RenderItems([]);
    assert RenderItems([a, b]) == Render(a) + RenderItems([b]);
    assert RenderItems([a, b]) == Render(a) + Render(b);
  }

  /** Appending an item appends exactly that item's rendering before the close tag. */
  lemma RenderAddItem(parent: Tag, item: Tag)
    ensures Render(AddItem(parent, item))
         == Open(parent.name) + RenderItems(parent.items) + Render(item) + Close(parent.name)
  {
    RenderItemsAppend(parent.items, [item]);
    assert [item][1..] == [];
  }

  /** Height of the tree: a tag without items has depth 1. */
  function Depth(t: Tag): (d: nat)
    decreases t, 1
    ensures d >= 1
  {
    1 + MaxDepth(t.items)
  }

  /** The greatest depth among the items, reached by one of them; 0 for no items. */
  function MaxDepth(ts: seq<Tag>): (d: nat)
    decreases ts, 0
    ensures forall i :: 0 <= i < |ts| ==> Depth(ts[i]) <= d
    ensures |ts| == 0 <==> d == 0
  {
    if |ts| == 0 then 0
    else
      var a := Depth(ts[0]);
      var b := MaxDepth(ts[1..]);
      assert forall i :: 1 <= i < |ts| ==> ts[i] == ts[1..][i - 1];
      if a >= b then a else b
  }

  /** Some item reaches the greatest depth, so `MaxDepth` is the least upper bound. */
  lemma {:induction false} MaxDepthReached(ts: seq<Tag>)
    requires |ts| > 0
    ensures exists i :: 0 <= i < |ts| && Depth(ts[i]) == MaxDepth(ts)
    decreases |ts|
  {
    if Depth(ts[0]) < MaxDepth(ts[1..]) {
      MaxDepthReached(ts[1..]);
      var j :| 0 <= j < |ts[1..]| && Depth(ts[1..][j]) == MaxDepth(ts[1..]);
      assert ts[1..][j] == ts[j + 1];
    } else {
      assert Depth(ts[0]) == MaxDepth(ts);
    }
  }

  /** Any bound on every item's depth bounds `MaxDepth`: with `MaxDepthReached`, it is the least such bound. */
  lemma {:induction false} MaxDepthBound(ts: seq<Tag>, k: nat)
    requires forall i :: 0 <= i < |ts| ==> Depth(ts[i]) <= k
    ensures MaxDepth(ts) <= k
    decreases |ts|
  {
    if |ts| > 0 {
      assert Depth(ts[0]) <= k;
      assert forall i :: 0 <= i < |ts| - 1 ==> ts[1..][i] == ts[i + 1];
      MaxDepthBound(ts[1..], k);
    }
  }
}
