/** The filesystem as an immutable tree, and the recursive size
    accounting of `dir_size` over it. Metadata is read without following
    symlinks, so a symlink is a leaf with its own length. */
module Fs {
  import opened Common

  /** A filesystem object as `symlink_metadata` sees it: every node has
      its own metadata length; a directory also has its entries. */
  datatype Node =
    | File(len: nat)
    | Symlink(len: nat)
    | Dir(len: nat, children: seq<Entry>)

  /** A directory entry: a name and the object it names. */
  datatype Entry = Entry(name: string, node: Node)

  /** `dir_size`: a non-directory yields its own length; a directory sums
      its entries, a sub-directory by its recursive size and anything else
      by its own length. A directory's own length is never added. */
  function DirSize(n: Node): nat
  {
    match n
    case Dir(_, children) => ChildrenSize(children)
    case _ => n.len
  }

  /** What the entries of one directory add to its size. */
  function ChildrenSize(children: seq<Entry>): nat
  {
    if |children| == 0 then 0
    else
      var child := children[0].node;
      (if child.Dir? then DirSize(child) else child.len) + ChildrenSize(children[1..])
  }

  /** Lengths of all non-directory objects in the tree rooted at `n`
      (just `n` itself when it is not a directory), in listing order. */
  function Leaves(n: Node): seq<nat>
  {
    match n
    case Dir(_, children) => ChildLeaves(children)
    case _ => [n.len]
  }

  function ChildLeaves(children: seq<Entry>): seq<nat>
  {
    if |children| == 0 then [] else Leaves(children[0].node) + ChildLeaves(children[1..])
  }

  /** The size of a tree is the total length of its non-directory objects:
      directories contribute nothing of their own, symlinks count with
      their own length. */
  lemma {:induction false} SizeIsLeafSum(n: Node)
    ensures DirSize(n) == Sum(Leaves(n))
  {
    match n
    case Dir(_, children) =>
      ChildrenSizeIsLeafSum(children);
    case _ =>
      assert Leaves(n) == [n.len];
      assert Sum([n.len]) == n.len + Sum([]);
  }

  lemma {:induction false} ChildrenSizeIsLeafSum(children: seq<Entry>)
    ensures ChildrenSize(children) == Sum(ChildLeaves(children))
  {
    if |children| > 0 {
      SizeIsLeafSum(children[0].node);
      ChildrenSizeIsLeafSum(children[1..]);
      SumAppend(Leaves(children[0].node), ChildLeaves(children[1..]));
    }
  }

  /** The entries of a directory add up independently of each other. */
  lemma {:induction false} ChildrenSizeAppend(a: seq<Entry>, b: seq<Entry>)
    ensures ChildrenSize(a + b) == ChildrenSize(a) + ChildrenSize(b)
  {
    if |a| == 0 {
      assert a + b == b;
    } else {
      assert (a + b)[0] == a[0];
      assert (a + b)[1..] == a[1..] + b;
      ChildrenSizeAppend(a[1..], b);
    }
  }

  /** No entry of a directory measures more than the directory. */
  lemma EntryWithinDir(n: Node, k: nat)
    requires n.Dir? && k < |n.children|
    ensures DirSize(n.children[k].node) <= DirSize(n)
  {
    EntryWithinChildren(n.children, k);
  }

  lemma {:induction false} EntryWithinChildren(children: seq<Entry>, k: nat)
    requires k < |children|
    ensures DirSize(children[k].node) <= ChildrenSize(children)
  {
    if k > 0 {
      EntryWithinChildren(children[1..], k - 1);
    }
  }

  /** Taking the entry at `k` out of a listing leaves the rest adding up
      to the size less that entry's share. */
  lemma ChildrenSizeAround(ds: seq<Entry>, k: nat)
    requires k < |ds|
    ensures ChildrenSize(ds) == ChildrenSize([ds[k]]) + ChildrenSize(ds[..k] + ds[k + 1..])
  {
    assert ds == ds[..k] + [ds[k]] + ds[k + 1..];
    ChildrenSizeAppend(ds[..k] + [ds[k]], ds[k + 1..]);
    ChildrenSizeAppend(ds[..k], [ds[k]]);
    ChildrenSizeAppend(ds[..k], ds[k + 1..]);
  }

  /** Removing the first entry of one listing and a copy of it from a
      listing with the same entries leaves listings with the same entries. */
  lemma MultisetRemove(cs: seq<Entry>, ds: seq<Entry>, k: nat)
    requires |cs| > 0 && k < |ds| && ds[k] == cs[0]
    requires multiset(cs) == multiset(ds)
    ensures multiset(cs[1..]) == multiset(ds[..k] + ds[k + 1..])
  {
    var x := cs[0];
    var rest := ds[..k] + ds[k + 1..];
    assert ds == ds[..k] + [x] + ds[k + 1..];
    assert cs == [x] + cs[1..];
    assert multiset(ds) == multiset(ds[..k]) + multiset{x} + multiset(ds[k + 1..]);
    assert multiset(cs) == multiset{x} + multiset(cs[1..]);
    assert multiset(rest) == multiset(ds[..k]) + multiset(ds[k + 1..]);
    calc {
      multiset(cs[1..]);
      multiset(cs) - multiset{x};
      multiset(ds) - multiset{x};
      multiset(rest);
    }
  }

  /** The order in which a directory lists its entries does not change
      its size. */
  lemma {:induction false} ChildOrderIrrelevant(cs: seq<Entry>, ds: seq<Entry>)
    requires multiset(cs) == multiset(ds)
    ensures ChildrenSize(cs) == ChildrenSize(ds)
    decreases |cs|
  {
    if |cs| > 0 {
      assert cs[0] in multiset(ds);
      var k :| 0 <= k < |ds| && ds[k] == cs[0];
      MultisetRemove(cs, ds, k);
      ChildOrderIrrelevant(cs[1..], ds[..k] + ds[k + 1..]);
      ChildrenSizeAround(ds, k);
      ChildrenSizeAround(cs, 0);
      assert cs[..0] + cs[1..] == cs[1..];
    }
  }
}
