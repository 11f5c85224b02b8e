/**
 * Huffman trees and the code paths in them.  A leaf holds a symbol and its
 * weight; an internal node holds the weight of its subtree (the source's
 * `CharFreq(null, p)`) and both children.  Going left writes a '0', going
 * right a '1'.  Weights are occurrence counts: the source's probabilities are
 * these counts divided by the text length, a denominator every entry shares.
 */
module HuffmanTree {
  import opened Wrappers
  import opened BitString

  /** An ASCII code point, the alphabet the coder counts (`new int[128]`). */
  type Symbol = c: int | 0 <= c < 128

  /** A symbol with the number of times it occurs. */
  datatype CharFreq = CharFreq(character: Symbol, count: nat)

  datatype Tree = Leaf(data: CharFreq) | Node(weight: nat, left: Tree, right: Tree)

  /** The weight stored at the root of a tree (`getData().getProbOcc()`). */
  function Weight(t: Tree): nat {
    match t
    case Leaf(d) => d.count
    case Node(w, _, _) => w
  }

  /** Every internal node weighs what its two children weigh together. */
  predicate WellWeighted(t: Tree) {
    match t
    case Leaf(_) => true
    case Node(w, l, r) => w == Weight(l) + Weight(r) && WellWeighted(l) && WellWeighted(r)
  }

  /** The entries at the leaves, left to right. */
  function Leaves(t: Tree): (ls: seq<CharFreq>)
    ensures |ls| >= 1
  {
    match t
    case Leaf(d) => [d]
    case Node(_, l, r) => Leaves(l) + Leaves(r)
  }

  /** The symbols at the leaves. */
  function Symbols(t: Tree): set<Symbol> {
    match t
    case Leaf(d) => {d.character}
    case Node(_, l, r) => Symbols(l) + Symbols(r)
  }

  function SumCounts(s: seq<CharFreq>): nat {
    if s == [] then 0 else s[0].count + SumCounts(s[1..])
  }

  lemma {:induction false} SumCountsAppend(a: seq<CharFreq>, b: seq<CharFreq>)
    ensures SumCounts(a + b) == SumCounts(a) + SumCounts(b)
  {
    if a == [] {
      assert a + b == b;
    } else {
      assert (a + b)[1..] == a[1..] + b;
      SumCountsAppend(a[1..], b);
    }
  }

  /** The weight of a well-weighted tree is the total count of its leaves. */
  lemma {:induction false} WeightIsLeafTotal(t: Tree)
    requires WellWeighted(t)
    ensures Weight(t) == SumCounts(Leaves(t))
  {
    if t.Node? {
      WeightIsLeafTotal(t.left);
      WeightIsLeafTotal(t.right);
      SumCountsAppend(Leaves(t.left), Leaves(t.right));
    }
  }

  /** The symbols at the leaves are the characters of the leaf entries. */
  lemma {:induction false} SymbolsOfLeaves(t: Tree)
    ensures forall c :: c in Symbols(t) <==> exists e :: e in Leaves(t) && e.character == c
  {
    if t.Node? {
      SymbolsOfLeaves(t.left);
      SymbolsOfLeaves(t.right);
      assert forall e :: e in Leaves(t) <==> e in Leaves(t.left) || e in Leaves(t.right);
    }
  }

  /**
   * The subtree reached from `t` by following `path`; `None` when the path
   * runs past a leaf.  As in the decoder, '0' goes left and any other
   * character goes right.
   */
  function Descend(t: Tree, path: string): Option<Tree> {
    if path == [] then Some(t)
    else match t
      case Leaf(_) => None
      case Node(_, l, r) => Descend(if path[0] == '0' then l else r, path[1..])
  }

  /** `path` leads from the root of `t` to a leaf holding symbol `c`. */
  predicate LeadsTo(t: Tree, path: string, c: Symbol) {
    var d := Descend(t, path);
    d.Some? && d.value.Leaf? && d.value.data.character == c
  }

  /**
   * traverseTree: the path of the first leaf holding `c` in a depth-first
   * search that tries the left subtree before the right one, or `None` when no
   * leaf holds `c`.
   */
  function TraverseTree(t: Tree, c: Symbol): (r: Option<string>)
    ensures r.Some? <==> c in Symbols(t)
    ensures r.Some? ==> IsBitString(r.value) && LeadsTo(t, r.value, c)
    ensures r.Some? && t.Node? ==> |r.value| >= 1
  {
    match t
    case Leaf(d) => if d.character == c then Some("") else None
    case Node(_, l, rt) =>
      match TraverseTree(l, c)
      case Some(p) =>
        assert ("0" + p)[1..] == p;
        Some("0" + p)
      case None =>
        match TraverseTree(rt, c)
        case Some(p) =>
          assert ("1" + p)[1..] == p;
          Some("1" + p)
        case None => None
  }

  /** Following a path and then a further path is following their concatenation. */
  lemma {:induction false} DescendAppend(t: Tree, p: string, q: string)
    requires Descend(t, p).Some?
    ensures Descend(t, p + q) == Descend(Descend(t, p).value, q)
  {
    if p == [] {
      assert p + q == q;
    } else {
      assert t.Node?;
      assert (p + q)[0] == p[0] && (p + q)[1..] == p[1..] + q;
      DescendAppend(if p[0] == '0' then t.left else t.right, p[1..], q);
    }
  }

  /**
   * The codes are prefix-free: the code of one symbol is never a prefix of
   * the code of another, so a decoder never has to look ahead.
   */
  lemma CodesArePrefixFree(t: Tree, a: Symbol, b: Symbol, rest: string)
    requires a in Symbols(t) && b in Symbols(t)
    requires TraverseTree(t, a).value + rest == TraverseTree(t, b).value
    ensures a == b && rest == []
  {
    var p, q := TraverseTree(t, a).value, TraverseTree(t, b).value;
    DescendAppend(t, p, rest);
    assert rest == [];
    assert p + rest == p;
  }

  /**
   * The decode loop from the current node `cur`: each bit moves to a child
   * ('0' left, anything else right); reaching a leaf emits its symbol and
   * restarts at the root.  Bits left over at the end, which do not reach a
   * leaf, emit nothing.
   */
  function DecodeWalk(root: Tree, cur: Tree, bits: string): seq<Symbol>
    requires root.Node? && cur.Node?
    decreases |bits|
  {
    if bits == [] then []
    else
      var next := if bits[0] == '0' then cur.left else cur.right;
      if next.Leaf? then [next.data.character] + DecodeWalk(root, root, bits[1..])
      else DecodeWalk(root, next, bits[1..])
  }

  /** Walking a path that leads from `cur` to a leaf of `c` emits `c` and returns to the root. */
  lemma {:induction false} DecodeAlongPath(root: Tree, cur: Tree, path: string, c: Symbol, rest: string)
    requires root.Node? && cur.Node? && |path| >= 1 && LeadsTo(cur, path, c)
    ensures DecodeWalk(root, cur, path + rest) == [c] + DecodeWalk(root, root, rest)
  {
    var next := if path[0] == '0' then cur.left else cur.right;
    assert Descend(cur, path) == Descend(next, path[1..]);
    assert (path + rest)[0] == path[0];
    assert (path + rest)[1..] == path[1..] + rest;
    if next.Leaf? {
      assert path[1..] == [];
      assert path[1..] + rest == rest;
    } else {
      DecodeAlongPath(root, next, path[1..], c, rest);
    }
  }
}
