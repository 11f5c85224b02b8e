/**
 * The Huffman coder itself (`HuffmanCoding`): it builds the frequency list of
 * a text, the tree, the code table, and then encodes the text to bytes and
 * decodes bytes back to text.  The text is a parameter where the source reads
 * a file, and the bytes are a result where the source writes one.
 */
module Huffman {
  import opened Wrappers
  import opened BitString
  import opened HuffmanTree
  import opened Frequency

  /** Some entry of `l` holds symbol `c`. */
  predicate Listed(l: seq<CharFreq>, c: Symbol) {
    exists e :: e in l && e.character == c
  }

  /**
   * The tree-building loop takes its next tree from the source queue when that
   * queue is not empty and either the target queue is empty or the source
   * front weighs no more than the target front; otherwise from the target queue.
   */
  predicate TakeSource(source: seq<Tree>, target: seq<Tree>) {
    |source| > 0 && (|target| == 0 || Weight(source[0]) <= Weight(target[0]))
  }

  /** The two queues of makeTree: `source` holds the trees not yet merged, `target` the merged ones. */
  datatype Queues = Queues(source: seq<Tree>, target: seq<Tree>)

  /**
   * The tree one pick of makeTree's loop takes: the lighter of the two
   * fronts, the source front on a tie.
   */
  function Front(q: Queues): (t: Tree)
    requires q.source != [] || q.target != []
    ensures (q.source != [] && t == q.source[0]) || (q.target != [] && t == q.target[0])
    ensures q.source != [] ==> Weight(t) <= Weight(q.source[0])
    ensures q.target != [] ==> Weight(t) <= Weight(q.target[0])
    ensures q.source != [] && q.target != [] && Weight(q.source[0]) == Weight(q.target[0]) ==> t == q.source[0]
  {
    if TakeSource(q.source, q.target) then q.source[0] else q.target[0]
  }

  /** The queues that pick leaves: the tree taken is gone from the front of its queue. */
  function Rest(q: Queues): (r: Queues)
    requires q.source != [] || q.target != []
    ensures |r.source| + |r.target| == |q.source| + |q.target| - 1
  {
    if TakeSource(q.source, q.target) then Queues(q.source[1..], q.target) else Queues(q.source, q.target[1..])
  }

  /** One round of makeTree's loop, as a value: two picks, merged into a node at the back of the target queue. */
  function Merge(q: Queues): (r: Queues)
    requires |q.source| + |q.target| >= 2
    ensures |r.source| + |r.target| == |q.source| + |q.target| - 1 && |r.target| >= 1
  {
    var x, rest := Front(q), Rest(q);
    var y, rest' := Front(rest), Rest(rest);
    Queues(rest'.source, rest'.target + [Node(Weight(x) + Weight(y), x, y)])
  }

  /** makeTree's loop run to its end: rounds while the source queue is not empty or the target queue holds more than one tree. */
  function Build(q: Queues): Tree
    requires |q.target| >= 1 || |q.source| >= 2
    decreases |q.source| + |q.target|
  {
    if |q.source| > 0 || |q.target| > 1 then Build(Merge(q)) else q.target[0]
  }

  /** A leaf for every entry of a list, in list order. */
  function LeavesOf(list: seq<CharFreq>): seq<Tree> {
    seq(|list|, i requires 0 <= i < |list| => Leaf(list[i]))
  }

  /**
   * The tree makeTree builds: its first two source picks are the first round
   * of `Build` on an empty target queue.
   */
  function HuffmanBuild(list: seq<CharFreq>): Tree
    requires |list| >= 2
  {
    Build(Queues(LeavesOf(list), []))
  }

  /** The entries at the leaves of a queue of trees. */
  function LeafBag(ts: seq<Tree>): multiset<CharFreq> {
    if ts == [] then multiset{} else multiset(Leaves(ts[0])) + LeafBag(ts[1..])
  }

  /** The code table `makeEncodings` builds: the path of every listed symbol, `None` (null) elsewhere. */
  function CodeTable(root: Tree, l: seq<CharFreq>): (table: seq<Option<string>>)
    ensures |table| == 128
    ensures forall c: Symbol :: table[c].Some? <==> Listed(l, c) && c in Symbols(root)
  {
    seq(128, c requires 0 <= c < 128 => if Listed(l, c) then TraverseTree(root, c) else None)
  }

  /** What `encode += encodings[c]` appends: the code, or "null" for a symbol without one. */
  function CodeString(code: Option<string>): (s: string)
    ensures IsBitString(s) <==> code.Some? && IsBitString(code.value)
  {
    match code
    case Some(bits) => bits
    case None =>
      assert !IsBit("null"[0]);
      "null"
  }

  /** The bit string `encode` hands to `writeBitString`: the codes of the symbols, one after another. */
  function Encoded(table: seq<Option<string>>, text: seq<Symbol>): string
    requires |table| == 128
  {
    if text == [] then "" else CodeString(table[text[0]]) + Encoded(table, text[1..])
  }

  lemma {:induction false} EncodedSnoc(table: seq<Option<string>>, text: seq<Symbol>, c: Symbol)
    requires |table| == 128
    ensures Encoded(table, text + [c]) == Encoded(table, text) + CodeString(table[c])
  {
    if text == [] {
      assert [c][1..] == [];
    } else {
      assert (text + [c])[1..] == text[1..] + [c];
      EncodedSnoc(table, text[1..], c);
    }
  }

  /**
   * The encoded text is a valid bit string (so `writeBitString` accepts it)
   * exactly when every symbol of the text has a code made of bits.
   */
  lemma {:induction false} EncodedIsBitString(table: seq<Option<string>>, text: seq<Symbol>)
    requires |table| == 128
    ensures IsBitString(Encoded(table, text)) <==>
      forall i :: 0 <= i < |text| ==> table[text[i]].Some? && IsBitString(table[text[i]].value)
  {
    if text != [] {
      EncodedIsBitString(table, text[1..]);
      BitStringConcat(CodeString(table[text[0]]), Encoded(table, text[1..]));
      forall i | 0 < i < |text| ensures text[i] == text[1..][i - 1] { }
    }
  }

  /** Two strings joined are bits exactly when both are. */
  lemma BitStringConcat(a: string, b: string)
    ensures IsBitString(a + b) <==> IsBitString(a) && IsBitString(b)
  {
    if IsBitString(a + b) {
      forall i | 0 <= i < |a| ensures IsBit(a[i]) {
        assert a[i] == (a + b)[i];
      }
      forall i | 0 <= i < |b| ensures IsBit(b[i]) {
        assert b[i] == (a + b)[|a| + i];
      }
    }
  }

  /**
   * An empty text is written as the single byte 1 (seven zeros of padding
   * and the marker), whatever the code table holds.
   */
  lemma EmptyTextPacked(table: seq<Option<string>>)
    requires |table| == 128
    ensures Packed(Encoded(table, [])) == Some([1])
  {
    var bits := PadFor(0) + Encoded(table, []);
    assert bits == Zeros(7) + ['1'];
    ValueOfZeros(7);
    ValueOfSnoc(Zeros(7), '1');
    assert bits[..0] == [] && bits[|bits| - 8..] == bits;
    assert Encoded(table, []) == "" && IsBitString("");
    assert PackBytes(bits) == [ToJByte(ValueOf(bits))];
  }

  /** Decoding the concatenated codes of a text yields the text again. */
  lemma {:induction false} DecodeEncoded(root: Tree, table: seq<Option<string>>, text: seq<Symbol>)
    requires root.Node? && |table| == 128
    requires forall i :: 0 <= i < |text| ==> text[i] in Symbols(root) && table[text[i]] == TraverseTree(root, text[i])
    ensures DecodeWalk(root, root, Encoded(table, text)) == text
  {
    if text != [] {
      var code := TraverseTree(root, text[0]).value;
      forall i | 0 <= i < |text[1..]| ensures text[1..][i] in Symbols(root) && table[text[1..][i]] == TraverseTree(root, text[1..][i]) {
        assert text[1..][i] == text[i + 1];
      }
      DecodeEncoded(root, table, text[1..]);
      DecodeAlongPath(root, root, code, text[0], Encoded(table, text[1..]));
      assert [text[0]] + text[1..] == text;
    }
  }

  /** Every symbol of a text has an entry in its frequency list, and so a leaf in a tree built from it. */
  lemma TextSymbolsListed(text: seq<Symbol>, root: Tree, i: int)
    requires 0 <= i < |text| && multiset(Leaves(root)) == multiset(FrequencyList(text))
    ensures Listed(FrequencyList(text), text[i]) && text[i] in Symbols(root)
  {
    var e := CharFreq(text[i], Occurrences(text, text[i]));
    assert text[i] in multiset(text);
    FrequencyListEntries(text);
    assert e in FrequencyList(text);
    assert e in multiset(Leaves(root));
    SymbolsOfLeaves(root);
  }

  /**
   * The whole round trip: with the code table of any tree whose leaves are
   * the text's frequency list, packing the encoded text succeeds, and
   * unpacking and decoding it gives the text back.
   */
  lemma RoundTrip(text: seq<Symbol>, root: Tree)
    requires root.Node? && multiset(Leaves(root)) == multiset(FrequencyList(text))
    ensures Packed(Encoded(CodeTable(root, FrequencyList(text)), text)).Some?
    ensures DecodeWalk(root, root, Unpacked(Packed(Encoded(CodeTable(root, FrequencyList(text)), text)).value)) == text
  {
    var table := CodeTable(root, FrequencyList(text));
    forall i | 0 <= i < |text| ensures text[i] in Symbols(root) && table[text[i]] == TraverseTree(root, text[i]) {
      TextSymbolsListed(text, root, i);
    }
    EncodedIsBitString(table, text);
    UnpackPacked(Encoded(table, text));
    DecodeEncoded(root, table, text);
  }

  /** Every tree of a queue is well weighted. */
  predicate AllWellWeighted(ts: seq<Tree>) {
    ts == [] || (WellWeighted(ts[0]) && AllWellWeighted(ts[1..]))
  }

  /** Every tree of a queue is a well-weighted merged node. */
  predicate AllMerged(ts: seq<Tree>) {
    ts == [] || (ts[0].Node? && WellWeighted(ts[0]) && AllMerged(ts[1..]))
  }

  /** A tree added at the back of a queue adds its leaves. */
  lemma {:induction false} LeafBagSnoc(ts: seq<Tree>, t: Tree)
    ensures LeafBag(ts + [t]) == LeafBag(ts) + multiset(Leaves(t))
  {
    if ts == [] {
      assert [t][1..] == [];
    } else {
      assert (ts + [t])[1..] == ts[1..] + [t];
      LeafBagSnoc(ts[1..], t);
    }
  }

  lemma {:induction false} MergedSnoc(ts: seq<Tree>, t: Tree)
    requires AllMerged(ts) && t.Node? && WellWeighted(t)
    ensures AllMerged(ts + [t])
  {
    if ts == [] {
      assert [t][1..] == [];
    } else {
      assert (ts + [t])[1..] == ts[1..] + [t];
      MergedSnoc(ts[1..], t);
    }
  }

  lemma {:induction false} WellWeightedSnoc(ts: seq<Tree>, t: Tree)
    requires AllWellWeighted(ts) && WellWeighted(t)
    ensures AllWellWeighted(ts + [t])
  {
    if ts == [] {
      assert [t][1..] == [];
    } else {
      assert (ts + [t])[1..] == ts[1..] + [t];
      WellWeightedSnoc(ts[1..], t);
    }
  }

  /**
   * The tree-building state: both queues hold well-weighted trees, the target
   * queue only merged nodes, and their leaves together with `taken` (the
   * leaves of the trees dequeued but not yet merged) are the entries of `list`.
   */
  ghost predicate Pool(list: seq<CharFreq>, source: seq<Tree>, target: seq<Tree>, taken: multiset<CharFreq>) {
    AllWellWeighted(source) && AllMerged(target) && LeafBag(source) + LeafBag(target) + taken == multiset(list)
  }

  /** Dequeuing from the source queue keeps the pool. */
  lemma PickSource(list: seq<CharFreq>, source: seq<Tree>, target: seq<Tree>, taken: multiset<CharFreq>)
    requires Pool(list, source, target, taken) && source != []
    ensures WellWeighted(source[0]) && Pool(list, source[1..], target, taken + multiset(Leaves(source[0])))
  {
  }

  /** Dequeuing from the target queue keeps the pool. */
  lemma PickTarget(list: seq<CharFreq>, source: seq<Tree>, target: seq<Tree>, taken: multiset<CharFreq>)
    requires Pool(list, source, target, taken) && target != []
    ensures WellWeighted(target[0]) && Pool(list, source, target[1..], taken + multiset(Leaves(target[0])))
  {
  }

  /** Merging the two trees taken into a node at the back of the target queue keeps the pool. */
  lemma MergeKeeps(list: seq<CharFreq>, source: seq<Tree>, target: seq<Tree>, x: Tree, y: Tree)
    requires Pool(list, source, target, multiset(Leaves(x)) + multiset(Leaves(y)))
    requires WellWeighted(x) && WellWeighted(y)
    ensures Pool(list, source, target + [Node(Weight(x) + Weight(y), x, y)], multiset{})
  {
    var n := Node(Weight(x) + Weight(y), x, y);
    LeafBagSnoc(target, n);
    MergedSnoc(target, n);
  }

  /** A pool down to one tree in the target queue: that tree holds exactly the entries. */
  lemma PoolDone(list: seq<CharFreq>, root: Tree)
    requires Pool(list, [], [root], multiset{})
    ensures root.Node? && WellWeighted(root) && multiset(Leaves(root)) == multiset(list)
  {
    assert [root][1..] == [];
  }

  /** A pick keeps the pool, moving the leaves of the tree taken to `taken`. */
  lemma PickPool(list: seq<CharFreq>, q: Queues, taken: multiset<CharFreq>)
    requires Pool(list, q.source, q.target, taken) && (q.source != [] || q.target != [])
    ensures WellWeighted(Front(q)) && Pool(list, Rest(q).source, Rest(q).target, taken + multiset(Leaves(Front(q))))
  {
    if TakeSource(q.source, q.target) {
      PickSource(list, q.source, q.target, taken);
    } else {
      PickTarget(list, q.source, q.target, taken);
    }
  }

  /** A round of makeTree's loop keeps the pool. */
  lemma MergePool(list: seq<CharFreq>, q: Queues)
    requires Pool(list, q.source, q.target, multiset{}) && |q.source| + |q.target| >= 2
    ensures Pool(list, Merge(q).source, Merge(q).target, multiset{})
  {
    TwoPicks(list, q);
    MergeKeeps(list, Rest(Rest(q)).source, Rest(Rest(q)).target, Front(q), Front(Rest(q)));
    MergeShape(q);
  }

  /** The two picks of a round keep the pool, with both trees taken and not yet merged. */
  lemma TwoPicks(list: seq<CharFreq>, q: Queues)
    requires Pool(list, q.source, q.target, multiset{}) && |q.source| + |q.target| >= 2
    ensures WellWeighted(Front(q)) && WellWeighted(Front(Rest(q)))
    ensures Pool(list, Rest(Rest(q)).source, Rest(Rest(q)).target, multiset(Leaves(Front(q))) + multiset(Leaves(Front(Rest(q)))))
  {
    PickPool(list, q, multiset{});
    PickPool(list, Rest(q), multiset(Leaves(Front(q))));
  }

  /** `Merge` spelled out, so that callers need not unfold it. */
  lemma MergeShape(q: Queues)
    requires |q.source| + |q.target| >= 2
    ensures Merge(q) == Queues(Rest(Rest(q)).source, Rest(Rest(q)).target + [Node(Weight(Front(q)) + Weight(Front(Rest(q))), Front(q), Front(Rest(q)))])
  {
  }

  /** Running makeTree's loop on a pool ends with a well-weighted node holding exactly the pool's entries. */
  lemma {:induction false} BuildTree(list: seq<CharFreq>, q: Queues)
    requires Pool(list, q.source, q.target, multiset{}) && (|q.target| >= 1 || |q.source| >= 2)
    ensures Build(q).Node? && WellWeighted(Build(q)) && multiset(Leaves(Build(q))) == multiset(list)
    decreases |q.source| + |q.target|
  {
    if |q.source| > 0 || |q.target| > 1 {
      MergePool(list, q);
      BuildTree(list, Merge(q));
    } else {
      assert q.target == [q.target[0]];
      PoolDone(list, q.target[0]);
    }
  }

  /** The tree makeTree builds is a well-weighted node whose leaves are exactly the list's entries. */
  lemma HuffmanBuildTree(list: seq<CharFreq>)
    requires |list| >= 2
    ensures HuffmanBuild(list).Node? && WellWeighted(HuffmanBuild(list))
    ensures multiset(Leaves(HuffmanBuild(list))) == multiset(list)
  {
    LeavesOfList(list, LeavesOf(list));
    BuildTree(list, Queues(LeavesOf(list), []));
  }

  /** One step of the backward removal pass, at index `i`. */
  lemma RemovalStep(sorted: seq<CharFreq>, marks: seq<bool>, i: nat, list: seq<CharFreq>)
    requires |marks| == 128 && i < |sorted|
    requires list == sorted[..i + 1] + KeepPresent(marks, sorted[i + 1..])
    ensures list[i] == sorted[i]
    ensures (if marks[sorted[i].character] then list else list[..i] + list[i + 1..]) == sorted[..i] + KeepPresent(marks, sorted[i..])
  {
    assert sorted[i..][1..] == sorted[i + 1..];
    assert sorted[..i + 1] == sorted[..i] + [sorted[i]];
    var rest := KeepPresent(marks, sorted[i + 1..]);
    if !marks[sorted[i].character] {
      assert list[..i] == sorted[..i];
      assert list[i + 1..] == rest;
    }
  }

  /**
   * The body of makeSortedList: counts every symbol of the text, lists the observed
   * ones in code-point order, adds a partner to a lone symbol, sorts the
   * list by weight and drops the entries whose symbol is not marked present.
   */
  method SortedListOf(text: seq<Symbol>) returns (list: seq<CharFreq>)
    ensures list == FrequencyList(text)
  {
    var freq, present := CountSymbols(text);
    var distinct;
    list, distinct := ObservedList(text, freq);
    list := AddPartner(text, list, distinct, present);
    list := SortByCount(list);
    FrequencyListMarked(text, present[..]);
    list := RemoveAbsent(list, present);
  }

  /** The partner step of makeSortedList: a lone symbol gets a weight-0 partner, marked present. */
  method AddPartner(ghost text: seq<Symbol>, list: seq<CharFreq>, distinct: nat, present: array<bool>) returns (list': seq<CharFreq>)
    requires list == Observed(text, 128) && distinct == |list|
    requires present.Length == 128 && forall c: Symbol :: present[c] == (Occurrences(text, c) > 0)
    modifies present
    ensures list' == WithPartner(Observed(text, 128))
    ensures forall c: Symbol :: present[c] == Present(text, c)
  {
    ghost var counted := present[..];
    ObservedSingle(text);
    list' := list;
    if distinct == 1 {
      // the next code point, 127 wrapping to 0
      var special: Symbol := if list[0].character == 127 then 0 else list[0].character + 1;
      list' := list + [CharFreq(special, 0)];
      present[special] := true;
      assert present[..] == counted[Partner(text[0]) := true];
    }
    MarksPresent(text, counted, present[..]);
  }

  /** The listing loop of makeSortedList: an entry per occurring symbol, in code-point order, and their number. */
  method ObservedList(ghost text: seq<Symbol>, freq: array<nat>) returns (list: seq<CharFreq>, distinct: nat)
    requires freq.Length == 128 && forall c: Symbol :: freq[c] == Occurrences(text, c)
    ensures list == Observed(text, 128) && distinct == |list|
  {
    list, distinct := [], 0;
    for c := 0 to 128
      invariant list == Observed(text, c) && distinct == |list|
    {
      if freq[c] > 0 {
        list := list + [CharFreq(c, freq[c])];
        distinct := distinct + 1;
      }
    }
  }

  /** The presence marks after the partner step are exactly the present symbols. */
  lemma MarksPresent(text: seq<Symbol>, counted: seq<bool>, marks: seq<bool>)
    requires |counted| == 128 && forall c: Symbol :: counted[c] == (Occurrences(text, c) > 0)
    requires marks == if Uniform(text) then counted[Partner(text[0]) := true] else counted
    ensures |marks| == 128 && forall c: Symbol :: marks[c] == Present(text, c)
  {
    ObservedSingle(text);
  }

  /** The counting loop of makeSortedList: how often each symbol occurs, and which occur. */
  method CountSymbols(text: seq<Symbol>) returns (freq: array<nat>, present: array<bool>)
    ensures fresh(freq) && fresh(present) && freq.Length == 128 && present.Length == 128
    ensures forall c: Symbol :: freq[c] == Occurrences(text, c) && present[c] == (freq[c] > 0)
  {
    freq := new nat[128](_ => 0);
    present := new bool[128](_ => false);
    for i := 0 to |text|
      invariant forall c: Symbol :: freq[c] == Occurrences(text[..i], c)
      invariant forall c: Symbol :: present[c] == (freq[c] > 0)
    {
      assert text[..i + 1] == text[..i] + [text[i]];
      freq[text[i]] := freq[text[i]] + 1;
      present[text[i]] := true;
    }
    assert text[..|text|] == text;
  }

  /** The removal pass of makeSortedList: from the back, drops every entry whose symbol is not marked present. */
  method RemoveAbsent(sorted: seq<CharFreq>, present: array<bool>) returns (list: seq<CharFreq>)
    requires present.Length == 128
    ensures list == KeepPresent(present[..], sorted)
    ensures (forall i :: 0 <= i < |sorted| ==> present[sorted[i].character]) ==> list == sorted
  {
    list := sorted;
    var i := |list| - 1;
    assert sorted[i + 1..] == [];
    while i >= 0
      invariant -1 <= i < |sorted|
      invariant list == sorted[..i + 1] + KeepPresent(present[..], sorted[i + 1..])
    {
      RemovalStep(sorted, present[..], i, list);
      if !present[list[i].character] {
        list := list[..i] + list[i + 1..];
      }
      i := i - 1;
    }
    assert sorted[..0] == [] && sorted[0..] == sorted;
    if forall i :: 0 <= i < |sorted| ==> present[sorted[i].character] {
      KeepAllPresent(present[..], sorted);
    }
  }

  /** The entries of the list for a text with its presence marks: every symbol is marked. */
  lemma FrequencyListMarked(text: seq<Symbol>, marks: seq<bool>)
    requires |marks| == 128 && forall c: Symbol :: marks[c] == Present(text, c)
    ensures forall i :: 0 <= i < |FrequencyList(text)| ==> marks[FrequencyList(text)[i].character]
  {
    FrequencyListEntries(text);
    forall i | 0 <= i < |FrequencyList(text)| ensures marks[FrequencyList(text)[i].character] {
      assert FrequencyList(text)[i] in FrequencyList(text);
    }
  }

  /**
   * The body of makeTree: leaves for the list's entries in a source queue; the first two
   * are merged into a target queue, and then the two lightest fronts are
   * merged, ties going to the source queue, until one tree remains.
   */
  method TreeOf(list: seq<CharFreq>) returns (root: Tree)
    requires |list| >= 2
    ensures root == HuffmanBuild(list)
    ensures root.Node? && WellWeighted(root)
    ensures multiset(Leaves(root)) == multiset(list)
  {
    var source := LeafQueue(list);
    assert source == LeavesOf(list);
    var target: seq<Tree> := [];
    var x := source[0];
    source := source[1..];
    var y := source[0];
    source := source[1..];
    target := target + [Node(Weight(x) + Weight(y), x, y)];
    assert Queues(source, target) == Merge(Queues(LeavesOf(list), []));
    while |source| > 0 || |target| > 1
      invariant |target| >= 1 && Build(Queues(source, target)) == HuffmanBuild(list)
      decreases |source| + |target|
    {
      source, target := MergeRound(source, target);
    }
    root := target[0];
    HuffmanBuildTree(list);
  }

  /** One round of makeTree's loop: two picks, merged into a node at the back of the target queue. */
  method MergeRound(source: seq<Tree>, target: seq<Tree>) returns (source': seq<Tree>, target': seq<Tree>)
    requires |source| + |target| >= 2
    ensures Queues(source', target') == Merge(Queues(source, target))
    ensures |target'| >= 1 && |source'| + |target'| == |source| + |target| - 1
  {
    var x, y;
    x, source', target' := Dequeue(source, target);
    y, source', target' := Dequeue(source', target');
    target' := target' + [Node(Weight(x) + Weight(y), x, y)];
  }

  /** The first loop of makeTree: a leaf for every entry, in list order. */
  method LeafQueue(list: seq<CharFreq>) returns (source: seq<Tree>)
    ensures |source| == |list| && forall j :: 0 <= j < |list| ==> source[j] == Leaf(list[j])
    ensures AllWellWeighted(source) && LeafBag(source) == multiset(list)
  {
    source := [];
    for i := 0 to |list|
      invariant |source| == i && forall j :: 0 <= j < i ==> source[j] == Leaf(list[j])
    {
      source := source + [Leaf(list[i])];
    }
    LeavesOfList(list, source);
  }

  /** A queue holding a leaf for each entry of a list holds exactly its entries. */
  lemma {:induction false} LeavesOfList(list: seq<CharFreq>, source: seq<Tree>)
    requires |source| == |list| && forall j :: 0 <= j < |list| ==> source[j] == Leaf(list[j])
    ensures AllWellWeighted(source) && LeafBag(source) == multiset(list)
  {
    if list != [] {
      LeavesOfList(list[1..], source[1..]);
      assert list == [list[0]] + list[1..];
    }
  }

  /**
   * One pick of makeTree's loop: the front of the source queue when
   * `TakeSource` holds, otherwise the front of the target queue.
   */
  method Dequeue(source: seq<Tree>, target: seq<Tree>) returns (t: Tree, source': seq<Tree>, target': seq<Tree>)
    requires source != [] || target != []
    ensures t == Front(Queues(source, target)) && Queues(source', target') == Rest(Queues(source, target))
  {
    if TakeSource(source, target) {
      t, source', target' := source[0], source[1..], target;
    } else {
      t, source', target' := target[0], source, target[1..];
    }
  }

  class HuffmanCoding {
    /** The frequency list; empty until `MakeSortedList` (the source's null). */
    var sortedCharFreqList: seq<CharFreq>
    /** The root of the tree; `None` until `MakeTree`. */
    var huffmanRoot: Option<Tree>
    /** The code of each ASCII symbol, `None` for null; the array itself is null until `MakeEncodings`. */
    var encodings: array?<Option<string>>

    constructor ()
      ensures sortedCharFreqList == [] && huffmanRoot == None && encodings == null
    {
      sortedCharFreqList := [];
      huffmanRoot := None;
      encodings := null;
    }

    /** makeSortedList: the frequency list of the text, sorted by weight. */
    method MakeSortedList(text: seq<Symbol>)
      modifies this
      ensures sortedCharFreqList == FrequencyList(text)
      ensures Sorted(sortedCharFreqList) && DistinctSymbols(sortedCharFreqList)
      ensures forall e :: e in sortedCharFreqList <==> Present(text, e.character) && e.count == Occurrences(text, e.character)
      ensures forall i, j :: 0 <= i < j < |sortedCharFreqList| && sortedCharFreqList[i].count == sortedCharFreqList[j].count
                   ==> sortedCharFreqList[i].character < sortedCharFreqList[j].character
      ensures huffmanRoot == old(huffmanRoot) && encodings == old(encodings)
    {
      sortedCharFreqList := SortedListOf(text);
      FrequencyListSorted(text);
      FrequencyListEntries(text);
      FrequencyListTies(text);
    }

    /** makeTree: the tree built from the frequency list. */
    method MakeTree()
      requires |sortedCharFreqList| >= 2
      modifies this
      ensures sortedCharFreqList == old(sortedCharFreqList) && encodings == old(encodings)
      ensures huffmanRoot == Some(HuffmanBuild(sortedCharFreqList))
      ensures huffmanRoot.Some? && huffmanRoot.value.Node? && WellWeighted(huffmanRoot.value)
      ensures multiset(Leaves(huffmanRoot.value)) == multiset(sortedCharFreqList)
    {
      var root := TreeOf(sortedCharFreqList);
      huffmanRoot := Some(root);
    }

    /**
     * makeEncodings: a fresh table of 128 nulls, then the path found by
     * traverseTree for the symbol of every entry in the list.
     */
    method MakeEncodings()
      requires sortedCharFreqList != [] ==> huffmanRoot.Some?
      modifies this
      ensures fresh(encodings) && encodings.Length == 128
      ensures huffmanRoot.Some? ==> encodings[..] == CodeTable(huffmanRoot.value, sortedCharFreqList)
      ensures huffmanRoot.None? ==> forall c :: 0 <= c < 128 ==> encodings[c] == None
      ensures sortedCharFreqList == old(sortedCharFreqList) && huffmanRoot == old(huffmanRoot)
    {
      var list, root := sortedCharFreqList, huffmanRoot;
      var table := new Option<string>[128](_ => None);
      for i := 0 to |list|
        modifies table
        invariant forall c: Symbol :: table[c] == if Listed(list[..i], c) then TraverseTree(root.value, c) else None
      {
        assert list[..i + 1] == list[..i] + [list[i]];
        var target := list[i].character;
        var code := TraverseTree(root.value, target);
        if code.Some? {
          table[target] := code;
        }
      }
      assert list[..|list|] == list;
      encodings := table;
    }

    /**
     * encode: the codes of the text's symbols in order, packed by
     * writeBitString. An empty text never reads `encodings`, which may then
     * still be null.
     */
    method Encode(text: seq<Symbol>) returns (written: Option<seq<JByte>>)
      requires text == [] || (encodings != null && encodings.Length == 128)
      ensures text == [] ==> written == Packed("")
      ensures encodings != null && encodings.Length == 128 ==> written == Packed(Encoded(encodings[..], text))
    {
      var encode := "";
      for i := 0 to |text|
        invariant text == [] ==> encode == ""
        invariant text != [] ==> encode == Encoded(encodings[..], text[..i])
      {
        EncodedSnoc(encodings[..], text[..i], text[i]);
        assert text[..i + 1] == text[..i] + [text[i]];
        encode := encode + CodeString(encodings[text[i]]);
      }
      assert text[..|text|] == text;
      written := WriteBitString(encode);
    }

    /** decode: unpacks the bytes and walks the tree, emitting a symbol at each leaf. */
    method Decode(bytes: seq<JByte>) returns (decoded: seq<Symbol>)
      requires huffmanRoot.Some? && huffmanRoot.value.Node?
      ensures decoded == DecodeWalk(huffmanRoot.value, huffmanRoot.value, Unpacked(bytes))
    {
      var bits := ReadBitString(bytes);
      var root := huffmanRoot.value;
      var cur := root;
      decoded := [];
      for i := 0 to |bits|
        invariant cur.Node?
        invariant decoded + DecodeWalk(root, cur, bits[i..]) == DecodeWalk(root, root, bits)
      {
        assert bits[i..][1..] == bits[i + 1..];
        if bits[i] == '0' {
          cur := cur.left;
        } else {
          cur := cur.right;
        }
        if cur.Leaf? {
          decoded := decoded + [cur.data.character];
          cur := root;
        }
      }
    }

    /** The driver's sequence of calls on one text: the bytes it encodes to decode to the text. */
    method EncodeThenDecode(text: seq<Symbol>) returns (decoded: seq<Symbol>)
      requires |text| > 0
      modifies this
      ensures decoded == text
    {
      FrequencyListSize(text);
      MakeSortedList(text);
      MakeTree();
      MakeEncodings();
      var written := Encode(text);
      RoundTrip(text, huffmanRoot.value);
      decoded := Decode(written.value);
    }
  }
}
