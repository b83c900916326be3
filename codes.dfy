/** Code-table derivation (construireCodes, genererCodesHuffman): a
    depth-first walk that records, for each leaf, the path to it, a left
    edge adding '0' and a right edge adding '1'. */
module CodeTables {
  import opened Wrappers
  import opened HuffmanTrees
  import opened TreeBuilder

  /** The entries the walk from a node with the given path so far puts into
      the table; an entry found later (further right) replaces an earlier one
      for the same letter, as HashMap.put does. */
  function CodeTable(t: Tree, code: string): map<char, string>
  {
    match t
    case Leaf(c, _) => map[c := code]
    case Node(l, r, _) => CodeTable(l, code + "0") + CodeTable(r, code + "1")
  }

  /** The code table of a whole tree: the walk starts at the root with "". */
  function Codes(t: Tree): map<char, string>
  {
    CodeTable(t, "")
  }

  /** construireCodes: the walk writes its entries into the shared table. */
  method BuildCodes(t: Tree, code: string, codes: map<char, string>) returns (result: map<char, string>)
    ensures result == codes + CodeTable(t, code)
    decreases t
  {
    if IsLeaf(t) {
      result := codes[t.sym := code];
    } else {
      result := BuildCodes(t.left, code + "0", codes);
      result := BuildCodes(t.right, code + "1", result);
    }
  }

  /** What genererCodesHuffman returns: the code table of the Huffman tree,
      or a NullPointerException for an empty table, where the walk is
      started on a null root. */
  function HuffmanCodes(freq: map<char, int>): Result<map<char, string>>
  {
    CodesOf(HuffmanTree(freq))
  }

  lemma EmptyUnion(m: map<char, string>)
    ensures map[] + m == m
  {
  }

  /** construireCodes started on a root that may be null. */
  function CodesOf(root: Option<Tree>): Result<map<char, string>>
  {
    match root
    case None => NullPointerError
    case Some(t) => Ok(Codes(t))
  }

  /** genererCodesHuffman. */
  method GenerateCodes(freq: map<char, int>) returns (r: Result<map<char, string>>)
    ensures r == HuffmanCodes(freq)
  {
    var root := ReconstructTree(freq);
    if root.None? {
      return NullPointerError;
    }
    var codes := BuildCodes(root.value, "", map[]);
    EmptyUnion(Codes(root.value));
    return Ok(codes);
  }

  /** The table has an entry for exactly the letters at the leaves. */
  lemma {:induction false} CodeTableKeys(t: Tree, code: string)
    ensures forall c :: c in CodeTable(t, code) <==> c in Leaves(t)
  {
    match t
    case Leaf(_, _) =>
    case Node(l, r, _) =>
      CodeTableKeys(l, code + "0");
      CodeTableKeys(r, code + "1");
  }

  /** At an internal node a letter's entry comes from the right subtree if
      it has a leaf there, from the left one otherwise. */
  lemma NodeEntry(t: Tree, code: string, c: char)
    requires t.Node? && c in Leaves(t)
    ensures c in CodeTable(t, code)
    ensures c in Leaves(t.right) ==>
              c in CodeTable(t.right, code + "1") && CodeTable(t, code)[c] == CodeTable(t.right, code + "1")[c]
    ensures c !in Leaves(t.right) ==>
              c in CodeTable(t.left, code + "0") && CodeTable(t, code)[c] == CodeTable(t.left, code + "0")[c]
  {
    CodeTableKeys(t.left, code + "0");
    CodeTableKeys(t.right, code + "1");
  }

  /** Starting the walk with a longer path puts the extra part in front of
      every entry. */
  lemma {:induction false} CodeTableExtend(t: Tree, p: string, q: string, c: char)
    requires c in Leaves(t)
    ensures c in CodeTable(t, p + q) && c in CodeTable(t, q)
    ensures CodeTable(t, p + q)[c] == p + CodeTable(t, q)[c]
  {
    match t
    case Leaf(_, _) =>
    case Node(l, r, _) =>
      NodeEntry(t, p + q, c);
      var (sub, bit) := if c in Leaves(r) then (r, "1") else (l, "0");
      NodeEntry(t, q, c);
      assert p + q + bit == p + (q + bit);
      CodeTableExtend(sub, p, q + bit, c);
  }

  /** Every entry of the walk starting with a given path extends that path
      by the entry of the walk starting with "". */
  lemma CodeTableShift(t: Tree, code: string, c: char)
    requires c in Leaves(t)
    ensures c in CodeTable(t, code) && c in Codes(t)
    ensures CodeTable(t, code)[c] == code + Codes(t)[c]
  {
    assert code + "" == code;
    CodeTableExtend(t, code, "", c);
  }

  /** At an internal node with distinct letters, a letter of the left
      subtree gets '0' followed by its code there, one of the right subtree
      '1' followed by its code there. */
  lemma CodesOfNode(t: Tree, c: char)
    requires t.Node? && DistinctLeaves(t)
    requires c in Leaves(t)
    ensures c in Codes(t)
    ensures c in Leaves(t.left) ==> c in Codes(t.left) && Codes(t)[c] == "0" + Codes(t.left)[c]
    ensures c in Leaves(t.right) ==> c in Codes(t.right) && Codes(t)[c] == "1" + Codes(t.right)[c]
  {
    DistinctChildren(t);
    CodeTableKeys(t.left, "0");
    CodeTableKeys(t.right, "1");
    CodeTableKeys(t, "");
    assert "" + "0" == "0" && "" + "1" == "1";
    if c in Leaves(t.left) {
      CodeTableShift(t.left, "0", c);
    } else {
      CodeTableShift(t.right, "1", c);
    }
  }

  /** The node reached from the root by following a path, '0' going left and
      anything else right; none once the path runs past a leaf. */
  function Follow(t: Tree, path: string): Option<Tree>
    decreases |path|
  {
    if path == [] then Some(t)
    else match t
      case Leaf(_, _) => None
      case Node(l, r, _) => Follow(if path[0] == '0' then l else r, path[1..])
  }

  /** Each letter's code is the path from the root to the leaf holding it,
      written in '0's and '1's. */
  lemma {:induction false} CodeIsPathToLeaf(t: Tree, c: char)
    requires DistinctLeaves(t) && c in Leaves(t)
    ensures c in Codes(t)
    ensures forall k :: 0 <= k < |Codes(t)[c]| ==> Codes(t)[c][k] in "01"
    ensures Follow(t, Codes(t)[c]).Some? && Follow(t, Codes(t)[c]).value.Leaf?
    ensures Follow(t, Codes(t)[c]).value.sym == c
  {
    CodeTableKeys(t, "");
    match t
    case Leaf(_, _) =>
    case Node(l, r, _) =>
      CodesOfNode(t, c);
      DistinctChildren(t);
      var code := Codes(t)[c];
      if c in Leaves(l) {
        CodeIsPathToLeaf(l, c);
        assert code[1..] == Codes(l)[c];
      } else {
        CodeIsPathToLeaf(r, c);
        assert code[1..] == Codes(r)[c];
      }
  }

  /** A tree that is a single leaf gives its letter the empty code; in a tree
      with an internal root every code is non-empty. */
  lemma CodeLengths(t: Tree)
    ensures t.Leaf? ==> Codes(t) == map[t.sym := ""]
    ensures t.Node? ==> forall c :: c in Codes(t) ==> |Codes(t)[c]| >= 1
  {
    if t.Node? {
      CodeTableKeys(t, "");
      forall c | c in Codes(t)
        ensures |Codes(t)[c]| >= 1
      {
        NodeEntry(t, "", c);
        if c in Leaves(t.right) {
          CodeTableShift(t.right, "" + "1", c);
        } else {
          CodeTableShift(t.left, "" + "0", c);
        }
      }
    }
  }

  lemma PrefixAfterSameBit(bit: char, x: string, y: string)
    ensures [bit] + x <= [bit] + y <==> x <= y
  {
    assert ([bit] + x)[1..] == x && ([bit] + y)[1..] == y;
  }

  lemma PrefixAfterDifferentBits(p: char, q: char, x: string, y: string)
    requires p != q
    ensures !([p] + x <= [q] + y)
  {
    assert ([p] + x)[0] == p && ([q] + y)[0] == q;
  }

  /** The code table of a tree with distinct letters is a prefix code: no
      letter's code is a prefix of another letter's. */
  lemma {:induction false} PrefixFree(t: Tree)
    requires DistinctLeaves(t)
    ensures forall a, b :: a in Codes(t) && b in Codes(t) && a != b ==> !(Codes(t)[a] <= Codes(t)[b])
  {
    CodeTableKeys(t, "");
    match t
    case Leaf(_, _) =>
    case Node(l, r, _) =>
      DistinctChildren(t);
      PrefixFree(l);
      PrefixFree(r);
      CodeTableKeys(l, "");
      CodeTableKeys(r, "");
      forall a, b | a in Codes(t) && b in Codes(t) && a != b
        ensures !(Codes(t)[a] <= Codes(t)[b])
      {
        CodesOfNode(t, a);
        CodesOfNode(t, b);
        if a in Leaves(l) && b in Leaves(l) {
          PrefixAfterSameBit('0', Codes(l)[a], Codes(l)[b]);
        } else if a in Leaves(r) && b in Leaves(r) {
          PrefixAfterSameBit('1', Codes(r)[a], Codes(r)[b]);
        } else if a in Leaves(l) {
          PrefixAfterDifferentBits('0', '1', Codes(l)[a], Codes(r)[b]);
        } else {
          PrefixAfterDifferentBits('1', '0', Codes(r)[a], Codes(l)[b]);
        }
      }
  }
}
