/** The tokenizer's trie: nodes in one vector, children linked by index, index 0 the root and the absent child. */
module BpeTrie {
  import opened Bpe

  /** A node: the id of the sequence that ends here (0 for none) and one child slot per byte. */
  datatype Node = Node(token: nat, children: seq<nat>)

  function NewNode(): Node { Node(0, seq(0x100, _ => 0)) }

  function Child(nodes: seq<Node>, i: nat, b: Byte): nat {
    if i < |nodes| && b < |nodes[i].children| then nodes[i].children[b] else 0
  }

  /** `index` names the node of each stored sequence. */
  type Index = map<seq<Byte>, nat>

  function Target(index: Index, p: seq<Byte>): nat { if p in index then index[p] else 0 }

  function Shorter(p: seq<Byte>): seq<Byte>
    requires p != []
  {
    p[..|p| - 1]
  }

  /** Stored sequences and nodes match one to one, prefixes are stored before what extends them, and the root is
      node 0. */
  ghost predicate IsIndex(index: Index, paths: seq<seq<Byte>>) {
    && |paths| > 0 && paths[0] == []
    && (forall p :: p in index ==> index[p] < |paths| && paths[index[p]] == p)
    && (forall i :: 0 <= i < |paths| ==> paths[i] in index && index[paths[i]] == i)
    && forall p {:trigger Shorter(p)} :: p in index && p != [] ==> Shorter(p) in index && index[Shorter(p)] < index[p]
  }

  /** Each child slot holds the node of the sequence one byte longer, or 0 when that sequence is not stored. */
  ghost predicate IsLinked(nodes: seq<Node>, index: Index) {
    && (forall i :: 0 <= i < |nodes| ==> |nodes[i].children| == 0x100)
    && forall p, b: Byte {:trigger Child(nodes, index[p], b)} ::
         p in index ==> Child(nodes, index[p], b) == Target(index, p + [b])
  }

  ghost predicate IsTrie(nodes: seq<Node>, index: Index, paths: seq<seq<Byte>>) {
    |nodes| == |paths| && IsIndex(index, paths) && IsLinked(nodes, index)
  }

  /** The id stored at each node is the one registered for its sequence, and every registered sequence is stored. */
  ghost predicate Represents(nodes: seq<Node>, index: Index, vocab: Vocab) {
    && WellFormed(vocab)
    && (forall p :: p in index ==>
          index[p] < |nodes| && nodes[index[p]].token == if p in vocab then vocab[p] else 0)
    && forall p :: p in vocab ==> p in index
  }

  /** Every prefix of a stored sequence is stored. */
  lemma {:induction false} PrefixStored(index: Index, paths: seq<seq<Byte>>, p: seq<Byte>, n: nat)
    requires IsIndex(index, paths) && p in index && n <= |p|
    ensures p[..n] in index
    decreases |p|
  {
    if n < |p| {
      PrefixStored(index, paths, Shorter(p), n);
      assert Shorter(p)[..n] == p[..n];
    } else {
      assert p[..n] == p;
    }
  }

  /** Only the root is node 0, so a stored sequence's link is never the absent-child value. */
  lemma StoredIsNotAbsent(index: Index, paths: seq<seq<Byte>>, p: seq<Byte>)
    requires IsIndex(index, paths) && p != []
    ensures p in index <==> Target(index, p) != 0
  {}

  /** A missing child means that no stored sequence continues that way. */
  lemma MissingChild(nodes: seq<Node>, index: Index, paths: seq<seq<Byte>>, p: seq<Byte>, s: seq<Byte>)
    requires IsTrie(nodes, index, paths) && p in index
    requires |s| > |p| && s[..|p|] == p && Child(nodes, index[p], s[|p|]) == 0
    ensures s !in index
  {
    assert s[..|p| + 1] == p + [s[|p|]];
    StoredIsNotAbsent(index, paths, p + [s[|p|]]);
    if s in index { PrefixStored(index, paths, s, |p| + 1); }
  }

  /** The child links form a tree: every node but the root is the child of exactly one node under exactly one byte,
      and that parent has a smaller index. */
  lemma LinksFormTree(nodes: seq<Node>, index: Index, paths: seq<seq<Byte>>, j: nat)
    requires IsTrie(nodes, index, paths) && 0 < j < |nodes|
    ensures exists i: nat, b: Byte :: i < j && Child(nodes, i, b) == j
    ensures forall i: nat, b: Byte, i': nat, b': Byte ::
              i < |nodes| && i' < |nodes| && Child(nodes, i, b) == j && Child(nodes, i', b') == j ==> i == i' && b == b'
  {
    var p := paths[j];
    assert p != [];
    var parent, b := index[Shorter(p)], p[|p| - 1];
    assert p == Shorter(p) + [b];
    assert Child(nodes, parent, b) == j;
    forall i: nat, c: Byte | i < |nodes| && Child(nodes, i, c) == j ensures i == parent && c == b {
      OnlyParent(nodes, index, paths, i, c);
    }
  }

  /** The node a link leads to stands for the linking node's sequence and the byte. */
  lemma OnlyParent(nodes: seq<Node>, index: Index, paths: seq<seq<Byte>>, i: nat, c: Byte)
    requires IsTrie(nodes, index, paths) && i < |nodes| && Child(nodes, i, c) != 0
    ensures Child(nodes, i, c) < |nodes|
    ensures var p := paths[Child(nodes, i, c)];
            p != [] && index[Shorter(p)] == i && p[|p| - 1] == c
  {
    var q := paths[i];
    assert Child(nodes, index[q], c) == Target(index, q + [c]);
    assert Shorter(q + [c]) == q && (q + [c])[|q|] == c;
  }

  class BpeTokenizer {
    var nodes: seq<Node>
    /** The node of each stored sequence, and the sequence of each node. */
    ghost var index: Index
    ghost var paths: seq<seq<Byte>>
    /** The registrations made so far, and what they leave registered. */
    ghost var merges: seq<(seq<Byte>, nat)>
    ghost var vocab: Vocab

    ghost predicate Valid()
      reads this
    {
      IsTrie(nodes, index, paths) && Represents(nodes, index, vocab) && vocab == History(merges)
    }

    constructor ()
      ensures Valid() && merges == []
    {
      nodes, index, paths := [NewNode()], map[[] := 0], [[]];
      merges, vocab := [], map[];
    }

    /** Follows, or makes, the child of `current` for one byte. */
    method Descend(current: nat, b: Byte, ghost path: seq<Byte>) returns (next: nat)
      requires IsTrie(nodes, index, paths) && Represents(nodes, index, vocab)
      requires path in index && index[path] == current
      modifies `nodes, `index, `paths
      ensures IsTrie(nodes, index, paths) && Represents(nodes, index, vocab)
      ensures path + [b] in index && index[path + [b]] == next
    {
      next := nodes[current].children[b];
      assert next == Child(nodes, current, b) == Target(index, path + [b]);
      if next != 0 {
        return;
      }
      next := |nodes|;
      StoredIsNotAbsent(index, paths, path + [b]);
      AddChild(nodes, index, paths, vocab, path, b);
      var linked := nodes[current].(children := nodes[current].children[b := next]);
      nodes := nodes[current := linked] + [NewNode()];
      index, paths := index[path + [b] := next], paths + [path + [b]];
    }

    /** Follows, or makes, the nodes of a whole sequence from the root. */
    method DescendAll(sequence: seq<Byte>) returns (current: nat)
      requires IsTrie(nodes, index, paths) && Represents(nodes, index, vocab)
      modifies `nodes, `index, `paths
      ensures IsTrie(nodes, index, paths) && Represents(nodes, index, vocab)
      ensures sequence in index && index[sequence] == current
    {
      current := 0;
      var i := 0;
      while i < |sequence|
        invariant i <= |sequence|
        invariant IsTrie(nodes, index, paths) && Represents(nodes, index, vocab)
        invariant sequence[..i] in index && index[sequence[..i]] == current
      {
        current := Descend(current, sequence[i], sequence[..i]);
        assert sequence[..i] + [sequence[i]] == sequence[..i + 1];
        i := i + 1;
      }
      assert sequence[..i] == sequence;
    }

    /** Registers a sequence under an id; the empty sequence and id 0 are ignored. */
    method AddMerge(sequence: seq<Byte>, id: nat)
      requires Valid()
      modifies this
      ensures Valid() && merges == old(merges) + [(sequence, id)]
      ensures vocab == Registered(old(vocab), sequence, id)
    {
      ghost var before := merges;
      merges := merges + [(sequence, id)];
      assert merges[..|merges| - 1] == before;
      if sequence == [] || id == 0 {
        return;
      }
      var current := DescendAll(sequence);
      StoreToken(nodes, index, paths, vocab, sequence, id);
      nodes := nodes[current := nodes[current].(token := id)];
      vocab := vocab[sequence := id];
    }

    /** The token and length of the longest registered prefix of `rest`, or its first byte and length 1. */
    method LongestMatch(rest: seq<Byte>) returns (token: nat, length: nat)
      requires Valid() && rest != []
      ensures length == FirstLength(vocab, rest) && token == TokenOf(vocab, FirstUnit(vocab, rest))
    {
      token, length := rest[0], 1;
      var current, offset := 0, 0;
      while offset < |rest|
        invariant offset <= |rest| && rest[..offset] in index && index[rest[..offset]] == current
        invariant Best(vocab, rest, LongestUpTo(vocab, rest, offset), token, length)
      {
        var slot := nodes[current].children[rest[offset]];
        assert slot == Child(nodes, current, rest[offset]) == Target(index, rest[..offset] + [rest[offset]]);
        if slot == 0 {
          NothingLonger(rest, offset);
          break;
        }
        current := slot;
        assert rest[..offset] + [rest[offset]] == rest[..offset + 1];
        offset := offset + 1;
        if nodes[current].token != 0 {
          token, length := nodes[current].token, offset;
        }
      }
      BestIsFirstUnit(vocab, rest, token, length);
    }

    /** Where the walk stops, the longest match found so far is the longest there is. */
    lemma NothingLonger(rest: seq<Byte>, offset: nat)
      requires Valid() && offset < |rest| && rest[..offset] in index
      requires Child(nodes, index[rest[..offset]], rest[offset]) == 0
      ensures LongestUpTo(vocab, rest, |rest|) == LongestUpTo(vocab, rest, offset)
    {
      forall m | offset < m <= |rest| ensures rest[..m] !in vocab {
        assert rest[..m][..offset] == rest[..offset];
        MissingChild(nodes, index, paths, rest[..offset], rest[..m]);
      }
      StableAbove(vocab, rest, offset, |rest|);
    }

    /** Encodes an input, longest registered sequence first at every position. */
    method Encode(input: seq<Byte>) returns (tokens: seq<nat>)
      requires Valid()
      ensures tokens == Encoded(vocab, input)
    {
      tokens := [];
      var position := 0;
      assert input[0..] == input && tokens + Encoded(vocab, input) == Encoded(vocab, input);
      while position < |input|
        invariant position <= |input|
        invariant tokens + Encoded(vocab, input[position..]) == Encoded(vocab, input)
      {
        var token, length := LongestMatch(input[position..]);
        OneMoreToken(vocab, input, tokens, position, token, length);
        tokens := tokens + [token];
        position := position + length;
      }
      assert input[position..] == [] && tokens + [] == tokens;
    }
  }

  /** Emitting the first unit's token and moving past the unit keeps what the whole encoding will be. */
  lemma OneMoreToken(vocab: Vocab, input: seq<Byte>, tokens: seq<nat>, position: nat, token: nat, length: nat)
    requires position < |input|
    requires length == FirstLength(vocab, input[position..])
    requires token == TokenOf(vocab, FirstUnit(vocab, input[position..]))
    ensures position + length <= |input|
    ensures (tokens + [token]) + Encoded(vocab, input[position + length..]) == tokens + Encoded(vocab, input[position..])
  {}

  /** `token` and `length` are what a longest registered prefix of length `n` calls for. */
  ghost predicate Best(vocab: Vocab, rest: seq<Byte>, n: nat, token: nat, length: nat)
    requires rest != []
  {
    if n == 0 then token == rest[0] && length == 1
    else n <= |rest| && rest[..n] in vocab && token == vocab[rest[..n]] && length == n
  }

  lemma BestIsFirstUnit(vocab: Vocab, rest: seq<Byte>, token: nat, length: nat)
    requires rest != [] && Best(vocab, rest, LongestUpTo(vocab, rest, |rest|), token, length)
    ensures length == FirstLength(vocab, rest) && token == TokenOf(vocab, FirstUnit(vocab, rest))
  {
    LongestIsLongest(vocab, rest, |rest|);
  }

  lemma {:induction false} StableAbove(vocab: Vocab, rest: seq<Byte>, low: nat, k: nat)
    requires low <= k <= |rest|
    requires forall m :: low < m <= k ==> rest[..m] !in vocab
    ensures LongestUpTo(vocab, rest, k) == LongestUpTo(vocab, rest, low)
  {
    if low < k { StableAbove(vocab, rest, low, k - 1); }
  }

  lemma AppendInjective(p: seq<Byte>, b: Byte, q: seq<Byte>, c: Byte)
    requires p + [b] == q + [c]
    ensures p == q && b == c
  {
    assert Shorter(p + [b]) == p && Shorter(q + [c]) == q;
    assert (p + [b])[|p|] == b && (q + [c])[|q|] == c;
  }

  function WithChild(nodes: seq<Node>, current: nat, b: Byte): seq<Node>
    requires current < |nodes| && b < |nodes[current].children|
  {
    nodes[current := nodes[current].(children := nodes[current].children[b := |nodes|])] + [NewNode()]
  }

  lemma ChildAfter(nodes: seq<Node>, current: nat, b: Byte, i: nat, c: Byte)
    requires current < |nodes| && i <= |nodes|
    requires forall k :: 0 <= k < |nodes| ==> |nodes[k].children| == 0x100
    ensures Child(WithChild(nodes, current, b), i, c)
         == if i == current && c == b then |nodes| else if i == |nodes| then 0 else Child(nodes, i, c)
  {}

  /** Linking a new node under a free slot keeps the trie and what it represents. */
  lemma AddChild(nodes: seq<Node>, index: Index, paths: seq<seq<Byte>>, vocab: Vocab, path: seq<Byte>, b: Byte)
    requires IsTrie(nodes, index, paths) && Represents(nodes, index, vocab)
    requires path in index && path + [b] !in index
    ensures var nodes', index' := WithChild(nodes, index[path], b), index[path + [b] := |nodes|];
            IsTrie(nodes', index', paths + [path + [b]]) && Represents(nodes', index', vocab)
  {
    var added := path + [b];
    var nodes', index', paths' := WithChild(nodes, index[path], b), index[added := |nodes|], paths + [added];
    assert Shorter(added) == path;
    assert IsIndex(index', paths');
    forall p, c: Byte | p in index' ensures Child(nodes', index'[p], c) == Target(index', p + [c]) {
      ChildAfterAdding(nodes, index, paths, path, b, p, c);
    }
  }

  lemma ChildAfterAdding(nodes: seq<Node>, index: Index, paths: seq<seq<Byte>>, path: seq<Byte>, b: Byte,
                         p: seq<Byte>, c: Byte)
    requires IsTrie(nodes, index, paths)
    requires path in index && path + [b] !in index
    requires p in index || p == path + [b]
    ensures var index' := index[path + [b] := |nodes|];
            Child(WithChild(nodes, index[path], b), index'[p], c) == Target(index', p + [c])
  {
    var index' := index[path + [b] := |nodes|];
    ChildAfter(nodes, index[path], b, index'[p], c);
    if p + [c] == path + [b] {
      AppendInjective(p, c, path, b);
    } else if p == path + [b] {
      assert Shorter(p + [c]) == p;
    } else {
      assert Child(nodes, index[p], c) == Target(index, p + [c]);
      if p == path && c == b { assert false; }
    }
  }

  /** Storing an id at a sequence's node registers exactly that sequence. */
  lemma StoreToken(nodes: seq<Node>, index: Index, paths: seq<seq<Byte>>, vocab: Vocab, sequence: seq<Byte>, id: nat)
    requires IsTrie(nodes, index, paths) && Represents(nodes, index, vocab)
    requires sequence in index && sequence != [] && id != 0
    ensures var nodes' := nodes[index[sequence] := nodes[index[sequence]].(token := id)];
            IsTrie(nodes', index, paths) && Represents(nodes', index, vocab[sequence := id])
  {
    var nodes' := nodes[index[sequence] := nodes[index[sequence]].(token := id)];
    forall p, b: Byte | p in index ensures Child(nodes', index[p], b) == Target(index, p + [b]) {
      assert Child(nodes', index[p], b) == Child(nodes, index[p], b);
    }
  }
}
