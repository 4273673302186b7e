/** The token tree of the renamer (MPSToken). A token is one fragment of a
    file name; the root of a tree stands for the whole name. Tokens are
    values here, and a token inside a tree is named by its path: the
    sequence of child indices that leads to it from the root. Two leaves
    with equal text therefore stay distinct, as they do in the engine,
    which compares tokens by reference.

    MPSToken's own code is not part of this model. Its operations are
    given here by the contracts the engine relies on: splitting is a
    policy passed in as a function, insertion clamps its index, shifting
    swaps with a neighbour. */
module Tokens {

  /** A child-index path from the root of a tree to one of its tokens. */
  type Path = seq<nat>

  /** One fragment of a file name: its text, the characters it splits on,
      whether reconstruction drops it, and its ordered children. A token
      without children is a leaf. */
  datatype Token = Token(text: string, separators: string, discard: bool, children: seq<Token>)
  {
    predicate IsLeaf() { children == [] }
  }

  /** The direction of a shift or of an insertion next to a token. */
  datatype Direction = Left | Right

  /** MPSToken's character-level split: from a text and its separator
      characters to the texts of the fragments. It is a parameter of
      the model, not a definition of it. */
  type SplitPolicy = (string, string) -> seq<string>

  /** A freshly made fragment: not discarded, without children. */
  function NewLeaf(text: string, separators: string): (r: Token)
    ensures r.IsLeaf() && !r.discard
    ensures r.text == text && r.separators == separators
  {
    Token(text, separators, false, [])
  }

  // ---------------------------------------------------------------------
  // Paths

  predicate ValidPath(t: Token, p: Path)
    decreases p
  {
    p == [] || (p[0] < |t.children| && ValidPath(t.children[p[0]], p[1..]))
  }

  /** The token that path p names in t. */
  function At(t: Token, p: Path): Token
    requires ValidPath(t, p)
    decreases p
  {
    if p == [] then t else At(t.children[p[0]], p[1..])
  }

  /** t with the token at p replaced by u: every ancestor of p is kept,
      with only the child on the path changed. */
  function ReplaceAt(t: Token, p: Path, u: Token): (r: Token)
    requires ValidPath(t, p)
    ensures ValidPath(r, p) && At(r, p) == u
    ensures p != [] ==> r.text == t.text && r.separators == t.separators && r.discard == t.discard
    ensures p != [] ==> |r.children| == |t.children|
    decreases p
  {
    if p == [] then u
    else t.(children := t.children[p[0] := ReplaceAt(t.children[p[0]], p[1..], u)])
  }

  /** Neither path lies on the other: the two tokens are in disjoint subtrees. */
  predicate Apart(p: Path, q: Path) {
    exists k :: 0 <= k < |p| && k < |q| && p[k] != q[k]
  }

  /** The path of a non-root token's parent, and its index there. */
  function Parent(p: Path): Path
    requires p != []
  {
    p[..|p| - 1]
  }

  function Index(p: Path): nat
    requires p != []
  {
    p[|p| - 1]
  }

  /** The token at s lies strictly inside the subtree of the token at p. */
  predicate Below(s: Path, p: Path) {
    |p| < |s| && s[..|p|] == p
  }

  /** Following p and then q is following p + q. */
  lemma {:induction false} AtConcat(t: Token, p: Path, q: Path)
    requires ValidPath(t, p)
    ensures ValidPath(t, p + q) <==> ValidPath(At(t, p), q)
    ensures ValidPath(t, p + q) ==> At(t, p + q) == At(At(t, p), q)
    decreases p
  {
    if p == [] {
      assert p + q == q;
    } else {
      assert (p + q)[0] == p[0];
      assert (p + q)[1..] == p[1..] + q;
      AtConcat(t.children[p[0]], p[1..], q);
    }
  }

  /** Stepping from a token to its i-th child extends its path by i. */
  lemma AtChild(t: Token, p: Path, i: nat)
    requires ValidPath(t, p)
    ensures ValidPath(t, p + [i]) <==> i < |At(t, p).children|
    ensures ValidPath(t, p + [i]) ==> At(t, p + [i]) == At(t, p).children[i]
  {
    AtConcat(t, p, [i]);
    assert [i][1..] == [];
  }

  /** Every prefix of a valid path is valid. */
  lemma {:induction false} PrefixValid(t: Token, p: Path, k: nat)
    requires ValidPath(t, p) && k <= |p|
    ensures ValidPath(t, p[..k])
    decreases p
  {
    if k > 0 {
      assert p[..k][0] == p[0];
      assert p[..k][1..] == p[1..][..k - 1];
      PrefixValid(t.children[p[0]], p[1..], k - 1);
    }
  }

  /** The parent of the token at a non-root path s, with s's token as its
      child at Index(s). */
  function ParentOf(t: Token, s: Path): (r: Token)
    requires ValidPath(t, s) && s != []
    ensures ValidPath(t, Parent(s)) && r == At(t, Parent(s))
    ensures Index(s) < |r.children| && r.children[Index(s)] == At(t, s)
  {
    PrefixValid(t, s, |s| - 1);
    assert s == Parent(s) + [Index(s)];
    AtChild(t, Parent(s), Index(s));
    At(t, Parent(s))
  }

  /** Replacing the token at p keeps every strict ancestor of it on p's
      path, with its own fields and its number of children. */
  lemma {:induction false} ReplaceAtAncestors(t: Token, p: Path, u: Token, k: nat)
    requires ValidPath(t, p) && k < |p|
    ensures ValidPath(t, p[..k]) && ValidPath(ReplaceAt(t, p, u), p[..k])
    ensures var a, b := At(t, p[..k]), At(ReplaceAt(t, p, u), p[..k]);
            b.text == a.text && b.separators == a.separators && b.discard == a.discard
            && |b.children| == |a.children|
    decreases k
  {
    PrefixValid(t, p, k);
    if k > 0 {
      ReplaceAtAncestors(t.children[p[0]], p[1..], u, k - 1);
      assert p[..k][0] == p[0] && p[..k][1..] == p[1..][..k - 1];
    }
  }

  /** Two tokens of a tree are the same, one lies below the other, or
      they lie in disjoint subtrees. */
  lemma PathCases(p: Path, s: Path)
    ensures s == p || Below(s, p) || Below(p, s) || Apart(p, s)
  {
    if !Apart(p, s) {
      if |p| <= |s| {
        assert s[..|p|] == p;
      } else {
        assert p[..|s|] == s;
      }
    }
  }

  /** Replacing the token at p leaves every token outside p's subtree,
      and off p's line of ancestors, where and as it was. */
  lemma {:induction false} ReplaceAtElsewhere(t: Token, p: Path, u: Token, q: Path)
    requires ValidPath(t, p) && ValidPath(t, q) && Apart(p, q)
    ensures ValidPath(ReplaceAt(t, p, u), q) && At(ReplaceAt(t, p, u), q) == At(t, q)
    decreases p
  {
    var k :| 0 <= k < |p| && k < |q| && p[k] != q[k];
    var r := ReplaceAt(t, p, u);
    if p[0] != q[0] {
      assert r.children[q[0]] == t.children[q[0]];
    } else {
      assert k > 0;
      assert p[1..][k - 1] == p[k] && q[1..][k - 1] == q[k];
      ReplaceAtElsewhere(t.children[p[0]], p[1..], u, q[1..]);
    }
  }

  // ---------------------------------------------------------------------
  // The MPSToken operations the engine calls

  /** Split: the token's children become one new leaf per fragment the
      policy finds in its text, in order; each inherits the token's
      separators and is not discarded. Earlier children are dropped. */
  function Split(t: Token, split: SplitPolicy): (r: Token)
    ensures r.text == t.text && r.separators == t.separators && r.discard == t.discard
    ensures |r.children| == |split(t.text, t.separators)|
    ensures forall i :: 0 <= i < |r.children| ==>
              r.children[i] == NewLeaf(split(t.text, t.separators)[i], t.separators)
  {
    var parts := split(t.text, t.separators);
    t.(children := seq(|parts|, i requires 0 <= i < |parts| => NewLeaf(parts[i], t.separators)))
  }

  /** ClearSubtokens: the token becomes a leaf and keeps its own fields. */
  function ClearSubtokens(t: Token): (r: Token)
    ensures r.IsLeaf()
    ensures r.text == t.text && r.separators == t.separators && r.discard == t.discard
  {
    t.(children := [])
  }

  /** An insertion index clamped to the valid range 0..n (the end included). */
  function Clamp(pos: int, n: nat): (k: nat)
    ensures k <= n
    ensures 0 <= pos <= n ==> k == pos
  {
    if pos < 0 then 0 else if pos > n then n else pos
  }

  /** cs without its k-th element. */
  function RemoveAt<T>(cs: seq<T>, k: nat): (r: seq<T>)
    requires k < |cs|
    ensures |r| == |cs| - 1
  {
    cs[..k] + cs[k + 1..]
  }

  /** AddSubtoken: a new leaf with the given text, inheriting the
      token's separators, is inserted among its children at the clamped
      index. Removing it again gives back the old children. */
  function AddSubtoken(t: Token, text: string, pos: int): (r: Token)
    ensures r.text == t.text && r.separators == t.separators && r.discard == t.discard
    ensures |r.children| == |t.children| + 1
    ensures r.children[Clamp(pos, |t.children|)] == NewLeaf(text, t.separators)
    ensures RemoveAt(r.children, Clamp(pos, |t.children|)) == t.children
  {
    var k := Clamp(pos, |t.children|);
    var r := t.(children := t.children[..k] + [NewLeaf(text, t.separators)] + t.children[k..]);
    assert r.children[..k] == t.children[..k];
    assert r.children[k + 1..] == t.children[k..];
    r
  }

  /** Where the child at i lands when shifted: the neighbour's index, or i
      itself at the boundary. */
  function ShiftTarget(i: nat, n: nat, dir: Direction): (j: nat)
    requires i < n
    ensures j < n
    ensures j == i || (j == i - 1 && dir == Left) || (j == i + 1 && dir == Right)
    ensures j == i <==> (dir == Left && i == 0) || (dir == Right && i == n - 1)
  {
    match dir
    case Left => if i == 0 then i else i - 1
    case Right => if i == n - 1 then i else i + 1
  }

  function Opposite(dir: Direction): Direction {
    match dir
    case Left => Right
    case Right => Left
  }

  /** ShiftSubtoken: the child at i swaps places with its neighbour in
      the given direction; nothing moves at the boundary. The children
      stay a permutation of the old ones, and nothing else changes. */
  function ShiftSubtoken(t: Token, i: nat, dir: Direction): (r: Token)
    requires i < |t.children|
    ensures r.text == t.text && r.separators == t.separators && r.discard == t.discard
    ensures |r.children| == |t.children|
    ensures r.children[ShiftTarget(i, |t.children|, dir)] == t.children[i]
    ensures r.children[i] == t.children[ShiftTarget(i, |t.children|, dir)]
    ensures forall k :: 0 <= k < |t.children| && k != i && k != ShiftTarget(i, |t.children|, dir) ==>
              r.children[k] == t.children[k]
    ensures multiset(r.children) == multiset(t.children)
  {
    var j := ShiftTarget(i, |t.children|, dir);
    var cs := t.children;
    var swapped := cs[i := cs[j]][j := cs[i]];
    SwapPermutes(cs, i, j);
    t.(children := swapped)
  }

  /** Swapping two elements keeps the multiset of elements. */
  lemma SwapPermutes<T>(cs: seq<T>, i: nat, j: nat)
    requires i < |cs| && j < |cs|
    ensures multiset(cs[i := cs[j]][j := cs[i]]) == multiset(cs)
  {
    var a := cs[i := cs[j]];
    assert multiset(a) == multiset(cs) - multiset{cs[i]} + multiset{cs[j]};
    assert a[j] == (if i == j then cs[j] else cs[j]);
    assert multiset(a[j := cs[i]]) == multiset(a) - multiset{a[j]} + multiset{cs[i]};
  }

  /** A child that moved can be shifted back: the opposite shift restores
      the token. */
  lemma ShiftBack(t: Token, i: nat, dir: Direction)
    requires i < |t.children|
    requires ShiftTarget(i, |t.children|, dir) != i
    ensures ShiftSubtoken(ShiftSubtoken(t, i, dir), ShiftTarget(i, |t.children|, dir), Opposite(dir)) == t
  {
    var n := |t.children|;
    var j := ShiftTarget(i, n, dir);
    var s := ShiftSubtoken(t, i, dir);
    var b := ShiftSubtoken(s, j, Opposite(dir));
    assert ShiftTarget(j, n, Opposite(dir)) == i;
    assert b.children == t.children;
  }

}
