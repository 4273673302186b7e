/** ReconstructOutput: the proposed file name a token tree stands for.
    Containers contribute only their children's outputs, in order;
    a discarded leaf contributes nothing; every other leaf contributes a
    separator and its text, the separator depending on the leaf's place
    in the whole master tree: none for its first leaf, "." for its last
    leaf, " " for every other.

    Which leaf counts as first and last is MPSToken's
    FindFirstLeafSubtoken / FindLastLeafSubtoken, called with the flag
    `false`. Both search the master tree in pre-order; whether that flag
    makes them skip discarded leaves is not part of this model, so it is
    the parameter `skipDiscarded`. */
module Reconstruct {
  import opened Wrappers
  import opened Tokens

  /** A leaf of a tree together with its path from the root. */
  datatype Leaf = Leaf(path: Path, token: Token)

  // ---------------------------------------------------------------------
  // The leaves of a tree in pre-order

  /** The leaves of t in pre-order, t standing at path `at`. A tree
      has at least one leaf: a childless token is its own. */
  function Leaves(t: Token, at: Path): (r: seq<Leaf>)
    ensures |r| >= 1
    decreases t
  {
    if t.IsLeaf() then [Leaf(at, t)] else ForestLeaves(t.children, at)
  }

  /** The leaves of the children cs of the token at path `at`. */
  function ForestLeaves(cs: seq<Token>, at: Path): (r: seq<Leaf>)
    ensures |r| >= |cs|
    decreases cs
  {
    if cs == [] then []
    else ForestLeaves(cs[..|cs| - 1], at) + Leaves(cs[|cs| - 1], at + [|cs| - 1])
  }

  /** The leaves that are not discarded. */
  function Visible(ls: seq<Leaf>): (r: seq<Leaf>)
    ensures forall i :: 0 <= i < |r| ==> !r[i].token.discard
    ensures forall l | l in r :: l in ls
    ensures forall l | l in ls && !l.token.discard :: l in r
    ensures (forall i :: 0 <= i < |ls| ==> !ls[i].token.discard) ==> r == ls
  {
    if ls == [] then []
    else if ls[0].token.discard then Visible(ls[1..])
    else [ls[0]] + Visible(ls[1..])
  }

  /** The leaves FindFirst/LastLeafSubtoken(false) choose from: leaves of
      the master, all of them or only the visible ones. Without skipping
      there is always one. */
  function Candidates(m: Token, skipDiscarded: bool): (r: seq<Leaf>)
    ensures forall l | l in r :: l in Leaves(m, [])
    ensures skipDiscarded ==> forall l | l in r :: !l.token.discard
    ensures skipDiscarded ==> forall l | l in Leaves(m, []) && !l.token.discard :: l in r
    ensures !skipDiscarded ==> |r| >= 1
  {
    if skipDiscarded then Visible(Leaves(m, [])) else Leaves(m, [])
  }

  /** A candidate names a childless token of the master at its path. */
  lemma CandidateIsLeaf(m: Token, skipDiscarded: bool, l: Leaf)
    requires l in Candidates(m, skipDiscarded)
    ensures ValidPath(m, l.path) && At(m, l.path) == l.token && l.token.IsLeaf()
    ensures skipDiscarded ==> !l.token.discard
  {
    LeavesAreLeaves(m, []);
    assert l.path[0..] == l.path;
  }

  /** FindFirstLeafSubtoken(false) on the master m, as a path (None: null):
      a leaf of the master, found whenever there is a candidate. */
  function FirstLeafPath(m: Token, skipDiscarded: bool): (r: Option<Path>)
    ensures r.None? <==> Candidates(m, skipDiscarded) == []
    ensures !skipDiscarded ==> r.Some?
    ensures r.Some? ==> ValidPath(m, r.value) && At(m, r.value).IsLeaf()
    ensures r.Some? && skipDiscarded ==> !At(m, r.value).discard
  {
    var ls := Candidates(m, skipDiscarded);
    if ls == [] then None
    else
      CandidateIsLeaf(m, skipDiscarded, ls[0]);
      Some(ls[0].path)
  }

  /** FindLastLeafSubtoken(false) on the master m, as a path (None: null):
      a leaf of the master, found whenever there is a candidate. */
  function LastLeafPath(m: Token, skipDiscarded: bool): (r: Option<Path>)
    ensures r.None? <==> Candidates(m, skipDiscarded) == []
    ensures !skipDiscarded ==> r.Some?
    ensures r.Some? ==> ValidPath(m, r.value) && At(m, r.value).IsLeaf()
    ensures r.Some? && skipDiscarded ==> !At(m, r.value).discard
  {
    var ls := Candidates(m, skipDiscarded);
    if ls == [] then None
    else
      CandidateIsLeaf(m, skipDiscarded, ls[|ls| - 1]);
      Some(ls[|ls| - 1].path)
  }

  // ---------------------------------------------------------------------
  // Reconstruction, as the engine computes it

  /** The separator in front of the leaf at p; being first wins over
      being last. */
  function Separator(p: Path, first: Option<Path>, last: Option<Path>): (r: string)
    ensures r == "" <==> first == Some(p)
    ensures r == "." <==> first != Some(p) && last == Some(p)
    ensures r == " " <==> first != Some(p) && last != Some(p)
  {
    if first == Some(p) then "" else if last == Some(p) then "." else " "
  }

  /** ReconstructOutput on the token t that stands at path `at` of a
      master tree whose first and last leaves are `first` and `last`.
      A container contributes exactly the pieces of the leaves below it,
      in pre-order, and nothing of its own. */
  function SubtreeOutput(t: Token, at: Path, first: Option<Path>, last: Option<Path>): (r: string)
    ensures r == Pieces(Leaves(t, at), first, last)
    decreases t, 1
  {
    if t.IsLeaf() then
      PiecesSingle(Leaf(at, t), first, last);
      (if t.discard then "" else Separator(at, first, last) + t.text)
    else
      ForestOutput(t.children, at, first, last)
  }

  /** The outputs of the children cs of the token at `at`, joined in order. */
  function ForestOutput(cs: seq<Token>, at: Path, first: Option<Path>, last: Option<Path>): (r: string)
    ensures r == Pieces(ForestLeaves(cs, at), first, last)
    decreases cs, 0
  {
    if cs == [] then ""
    else
      var n := |cs|;
      PiecesAppend(ForestLeaves(cs[..n - 1], at), Leaves(cs[n - 1], at + [n - 1]), first, last);
      ForestOutput(cs[..n - 1], at, first, last) + SubtreeOutput(cs[n - 1], at + [n - 1], first, last)
  }

  /** ReconstructOutput(mMasterToken): "" for no master, otherwise the
      pieces of the master's leaves in pre-order. */
  function ReconstructOutput(master: Option<Token>, skipDiscarded: bool): (r: string)
    ensures master.None? ==> r == ""
    ensures master.Some? ==>
              r == Pieces(Leaves(master.value, []), FirstLeafPath(master.value, skipDiscarded), LastLeafPath(master.value, skipDiscarded))
  {
    match master
    case None => ""
    case Some(m) => SubtreeOutput(m, [], FirstLeafPath(m, skipDiscarded), LastLeafPath(m, skipDiscarded))
  }

  // ---------------------------------------------------------------------
  // A flat reference definition: the leaves' pieces, joined in pre-order

  /** What one leaf contributes. */
  function Piece(l: Leaf, first: Option<Path>, last: Option<Path>): string {
    if l.token.discard then "" else Separator(l.path, first, last) + l.token.text
  }

  function Pieces(ls: seq<Leaf>, first: Option<Path>, last: Option<Path>): string {
    if ls == [] then "" else Piece(ls[0], first, last) + Pieces(ls[1..], first, last)
  }

  /** The texts of a list of leaves. */
  function Texts(ls: seq<Leaf>): (r: seq<string>)
    ensures |r| == |ls| && forall i :: 0 <= i < |ls| ==> r[i] == ls[i].token.text
  {
    seq(|ls|, i requires 0 <= i < |ls| => ls[i].token.text)
  }

  /** The fragment texts of a master tree, in pre-order. */
  function LeafTexts(m: Token): seq<string> {
    Texts(Leaves(m, []))
  }

  /** The file-name convention for fragments f1..fn: f1, then every
      later fragment behind a single space, except fn, which is behind a
      dot: f1 + " " + f2 + ... + " " + f(n-1) + "." + fn. A lone
      fragment stands on its own. */
  function JoinFragments(fs: seq<string>): string {
    if fs == [] then "" else fs[0] + Behind(fs[1..])
  }

  /** The fragments after the first, each with the separator in front of it. */
  function Behind(gs: seq<string>): string {
    if gs == [] then ""
    else if |gs| == 1 then "." + gs[0]
    else " " + gs[0] + Behind(gs[1..])
  }

  // ---------------------------------------------------------------------
  // Properties

  lemma {:induction false} PiecesAppend(a: seq<Leaf>, b: seq<Leaf>, first: Option<Path>, last: Option<Path>)
    ensures Pieces(a + b, first, last) == Pieces(a, first, last) + Pieces(b, first, last)
    decreases |a|
  {
    if a == [] {
      assert a + b == b;
    } else {
      assert (a + b)[0] == a[0];
      assert (a + b)[1..] == a[1..] + b;
      PiecesAppend(a[1..], b, first, last);
    }
  }

  lemma PiecesSingle(l: Leaf, first: Option<Path>, last: Option<Path>)
    ensures Pieces([l], first, last) == Piece(l, first, last)
  {
    assert [l][1..] == [];
  }

  /** Every path in Leaves(t, at) extends `at`, and names, in t, a leaf
      equal to the listed token. */
  lemma {:induction false} LeavesAreLeaves(t: Token, at: Path)
    ensures forall l | l in Leaves(t, at) ::
              |at| <= |l.path| && l.path[..|at|] == at && l.token.IsLeaf()
              && ValidPath(t, l.path[|at|..]) && At(t, l.path[|at|..]) == l.token
    decreases t, 1
  {
    if t.IsLeaf() {
      assert Leaves(t, at) == [Leaf(at, t)];
      assert at[|at|..] == [];
    } else {
      ForestLeavesAreLeaves(t.children, at);
      forall l | l in Leaves(t, at)
        ensures |at| <= |l.path| && l.path[..|at|] == at && l.token.IsLeaf()
                && ValidPath(t, l.path[|at|..]) && At(t, l.path[|at|..]) == l.token
      {
        var q := l.path[|at|..];
        assert q[0] == l.path[|at|];
        assert q[1..] == l.path[|at| + 1..];
      }
    }
  }

  lemma {:induction false} ForestLeavesAreLeaves(cs: seq<Token>, at: Path)
    ensures forall l | l in ForestLeaves(cs, at) ::
              |at| < |l.path| && l.path[..|at|] == at && l.path[|at|] < |cs| && l.token.IsLeaf()
              && ValidPath(cs[l.path[|at|]], l.path[|at| + 1..]) && At(cs[l.path[|at|]], l.path[|at| + 1..]) == l.token
    decreases cs, 0
  {
    if cs != [] {
      var n := |cs|;
      var inner := at + [n - 1];
      ForestLeavesAreLeaves(cs[..n - 1], at);
      LeavesAreLeaves(cs[n - 1], inner);
      forall l | l in ForestLeaves(cs, at)
        ensures |at| < |l.path| && l.path[..|at|] == at && l.path[|at|] < |cs| && l.token.IsLeaf()
                && ValidPath(cs[l.path[|at|]], l.path[|at| + 1..]) && At(cs[l.path[|at|]], l.path[|at| + 1..]) == l.token
      {
        if l in Leaves(cs[n - 1], inner) {
          assert l.path[..|inner|] == inner;
          assert l.path[..|at|] == inner[..|at|] == at;
          assert l.path[|at|] == inner[|at|] == n - 1;
          assert l.path[|inner|..] == l.path[|at| + 1..];
        } else {
          assert l in ForestLeaves(cs[..n - 1], at);
        }
      }
    }
  }

  /** No two listed leaves share a path. */
  predicate DistinctPaths(ls: seq<Leaf>) {
    forall i, j :: 0 <= i < j < |ls| ==> ls[i].path != ls[j].path
  }

  lemma {:induction false} LeavesDistinct(t: Token, at: Path)
    ensures DistinctPaths(Leaves(t, at))
    decreases t, 1
  {
    if !t.IsLeaf() {
      ForestLeavesDistinct(t.children, at);
    }
  }

  lemma {:induction false} ForestLeavesDistinct(cs: seq<Token>, at: Path)
    ensures DistinctPaths(ForestLeaves(cs, at))
    decreases cs, 0
  {
    if cs != [] {
      var n := |cs|;
      var a := ForestLeaves(cs[..n - 1], at);
      var b := Leaves(cs[n - 1], at + [n - 1]);
      ForestLeavesDistinct(cs[..n - 1], at);
      LeavesDistinct(cs[n - 1], at + [n - 1]);
      ForestLeavesAreLeaves(cs[..n - 1], at);
      LeavesAreLeaves(cs[n - 1], at + [n - 1]);
      var ab: seq<Leaf> := a + b;
      forall i, j | 0 <= i < j < |ab| ensures ab[i].path != ab[j].path {
        if i < |a| && j >= |a| {
          assert a[i] in a;
          assert b[j - |a|] in b;
          var p := b[j - |a|].path;
          assert p[..|at| + 1] == at + [n - 1];
          assert p[|at|] == n - 1;
        }
      }
    }
  }

  /** With distinct paths, nothing discarded and `last` the path of the
      last leaf, the pieces of the leaves from the k-th on (k past the
      first) are their texts behind their separators. */
  lemma {:induction false} PiecesBehind(ls: seq<Leaf>, k: nat, first: Option<Path>, last: Option<Path>)
    requires 1 <= k <= |ls| && DistinctPaths(ls)
    requires forall i :: 0 <= i < |ls| ==> !ls[i].token.discard
    requires first == Some(ls[0].path) && last == Some(ls[|ls| - 1].path)
    ensures Pieces(ls[k..], first, last) == Behind(Texts(ls)[k..])
    decreases |ls| - k
  {
    if k < |ls| {
      PiecesBehind(ls, k + 1, first, last);
      assert ls[k..][1..] == ls[k + 1..];
      assert Texts(ls)[k..][1..] == Texts(ls)[k + 1..];
      assert ls[k].path != ls[0].path;
      if k == |ls| - 1 {
        assert ls[k + 1..] == [];
      } else {
        assert ls[k].path != ls[|ls| - 1].path;
      }
    }
  }

  /** The flat pieces of n distinct, non-discarded leaves follow the
      file-name convention. */
  lemma PiecesJoinFragments(ls: seq<Leaf>, first: Option<Path>, last: Option<Path>)
    requires |ls| >= 1 && DistinctPaths(ls)
    requires forall i :: 0 <= i < |ls| ==> !ls[i].token.discard
    requires first == Some(ls[0].path) && last == Some(ls[|ls| - 1].path)
    ensures Pieces(ls, first, last) == JoinFragments(Texts(ls))
  {
    var t := ls[0].token.text;
    var rest := Pieces(ls[1..], first, last);
    PiecesBehind(ls, 1, first, last);
    assert Piece(ls[0], first, last) == "" + t;
    assert Pieces(ls, first, last) == ("" + t) + rest;
    assert JoinFragments(Texts(ls)) == t + rest;
    assert ("" + t) + rest == t + rest;
  }

  /** When no leaf of the master is discarded, its fragments f1..fn
      reconstruct to f1 + " " + ... + " " + f(n-1) + "." + fn; a lone
      leaf reconstructs to its own text. This holds whichever leaves
      FindFirst/LastLeafSubtoken(false) choose from. */
  lemma ReconstructJoinsFragments(m: Token, skipDiscarded: bool)
    requires forall l | l in Leaves(m, []) :: !l.token.discard
    ensures ReconstructOutput(Some(m), skipDiscarded) == JoinFragments(LeafTexts(m))
  {
    var ls := Leaves(m, []);
    LeavesDistinct(m, []);
    assert forall i :: 0 <= i < |ls| ==> !ls[i].token.discard by {
      forall i | 0 <= i < |ls| ensures !ls[i].token.discard { assert ls[i] in ls; }
    }
    assert Candidates(m, skipDiscarded) == ls;
    var first, last := FirstLeafPath(m, skipDiscarded), LastLeafPath(m, skipDiscarded);
    PiecesJoinFragments(ls, first, last);
  }

  /** A discarded leaf contributes nothing: the pieces of a list of
      leaves are the pieces of its visible leaves. */
  lemma {:induction false} PiecesVisible(ls: seq<Leaf>, first: Option<Path>, last: Option<Path>)
    ensures Pieces(ls, first, last) == Pieces(Visible(ls), first, last)
    decreases |ls|
  {
    if ls != [] {
      PiecesVisible(ls[1..], first, last);
      if !ls[0].token.discard {
        var v := [ls[0]] + Visible(ls[1..]);
        assert v[0] == ls[0] && v[1..] == Visible(ls[1..]);
      }
    }
  }

  /** Dropping discarded leaves keeps the remaining paths distinct. */
  lemma {:induction false} VisibleDistinct(ls: seq<Leaf>)
    requires DistinctPaths(ls)
    ensures DistinctPaths(Visible(ls))
    decreases |ls|
  {
    if ls != [] {
      var tail := ls[1..];
      DistinctTail(ls);
      VisibleDistinct(tail);
      if !ls[0].token.discard {
        var vt := Visible(tail);
        assert forall l | l in vt :: l in tail;
        ConsDistinct(ls[0], vt);
      }
    }
  }

  /** The tail of a list with distinct paths has distinct paths, none of
      them the head's. */
  lemma DistinctTail(ls: seq<Leaf>)
    requires ls != [] && DistinctPaths(ls)
    ensures DistinctPaths(ls[1..])
    ensures forall l | l in ls[1..] :: l.path != ls[0].path
  {
    var tail := ls[1..];
    forall i, j | 0 <= i < j < |tail| ensures tail[i].path != tail[j].path {
      assert tail[i] == ls[i + 1] && tail[j] == ls[j + 1];
    }
    forall l | l in tail ensures l.path != ls[0].path {
      var k :| 0 <= k < |tail| && tail[k] == l;
      assert ls[k + 1] == l;
    }
  }

  /** A leaf whose path none of a distinct list has keeps it distinct in front. */
  lemma ConsDistinct(x: Leaf, vs: seq<Leaf>)
    requires DistinctPaths(vs) && forall l | l in vs :: l.path != x.path
    ensures DistinctPaths([x] + vs)
  {
    var v := [x] + vs;
    forall i, j | 0 <= i < j < |v| ensures v[i].path != v[j].path {
      assert v[j] == vs[j - 1];
      if i > 0 {
        assert v[i] == vs[i - 1];
      }
    }
  }

  /** When FindFirst/LastLeafSubtoken skip discarded leaves, discarded
      fragments simply drop out: the master reconstructs to the texts of
      its visible leaves f1..fn joined as f1 + " " + ... + "." + fn. */
  lemma ReconstructSkipsDiscarded(m: Token)
    ensures ReconstructOutput(Some(m), true) == JoinFragments(Texts(Visible(Leaves(m, []))))
  {
    var ls := Leaves(m, []);
    var vs := Visible(ls);
    var first, last := FirstLeafPath(m, true), LastLeafPath(m, true);
    PiecesVisible(ls, first, last);
    if vs != [] {
      LeavesDistinct(m, []);
      VisibleDistinct(ls);
      PiecesJoinFragments(vs, first, last);
    }
  }

  /** Visible keeps a visible first leaf first and a visible last leaf last. */
  lemma {:induction false} VisibleEnds(ls: seq<Leaf>)
    requires ls != [] && !ls[|ls| - 1].token.discard
    ensures Visible(ls) != [] && Visible(ls)[|Visible(ls)| - 1] == ls[|ls| - 1]
    ensures !ls[0].token.discard ==> Visible(ls)[0] == ls[0]
    decreases |ls|
  {
    if |ls| > 1 {
      VisibleEnds(ls[1..]);
    }
  }

  /** Whether or not FindFirst/LastLeafSubtoken skip discarded leaves,
      as long as the master's first and last leaves are kept, discarding
      an inner fragment removes exactly that fragment and the separator
      in front of it: the output is the file-name convention over the
      visible leaves' texts, the dot still before the last one. */
  lemma ReconstructVisibleEnds(m: Token, skipDiscarded: bool)
    requires var ls := Leaves(m, []); !ls[0].token.discard && !ls[|ls| - 1].token.discard
    ensures ReconstructOutput(Some(m), skipDiscarded) == JoinFragments(Texts(Visible(Leaves(m, []))))
  {
    var ls := Leaves(m, []);
    var vs := Visible(ls);
    VisibleEnds(ls);
    if skipDiscarded {
      ReconstructSkipsDiscarded(m);
    } else {
      var first, last := FirstLeafPath(m, false), LastLeafPath(m, false);
      PiecesVisible(ls, first, last);
      LeavesDistinct(m, []);
      VisibleDistinct(ls);
      PiecesJoinFragments(vs, first, last);
    }
  }

  /** The leaves of a freshly split token are its fragments, in order. */
  lemma {:induction false} SplitLeaves(t: Token, split: SplitPolicy, k: nat)
    requires var r := Split(t, split); k <= |r.children|
    ensures var r := Split(t, split);
            Texts(ForestLeaves(r.children[..k], [])) == split(t.text, t.separators)[..k]
            && forall l | l in ForestLeaves(r.children[..k], []) :: !l.token.discard
    decreases k
  {
    var r := Split(t, split);
    var parts := split(t.text, t.separators);
    if k > 0 {
      SplitLeaves(t, split, k - 1);
      var cs := r.children[..k];
      assert cs[..k - 1] == r.children[..k - 1];
      assert Leaves(cs[k - 1], [k - 1]) == [Leaf([k - 1], NewLeaf(parts[k - 1], t.separators))];
      assert parts[..k] == parts[..k - 1] + [parts[k - 1]];
    }
  }

  /** A name turned into a fresh master token and split reconstructs to
      its fragments joined by the file-name convention, or to the name
      itself when the split finds no fragment. In particular, a name the
      split leaves whole comes back unchanged. */
  lemma SplitThenReconstruct(name: string, separators: string, split: SplitPolicy, skipDiscarded: bool)
    ensures var parts := split(name, separators);
            ReconstructOutput(Some(Split(NewLeaf(name, separators), split)), skipDiscarded)
            == if parts == [] then name else JoinFragments(parts)
    ensures split(name, separators) == [name] ==>
            ReconstructOutput(Some(Split(NewLeaf(name, separators), split)), skipDiscarded) == name
  {
    var m := Split(NewLeaf(name, separators), split);
    var parts := split(name, separators);
    if parts == [] {
      assert Leaves(m, []) == [Leaf([], m)];
      assert Candidates(m, skipDiscarded) == [Leaf([], m)];
    } else {
      SplitLeaves(NewLeaf(name, separators), split, |parts|);
      assert m.children[..|parts|] == m.children;
      assert parts[..|parts|] == parts;
      ReconstructJoinsFragments(m, skipDiscarded);
    }
  }

}
