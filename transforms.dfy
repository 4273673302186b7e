/** The transform pipeline: ApplyTransformsToToken applies every enabled
    transform, in list order, to a token, and then does the same for
    each of its children, in order (a pre-order pass).

    What a transform does is not part of this model: each one is an
    opaque function that looks at a token and yields its new text,
    separators and discard flag. It never restructures the tree; the
    token keeps its children. */
module Transforms {
  import opened Tokens

  /** One pipeline stage; `apply` stands for Transform.Apply. */
  datatype Transform = Transform(enabled: bool, apply: Token -> Token)

  /** Transform.Apply on one token: its own fields change, its children
      do not. */
  function ApplyOne(tr: Transform, t: Token): (r: Token)
    ensures r.children == t.children
  {
    var u := tr.apply(t);
    t.(text := u.text, separators := u.separators, discard := u.discard)
  }

  /** The loop over the pipeline: every enabled transform, in order,
      each seeing the result of the ones before it. */
  function ApplyAll(trs: seq<Transform>, t: Token): (r: Token)
    ensures r.children == t.children
  {
    if trs == [] then t
    else
      var before := ApplyAll(trs[..|trs| - 1], t);
      var tr := trs[|trs| - 1];
      if tr.enabled then ApplyOne(tr, before) else before
  }

  /** The whole pass: each token is transformed as it was before any of
      its descendants was, and then its children are transformed. */
  function Transformed(trs: seq<Transform>, t: Token): (r: Token)
    ensures var a := ApplyAll(trs, t);
            r.text == a.text && r.separators == a.separators && r.discard == a.discard
    ensures |r.children| == |t.children|
    decreases t
  {
    ApplyAll(trs, t).(children := seq(|t.children|, i requires 0 <= i < |t.children| => Transformed(trs, t.children[i])))
  }

  /** The enabled stages of a pipeline, in order. */
  function Enabled(trs: seq<Transform>): (r: seq<Transform>)
    ensures forall i :: 0 <= i < |r| ==> r[i].enabled
  {
    if trs == [] then []
    else if trs[|trs| - 1].enabled then Enabled(trs[..|trs| - 1]) + [trs[|trs| - 1]]
    else Enabled(trs[..|trs| - 1])
  }

  /** ApplyTransformsToToken: the loop over the pipeline, then a
      recursive call per child. */
  method TransformTree(trs: seq<Transform>, t: Token) returns (r: Token)
    ensures r == Transformed(trs, t)
    decreases t
  {
    var node := t;
    var i := 0;
    while i < |trs|
      invariant 0 <= i <= |trs|
      invariant node == ApplyAll(trs[..i], t)
    {
      assert trs[..i + 1][..i] == trs[..i];
      if trs[i].enabled {
        node := ApplyOne(trs[i], node);
      }
      i := i + 1;
    }
    assert trs[..|trs|] == trs;
    var kids: seq<Token> := [];
    var j := 0;
    while j < |t.children|
      invariant 0 <= j <= |t.children|
      invariant |kids| == j
      invariant forall k :: 0 <= k < j ==> kids[k] == Transformed(trs, t.children[k])
    {
      var kid := TransformTree(trs, t.children[j]);
      kids := kids + [kid];
      j := j + 1;
    }
    r := node.(children := kids);
  }

  // ---------------------------------------------------------------------
  // Properties

  /** Only enabled transforms take part: the pipeline acts as its
      enabled stages alone, in the same order. */
  lemma {:induction false} OnlyEnabledApply(trs: seq<Transform>, t: Token)
    ensures ApplyAll(trs, t) == ApplyAll(Enabled(trs), t)
    decreases |trs|
  {
    if trs != [] {
      var n := |trs|;
      var init := trs[..n - 1];
      OnlyEnabledApply(init, t);
      if trs[n - 1].enabled {
        var e := Enabled(init) + [trs[n - 1]];
        assert e[..|e| - 1] == Enabled(init);
      }
    }
  }

  /** With no enabled transform the pass changes nothing. */
  lemma {:induction false} DisabledPassIsIdentity(trs: seq<Transform>, t: Token)
    requires forall i :: 0 <= i < |trs| ==> !trs[i].enabled
    ensures Transformed(trs, t) == t
    decreases t
  {
    OnlyEnabledApply(trs, t);
    assert Enabled(trs) == [] by {
      if Enabled(trs) != [] {
        EnabledFrom(trs, 0);
      }
    }
    forall i | 0 <= i < |t.children| ensures Transformed(trs, t.children[i]) == t.children[i] {
      DisabledPassIsIdentity(trs, t.children[i]);
    }
  }

  /** Every stage Enabled keeps is a stage of the pipeline. */
  lemma {:induction false} EnabledFrom(trs: seq<Transform>, k: nat)
    requires k < |Enabled(trs)|
    ensures exists i :: 0 <= i < |trs| && trs[i] == Enabled(trs)[k]
    decreases |trs|
  {
    var n := |trs|;
    var init := trs[..n - 1];
    if trs[n - 1].enabled && k == |Enabled(trs)| - 1 {
      assert trs[n - 1] == Enabled(trs)[k];
    } else {
      EnabledFrom(init, k);
      var i :| 0 <= i < |init| && init[i] == Enabled(init)[k];
      assert trs[i] == init[i];
    }
  }

  /** The pass keeps the shape of the tree, and the token at every path
      is what the pass makes of the token that stood there: a token is
      transformed as it was before the pass reached its descendants. */
  lemma {:induction false} TransformedAt(trs: seq<Transform>, t: Token, p: Path)
    ensures ValidPath(Transformed(trs, t), p) <==> ValidPath(t, p)
    ensures ValidPath(t, p) ==> At(Transformed(trs, t), p) == Transformed(trs, At(t, p))
    decreases p
  {
    if p != [] && p[0] < |t.children| {
      TransformedAt(trs, t.children[p[0]], p[1..]);
    }
  }

}
