/** MPSEngine: the rename engine. It holds the tree of the file being
    edited (the master token), the token selected in it, the proposed
    name last reconstructed for it, and the rename cache: a dictionary
    from the hash of an original file name to that file's tree and
    proposed name.

    The master token is the very object stored as its cache entry's root,
    so editing the active tree edits the cached tree too. The model keeps
    the active tree inside the cache and edits it there; only after
    ClearFilesMap, which empties the cache while a tree is active, does
    the engine hold a tree no entry refers to (`Detached`). Tokens are
    named by their paths from the master token.

    The string hash, MPSToken's split policy and the meaning of the flag
    passed to FindFirst/LastLeafSubtoken are not part of this model: they
    are given to the constructor. */
module Engine {
  import opened Wrappers
  import opened Tokens
  import opened Reconstruct
  import opened Transforms

  /** FileRenameInfo: a cache entry, a file's tree and its proposed name
      as last stored. */
  datatype FileRenameInfo = FileRenameInfo(root: Token, renameTo: string)

  /** The entry stands for a real rename: its tree's text differs from
      its stored proposed name. */
  predicate NeedsRename(e: FileRenameInfo) {
    e.root.text != e.renameTo
  }

  /** Where the master token lives: nowhere (null), as the root of the
      cache entry at `key`, or outside the cache. */
  datatype MasterRef = NoMaster | Cached(key: int) | Detached(tree: Token)

  /** `after` is `before` with at most the tree of the entry `edited`
      refers to changed: the same keys, every stored proposed name as it
      was, every other tree as it was. */
  predicate TreeEditOnly(before: map<int, FileRenameInfo>, after: map<int, FileRenameInfo>, edited: MasterRef) {
    && after.Keys == before.Keys
    && (forall k | k in after :: after[k].renameTo == before[k].renameTo)
    && (forall k | k in after && edited != Cached(k) :: after[k] == before[k])
  }

  /** UpdateToken on one token. A new text or new separators (or a
      forced update) make the token a fresh leaf with the given fields,
      which is then split again; otherwise only the discard flag is
      taken, and not at all for the master token. */
  function UpdatedToken(t: Token, text: string, separators: string, discard: bool,
                        forceUpdate: bool, isMaster: bool, split: SplitPolicy): (r: Token)
    ensures t.text != text || t.separators != separators || forceUpdate ==>
              r.text == text && r.separators == separators && r.discard == discard
              && |r.children| == |split(text, separators)|
              && forall i :: 0 <= i < |r.children| ==> r.children[i] == NewLeaf(split(text, separators)[i], separators)
    ensures !(t.text != text || t.separators != separators || forceUpdate) ==>
              r.text == t.text && r.separators == t.separators && r.children == t.children
              && r.discard == (if isMaster then t.discard else discard)
  {
    if t.text != text || t.separators != separators || forceUpdate then
      var cleared := ClearSubtokens(t);
      Split(cleared.(text := text, separators := separators, discard := discard), split)
    else if t.discard != discard then
      if isMaster then t else t.(discard := discard)
    else
      t
  }

  /** Updating twice with the same arguments, unforced, is updating once. */
  lemma UpdateIdempotent(t: Token, text: string, separators: string, discard: bool, isMaster: bool, split: SplitPolicy)
    ensures var once := UpdatedToken(t, text, separators, discard, false, isMaster, split);
            UpdatedToken(once, text, separators, discard, false, isMaster, split) == once
  {
  }

  /** Only the discard flag differs: the master token is left as it is. */
  lemma MasterDiscardProtected(t: Token, discard: bool, forceUpdate: bool, split: SplitPolicy)
    requires !forceUpdate
    ensures UpdatedToken(t, t.text, t.separators, discard, forceUpdate, true, split) == t
  {
  }

  /** As the code stands, an update that rebuilds the token (new text,
      new separators or forced) takes the discard flag even for the
      master token; only the discard-only path protects it. */
  lemma MasterDiscardOnRebuild(m: Token, text: string, separators: string, discard: bool,
                               forceUpdate: bool, split: SplitPolicy)
    requires m.text != text || m.separators != separators || forceUpdate
    ensures UpdatedToken(m, text, separators, discard, forceUpdate, true, split).discard == discard
  {
  }

  /** So a master rebuilt as discarded, with a text the split finds no
      fragment in, reconstructs to the empty name. */
  lemma MasterDiscardHidesName(m: Token, text: string, separators: string, split: SplitPolicy, skipDiscarded: bool)
    requires split(text, separators) == []
    ensures ReconstructOutput(Some(UpdatedToken(m, text, separators, true, true, true, split)), skipDiscarded) == ""
  {
    var r := UpdatedToken(m, text, separators, true, true, true, split);
    assert r.IsLeaf() && r.discard;
    assert Leaves(r, []) == [Leaf([], r)];
    PiecesSingle(Leaf([], r), FirstLeafPath(r, skipDiscarded), LastLeafPath(r, skipDiscarded));
  }

  /** The entry a new file name is cached with stands for a real rename
      exactly when reconstruction changed the name; a name the split
      keeps whole, or finds no fragment in, is not pending. */
  lemma FreshEntryPending(name: string, separators: string, split: SplitPolicy, skipDiscarded: bool)
    ensures var root := Split(NewLeaf(name, separators), split);
            var proposed := ReconstructOutput(Some(root), skipDiscarded);
            (NeedsRename(FileRenameInfo(root, proposed)) <==> proposed != name)
            && (split(name, separators) == [name] || split(name, separators) == [] ==>
                  !NeedsRename(FileRenameInfo(root, proposed)))
  {
    SplitThenReconstruct(name, separators, split, skipDiscarded);
  }

  /** A token replaced by one with the same children keeps every path
      below it valid: a discard-only update leaves the selection in the
      tree. */
  lemma DiscardOnlyKeepsPaths(t: Token, p: Path, u: Token, s: Path)
    requires ValidPath(t, p) && ValidPath(t, s) && Below(s, p)
    requires u.children == At(t, p).children
    ensures ValidPath(ReplaceAt(t, p, u), s)
  {
    var rest := s[|p|..];
    assert s == p + rest;
    AtConcat(t, p, rest);
    AtConcat(ReplaceAt(t, p, u), p, rest);
  }

  /** After an insertion beside the token at s, that token sits one
      place further right when the new leaf went to its left, and at the
      same place otherwise. */
  lemma InsertKeepsToken(t: Token, s: Path, text: string, direction: Direction)
    requires ValidPath(t, s) && s != []
    ensures var parent := ParentOf(t, s);
            var pos := if direction == Left then Index(s) else Index(s) + 1;
            var after := ReplaceAt(t, Parent(s), AddSubtoken(parent, text, pos));
            var moved := Parent(s) + [if direction == Left then Index(s) + 1 else Index(s)];
            ValidPath(after, moved) && At(after, moved) == At(t, s)
  {
    var parent := ParentOf(t, s);
    var i := Index(s);
    var pos := if direction == Left then i else i + 1;
    var grown := AddSubtoken(parent, text, pos);
    var after := ReplaceAt(t, Parent(s), grown);
    var stays := if direction == Left then i + 1 else i;
    assert grown.children[stays] == parent.children[i] by {
      assert RemoveAt(grown.children, pos)[i] == parent.children[i];
    }
    AtChild(after, Parent(s), stays);
  }

  /** A set of keys is empty or has a key to pick. */
  lemma HasElement(s: set<int>)
    ensures s == {} || exists k :: k in s
  {
    if forall k :: k !in s {
      assert s == {};
    }
  }

  class MPSEngine {
    /** string.GetHashCode, cast to the dictionary's key type (an
        injective cast, so the key is the hash itself). */
    const hash: string -> int
    /** MPSToken's split policy. */
    const split: SplitPolicy
    /** Whether FindFirst/LastLeafSubtoken(false) skip discarded leaves. */
    const skipDiscarded: bool

    /** mMasterToken */
    var master: MasterRef
    /** mSelectedSubtoken, as its path from the master token */
    var selection: Option<Path>
    /** mRenameTo (null until the first selection) */
    var renameTo: Option<string>
    var defaultSeparators: string
    /** mRenamesMap */
    var renames: map<int, FileRenameInfo>
    /** mTransforms */
    var transforms: seq<Transform>

    /** The master token as a tree. */
    function MasterTree(): (r: Option<Token>)
      reads this
      requires master.Cached? ==> master.key in renames
      ensures r.None? <==> master == NoMaster
      ensures master.Cached? ==> r == Some(renames[master.key].root)
    {
      match master
      case NoMaster => None
      case Cached(k) => Some(renames[k].root)
      case Detached(t) => Some(t)
    }

    /** The cached master's entry exists, and the selection, when there is
        one, is a token of the master tree. */
    ghost predicate Valid()
      reads this
    {
      && (master.Cached? ==> master.key in renames)
      && (selection.Some? ==> master != NoMaster && ValidPath(MasterTree().value, selection.value))
    }

    constructor (hash: string -> int, split: SplitPolicy, skipDiscarded: bool)
      ensures Valid()
      ensures this.hash == hash && this.split == split && this.skipDiscarded == skipDiscarded
      ensures master == NoMaster && selection == None && renameTo == None
      ensures defaultSeparators == "" && renames == map[] && transforms == []
    {
      this.hash := hash;
      this.split := split;
      this.skipDiscarded := skipDiscarded;
      master := NoMaster;
      selection := None;
      renameTo := None;
      defaultSeparators := "";
      renames := map[];
      transforms := [];
    }

    /** Writes the edited master tree back where it lives. */
    method StoreMasterTree(t: Token)
      requires master.Cached? ==> master.key in renames
      requires master != NoMaster
      modifies this`master, this`renames
      ensures master.Cached? ==> master.key in renames
      ensures MasterTree() == Some(t)
      ensures master.Cached? == old(master).Cached? && (master.Cached? ==> master == old(master))
      ensures TreeEditOnly(old(renames), renames, old(master))
    {
      match master
      case Cached(k) =>
        renames := renames[k := renames[k].(root := t)];
      case Detached(_) =>
        master := Detached(t);
    }

    /** ApplyTransformsToToken: the pre-order transform pass over the
        token at the given path (null: nothing happens). */
    method ApplyTransformsToToken(token: Option<Path>)
      requires Valid()
      requires token.Some? ==> master != NoMaster && ValidPath(MasterTree().value, token.value)
      modifies this`master, this`renames
      ensures Valid()
      ensures token.None? ==> master == old(master) && renames == old(renames)
      ensures master.Cached? == old(master).Cached? && (master.Cached? ==> master == old(master))
      ensures token.Some? ==>
                var before := old(MasterTree()).value;
                MasterTree() == Some(ReplaceAt(before, token.value, Transformed(transforms, At(before, token.value))))
                && TreeEditOnly(old(renames), renames, old(master))
    {
      if token.None? {
        return;
      }
      var p := token.value;
      var before := MasterTree().value;
      var sub := TransformTree(transforms, At(before, p));
      var after := ReplaceAt(before, p, sub);
      ghost var oldSelection := selection;
      if selection.Some? {
        SameShapeKeepsPath(before, p, transforms, selection.value);
      }
      StoreMasterTree(after);
    }

    /** Replacing a token by its transformed self keeps every path of the
        tree valid. */
    static lemma SameShapeKeepsPath(t: Token, p: Path, trs: seq<Transform>, s: Path)
      requires ValidPath(t, p) && ValidPath(t, s)
      ensures ValidPath(ReplaceAt(t, p, Transformed(trs, At(t, p))), s)
    {
      var u := Transformed(trs, At(t, p));
      var r := ReplaceAt(t, p, u);
      PathCases(p, s);
      if Below(s, p) {
        var rest := s[|p|..];
        assert s == p + rest;
        AtConcat(t, p, rest);
        TransformedAt(trs, At(t, p), rest);
        AtConcat(r, p, rest);
      } else if Below(p, s) {
        PrefixValid(r, p, |s|);
        assert p[..|s|] == s;
      } else if Apart(p, s) {
        ReplaceAtElsewhere(t, p, u, s);
      }
    }

    /** SelectMasterToken: makes the named file's tree the master token,
        taking it from the cache, or building, splitting and caching it. */
    method SelectMasterToken(fileName: string)
      requires Valid()
      modifies this`master, this`selection, this`renameTo, this`renames
      ensures Valid()
      ensures fileName == "" ==>
                master == NoMaster && selection == None && renameTo == Some("") && renames == old(renames)
                && ReconstructOutput(MasterTree(), skipDiscarded) == ""
      ensures fileName != "" && hash(fileName) in old(renames) ==>
                renames == old(renames) && master == Cached(hash(fileName))
                && renameTo == Some(renames[hash(fileName)].renameTo)
      ensures fileName != "" && hash(fileName) !in old(renames) ==>
                var root := Split(NewLeaf(fileName, defaultSeparators), split);
                var proposed := ReconstructOutput(Some(root), skipDiscarded);
                renames == old(renames)[hash(fileName) := FileRenameInfo(root, proposed)]
                && master == Cached(hash(fileName)) && renameTo == Some(proposed)
      ensures fileName != "" ==> selection == Some([])
    {
      if fileName == "" {
        master := NoMaster;
        selection := None;
        renameTo := Some("");
        return;
      }
      var key := hash(fileName);
      if key in renames {
        master := Cached(key);
        renameTo := Some(renames[key].renameTo);
      } else {
        var root := Split(NewLeaf(fileName, defaultSeparators), split);
        var proposed := ReconstructOutput(Some(root), skipDiscarded);
        renames := renames[key := FileRenameInfo(root, proposed)];
        master := Cached(key);
        renameTo := Some(proposed);
      }
      selection := Some([]);
    }

    /** SelectSubtoken: selects a token of the master tree and, when asked,
        reconstructs the proposed name (null: nothing happens). */
    method SelectSubtoken(token: Option<Path>, updateOutput: bool)
      requires Valid()
      requires token.Some? ==> master != NoMaster && ValidPath(MasterTree().value, token.value)
      modifies this`selection, this`renameTo
      ensures Valid()
      ensures token.None? ==> selection == old(selection) && renameTo == old(renameTo)
      ensures token.Some? ==> selection == token
      ensures token.Some? ==>
                renameTo == if updateOutput then Some(ReconstructOutput(MasterTree(), skipDiscarded)) else old(renameTo)
    {
      if token.None? {
        return;
      }
      selection := token;
      if updateOutput {
        renameTo := Some(ReconstructOutput(MasterTree(), skipDiscarded));
      }
    }

    /** UpdateToken on the token at a path of the master tree (null:
        nothing happens). The token stays where it is, the edit reaches
        the cached tree, and the proposed name is not reconstructed. A
        token that holds the selection below it is not rebuilt: only its
        discard flag may change, and its children stay. */
    method UpdateToken(token: Option<Path>, text: string, separators: string, discard: bool, forceUpdate: bool)
      requires Valid()
      requires token.Some? ==> master != NoMaster && ValidPath(MasterTree().value, token.value)
      requires token.Some? && selection.Some? && Below(selection.value, token.value) ==>
                 var t := At(MasterTree().value, token.value);
                 t.text == text && t.separators == separators && !forceUpdate
      modifies this`master, this`renames
      ensures Valid()
      ensures token.None? ==> master == old(master) && renames == old(renames)
      ensures master.Cached? == old(master).Cached? && (master.Cached? ==> master == old(master))
      ensures token.Some? ==>
                var p := token.value;
                var before := old(MasterTree()).value;
                MasterTree() == Some(ReplaceAt(before, p, UpdatedToken(At(before, p), text, separators, discard, forceUpdate, p == [], split)))
      ensures TreeEditOnly(old(renames), renames, old(master))
    {
      if token.None? {
        return;
      }
      var p := token.value;
      var before := MasterTree().value;
      var u := UpdatedToken(At(before, p), text, separators, discard, forceUpdate, p == [], split);
      var after := ReplaceAt(before, p, u);
      if selection.Some? {
        var s := selection.value;
        PathCases(p, s);
        if Below(p, s) {
          PrefixValid(after, p, |s|);
          assert p[..|s|] == s;
        } else if Below(s, p) {
          DiscardOnlyKeepsPaths(before, p, u, s);
        } else if Apart(p, s) {
          ReplaceAtElsewhere(before, p, u, s);
        }
      }
      StoreMasterTree(after);
    }

    /** ShiftSelectedSubtoken: the selected token swaps places with its
        neighbour and stays selected; the proposed name is reconstructed.
        No selection, or the master selected: nothing happens. */
    method ShiftSelectedSubtoken(direction: Direction)
      requires Valid()
      modifies this`master, this`renames, this`selection, this`renameTo
      ensures Valid()
      ensures old(selection).None? || old(selection) == Some([]) ==>
                master == old(master) && renames == old(renames)
                && selection == old(selection) && renameTo == old(renameTo)
      ensures master.Cached? == old(master).Cached? && (master.Cached? ==> master == old(master))
      ensures old(selection).Some? && old(selection) != Some([]) ==>
                var s := old(selection).value;
                var before := old(MasterTree()).value;
                var parent := ParentOf(before, s);
                MasterTree() == Some(ReplaceAt(before, Parent(s), ShiftSubtoken(parent, Index(s), direction)))
                && selection == Some(Parent(s) + [ShiftTarget(Index(s), |parent.children|, direction)])
                && At(MasterTree().value, selection.value) == At(before, s)
                && renameTo == Some(ReconstructOutput(MasterTree(), skipDiscarded))
                && TreeEditOnly(old(renames), renames, old(master))
    {
      if selection.None? || selection == Some([]) {
        return;
      }
      var s := selection.value;
      var before := MasterTree().value;
      var parent := ParentOf(before, s);
      var shifted := ShiftSubtoken(parent, Index(s), direction);
      var after := ReplaceAt(before, Parent(s), shifted);
      var moved := Parent(s) + [ShiftTarget(Index(s), |parent.children|, direction)];
      AtChild(after, Parent(s), ShiftTarget(Index(s), |parent.children|, direction));
      StoreMasterTree(after);
      selection := Some(moved);
      renameTo := Some(ReconstructOutput(MasterTree(), skipDiscarded));
    }

    /** InsertText: a new leaf with the text goes into the selected
        token's parent, just before (Left) or after (Right) it; the
        selection stays on the same token and the proposed name is
        reconstructed. No selection, or the master selected: nothing
        happens. */
    method InsertText(textToInsert: string, direction: Direction)
      requires Valid()
      modifies this`master, this`renames, this`selection, this`renameTo
      ensures Valid()
      ensures old(selection).None? || old(selection) == Some([]) ==>
                master == old(master) && renames == old(renames)
                && selection == old(selection) && renameTo == old(renameTo)
      ensures master.Cached? == old(master).Cached? && (master.Cached? ==> master == old(master))
      ensures old(selection).Some? && old(selection) != Some([]) ==>
                var s := old(selection).value;
                var before := old(MasterTree()).value;
                var parent := ParentOf(before, s);
                var pos := if direction == Left then Index(s) else Index(s) + 1;
                var grown := AddSubtoken(parent, textToInsert, pos);
                MasterTree() == Some(ReplaceAt(before, Parent(s), grown))
                && |grown.children| == |parent.children| + 1
                && grown.children[pos] == NewLeaf(textToInsert, parent.separators)
                && RemoveAt(grown.children, pos) == parent.children
                && selection == Some(Parent(s) + [if direction == Left then Index(s) + 1 else Index(s)])
                && At(MasterTree().value, selection.value) == At(before, s)
                && renameTo == Some(ReconstructOutput(MasterTree(), skipDiscarded))
                && TreeEditOnly(old(renames), renames, old(master))
    {
      if selection.None? || selection == Some([]) {
        return;
      }
      var s := selection.value;
      var before := MasterTree().value;
      var parent := ParentOf(before, s);
      var i := Index(s);
      var pos := if direction == Left then i else i + 1;
      var grown := AddSubtoken(parent, textToInsert, pos);
      var after := ReplaceAt(before, Parent(s), grown);
      var stays := if direction == Left then i + 1 else i;
      InsertKeepsToken(before, s, textToInsert, direction);
      StoreMasterTree(after);
      selection := Some(Parent(s) + [stays]);
      renameTo := Some(ReconstructOutput(MasterTree(), skipDiscarded));
    }

    /** HasRenameTo: a cache lookup, with the stored proposed name ("" when
        the file is not cached). */
    method HasRenameTo(fileName: string) returns (found: bool, rename: string)
      ensures found <==> hash(fileName) in renames
      ensures rename == if found then renames[hash(fileName)].renameTo else ""
    {
      rename := "";
      var key := hash(fileName);
      if key in renames {
        rename := renames[key].renameTo;
        return true, rename;
      }
      return false, rename;
    }

    /** HasFilesToRename: does any entry stand for a real rename? */
    method HasFilesToRename() returns (r: bool)
      ensures r <==> exists k | k in renames :: NeedsRename(renames[k])
      ensures renames == map[] ==> !r
    {
      var left: set<int> := renames.Keys;
      r := false;
      while left != {}
        invariant left <= renames.Keys
        invariant r <==> exists k | k in renames.Keys - left :: NeedsRename(renames[k])
        decreases left
      {
        HasElement(left);
        var k: int :| k in left;
        if NeedsRename(renames[k]) {
          r := true;
        }
        left := left - {k};
      }
    }

    /** ClearFilesMap: the cache is emptied. A master token that was
        active stays active, now outside the cache. */
    method ClearFilesMap()
      requires Valid()
      modifies this`renames, this`master
      ensures Valid()
      ensures renames == map[]
      ensures MasterTree() == old(MasterTree())
    {
      if master.Cached? {
        master := Detached(renames[master.key].root);
      }
      renames := map[];
    }

    /** IsTokenCurrentRoot: is the token (None for null) the master token? */
    function IsTokenCurrentRoot(token: Option<Path>): (r: bool)
      reads this
      ensures r <==> (token.None? && master == NoMaster) || (token == Some([]) && master != NoMaster)
    {
      match token
      case None => master == NoMaster
      case Some(p) => p == [] && master != NoMaster
    }
  }

}
