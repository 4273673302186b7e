# MPSEngine, modelled in Dafny

MPSEngine is the engine of a batch file renamer. A file name becomes a
tree of tokens (MPSToken): the root, the master token, stands for the
whole name, its descendants for its fragments, and each fragment can be
edited, discarded, shifted among its siblings or given a new sibling.
The engine keeps the tree of the file being edited, the token selected in
it and the proposed new name (mRenameTo), which it reconstructs from the
tree's leaves: the first leaf bare, the last behind a ".", every other
behind a space, discarded leaves left out. A cache (mRenamesMap) maps the
hash of each original file name to a FileRenameInfo: that file's tree and
the proposed name stored with it.

The model has four modules:

- `Tokens` (tokens.dfy): the token tree as a datatype, paths that name a
  token inside a tree, and the MPSToken operations the engine calls
  (Split, ClearSubtokens, AddSubtoken, ShiftSubtoken), given by the
  contracts the engine relies on.
- `Reconstruct` (reconstruct.dfy): ReconstructOutput, the leaves of a tree
  in pre-order, and a flat reference definition of the proposed name
  (the leaves' pieces in order, and the file-name convention
  f1 + " " + ... + " " + f(n-1) + "." + fn).
- `Transforms` (transforms.dfy): ApplyTransformsToToken's pre-order pass
  of the transform pipeline, as a method with loops proved against a
  recursive specification.
- `Engine` (engine.dfy): FileRenameInfo, UpdateToken's effect on one
  token, and the class `MPSEngine` with its fields and the operations
  that update them.

Tokens are values; a token inside a tree is named by its path of child
indices from the root, so equal fragments stay distinct as they do in the
engine, which compares tokens by reference. The master token is the very
object stored as its cache entry's root, so editing it edits the cached
tree; the model keeps the active tree inside the cache (`Cached(key)`)
and edits it there. Only after ClearFilesMap, which empties the cache
while a tree is active, does the engine hold a tree no entry refers to
(`Detached`). Edits change the tree but never the stored proposed name,
as in the engine: `TreeEditOnly` states this for every editing operation.

UpdateToken protects the master token's discard flag only on its
discard-only path (MPSEngine.cs:157-161). An update that changes the text
or the separators, or a forced one, sets the master's discard flag like
any other token's (MPSEngine.cs:147-155). `MasterDiscardOnRebuild` and
`MasterDiscardHidesName` state the consequence.

String.GetHashCode (with its cast to the key type), MPSToken's split
policy and the meaning of the flag `false` passed to
FindFirstLeafSubtoken / FindLastLeafSubtoken are not part of this model;
they are parameters of the engine's constructor.

## Model

| member | source | states |
|---|---|---|
| Tokens.NewLeaf | MPSEngine.cs:91 | a new token has the given text and separators, is not discarded and has no children |
| Tokens.Split | MPSEngine.cs:109 | after Split the token's children are one fresh leaf per fragment of the split policy, in order, inheriting the token's separators; the token's own fields are kept |
| Tokens.ClearSubtokens | MPSEngine.cs:150 | the token loses its children and keeps its text, separators and discard flag |
| Tokens.AddSubtoken | MPSEngine.cs:212-218 | the parent gains exactly one child, the new leaf with the text and the parent's separators, at the clamped index; removing it gives back the old children |
| Tokens.ShiftSubtoken | MPSEngine.cs:188 | the child swaps places with its neighbour in the direction, or stays at the boundary; all other children stay put and the children are a permutation of the old ones |
| Tokens.ShiftTarget | MPSEngine.cs:188 | the index a shifted child lands on is its neighbour's, and is its own exactly at the left or right boundary |
| Tokens.ShiftBack | MPSEngine.cs:181-190 | a shift that moved the child is undone by the opposite shift of the same child |
| Tokens.ReplaceAt | MPSEngine.cs:150-160 | editing the token at a path puts the new token at that path; below the root, the root keeps its own fields and child count |
| Tokens.ReplaceAtAncestors | MPSEngine.cs:150-160 | every strict ancestor of the edited token stays on its path with its own fields and child count |
| Tokens.ReplaceAtElsewhere | MPSEngine.cs:188 | editing one token leaves every token in a disjoint subtree where and as it was |
| Tokens.ParentOf | MPSEngine.cs:185 | the parent of a non-root token is the token at the path's prefix, with the token as its child at the last index |
| Reconstruct.Leaves | MPSEngine.cs:236-252 | every tree has at least one leaf; a childless token is its own |
| Reconstruct.ForestLeaves | MPSEngine.cs:248-251 | the children of a token have at least as many leaves as there are children |
| Reconstruct.Visible | MPSEngine.cs:238 | the visible leaves are exactly the listed leaves that are not discarded, and are all the leaves when none is discarded |
| Reconstruct.Candidates | MPSEngine.cs:240-241 | the leaves the first/last-leaf search chooses from are leaves of the master, only visible ones when skipping, and never none without skipping |
| Reconstruct.CandidateIsLeaf | MPSEngine.cs:240-241 | a candidate is a childless token of the master at its path, not discarded when skipping |
| Reconstruct.FirstLeafPath | MPSEngine.cs:240 | FindFirstLeafSubtoken(false) yields a childless token of the master, is null exactly when there is no candidate, and never null without skipping |
| Reconstruct.LastLeafPath | MPSEngine.cs:241 | FindLastLeafSubtoken(false) yields a childless token of the master, is null exactly when there is no candidate, and never null without skipping |
| Reconstruct.Separator | MPSEngine.cs:242 | the separator is "" exactly for the first leaf, "." exactly for a last leaf that is not first, " " otherwise |
| Reconstruct.SubtreeOutput | MPSEngine.cs:234-252 | a token's output is the pieces of its leaves in pre-order; containers contribute nothing of their own |
| Reconstruct.ForestOutput | MPSEngine.cs:248-251 | the children's outputs joined in order are the pieces of their leaves in pre-order |
| Reconstruct.ReconstructOutput | MPSEngine.cs:229-256 | no master gives ""; a master gives the pieces of its leaves in pre-order, with the first and last leaf as the search finds them |
| Reconstruct.LeavesAreLeaves | MPSEngine.cs:236 | every listed leaf is a childless token of the tree at its listed path |
| Reconstruct.LeavesDistinct | MPSEngine.cs:240-241 | no two leaves share a path, so "is the first/last leaf" picks out one leaf |
| Reconstruct.PiecesVisible | MPSEngine.cs:238-244 | discarded leaves contribute nothing to the output |
| Reconstruct.VisibleDistinct | MPSEngine.cs:238 | dropping discarded leaves keeps the remaining leaves' paths distinct |
| Reconstruct.PiecesJoinFragments | MPSEngine.cs:240-243 | with no leaf discarded, the first leaf is bare, the last behind ".", the rest behind " " |
| Reconstruct.ReconstructJoinsFragments | MPSEngine.cs:229-256 | a tree with no discarded leaf reconstructs to f1 + " " + ... + " " + f(n-1) + "." + fn over its leaf texts, and a lone leaf to its own text |
| Reconstruct.ReconstructSkipsDiscarded | MPSEngine.cs:229-256 | when the first/last-leaf search skips discarded leaves, the output is the file-name convention over the visible leaves' texts |
| Reconstruct.VisibleEnds | MPSEngine.cs:238 | dropping discarded leaves keeps a visible first leaf first and a visible last leaf last |
| Reconstruct.ReconstructVisibleEnds | MPSEngine.cs:229-256 | with the master's first and last leaves kept, either flag gives the convention over the visible leaves' texts: discarding an inner fragment drops exactly it and its separator |
| Reconstruct.SplitLeaves | MPSEngine.cs:109 | the leaves of a freshly split token are its fragments, in order, none discarded |
| Reconstruct.SplitThenReconstruct | MPSEngine.cs:91-114 | a new file name, split, reconstructs to its fragments joined by the convention, to itself when the split finds none, and to itself when the split keeps it whole |
| Transforms.ApplyOne | MPSEngine.cs:61 | one transform changes the token's own fields only, never its children |
| Transforms.ApplyAll | MPSEngine.cs:58-62 | the pipeline over one token keeps its children |
| Transforms.Transformed | MPSEngine.cs:53-70 | the pass gives a token the pipeline's fields for it as it stood and keeps its number of children |
| Transforms.Enabled | MPSEngine.cs:60 | the selected stages are all enabled |
| Transforms.TransformTree | MPSEngine.cs:53-70 | the loops compute the pre-order pass: each token through the pipeline in order, then each child, in order |
| Transforms.OnlyEnabledApply | MPSEngine.cs:58-62 | the pipeline acts as its enabled stages alone, in the same order |
| Transforms.EnabledFrom | MPSEngine.cs:58-62 | every stage kept as enabled is a stage of the pipeline |
| Transforms.DisabledPassIsIdentity | MPSEngine.cs:53-70 | with no transform enabled the pass changes nothing |
| Transforms.TransformedAt | MPSEngine.cs:64-69 | the pass keeps the tree's shape, and the token at each path is the pass applied to the token that stood there |
| Engine.UpdatedToken | MPSEngine.cs:147-161 | a new text, new separators or a forced update give a re-split token with the new fields; otherwise only the discard flag is taken, and not for the master |
| Engine.UpdateIdempotent | MPSEngine.cs:147-161 | an unforced update repeated with the same arguments changes nothing more |
| Engine.MasterDiscardProtected | MPSEngine.cs:157-161 | an unforced update that only changes the discard flag leaves the master token as it is |
| Engine.MasterDiscardOnRebuild | MPSEngine.cs:147-155 | an update that rebuilds the token takes the discard flag even for the master |
| Engine.MasterDiscardHidesName | MPSEngine.cs:147-155 | a master rebuilt as discarded, with a text the split finds no fragment in, reconstructs to "" |
| Engine.FreshEntryPending | MPSEngine.cs:114-115 | a newly cached entry stands for a real rename exactly when reconstruction changed the name; a name kept whole by the split is not pending |
| Engine.DiscardOnlyKeepsPaths | MPSEngine.cs:157-161 | a discard-only update keeps the token's children, so every token below it, the selection included, stays in the tree |
| Engine.InsertKeepsToken | MPSEngine.cs:212-218 | after an insertion beside a token, that token is one place further right (new leaf on its left) or in the same place (on its right) |
| Engine.MPSEngine.MasterTree | MPSEngine.cs:19 | the master token is absent exactly when there is none, and is the cached root while it lives in the cache |
| Engine.MPSEngine.StoreMasterTree | MPSEngine.cs:86 | an edit of the master reaches the cache entry it lives in, and touches no other entry and no stored name |
| Engine.MPSEngine.constructor | MPSEngine.cs:45-51 | a new engine has no master, no selection, no proposed name, empty separators, an empty cache and no transforms |
| Engine.MPSEngine.ApplyTransformsToToken | MPSEngine.cs:53-70 | the token at the path is replaced by its transformed self in the master's own cache entry, the rest of the tree and every stored proposed name are kept; null changes nothing |
| Engine.MPSEngine.SameShapeKeepsPath | MPSEngine.cs:53-70 | after the pass every token of the master tree, the selection included, is still there |
| Engine.MPSEngine.SelectMasterToken | MPSEngine.cs:72-119 | an empty name clears master and selection and the proposed name is ""; a cached name makes its tree the master with its stored name; a new name is split, reconstructed and cached; the master is then selected |
| Engine.MPSEngine.SelectSubtoken | MPSEngine.cs:121-130 | the token becomes the selection and the proposed name is reconstructed when asked; null changes nothing |
| Engine.MPSEngine.UpdateToken | MPSEngine.cs:138-162 | the token at the path becomes its updated self in the master's own cache entry, nothing else in any tree changes, no stored name changes, and the selection stays valid; null changes nothing |
| Engine.MPSEngine.ShiftSelectedSubtoken | MPSEngine.cs:181-190 | the selected token swaps with its neighbour in its parent, the selection follows it, the edit reaches the master's cache entry, and the proposed name is reconstructed; no selection or the master selected changes nothing |
| Engine.MPSEngine.InsertText | MPSEngine.cs:203-221 | the parent gains one new leaf just before (Left) or after (Right) the selected token, the selection still names that token, the edit reaches the master's cache entry, and the proposed name is reconstructed; no selection or the master selected changes nothing |
| Engine.MPSEngine.HasRenameTo | MPSEngine.cs:258-270 | the result is true exactly when the name's hash is cached, and the name returned is the stored proposed name, or "" |
| Engine.MPSEngine.HasFilesToRename | MPSEngine.cs:272-277 | the result is true exactly when some entry's tree text differs from its stored proposed name; an empty cache gives false |
| Engine.MPSEngine.ClearFilesMap | MPSEngine.cs:279-280 | the cache is empty and the master tree is kept |
| Engine.MPSEngine.IsTokenCurrentRoot | MPSEngine.cs:344-347 | true exactly for the master token's path, or for null when there is no master |

## Left out

- RenameOne and RenameAll: they move files on disk; file-system I/O is not modelled.
- AddObserver, ClearObservers and the observer notification in SelectSubtoken: they call into code outside the engine.
- What each Transform.Apply does: a transform is an opaque function of a token that yields its new text, separators and discard flag. The pipeline is never filled inside the engine, so the pass is proved for every pipeline.
- MPSToken's own code: its split policy, and whether the `false` flag makes FindFirst/LastLeafSubtoken skip discarded leaves, are constructor parameters; AddSubtoken is assumed to clamp its index and ShiftSubtoken to swap with the neighbour.
- String.GetHashCode is a constructor parameter; the cast of the hash to an unsigned key is injective, so the key is the hash itself.
- Null strings for fileName and the text arguments: strings are values here; an empty fileName is the empty-or-null case.
- UpdateSelectedSubtoken, both ChangeCase overloads, Update, the RemoveStringsFromText branch of SelectMasterToken, mStringsToRemove, AlwaysLowcaseExtension and ApplyTransforms: their bodies are empty or commented out, or the branch can never run.
- The `int.MaxValue` fallback of InsertText (taken when Subtokens is not an IList; in the Right case `int.MaxValue + 1` would wrap to `int.MinValue`): the model assumes Subtokens is an IList and that IndexOf finds the selection by reference (MPSToken does not override Equals), so the index is the selection's own.
- FindFirstLeafSubtoken / FindLastLeafSubtoken are assumed to return a childless master as its own leaf; SplitThenReconstruct's case of a split that finds no fragment rests on this.
- Engine.MPSEngine.UpdateToken: only tokens of the master tree are modelled, and only while there is one; the engine also updates a token of another tree. It also requires that a token holding the selection strictly below it is not rebuilt (new text, new separators or forced): the rebuild clears and re-splits its children, so the engine would keep selecting a token that is no longer in the tree, which paths cannot express. A discard-only update of such a token is modelled.
- Transforms.TransformTree: a transform is a pure function of the token, so the order in which the pass visits tokens (each token before its children, children in order) is stated but not observable; a transform with state of its own, such as a counter, is not modelled.
- Engine.MPSEngine.SelectSubtoken: requires the token to be a token of the master tree; the engine accepts any token.
- Engine.MPSEngine.ApplyTransformsToToken: requires the token to be a token of the master tree; the engine accepts any token.
- Engine.MPSEngine.IsTokenCurrentRoot: only asks about tokens of the master tree or null; a token of another tree is never the master.
- Engine.MPSEngine.constructor: mRenameTo starts as null, modelled as None.
