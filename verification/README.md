# Models of gat's path, text and selection logic

`gat` tracks large files beside Git. These Dafny modules model the parts of it that decide
things by text and by set: which paths are canonical and which lie under which, who owns a
path, how a block is kept inside a file that gat does not own, how user-visible lines are
composed and wrapped, how templates are shielded while a URL is rendered, which paths a
pattern or a selection can match, and which files `add` and `remove` take. Each module proves
the promises the program rests on, for all inputs and all runs.

| file | part of the program |
|---|---|
| `Text.dfy`, `Sorting.dfy` | strings, searching, cutting and joining, ordering, byte lengths; sorting by a total order |
| `LexicalPath.dfy`, `PathAlgebra.dfy` | canonical paths, the one-pass normalizer, prefix algebra |
| `Mounts.dfy`, `Routes.dfy`, `PathPolicy.dfy` | mount targets and ownership, routes, their indexed form |
| `Layering.dfy` | folding configuration layers |
| `ManagedBlock.dfy`, `ManagedBlockLaws.dfy` | editing the marked block, and what edits promise |
| `Presentation.dfy`, `ProtectedText.dfy`, `Wrapping.dfy` | user lines, their meaning, the word iterator |
| `Template.dfy`, `Shielding.dfy` | template tokens; placeholders and their restoration |
| `Globs.dfy`, `GlobMeaning.dfy` | patterns, bounds and pruning; what patterns mean, told from their text |
| `Selections.dfy`, `CandidateSpan.dfy` | selections; lookup ranges |
| `Removal.dfy`, `Add.dfy`, `AddLaws.dfy` | planned removal; windowed addition; what adding refuses and takes up |
| `Oid.dfy` | object ids and their text |

`dafny verify dfyconfig.toml` checks all of it.

## How the program is represented

- Text is a sequence of Unicode scalar values, whose order is the byte order of UTF-8. Where
  the program's result depends on byte lengths (protected ranges, route specificity, error
  offsets, the repeated marker suffix) the UTF-8 width of each character is counted. Offsets
  used only for slicing (marker offsets, the first metacharacter) count characters.
- A map is visited in an order given as a parameter, so results hold for any order.
- Code that works by changing things is modelled that way: loops over a stack of candidates,
  a growing buffer or a cursor are loops with invariants, `wrapping_words` and the add context
  are classes whose methods state how their abstract value changes, the configuration merge
  changes a configuration in place, and hexadecimal encoding fills an array. Expression-like
  code is modelled by functions and lemmas.
- The file system, Git, ignore rules, discovery, reuse and hashing are functions given to
  `Add`; mount ownership is a function given to `Removal` and `Add`, and `Mounts` and
  `PathPolicy` prove what that function is.

## Where code and documentation differ

- `sanitize_line` is documented as escaping ASCII control characters; it escapes all Unicode
  control characters, the C1 range included, and is modelled so (src/presentation.rs:31-46).
- `upsert` is documented as preserving unmatched markers and appending a block
  (gat-core/src/managed_block.rs:47-50). When the unfinished last line of an LF file is the end
  marker and a carriage return, the line feed it appends turns a stray pair of markers into a
  complete block; when the file is one unfinished line ending in a carriage return, the
  appended line feed changes the detected line ending. The laws are proved with exactly these
  conditions (`AppendIsClear`, `EolSettled`), which look only at the file before the edit; both
  hold whenever the file does not end in a bare carriage return.
- While scanning for removals only the first owned row of a selector is noted and kept back;
  later ones are credited like other rows (gat-command/src/remove.rs:112-126). The request is
  refused either way.

## Model

| member | source | states |
|---|---|---|
| `LexicalPath.ValidateCanonicalStr` | gat-core/src/lexical_path.rs:369-406 | accepts exactly the texts whose `/`-separated components are all non-empty, not `.` or `..` and free of separators; otherwise the error is decided by the first offending component |
| `LexicalPath.NormalizeLexical` | gat-core/src/lexical_path.rs:548-604 | the one-pass scan equals cutting at `/` and `\`, dropping empty and `.` pieces and joining; it fails exactly on a rooted input or a `..` piece (rooted first); the carried metacharacter offset is that of a rescan of the result |
| `LexicalPath.PushComponent` | gat-core/src/lexical_path.rs:606-632 | closing one component keeps text and metacharacter offset in step with the components closed so far, or refuses `..` |
| `LexicalPath.NormalFormCanonical` | gat-core/src/lexical_path.rs:369-406 | every accepted input normalizes to nothing or to a path the independent validator accepts |
| `LexicalPath.NormalFormOfCanonical` | gat-core/src/lexical_path.rs:548-604 | normalization accepts every canonical path and leaves it unchanged |
| `LexicalPath.NormalFormIdempotent` | gat-core/src/lexical_path.rs:548-604 | normalizing twice is normalizing once |
| `LexicalPath.RootedExactly` | gat-core/src/lexical_path.rs:548-557 | what starts with either separator is rooted and so refused, and nothing canonical is |
| `LexicalPath.NormalizesPiecewise` | gat-core/src/lexical_path.rs:548-604 | normalizing, and escaping through `..`, work on the two sides of any separator by themselves |
| `LexicalPath.NormalFormOfPiece` | gat-core/src/lexical_path.rs:606-632 | a piece without separators is left as it is, `.` is dropped, and `..` alone escapes |
| `LexicalPath.ComponentsRoundTrip` | gat-core/src/lexical_path.rs:369-406 | joining the components of any text gives it back |
| `PathAlgebra.UnderMeansComponentPrefix` | gat-core/src/lexical_path.rs:175-180 | the string test for at-or-under is the prefix relation on components |
| `PathAlgebra.StripIsDrop` | gat-core/src/lexical_path.rs:182-190 | stripping a prefix drops its components, leaves a canonical rest and is undone by joining |
| `PathAlgebra.JoinThenStrip` | gat-core/src/lexical_path.rs:227-235 | a join of canonical paths is canonical without validation, concatenates components, and stripping takes it apart |
| `PathAlgebra.UnderTransitive` | gat-core/src/lexical_path.rs:175-180 | at-or-under is transitive |
| `PathAlgebra.UnderAntisymmetric` | gat-core/src/lexical_path.rs:175-180 | two paths at or under each other are equal, which completes the partial order |
| `PathAlgebra.AncestorsFormChain` | gat-core/src/lexical_path.rs:175-180 | the ancestors of one path form a chain ordered by length |
| `PathAlgebra.RebaseIsComponentwise` | gat-core/src/lexical_path.rs:203-214 | replacing a prefix replaces exactly its components; the result is canonical and under the new prefix |
| `PathAlgebra.RebaseLeavesOthers` | gat-core/src/lexical_path.rs:203-214 | a path outside the prefix is returned unchanged |
| `PathAlgebra.RebaseUndone` | gat-core/src/lexical_path.rs:203-214 | replacing a prefix and then swapping the prefixes gives the path back |
| `PathAlgebra.RebaseInjective` | gat-core/src/lexical_path.rs:203-214 | distinct paths of a subtree stay distinct when rebased |
| `PathAlgebra.RebaseKeepsNesting` | gat-core/src/lexical_path.rs:203-214 | one path lies at or under another exactly when their rebased forms do |
| `PathAlgebra.ReparentLandsInside` | gat-core/src/selection.rs:125-135 | a row carried over from a scope to a target lands on the target's components followed by its own below the scope, which is canonical and at or under the target |
| `PathAlgebra.ReparentsWhatIsInScope` | gat-core/src/selection.rs:125-135 | a row is carried over exactly when it is in scope |
| `PathAlgebra.ReparentInjective` | gat-core/src/selection.rs:125-135 | two rows that land on the same path were the same row |
| `PathAlgebra.SubpathRoundTrip` | gat-core/src/lexical_path.rs:277-286 | showing and parsing a subpath are inverse, with `.` for the root; nothing else but canonical paths is parsed |
| `Mounts.CheckTarget` | gat-core/src/config.rs:1070-1089 | a target is refused exactly when it overlaps a mount other than the excluded one, and the error names the first such mount visited |
| `Mounts.ValidateEffective` | gat-core/src/config.rs:1103-1129 | the sort-and-stack scan succeeds exactly when no two distinct mounts have equal, ancestor or descendant targets; an error names two distinct mounts that do overlap |
| `Mounts.ScanTargets` | gat-core/src/config.rs:1108-1128 | testing each sorted target against the top of the stack only is complete |
| `Mounts.TopDecides` | gat-core/src/config.rs:1110-1127 | a target not under the top of the stack overlaps none of the earlier targets, although the stack keeps string prefixes |
| `Mounts.LongerPrefixIsUnder` | gat-core/src/config.rs:1110-1127 | a string prefix longer than a component ancestor lies under that ancestor |
| `Mounts.ValidMeansEveryTargetFits` | gat-core/src/config.rs:1070-1129 | the whole-set validation agrees with the pairwise check of every mount against the others |
| `Mounts.OwnerOf` | gat-core/src/config.rs:1043-1051 | returns the first mount at or above the path in iteration order, none exactly when there is no such mount |
| `Mounts.OwnerAnswerUnique` | gat-core/src/config.rs:1043-1051 | in a valid configuration the owner depends on neither iteration order nor names |
| `Mounts.OverlapGivesTwoOwners` | gat-core/src/config.rs:1043-1051 | in an invalid one some path has two owners |
| `Mounts.IncrementalCheckIsComplete` | gat-core/src/config.rs:1060-1089 | checking one added or moved target is equivalent to validating the resulting configuration |
| `Mounts.AllowedExactly` | gat-core/src/config.rs:1060-1089 | a change is allowed exactly when its name suits it and the configuration it leads to is valid |
| `Mounts.RunsStayValid` | gat-core/src/config.rs:1070-1089 | every run of guarded adds, updates and removals keeps the configuration free of overlaps and each path with at most one owner |
| `Mounts.RunRemembersLast` | gat-core/src/config.rs:1060-1089 | after any run each name stands as the last change of it that was allowed left it, or as it was before |
| `Routes.RouteFor` | gat-core/src/config.rs:1218-1231 | returns a matching route with the most components (the last such in iteration order), none exactly when no route is at or above the path |
| `Routes.LengthIsSpecificity` | gat-core/src/config.rs:1222-1225 | among the ancestors of one path, byte length and component count order alike |
| `Text.WidthIsUtf8` | gat-core/src/config.rs:1222-1225 | the byte length of a character is that of its UTF-8 encoding, whose payload bits are the character |
| `Routes.ValidateRoutes` | gat-core/src/config.rs:1242-1257 | succeeds exactly when the reserved name is unused and all paths differ; an error names two routes with the same path |
| `Routes.WinnerUniqueIffDistinct` | gat-core/src/config.rs:1206-1257 | every lookup has at most one possible winner exactly when the paths differ |
| `Routes.RouteAnswerUnique` | gat-core/src/config.rs:1218-1231 | with distinct paths any two correct answers are the same |
| `PathPolicy.LongestPrefix` | gat-engine/src/path_policy.rs:112-131 | probing the path and its ancestors finds the most specific indexed prefix, none exactly when there is none |
| `PathPolicy.ParentCoversAncestors` | gat-engine/src/path_policy.rs:133-139 | cutting at the last separator skips no proper ancestor |
| `PathPolicy.NewMountOwnership` | gat-engine/src/path_policy.rs:148-161 | the index exists exactly for valid configurations and inverts the name-to-target map |
| `PathPolicy.OwnerForPath` | gat-engine/src/path_policy.rs:163-169 | the indexed owner is a correct answer of the linear scan |
| `PathPolicy.IndexedRouteFor` | gat-engine/src/path_policy.rs:112-131 | the indexed route is a correct answer of the linear scan |
| `Layering.Config.MergeSettings` | gat-core/src/settings.rs:209-213 | every setting of the higher layer replaces the lower one and is taken out of its source |
| `Layering.Config.MergedWith` | gat-core/src/config.rs:1313-1326 | merging in place computes the merge of the two layers |
| `Layering.MergeLayers` | gat-core/src/config.rs:1328-1336 | folding configurations in place computes the fold of the layers from the default |
| `Layering.HighestLayerWins` | gat-core/src/config.rs:1318-1336 | for any number of layers each setting and each named definition comes whole from the highest layer that has it, and each default pointer from the highest that sets it |
| `Layering.MergeAssociative` | gat-core/src/config.rs:1318-1326 | merging is associative |
| `Layering.MergeIdentity` | gat-core/src/config.rs:1334-1336 | the default configuration is neutral on both sides |
| `Layering.FoldInGroups` | gat-core/src/config.rs:1334-1336 | layers may be folded in groups |
| `ManagedBlock.FindMarkers` | gat-core/src/managed_block.rs:27-45 | the scan by offsets finds the first complete pair of marker lines |
| `ManagedBlock.ScanFindsFirstPair` | gat-core/src/managed_block.rs:27-45 | the pair found is the first opening and end marker with no marker between them, and none is found exactly when there is no such pair |
| `ManagedBlock.DegenerateFindsNothing` | gat-core/src/managed_block.rs:27-45 | empty or equal markers are found in no text |
| `ManagedBlock.OffsetsAreLines` | gat-core/src/managed_block.rs:52-100 | the text cut off by offsets is whole lines before, inside and after the pair |
| `ManagedBlock.PushBodyWithEol` | gat-core/src/managed_block.rs:5-18 | appends the body with every line feed in the given style |
| `ManagedBlock.UpsertText` | gat-core/src/managed_block.rs:52-79 | the buffer built in steps is the edited file |
| `ManagedBlock.DetectOfConcat` | gat-core/src/newline.rs:60-66 | the first line break decides the style whatever follows |
| `ManagedBlockLaws.DetectIsFirstBreak` | gat-core/src/newline.rs:60-66 | the style is CRLF exactly when the first line feed has a carriage return before it |
| `ManagedBlockLaws.EditsOnlyTheBlock` | gat-core/src/managed_block.rs:52-90 | an edit replaces one stretch that starts with the opening marker, or appends; all text before and after is kept |
| `ManagedBlockLaws.NewFileGetsLf` | gat-core/src/managed_block.rs:52-79 | into an empty file, or behind text without a line break, the block is written with LF line ends and the body as given |
| `ManagedBlockLaws.BlockFound` | gat-core/src/managed_block.rs:27-45 | behind text without a pair, the pair found is the block just written, or lies strictly inside it when the body has marker lines |
| `ManagedBlockLaws.ExtractAfterUpsert` | gat-core/src/managed_block.rs:92-100 | what was written is read back in the file's own line endings if and only if ending the last line completes no pair, or the pair it completes happens to hold the same text; otherwise that older text is read |
| `ManagedBlockLaws.RemoveAfterUpsert` | gat-core/src/managed_block.rs:81-90 | removing after writing gives the file with its last line ended, or what removing before would give, if and only if ending the last line completes no pair |
| `ManagedBlockLaws.UpsertIdempotent` | gat-core/src/managed_block.rs:47-79 | writing the same block twice is writing it once if and only if the body has no marker line, ending the last line completes no pair, and the file is not one unfinished line ending in a carriage return |
| `ManagedBlockLaws.LastWriteWins` | gat-core/src/managed_block.rs:47-79 | a block written over another is as if written first, if and only if the line ending was settled |
| `ManagedBlockLaws.DetectAfterUpsert` | gat-core/src/newline.rs:60-66 | writing a block keeps the detected line ending, except in that one case, where LF becomes CRLF |
| `ManagedBlockLaws.NoBareReturn` | gat-core/src/managed_block.rs:66-71 | a file that does not end in a bare carriage return meets both conditions |
| `ManagedBlockLaws.HazardShape` | gat-core/src/managed_block.rs:66-71 | ending the last line completes a pair only in an LF file whose last line is the end marker and a carriage return, and that pair ends the file |
| `ManagedBlockLaws.AppendIsClearUnlessStray` | gat-core/src/managed_block.rs:66-71 | ending the last line completes a pair if and only if the file has LF line ends, its unfinished last line is the end marker and a carriage return, and the lines before it hold an opening marker and no complete pair |
| `ManagedBlockLaws.StrayMarkersBecomeABlock` | gat-core/src/managed_block.rs:66-71 | counterexample: on a begin marker line and then the end marker with a bare carriage return, removing what was written does not give the file back, and writing twice differs from writing once |
| `ManagedBlockLaws.UnfinishedReturnTurnsCrlf` | gat-core/src/managed_block.rs:66-71 | counterexample: one unfinished line ending in a carriage return, on which writing twice differs from writing once |
| `ManagedBlockLaws.DirtyBodyGrows` | gat-core/src/managed_block.rs:47-79 | a body with marker lines of its own makes the file longer at every write |
| `Presentation.SanitizeLine` | src/presentation.rs:36-46 | escapes control characters and nothing else |
| `Presentation.Sanitized` | src/presentation.rs:36-46 | the result holds no control character, and equals the input exactly when the input holds none |
| `Presentation.EscapeReadsBack` | src/presentation.rs:36-46 | a reader of `\t`, `\n`, `\r` and `\u{h}` with hexadecimal `h` reads the escape of every control character as that character |
| `Presentation.SanitizedReadsBack` | src/presentation.rs:36-46 | a text without backslashes is read back whole from its sanitized form |
| `Presentation.HexSpells` | src/presentation.rs:36-46 | numbers are spelled in lower-case hexadecimal without leading zeros |
| `Presentation.ControlBounds` | src/presentation.rs:36-46 | where the control characters begin and end |
| `Presentation.Compose` | src/presentation.rs:136-157 | the loop over parts builds the concatenated text and the shifted ranges in their smallest storage |
| `Presentation.CatIsGood` | src/presentation.rs:136-157 | concatenated ranges are sorted, disjoint, non-empty and on character boundaries of a control-free text |
| `Presentation.NestedIsFlat` | src/presentation.rs:136-157 | composing a composition equals composing its parts in place |
| `ProtectedText.ComposedMarks` | src/presentation.rs:136-157 | a composition shows its parts' characters in order, each with its own protection |
| `ProtectedText.JoinedMarks` | src/presentation.rs:160-167 | a join shows its parts with an unprotected separator between them |
| `ProtectedText.StorageTells` | src/presentation.rs:136-157 | plain storage is used exactly when nothing is protected, storage as one identity only when everything is |
| `ProtectedText.BuildMeans` | src/presentation.rs:98-167 | for every nesting of the constructors the ranges are sound and every character has the protection it should |
| `Wrapping.WordIterator.constructor` | src/presentation.rs:299-303 | a new iteration is about to yield all words of the line |
| `Wrapping.WordIterator.Next` | src/presentation.rs:303-321 | yields the next word; at the end returns none, and goes on returning none |
| `Wrapping.CollectWords` | src/presentation.rs:299-322 | the iteration yields the non-empty pieces of the line between unprotected white space, and ends |
| `Wrapping.WhitespaceBounds` | src/presentation.rs:299-322 | where the runs of white space begin and end |
| `Wrapping.CursorDecides` | src/presentation.rs:304-311 | once ranges that have ended are passed, the range at the cursor alone tells whether a byte is protected |
| `Wrapping.RangeStaysWhole` | src/presentation.rs:288-322 | the text of every protected range stands inside one word |
| `Wrapping.WordsKeepText` | src/presentation.rs:299-322 | the words hold every character but the breaks, once and in order |
| `Template.TokenizeTemplate` | gat-core/src/endpoint.rs:138-164 | succeeds with a tokenization of the input or fails at the first dollar that no token can stand at |
| `Template.ParseEnvironmentName` | gat-core/src/name.rs:150-159 | accepts exactly a letter or underscore followed by letters, digits and underscores |
| `Template.TokensRestoreInput` | gat-core/src/endpoint.rs:138-164 | the source text of a tokenization is the input |
| `Template.TokenizationUnique` | gat-core/src/endpoint.rs:138-164 | an input has at most one tokenization |
| `Template.BrokenHasNone` | gat-core/src/endpoint.rs:146-155 | an input with a bad reference has no tokenization, so errors are reported exactly for those |
| `Template.BrokenOnce` | gat-core/src/endpoint.rs:146-155 | kind and offset of the error are determined by the input |
| `Template.ErrorPointsAtDollar` | gat-core/src/endpoint.rs:146-155 | the error's offset is that of the dollar and the brace of the bad reference among the UTF-8 bytes of the input |
| `Template.NameBounds` | gat-core/src/name.rs:150-159 | where the characters of a name begin and end |
| `Shielding.ChooseMarker` | src/redaction.rs:116-125 | without `%` the growing loop ends with the shortest extension absent from the lower-cased input; otherwise the marker gets one letter for each byte of the input |
| `Shielding.LowerIs` | src/redaction.rs:116-125 | each of the 26 capital letters is put in lower case and nothing else is changed |
| `Shielding.MarkerIsFresh` | src/redaction.rs:116-125 | the chosen marker occurs nowhere in the template and, without `%`, nowhere in its lower-case form; with `%` it is longer than the template |
| `Shielding.WithTemplatesShielded` | src/redaction.rs:111-146 | a template that does not tokenize shows a fixed text; otherwise the rendered pieces and placeholders are restored from the last to the first |
| `Shielding.ReplaceInWeave` | src/redaction.rs:142-144 | replacing one placeholder fills its own holes and rewrites nothing else: no placeholder arises across a boundary or inside another or inside a reference |
| `Shielding.RestoreUndoes` | src/redaction.rs:141-145 | whatever marker-free text the literal pieces were rewritten to, every reference comes back in its own place |
| `Shielding.KeptIsFree` | src/redaction.rs:115-125 | a rewritten piece cannot hold the marker if its stretches of lower-case letters and dashes come from the template up to case or, in a template with escapes, it is no longer than the template |
| `Shielding.RecasedIsKept` | src/redaction.rs:115-125 | a literal piece of the template in which only the case of letters was changed is of that kind |
| `Shielding.CutIsKept` | src/redaction.rs:115-125 | so is one cut off at its ends |
| `Shielding.EscapedIsKept` | src/redaction.rs:115-125 | so is one into which escapes in upper case were put |
| `Shielding.RewrittenPieces` | src/redaction.rs:111-146 | for a renderer that keeps the placeholders and whose literal pieces are of such a kind, the passage shows the rewritten pieces around the original references, so no input passes for a reference |
| `Shielding.IdentityShowsTemplate` | src/redaction.rs:111-146 | with the renderer that changes nothing, every template that tokenizes is shown unchanged |
| `Shielding.ReferencesAreNames` | gat-core/src/name.rs:150-159 | every reference of a tokenized template is a valid environment name |
| `Globs.ParseGlob` | gat-core/src/globs.rs:86-94 | parsing yields the normalized text, its first metacharacter and its compiled form, bracket expressions with a separator in them included, and agrees with compiling a canonical path directly |
| `Globs.CutJoins` | gat-core/src/globs.rs:145-151 | cutting a pattern at the separators outside bracket expressions loses nothing of its text |
| `Globs.BoundIsSound` | gat-core/src/globs.rs:164-170 | every path a pattern matches lies inside its lexical bound |
| `Globs.PrefixesAgree` | gat-core/src/globs.rs:145-156 | of the prefixes cut from the text at separators, those that compile are the prefixes of the compiled pattern; one that ends inside a bracket expression does not compile |
| `Globs.PruningIsSound` | gat-core/src/globs.rs:141-157 | if anything strictly below a directory matches, the directory is visited |
| `Globs.PruningIsExact` | gat-core/src/globs.rs:141-157 | the directories visited are exactly those with something canonical below them that matches, if and only if every component of the pattern can match some canonical name or the first one cannot |
| `Globs.UnsatisfiableIsVisited` | gat-core/src/globs.rs:141-157 | counterexample outside that condition: `a/[.]` visits `a` though nothing below it can match |
| `Globs.TraversalDirIsSound` | gat-command/src/add.rs:481-489 | the directory walked for a pattern is empty or canonical, and every match lies strictly below it |
| `GlobMeaning.TraversalDirIsDeepest` | gat-command/src/add.rs:481-489 | that directory is all components before the first with a metacharacter, without the last |
| `GlobMeaning.PiecesMean` | gat-core/src/globs.rs:131-135 | a name matches a component exactly when it is cut into parts that fit the pieces one by one |
| `GlobMeaning.CompsMean` | gat-core/src/globs.rs:131-135 | a path matches exactly when its components are cut into stretches: one name for an ordinary component, any number for `**`, at least one for a trailing `**` |
| `GlobMeaning.CompilesExactly` | gat-core/src/globs.rs:111-123 | a component compiles exactly when it is spelled from single characters, `?`, `*` and closed bracket expressions without two stars meeting |
| `GlobMeaning.ComponentMeans` | gat-core/src/globs.rs:111-135 | however its text is so spelled, it matches just the names cut into parts that fit the units |
| `GlobMeaning.ClassIsNotCut` | gat-core/src/globs.rs:145-151 | a pattern is not cut inside a bracket expression |
| `GlobMeaning.CutsAtSeparators` | gat-core/src/globs.rs:145-151 | outside brackets it is cut at every separator and nowhere else |
| `GlobMeaning.MetaIsSpecial` | gat-core/src/globs.rs:286-290 | the metacharacters are exactly the characters that do not compile to themselves |
| `GlobMeaning.BoundIsLiteralStart` | gat-core/src/globs.rs:164-170 | the bound is the whole text when it has no metacharacter, otherwise the text before the first, or anything |
| `GlobMeaning.ExactMatchesItself` | gat-core/src/globs.rs:164-170 | a pattern without metacharacters matches its own text and nothing else |
| `Selections.RelativeIs` | gat-core/src/selection.rs:141-149 | what is matched is the whole path under the root, what follows the scope, or nothing for the scope's own row; a path has one exactly when in scope |
| `Selections.UnrestrictedSelectsScope` | gat-core/src/selection.rs:101-110 | without patterns exactly what lies at or under the scope is selected |
| `Selections.ExclusionTakesAway` | gat-core/src/globs.rs:266-271 | one more exclusion takes away exactly what it matches, whatever is included |
| `Selections.InclusionBringsIn` | gat-core/src/globs.rs:266-271 | a first inclusion keeps exactly what it matches; each further one brings in exactly what it matches and no exclusion does |
| `Selections.ScopeShifts` | gat-core/src/selection.rs:101-110 | a selection selects below its scope what its filter selects at the root |
| `Selections.SelectedRowsLandApart` | gat-core/src/selection.rs:113-149 | distinct selected rows are carried to distinct paths, all at or under the target |
| `CandidateSpan.LexicalPrefixUpper` | gat-io/src/state/query.rs:297-307 | the backward loop computes the exclusive upper bound of a prefix |
| `CandidateSpan.RangeIsPrefix` | gat-io/src/state/query.rs:286-316 | a text is in the range of a prefix exactly when it starts with it, across the surrogate gap and trailing maximal characters |
| `Text.Utf8KeepsOrder` | gat-io/src/state/query.rs:286-316 | characters are ordered as their UTF-8 encodings are |
| `CandidateSpan.CoalescingIsSound` | gat-io/src/state/query.rs:318-340 | coalescing keeps what the ranges cover and leaves them in order and strictly apart |
| `CandidateSpan.RetainUncoveredExacts` | gat-io/src/state/query.rs:356-381 | the two-pointer sweep drops exactly the paths inside some range |
| `CandidateSpan.SpanFromBounds` | gat-io/src/state/query.rs:254-284 | the span holds exactly the paths some bound admits, and each at one place only |
| `CandidateSpan.QueryForSelection` | gat-io/src/state/query.rs:209-252 | the rows looked up for a selection include every row it selects, and are exactly those its scope admits or, if every inclusion has a bound, those some bound under the scope admits |
| `CandidateSpan.BoundUnderIsBound` | gat-io/src/state/query.rs:209-252 | inside the scope the bound under a scope admits exactly what the pattern's own bound holds |
| `CandidateSpan.ScopeSlashIgnored` | gat-io/src/state/query.rs:260-265 | one separator at the end of a scope does not matter |
| `Removal.NameSelector` | gat-command/src/remove.rs:84-101 | an argument that names existing rows is taken literally, otherwise metacharacters make it a pattern; owned literal paths and bad patterns are refused |
| `Removal.ScanRows` | gat-command/src/remove.rs:103-126 | each row is credited to the first selector that selects it, and the first owned row of each selector is noted |
| `Removal.NewPlan` | gat-command/src/remove.rs:182-201 | the loop over selectors builds the compressed plan |
| `Removal.RemovalIsExact` | gat-command/src/remove.rs:103-201 | publishing the plan deletes exactly the rows some selector selects, reports each once, and leaves what a rewrite of the whole state keeps |
| `Removal.PlanIsCompressed` | gat-command/src/remove.rs:182-201 | the plan lists the rows selector by selector, publishes a subtree for exactly the prefixes credited with several rows, and single rows for everything else |
| `Removal.ScopeIsTight` | gat-command/src/remove.rs:216-231 | a selector's scope admits only what it selects or, for a pattern, what is inside its bound |
| `Removal.ScopedScanAgrees` | gat-command/src/remove.rs:219-231 | visiting only the rows in the selectors' span credits the same rows and finds the same owned rows as visiting all |
| `Removal.ResolveRemovals` | gat-io/src/state/repository.rs:752-775 | on either storage shape, removal is refused exactly when a selected row belongs to a mount, naming the first such row of the lowest selector, and otherwise yields the plan of the full scan |
| `Removal.PlanRemoval` | gat-command/src/remove.rs:76-201 | told from the arguments: the first unusable one refuses the request; otherwise the first row of a mount asked for does; otherwise the plan deletes exactly the rows that some argument asks for as root, as a path at or above, or as a pattern, lists each once, and a rewrite keeps the rest |
| `Add.AddContext.constructor` | gat-command/src/add.rs:152-164 | a new context has seen, walked and reported nothing |
| `Add.AddContext.Flush` | gat-command/src/add.rs:325-339 | turns a window into entries, once each, those reused before those hashed, or reports the window's first failing reuse check or else its first failing file, and leaves nothing pending |
| `Add.AddContext.Push` | gat-command/src/add.rs:466-476 | takes up a candidate and flushes when the window is full, so the window is never exceeded |
| `Add.AddContext.ProcessCandidates` | gat-command/src/add.rs:453-479 | refuses candidates of a mount before taking up any, and then takes up each path not seen before |
| `Add.AddContext.AddDir` | gat-command/src/add.rs:387-412 | walks a directory not covered by an earlier walk and counts the new files |
| `Add.AddContext.AddGlob` | gat-command/src/add.rs:414-451 | walks from the pattern's fixed directory, refuses a pattern that finds and excludes nothing, and returns the new files |
| `Add.CheckFile` | gat-command/src/add.rs:212-225 | a single file is accepted exactly when it is neither infrastructure, nor a mount's, nor tracked, its status can be read, and, unless forced, it is not ignored by gat nor by Git without being desired; of several reasons that hold the refusal names the one of lowest rank |
| `AddLaws.RefusedExactly` | gat-command/src/add.rs:167-247 | a request is refused exactly with the reason of the first selector that has one; reasons (infrastructure, kind, pattern syntax, no match, a mount's file, single-file reasons, faults) are told from the outside world and the earlier selectors |
| `AddLaws.StepRefused` | gat-command/src/add.rs:167-247 | for each kind of selector, refusal and reason correspond; a missing path whose pattern finds and excludes nothing has no match |
| `AddLaws.OwnDirectoryRefused` | gat-command/src/add.rs:394-396 | a directory of the program's own is refused before it is looked at |
| `AddLaws.CoveredMeansWalked` | gat-command/src/add.rs:396-402 | a directory counts as covered exactly when an earlier selector walks one that holds it |
| `AddLaws.StepTakesUp` | gat-command/src/add.rs:167-247 | a selector that is not refused takes up what it finds as far as it is new, and reports one counted row for a walk or one row for each file |
| `AddLaws.FirstComeFirstTaken` | gat-command/src/add.rs:453-479 | of the candidates with a path the first is taken up, in the order they come |
| `Add.AddContext.AddScope` | gat-command/src/add.rs:169-247 | one selector moves the context as the resolution of that selector says, or is refused, or a window fails |
| `Add.AddContext.AddAll` | gat-command/src/add.rs:167-261 | the outcome over all selectors, in which a failing window is reported before a selector refused after it; if no candidate fails, every candidate was flushed exactly once, in order, also when a later selector is refused |
| `Add.AddWithWindow` | gat-command/src/add.rs:135-261 | for every window of at least one the outcome is that of a description in which the window decides only which of several faults is reported, and the entries stand window by window, the reused ones of each first |
| `Add.WindowDoesNotMatter` | gat-command/src/add.rs:325-339 | two runs of one request under different windows have the same rows, count and entries or are both refused; the errors differ only in the fault reported, and not at all when that is settled |
| `Add.FailsAlike` | gat-command/src/add.rs:325-339 | some window fails if and only if some candidate cannot be turned into an entry; the fault is that of the first such candidate or of the first failing reuse check |
| `Add.SameErrorsIffSettled` | gat-command/src/add.rs:325-339 | every window reports the same error if and only if, when a reuse check fails, the first that does fails as the first failing candidate does |
| `Add.FaultDependsOnWindow` | gat-command/src/add.rs:325-339 | counterexample outside that condition: a file that cannot be hashed before one whose reuse cannot be checked, under windows of one and of two |
| `Add.PartitionReusable` | gat-io/src/state/repository.rs:196-306 | reports the first failing reuse check of the window, or splits it into reused entries and files to hash, both in order |
| `Add.OrderDependsOnWindow` | gat-command/src/add.rs:325-339 | a candidate to hash before one that is reused: their entries come in opposite orders under windows of one and of two |
| `Add.ConvertWindow` | gat-command/src/add.rs:325-385 | reused and newly hashed entries in this order, together those of the window's candidates; otherwise the first failing reuse check or, if there is none, the first failing file |
| `Add.AddedIsWhatWasAsked` | gat-command/src/add.rs:165-261 | when nothing is refused, the files added are those the selectors ask for together, and none belongs to a mount |
| `Add.RowsAccountForFiles` | gat-command/src/add.rs:169-247 | the reported rows account for every added file once |
| `Add.SkippedWalkAddsNothing` | gat-command/src/add.rs:396-402 | had a directory under an earlier walk been walked, it would have added and refused nothing, when discovery finds no more below a directory than from it |
| `Add.SkippingChangesNothing` | gat-command/src/add.rs:396-402 | under the same condition a run that skips and one that walks every directory take up the same files, report the same rows and are refused alike, if and only if no walk that was skipped would have failed |
| `Oid.FromHex` | gat-core/src/oid.rs:49-69 | succeeds exactly on 64 lower-case hexadecimal digits, with the id whose text that is |
| `Oid.EncodeHex` | gat-core/src/oid.rs:113-120 | fills the buffer with the text of the id |
| `Oid.EqHex` | gat-core/src/oid.rs:97-111 | true exactly on the id's own text |
| `Oid.DigitsAreHex` | gat-core/src/oid.rs:49-69 | the digits are `0` to `9` and `a` to `f` in order, and no other byte has a value |
| `Oid.HexInjective` | gat-core/src/oid.rs:49-120 | different ids have different texts |
| `Oid.OrderAgrees` | gat-core/src/oid.rs:20-23 | ids are ordered as their texts are |

## Left out

- Add.WindowDoesNotMatter: entries are compared with their multiplicities and not in order, because the order does depend on the window (`OrderDependsOnWindow`); `AddWithWindow` says what it is. The fault reported can depend on it too; `SameErrorsIffSettled` says exactly when it does not.
- The matching engine of the glob library itself: `MatchComps` and `MatchPieces` are its component-aware meaning under the options the program sets, not its token loop; the lazily cached prefix patterns are computed on demand.
- Shielding.RewrittenPieces: the renderers actually passed in, which parse and rewrite URLs, are outside the model; the lemma holds for any renderer that keeps the placeholders and whose pieces are as `Kept` describes.
- Add.AddContext.Flush: checking and hashing run in parallel in the program and report by input order, which is what the model does; a lookup of a whole window in the state store that fails depending on the window is not modelled.
- Add.SkippingChangesNothing: exclusions counted by a skipped walk are not counted twice in the program and are not compared here; the order of exclusions is left out.
- Removal.ResolveRemovals: deletion in the store is the set of rows the plan deletes; shards, transactions, working-tree cleanup and exclude files are not part of the model.
- Mounts and routes: of a mount only name and target, and of a route only name, path and remote take part; commands that edit the configuration files are not modelled.
- Layering: values are lists of strings; parsing and validation of single settings, and the built-in defaults used when no layer sets a key, are left out.
- Byte arithmetic of `from_hex`: `(hi << 4) | lo` is written as `hi * 16 + lo`, which is the same for two digits below 16.
- The lock codec and shards, synchronization, mount journals, garbage collection, transfers, progress, command-line parsing, serialization and error wording.
