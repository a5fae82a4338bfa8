# NSDragView drop filter, modelled in Dafny

`NSDragView` (hotcocoa-scripts, `drag_view.rb`) is a Cocoa view that accepts
file paths dragged onto it. It decides which paths are acceptable from two
rules — a list of acceptable extensions and a flag that lets folders in —
answers the host while a drag hovers over it (copy or nothing), and on drop
calls two optional observer blocks: `onFile` once per accepted path, in
order, then `onFiles` once with all accepted paths, if at least one was
accepted.

The model has three modules:

- `PathNames` (`paths.dfy`): one concrete rule for a path's extension — the
  text after the last `.` of the last `/`-separated component — with its
  round trip (`ExtensionOfSuffix` / `ExtensionSplit`).
- `DragViews` (`drag_view.dfy`): the acceptance predicate `FileAllowed`, the
  specification functions of hover and drop (`FirstAllowed`, `HoverVerdict`,
  `AllowedPaths`, `PerFileEvents`, `DropEvents`) with their lemmas, and the
  class `DragView`, whose fields are the two rules, the two observer slots
  and the log `events` of block calls made so far. `DraggingEntered` and
  `PerformDragOperation` are the source's loops, proved against those
  functions.
- `DragViewScenarios` (`drag_view_scenarios.dfy`): fixed drags on a view
  accepting `txt` — dropping `[a.txt, b.png, c.txt]`, dropping `[d.png]`,
  hovering `[d.png, e.txt]` — a `png` file refused before and accepted after
  the types are changed, and client sessions that drive the class.

The outside world is a parameter. The pasteboard's filenames list is an
`Option<seq<Path>>`: `None` when the pasteboard does not carry the filenames
type. The file manager's directory query and Foundation's `pathExtension` are
the two functions of a `Platform` value, so `DragViews` holds for any
extension rule; `PathNames.PathExtension` is one instance of it
(`DragViewScenarios.FilesOnly`). A block is a `Handler` identity, and calling
it appends an `Event` to `events`.

Two readings the model settles by the code:

- The mask test at `drag_view.rb:49` reads as if copy must be permitted by
  the drag source, but in Ruby it never refuses; the model follows the code.
  The code tests `canInitDraggedFiles and (sourceDragMask & NSDragOperationCopy)`
  (`drag_view.rb:49`); the second operand is an Integer, and every Integer,
  0 included, is true in Ruby. So Copy is offered whenever some candidate is
  allowed, even if the mask excludes copy. `DraggingEntered` takes the mask
  and ignores it, and `HoverVerdict` has no mask argument.
- The acceptable types are an ordered array, of which the code only asks
  membership. The model keeps a `seq<string>`, and
  every statement about it is about membership.

## Model

| member | source | states |
|---|---|---|
| DragViews.FolderAcceptedWhateverExtension | drag_view.rb:93-98 | with folders accepted, a path the directory query reports as a directory is allowed whatever its extension |
| DragViews.ExtensionDecides | drag_view.rb:93-103 | Unless folders are accepted and the path is a directory, the path is allowed iff its extension is in acceptableTypes. |
| DragViews.DirectoryQueryUnusedWithoutFolders | drag_view.rb:94-99 | with folders not accepted, the directory query's answers cannot change the verdict: two platforms with the same extension function agree on every path |
| DragViews.NoTypesOnlyFolders | drag_view.rb:93-103 | with no acceptable types, a path is allowed iff folders are accepted and it is a directory |
| DragViews.ExtensionMatchIsCaseSensitive | drag_view.rb:101 | the match is exact: extension "TXT" is refused by a view accepting only "txt" |
| DragViews.FirstAllowed | drag_view.rb:42-47 | the hover scan's stopping index: the candidate there is allowed and every candidate before it is not; or it is the list's length and none is allowed |
| DragViews.AnyAllowedIffExists | drag_view.rb:42-47 | the scan finds a candidate iff some candidate is allowed |
| DragViews.AllowedPathsMembers | drag_view.rb:60-65 | a path is collected at drop iff it is a candidate and allowed |
| DragViews.AllowedPathsAppend | drag_view.rb:60-65 | the drop's filter of a concatenation is the concatenation of the filters: collected paths keep their relative order |
| DragViews.AllowedPathsAll | drag_view.rb:60-65 | the drop collects every candidate iff every candidate is allowed |
| DragViews.AnyAllowedIffSomeCollected | drag_view.rb:42-47 | the hover scan finds an allowed candidate iff the drop would collect a non-empty list |
| DragViews.HoverAgreesWithDrop | drag_view.rb:36-70 | hover answers Copy iff the filenames type is present and the drop would collect at least one path |
| DragViews.PerFileEventsSpec | drag_view.rb:60-64 | with a per-file block set, it is called once per collected path, with that path, in order; with none, nothing is called |
| DragViews.DropEventsShape | drag_view.rb:60-66 | a drop's calls: the per-file calls in order, then at most one batch call, which is the last call, carries the whole collected list, and happens iff the list is non-empty and a batch block is set |
| DragViews.DragView.Create | drag_view.rb:19-25 | acceptableTypes defaults to [] and acceptFolders to false when the option is absent; no block is set and none has been called |
| DragViews.DragView.SetAcceptableTypes | drag_view.rb:17 | the setter overwrites acceptableTypes and nothing else |
| DragViews.DragView.SetAcceptFolders | drag_view.rb:17 | the setter overwrites acceptFolders and nothing else |
| DragViews.DragView.OnFile | drag_view.rb:72-74 | the per-file slot holds the latest block (or none) and nothing else changes |
| DragViews.DragView.OnFiles | drag_view.rb:76-78 | the batch slot holds the latest block (or none) and nothing else changes |
| DragViews.DragView.CallOnFile | drag_view.rb:82-84 | one call of the per-file block with the path is logged if a block is set, none otherwise |
| DragViews.DragView.CallOnFiles | drag_view.rb:86-88 | one call of the batch block with the list is logged if a block is set, none otherwise |
| DragViews.DragView.DraggingEntered | drag_view.rb:36-54 | answers Copy iff the filenames type is present and some candidate is allowed, whatever the mask; equals HoverVerdict; changes no state, so a repeated hover answers the same; tests candidates only up to and including the first allowed one |
| DragViews.DragView.PerformDragOperation | drag_view.rb:56-70 | answers true iff the filenames type is present; then logs exactly DropEvents of the order-preserving filter of the candidates under the current rules; without the type logs nothing; only the log changes |
| PathNames.ExtensionHasNoSeparator | drag_view.rb:101 | an extension contains neither '.' nor '/' |
| PathNames.ExtensionSplit | drag_view.rb:101 | a path with a non-empty extension is a stem, a '.', and that extension |
| PathNames.ExtensionOfSuffix | drag_view.rb:101 | appending "." and a '.'- and '/'-free e to any stem gives a path with extension e |
| PathNames.NoDotNoExtension | drag_view.rb:101 | a last component without '.' gives the empty extension, whatever the directories above it |
| DragViewScenarios.FilesOnlyTxtPng | drag_view.rb:101 | under the PathNames rule, "x.txt" is a file with extension "txt" and "x.png" one with extension "png" |
| DragViewScenarios.FilesOnlyHasScenarioFiles | drag_view.rb:101 | under the PathNames rule, five stems a..e give files a.txt, b.png, c.txt, d.png, e.txt with the extensions the scenarios assume |
| DragViewScenarios.OrderPreservedOnDrop | drag_view.rb:57-65 | with txt accepted, dropping [a.txt, b.png, c.txt] collects [a.txt, c.txt] |
| DragViewScenarios.CallsInOrderOnDrop | drag_view.rb:60-66 | with blocks 1 and 2 set, collecting [a, c] calls 1 with a, 1 with c, then 2 with [a, c] |
| DragViewScenarios.NothingAcceptedNothingCalled | drag_view.rb:60-66 | with txt accepted, dropping [d.png] collects nothing, so no block is called |
| DragViewScenarios.HoverFindsSecondCandidate | drag_view.rb:41-50 | with txt accepted, hovering [d.png, e.txt] stops at the second candidate and answers Copy |
| DragViewScenarios.PngRefusedThenAccepted | drag_view.rb:41-66 | a png file gets no Copy from rules accepting txt, and rules accepting png collect it and call the per-file then the batch block with it |
| DragViewScenarios.RulesReadAtEachCall | drag_view.rb:36-70 | on one view, a hover over d.png answers no operation while txt is accepted, and after acceptableTypes is set to png the drop calls block 1 with d.png and block 2 with [d.png]: hover and drop read the current rules |

## Left out

- View plumbing: `initWithFrame`, `registerForDraggedTypes`, `layout`, the `:frame` option and the `HotCocoa::Behaviors` mixin (drag_view.rb:14-15, 21, 27-34) are not modelled. They set no rule except `@acceptableTypes = []`, which `create` overwrites.
- Pasteboard mechanics are not modelled: the filenames list is an input. The case of a pasteboard that carries the type but returns nil for it, where Ruby would raise, is not modelled.
- The file manager's `fileExistsAtPath:isDirectory:` call (drag_view.rb:90, 95-97) is the `Platform.isDirectory` function. What the flag holds for a missing path is up to the platform; `isDirectory` is arbitrary, so every lemma holds whatever it answers. Failures of the call itself are not modelled.
- `workspace` (drag_view.rb:91) is never used by the view and is not modelled.
- Foundation's `pathExtension` is not visible here. `DragViews` treats it as an arbitrary function. `PathNames.PathExtension` is a simple rule that does not model Foundation's special cases, such as trailing slashes or names that start with a dot.
- Blocks are modelled by their identity and by the log of their calls. What a block does is not modelled, nor an exception it raises mid-drop (the remaining calls would not happen).
- DragViews.DragView.PerformDragOperation: reads the rules once, at the start of the drop, and no block can change the view while the drop runs. In Ruby, `fileAllowed` re-reads `@acceptableTypes` and `@acceptFolders` for every candidate, and `callOnFile` re-reads `@onFile` on every call (drag_view.rb:61-63, 83, 94, 101). A block that reconfigures the view or re-registers itself mid-drop therefore changes the later verdicts and calls in Ruby; the model does not capture this re-entrancy.
- DragViews.DragView.Create: the Ruby options accept any value. `!!` turns any non-nil, non-false flag into true, and `|| []` keeps any types value other than nil or false (both become []). The model takes the options as `Option<bool>` and `Option<seq<string>>`.
- DragViews.DragView.SetAcceptableTypes: it takes a sequence of strings. Setting nil, which would make `fileAllowed` raise, is not modelled.
- DragViews.DragView.SetAcceptFolders: it takes a bool. Ruby's truthiness of other values is not modelled.
- DragViews.DragView.DraggingEntered: the mask is taken as an unbounded integer and ignored, as in the code (see above). The returned operation is the enumeration DragNone/DragCopy, not its numeric value.
- Threads: the view is used from one thread. Nothing about concurrent mutation is modelled.
