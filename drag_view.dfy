/** The drag-and-drop acceptance filter of a view: which dragged paths it
    accepts, what it answers while a drag hovers over it, and which observer
    blocks it calls when the drag is dropped.

    The outside world comes in as parameters: the pasteboard's filenames list
    (None when the pasteboard does not carry the filenames type), the drag
    source's operation mask, and a `Platform` holding the two platform
    services the filter asks: the file manager's "exists and is a directory"
    query and Foundation's `pathExtension`. The observer blocks are opaque
    `Handler` identities; every call of a block is appended to `events`. */
module DragViews {
  import opened PathNames

  datatype Option<T> = None | Some(value: T)

  /** The platform services the filter consults: `isDirectory` is the flag
      the file manager's query leaves, whatever it holds for a missing path;
      `pathExtension` is Foundation's, not modelled here (PathNames gives one
      concrete rule). */
  datatype Platform = Platform(isDirectory: Path -> bool, pathExtension: Path -> string)

  /** Identity of a block registered with onFile or onFiles. */
  type Handler = nat

  /** The answer to the host while a drag hovers: NSDragOperationNone (0) or
      NSDragOperationCopy (1). */
  datatype DragOperation = DragNone | DragCopy

  /** One call of a registered block: the per-file block with one path, or
      the batch block with the list of accepted paths. */
  datatype Event =
    | FileEvent(handler: Handler, path: Path)
    | FilesEvent(handler: Handler, paths: seq<Path>)

  /** The acceptance rules: `acceptableTypes` and `acceptFolders`. */
  datatype Config = Config(acceptableTypes: seq<string>, acceptFolders: bool)

  /** fileAllowed: a directory passes when folders are accepted (the
      directory query is made only then); any other path passes exactly when
      its extension is, case for case, one of the acceptable types. */
  predicate FileAllowed(cfg: Config, platform: Platform, path: Path)
  {
    (cfg.acceptFolders && platform.isDirectory(path))
    || platform.pathExtension(path) in cfg.acceptableTypes
  }

  lemma FolderAcceptedWhateverExtension(cfg: Config, platform: Platform, path: Path)
    requires cfg.acceptFolders && platform.isDirectory(path)
    ensures FileAllowed(cfg, platform, path)
  {
  }

  /** Outside the folder case, the extension list alone decides. */
  lemma ExtensionDecides(cfg: Config, platform: Platform, path: Path)
    requires !(cfg.acceptFolders && platform.isDirectory(path))
    ensures FileAllowed(cfg, platform, path) <==> platform.pathExtension(path) in cfg.acceptableTypes
  {
  }

  /** With folders not accepted, the answer of the directory query does not
      matter: two platforms that agree on extensions give the same verdict. */
  lemma DirectoryQueryUnusedWithoutFolders(cfg: Config, platform1: Platform, platform2: Platform, path: Path)
    requires !cfg.acceptFolders
    requires platform1.pathExtension == platform2.pathExtension
    ensures FileAllowed(cfg, platform1, path) == FileAllowed(cfg, platform2, path)
  {
  }

  /** With no acceptable types, only accepted folders pass. */
  lemma NoTypesOnlyFolders(cfg: Config, platform: Platform, path: Path)
    requires cfg.acceptableTypes == []
    ensures FileAllowed(cfg, platform, path) <==> cfg.acceptFolders && platform.isDirectory(path)
  {
  }

  /** The extension match is exact: a file whose extension is "TXT" is
      refused by a view that accepts only "txt". */
  lemma ExtensionMatchIsCaseSensitive(platform: Platform, path: Path, acceptFolders: bool)
    requires platform.pathExtension(path) == "TXT"
    requires !(acceptFolders && platform.isDirectory(path))
    ensures !FileAllowed(Config(["txt"], acceptFolders), platform, path)
  {
  }

  /** Index of the first allowed candidate, or |candidates| when there is
      none: where the hover scan stops. */
  function FirstAllowed(cfg: Config, platform: Platform, candidates: seq<Path>): (k: nat)
    ensures k <= |candidates|
    ensures k < |candidates| ==> FileAllowed(cfg, platform, candidates[k])
    ensures forall j :: 0 <= j < k ==> !FileAllowed(cfg, platform, candidates[j])
    decreases |candidates|
  {
    if candidates == [] then 0
    else if FileAllowed(cfg, platform, candidates[0]) then 0
    else 1 + FirstAllowed(cfg, platform, candidates[1..])
  }

  /** Some candidate is allowed. */
  predicate AnyAllowed(cfg: Config, platform: Platform, candidates: seq<Path>)
  {
    FirstAllowed(cfg, platform, candidates) < |candidates|
  }

  lemma AnyAllowedIffExists(cfg: Config, platform: Platform, candidates: seq<Path>)
    ensures AnyAllowed(cfg, platform, candidates)
        <==> exists i :: 0 <= i < |candidates| && FileAllowed(cfg, platform, candidates[i])
  {
  }

  /** The order-preserving filter of the candidates by FileAllowed: what the
      drop handler collects into filePaths. */
  function AllowedPaths(cfg: Config, platform: Platform, candidates: seq<Path>): (accepted: seq<Path>)
    ensures |accepted| <= |candidates|
    decreases |candidates|
  {
    if candidates == [] then []
    else
      var last := candidates[|candidates| - 1];
      AllowedPaths(cfg, platform, candidates[..|candidates| - 1])
        + (if FileAllowed(cfg, platform, last) then [last] else [])
  }

  /** Extending the scanned prefix by one candidate extends the filter by
      that candidate when it is allowed. */
  lemma AllowedPathsStep(cfg: Config, platform: Platform, candidates: seq<Path>, i: nat)
    requires i < |candidates|
    ensures AllowedPaths(cfg, platform, candidates[..i + 1])
         == AllowedPaths(cfg, platform, candidates[..i])
            + (if FileAllowed(cfg, platform, candidates[i]) then [candidates[i]] else [])
  {
    assert candidates[..i + 1][..i] == candidates[..i];
  }

  /** A path is kept exactly when it is a candidate and allowed. */
  lemma {:induction false} AllowedPathsMembers(cfg: Config, platform: Platform, candidates: seq<Path>, p: Path)
    ensures p in AllowedPaths(cfg, platform, candidates) <==> p in candidates && FileAllowed(cfg, platform, p)
    decreases |candidates|
  {
    if candidates != [] {
      var init := candidates[..|candidates| - 1];
      AllowedPathsMembers(cfg, platform, init, p);
      assert candidates == init + [candidates[|candidates| - 1]];
    }
  }

  /** Filtering a concatenation is concatenating the filtered parts: the
      accepted paths keep their relative order. */
  lemma {:induction false} AllowedPathsAppend(cfg: Config, platform: Platform, front: seq<Path>, back: seq<Path>)
    ensures AllowedPaths(cfg, platform, front + back)
         == AllowedPaths(cfg, platform, front) + AllowedPaths(cfg, platform, back)
    decreases |back|
  {
    if back == [] {
      assert front + back == front;
    } else {
      var init := back[..|back| - 1];
      var last := back[|back| - 1];
      assert (front + back)[..|front + back| - 1] == front + init;
      assert (front + back)[|front + back| - 1] == last;
      AllowedPathsAppend(cfg, platform, front, init);
    }
  }

  /** A single candidate is kept alone or dropped. */
  lemma AllowedPathsSingle(cfg: Config, platform: Platform, p: Path)
    ensures AllowedPaths(cfg, platform, [p]) == if FileAllowed(cfg, platform, p) then [p] else []
  {
    assert [p][..0] == [];
  }

  /** Every candidate is kept exactly when every candidate is allowed. */
  lemma {:induction false} AllowedPathsAll(cfg: Config, platform: Platform, candidates: seq<Path>)
    ensures AllowedPaths(cfg, platform, candidates) == candidates
        <==> forall i :: 0 <= i < |candidates| ==> FileAllowed(cfg, platform, candidates[i])
    decreases |candidates|
  {
    if candidates != [] {
      var n := |candidates|;
      var init := candidates[..n - 1];
      var last := candidates[n - 1];
      AllowedPathsAll(cfg, platform, init);
      var kept := AllowedPaths(cfg, platform, candidates);
      var keptInit := AllowedPaths(cfg, platform, init);
      assert candidates == init + [last];
      if FileAllowed(cfg, platform, last) {
        assert kept == keptInit + [last];
        if kept == candidates {
          assert keptInit == kept[..n - 1];
        }
        if forall i :: 0 <= i < n ==> FileAllowed(cfg, platform, candidates[i]) {
          assert forall i :: 0 <= i < n - 1 ==> FileAllowed(cfg, platform, init[i]);
        }
      } else {
        assert |kept| < n;
      }
    }
  }

  /** The hover scan finds an allowed candidate exactly when the drop would
      collect a non-empty list. */
  lemma AnyAllowedIffSomeCollected(cfg: Config, platform: Platform, candidates: seq<Path>)
    ensures AnyAllowed(cfg, platform, candidates) <==> AllowedPaths(cfg, platform, candidates) != []
  {
    var accepted := AllowedPaths(cfg, platform, candidates);
    if accepted != [] {
      AllowedPathsMembers(cfg, platform, candidates, accepted[0]);
    }
    var k := FirstAllowed(cfg, platform, candidates);
    if k < |candidates| {
      AllowedPathsMembers(cfg, platform, candidates, candidates[k]);
    }
  }

  /** The answer of draggingEntered for a given pasteboard content. The
      operation mask of the drag source is not an argument: the source tests
      `canInitDraggedFiles and (sourceDragMask & NSDragOperationCopy)`, and
      the second operand is an Integer, which Ruby treats as true even when
      it is 0. This model keeps that behaviour and does not model a reading
      in which the mask must include the copy operation. */
  function HoverVerdict(cfg: Config, platform: Platform, filenames: Option<seq<Path>>): (op: DragOperation)
  {
    if filenames.Some? && AnyAllowed(cfg, platform, filenames.value) then DragCopy else DragNone
  }

  /** Copy is offered at hover exactly when the drop would accept at least one
      path and call the observers for it. */
  lemma HoverAgreesWithDrop(cfg: Config, platform: Platform, filenames: Option<seq<Path>>)
    ensures HoverVerdict(cfg, platform, filenames) == DragCopy
        <==> filenames.Some? && AllowedPaths(cfg, platform, filenames.value) != []
  {
    if filenames.Some? {
      AnyAllowedIffSomeCollected(cfg, platform, filenames.value);
    }
  }

  /** The calls of the per-file block for the given accepted paths, in order;
      none when no block is registered. */
  function PerFileEvents(onFile: Option<Handler>, accepted: seq<Path>): (events: seq<Event>)
    decreases |accepted|
  {
    if accepted == [] then []
    else
      PerFileEvents(onFile, accepted[..|accepted| - 1])
        + (if onFile.Some? then [FileEvent(onFile.value, accepted[|accepted| - 1])] else [])
  }

  /** One more accepted path adds one more per-file call at the end. */
  lemma PerFileEventsStep(onFile: Option<Handler>, accepted: seq<Path>, p: Path)
    ensures PerFileEvents(onFile, accepted + [p])
         == PerFileEvents(onFile, accepted) + PerFileEvents(onFile, [p])
  {
    assert (accepted + [p])[..|accepted|] == accepted;
    assert [p][..0] == [];
  }

  /** The per-file block is called once per accepted path, in order, when it
      is registered, and never otherwise. */
  lemma {:induction false} PerFileEventsSpec(onFile: Option<Handler>, accepted: seq<Path>)
    ensures onFile.None? ==> PerFileEvents(onFile, accepted) == []
    ensures onFile.Some? ==>
      |PerFileEvents(onFile, accepted)| == |accepted| &&
      forall i :: 0 <= i < |accepted| ==> PerFileEvents(onFile, accepted)[i] == FileEvent(onFile.value, accepted[i])
    decreases |accepted|
  {
    if accepted != [] {
      PerFileEventsSpec(onFile, accepted[..|accepted| - 1]);
    }
  }

  /** The calls a drop makes for the given accepted paths: the per-file calls,
      then the batch call when something was accepted and a batch block is
      registered. */
  function DropEvents(onFile: Option<Handler>, onFiles: Option<Handler>, accepted: seq<Path>): (events: seq<Event>)
  {
    PerFileEvents(onFile, accepted)
      + (if accepted != [] && onFiles.Some? then [FilesEvent(onFiles.value, accepted)] else [])
  }

  /** The shape of a drop's calls: per-file calls in order for the accepted
      paths, at most one batch call, which comes last, carries the whole
      accepted list and happens exactly when the list is non-empty and a
      batch block is registered. */
  lemma DropEventsShape(onFile: Option<Handler>, onFiles: Option<Handler>, accepted: seq<Path>)
    ensures var events := DropEvents(onFile, onFiles, accepted);
      var perFile := if onFile.Some? then |accepted| else 0;
      var batch := accepted != [] && onFiles.Some?;
      |events| == perFile + (if batch then 1 else 0) &&
      (forall i :: 0 <= i < perFile ==> events[i] == FileEvent(onFile.value, accepted[i])) &&
      (forall i :: 0 <= i < |events| && events[i].FilesEvent? ==> i == |events| - 1) &&
      (batch ==> events[|events| - 1] == FilesEvent(onFiles.value, accepted))
  {
    PerFileEventsSpec(onFile, accepted);
  }

  /** The view: its acceptance rules, its two single-slot observer
      registrations, and the calls it has made to the registered blocks. */
  class DragView {
    var acceptableTypes: seq<string>
    var acceptFolders: bool
    var onFile: Option<Handler>
    var onFiles: Option<Handler>
    var events: seq<Event>

    /** The rules as they stand now; every hover and drop reads them afresh. */
    function Rules(): Config
      reads this`acceptableTypes, this`acceptFolders
    {
      Config(acceptableTypes, acceptFolders)
    }

    /** NSDragView.create: the acceptable types default to [] and the folder
        flag to false; no block is registered and none has been called. */
    constructor Create(acceptableTypesOption: Option<seq<string>>, acceptFoldersOption: Option<bool>)
      ensures acceptableTypes == (if acceptableTypesOption.Some? then acceptableTypesOption.value else [])
      ensures acceptFolders == (acceptFoldersOption.Some? && acceptFoldersOption.value)
      ensures onFile.None? && onFiles.None? && events == []
    {
      acceptableTypes := if acceptableTypesOption.Some? then acceptableTypesOption.value else [];
      acceptFolders := acceptFoldersOption.Some? && acceptFoldersOption.value;
      onFile := None;
      onFiles := None;
      events := [];
    }

    /** acceptableTypes= */
    method SetAcceptableTypes(types: seq<string>)
      modifies this`acceptableTypes
      ensures acceptableTypes == types
    {
      acceptableTypes := types;
    }

    /** acceptFolders= */
    method SetAcceptFolders(flag: bool)
      modifies this`acceptFolders
      ensures acceptFolders == flag
    {
      acceptFolders := flag;
    }

    /** onFile: replaces the per-file block; None stands for a call without
        a block. */
    method OnFile(block: Option<Handler>)
      modifies this`onFile
      ensures onFile == block
    {
      onFile := block;
    }

    /** onFiles: replaces the batch block. */
    method OnFiles(block: Option<Handler>)
      modifies this`onFiles
      ensures onFiles == block
    {
      onFiles := block;
    }

    /** callOnFile: calls the per-file block with one path, if one is set. */
    method CallOnFile(filePath: Path)
      modifies this`events
      ensures events == old(events) + PerFileEvents(onFile, [filePath])
    {
      assert [filePath][..0] == [];
      if onFile.Some? {
        events := events + [FileEvent(onFile.value, filePath)];
      }
    }

    /** callOnFiles: calls the batch block with the list, if one is set. */
    method CallOnFiles(filePaths: seq<Path>)
      modifies this`events
      ensures events == old(events) + (if onFiles.Some? then [FilesEvent(onFiles.value, filePaths)] else [])
    {
      if onFiles.Some? {
        events := events + [FilesEvent(onFiles.value, filePaths)];
      }
    }

    /** draggingEntered: scans the candidates in order and stops at the first
        allowed one. It answers Copy exactly when the filenames type is there
        and some candidate is allowed; it changes nothing, so asking again
        gives the same answer. `examined` counts the candidates tested. The
        mask is not consulted (see HoverVerdict). */
    method DraggingEntered(filenames: Option<seq<Path>>, sourceDragMask: int, platform: Platform)
      returns (op: DragOperation, ghost examined: nat)
      ensures op == DragCopy <==>
        filenames.Some? &&
        exists i :: 0 <= i < |filenames.value| && FileAllowed(Rules(), platform, filenames.value[i])
      ensures op == HoverVerdict(Rules(), platform, filenames)
      ensures filenames.None? ==> examined == 0
      ensures filenames.Some? ==>
        examined == if op == DragCopy then FirstAllowed(Rules(), platform, filenames.value) + 1
                    else |filenames.value|
    {
      var canInitDraggedFiles := false;
      examined := 0;
      if filenames.Some? {
        var candidates := filenames.value;
        var i := 0;
        while i < |candidates|
          invariant 0 <= i <= |candidates|
          invariant examined == i
          invariant forall j :: 0 <= j < i ==> !FileAllowed(Rules(), platform, candidates[j])
          invariant !canInitDraggedFiles
        {
          examined := examined + 1;
          if FileAllowed(Rules(), platform, candidates[i]) {
            canInitDraggedFiles := true;
            break;
          }
          i := i + 1;
        }
        ghost var k := FirstAllowed(Rules(), platform, candidates);
        if canInitDraggedFiles {
          assert k == i;
        } else {
          assert k == |candidates|;
        }
      }
      // `sourceDragMask & NSDragOperationCopy` is an Integer and therefore
      // true in Ruby, whatever its value: only canInitDraggedFiles decides.
      op := if canInitDraggedFiles then DragCopy else DragNone;
    }

    /** performDragOperation: when the filenames type is there, collects the
        allowed candidates in order, calling the per-file block for each as it
        goes, then calls the batch block once with the collected list unless
        it is empty, and answers true; otherwise answers false and calls
        nothing. The rules and registrations are left as they were. */
    method PerformDragOperation(filenames: Option<seq<Path>>, platform: Platform)
      returns (handled: bool)
      modifies this`events
      ensures handled <==> filenames.Some?
      ensures filenames.None? ==> events == old(events)
      ensures filenames.Some? ==>
        events == old(events) + DropEvents(onFile, onFiles, AllowedPaths(Rules(), platform, filenames.value))
    {
      var filePaths: seq<Path> := [];
      var rules := Rules();
      if filenames.Some? {
        var candidates := filenames.value;
        var i := 0;
        while i < |candidates|
          invariant 0 <= i <= |candidates|
          invariant filePaths == AllowedPaths(rules, platform, candidates[..i])
          invariant events == old(events) + PerFileEvents(onFile, filePaths)
        {
          var filePath := candidates[i];
          AllowedPathsStep(rules, platform, candidates, i);
          if FileAllowed(rules, platform, filePath) {
            PerFileEventsStep(onFile, filePaths, filePath);
            filePaths := filePaths + [filePath];
            CallOnFile(filePath);
          }
          i := i + 1;
        }
        assert candidates[..i] == candidates;
        if filePaths != [] {
          CallOnFiles(filePaths);
        }
        return true;
      }
      return false;
    }
  }
}
