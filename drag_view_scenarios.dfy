/** Concrete drags: what the view does for a few fixed candidate lists, and a
    client that uses the view's methods the way a host application does.
    Each scenario names its candidates by their extensions ("a.txt" is any
    path whose extension is "txt"); FilesOnly shows that such paths exist
    under the rule of PathNames. */
module DragViewScenarios {
  import opened PathNames
  import opened DragViews

  /** No path is a directory here; these scenarios are about files. */
  function NoDirectories(p: Path): bool { false }

  /** A platform without directories whose extensions follow PathNames. */
  const FilesOnly: Platform := Platform(NoDirectories, PathExtension)

  /** The files a.txt, b.png, c.txt, d.png, e.txt of the scenarios. */
  predicate ScenarioFiles(platform: Platform, a: Path, b: Path, c: Path, d: Path, e: Path)
  {
    && platform.pathExtension(a) == "txt" && platform.pathExtension(b) == "png"
    && platform.pathExtension(c) == "txt" && platform.pathExtension(d) == "png"
    && platform.pathExtension(e) == "txt"
    && !platform.isDirectory(a) && !platform.isDirectory(b) && !platform.isDirectory(c)
    && !platform.isDirectory(d) && !platform.isDirectory(e)
  }

  /** Under FilesOnly, "x.txt" is a file with extension "txt", and "x.png"
      one with extension "png". */
  lemma {:induction false} FilesOnlyTxtPng(x: string)
    ensures FilesOnly.pathExtension(x + ".txt") == "txt" && !FilesOnly.isDirectory(x + ".txt")
    ensures FilesOnly.pathExtension(x + ".png") == "png" && !FilesOnly.isDirectory(x + ".png")
  {
    assert x + ".txt" == x + "." + "txt";
    ExtensionOfSuffix(x, "txt");
    assert x + ".png" == x + "." + "png";
    ExtensionOfSuffix(x, "png");
  }

  /** Under FilesOnly, five stems give the five scenario files. */
  lemma {:induction false} FilesOnlyHasScenarioFiles(a: string, b: string, c: string, d: string, e: string)
    ensures ScenarioFiles(FilesOnly, a + ".txt", b + ".png", c + ".txt", d + ".png", e + ".txt")
  {
    FilesOnlyTxtPng(a);
    FilesOnlyTxtPng(b);
    FilesOnlyTxtPng(c);
    FilesOnlyTxtPng(d);
    FilesOnlyTxtPng(e);
  }

  /** Dropping a.txt, b.png, c.txt on a view accepting txt collects a.txt
      and c.txt, in that order. */
  lemma {:induction false} OrderPreservedOnDrop(platform: Platform, a: Path, b: Path, c: Path, d: Path, e: Path)
    requires ScenarioFiles(platform, a, b, c, d, e)
    ensures AllowedPaths(Config(["txt"], false), platform, [a, b, c]) == [a, c]
  {
    var cfg := Config(["txt"], false);
    assert FileAllowed(cfg, platform, a) && FileAllowed(cfg, platform, c);
    assert !FileAllowed(cfg, platform, b) by { assert "png" != "txt"; }
    assert AllowedPaths(cfg, platform, [a]) == [a] by { AllowedPathsSingle(cfg, platform, a); }
    assert AllowedPaths(cfg, platform, [a, b]) == [a] by { AllowedPathsStep(cfg, platform, [a, b], 1); }
    AllowedPathsStep(cfg, platform, [a, b, c], 2);
    assert [a, b, c][..2] == [a, b] && [a, b, c][..3] == [a, b, c];
  }

  /** With blocks 1 and 2 registered, accepting a.txt and c.txt calls block
      1 with a.txt, then with c.txt, then block 2 with both. */
  lemma {:induction false} CallsInOrderOnDrop(a: Path, c: Path)
    ensures DropEvents(Some(1), Some(2), [a, c]) == [FileEvent(1, a), FileEvent(1, c), FilesEvent(2, [a, c])]
  {
    PerFileEventsSpec(Some(1), [a, c]);
  }

  /** Dropping only d.png on a view accepting txt collects nothing, so no
      block is called. */
  lemma {:induction false} NothingAcceptedNothingCalled(platform: Platform, a: Path, b: Path, c: Path, d: Path, e: Path)
    requires ScenarioFiles(platform, a, b, c, d, e)
    ensures AllowedPaths(Config(["txt"], false), platform, [d]) == []
  {
    assert "png" != "txt";
    AllowedPathsSingle(Config(["txt"], false), platform, d);
  }

  /** Hovering with d.png, e.txt offers Copy, and the scan stops at e.txt. */
  lemma {:induction false} HoverFindsSecondCandidate(platform: Platform, a: Path, b: Path, c: Path, d: Path, e: Path)
    requires ScenarioFiles(platform, a, b, c, d, e)
    ensures FirstAllowed(Config(["txt"], false), platform, [d, e]) == 1
    ensures HoverVerdict(Config(["txt"], false), platform, Some([d, e])) == DragCopy
  {
    assert "png" != "txt";
    assert [d, e][1..] == [e];
  }

  /** A host hovering: the rules are read afresh at every call, a mask of
      0 does not refuse the drag, and hovering twice answers the same. */
  method HoverSession(platform: Platform, a: Path, b: Path, c: Path, d: Path, e: Path)
    requires ScenarioFiles(platform, a, b, c, d, e)
  {
    var view := new DragView.Create(Some(["png"]), None);
    var candidates := [a, b, c];
    view.SetAcceptableTypes(["txt"]);
    var rules := view.Rules();
    assert FileAllowed(rules, platform, candidates[0]);
    assert FirstAllowed(rules, platform, candidates) == 0;
    var op1, examined1 := view.DraggingEntered(Some(candidates), 0, platform);
    var op2, examined2 := view.DraggingEntered(Some(candidates), 0, platform);
    assert op1 == op2 == DragCopy;
    assert examined1 == 1;
  }

  /** A host dropping: the latest registration receives the calls, in
      candidate order and then as a batch, and a drop without the filenames
      type calls nothing. */
  method DropSession(platform: Platform, a: Path, b: Path, c: Path, d: Path, e: Path)
    requires ScenarioFiles(platform, a, b, c, d, e)
  {
    var view := new DragView.Create(Some(["txt"]), None);
    view.OnFile(Some(7));
    view.OnFile(Some(1));
    view.OnFiles(Some(2));
    OrderPreservedOnDrop(platform, a, b, c, d, e);
    CallsInOrderOnDrop(a, c);
    var handled := view.PerformDragOperation(Some([a, b, c]), platform);
    assert handled;
    assert view.events == [FileEvent(1, a), FileEvent(1, c), FilesEvent(2, [a, c])];

    var unhandled := view.PerformDragOperation(None, platform);
    assert !unhandled;
    assert |view.events| == 3;
  }

  /** A png file is refused by a view accepting txt, and collected, with
      both blocks called for it, by one accepting png. */
  lemma {:induction false} PngRefusedThenAccepted(platform: Platform, d: Path)
    requires platform.pathExtension(d) == "png" && !platform.isDirectory(d)
    ensures HoverVerdict(Config(["txt"], false), platform, Some([d])) == DragNone
    ensures DropEvents(Some(1), Some(2), AllowedPaths(Config(["png"], false), platform, [d]))
         == [FileEvent(1, d), FilesEvent(2, [d])]
  {
    assert "png" != "txt";
    assert [d][1..] == [];
    AllowedPathsSingle(Config(["png"], false), platform, d);
    PerFileEventsSpec(Some(1), [d]);
  }

  /** The rules are read afresh at every call: d.png is refused while the
      view accepts only txt, and accepted by the drop that follows a switch
      to png, which calls both blocks for it. */
  method RulesReadAtEachCall(platform: Platform, d: Path)
    returns (hover: DragOperation, dropped: seq<Event>)
    requires platform.pathExtension(d) == "png" && !platform.isDirectory(d)
    ensures hover == DragNone
    ensures dropped == [FileEvent(1, d), FilesEvent(2, [d])]
  {
    PngRefusedThenAccepted(platform, d);
    var view := new DragView.Create(Some(["txt"]), None);
    view.OnFile(Some(1));
    view.OnFiles(Some(2));
    ghost var examined;
    hover, examined := view.DraggingEntered(Some([d]), 1, platform);
    view.SetAcceptableTypes(["png"]);
    var handled := view.PerformDragOperation(Some([d]), platform);
    dropped := view.events;
  }
}
