/**
 * The `split-pane` element: its children (panes and the splitters it
 * inserts), its track-size list and the `--grid-template` style property it
 * writes, and the state of a drag on one splitter.
 */
module SplitPanes {
  import opened Wrappers
  import opened JsText
  import opened GridTemplates
  import opened PaneLayout

  /** The two legal values of the `type` attribute. */
  datatype Orientation = Horizontal | Vertical {
    function Name(): string {
      match this
      case Horizontal => "horizontal"
      case Vertical => "vertical"
    }
  }

  /** The message of the error thrown at mount time without a legal `type`. */
  const TYPE_ERROR: string := "SplitPane: type must be specified: horizontal or vertical"

  /** `currentSplitterIdx`: a splitter index, or `Infinity` while no drag is active. */
  datatype DragIndex = Finite(n: int) | Infinity

  /** The element class. */
  class SplitPane {
    /** `type`: the orientation read from the attribute; any string, or `None` for `null`. */
    var orientation: Option<string>
    /** The element's `type` attribute, as the host document holds it. */
    var typeAttribute: Option<string>
    const gridTemplate: GridTemplate
    /** The element children, in document order. */
    var children: seq<Node>
    /** The `--grid-template` property of the element's inline style. */
    var gridTemplateProperty: string
    /** The position among `children` of the splitter being dragged. */
    var currentSplitter: Option<nat>
    var currentSplitterIdx: DragIndex
    /** The pointer offset along the axis when the drag started, a fractional CSS pixel value. */
    var cursorCorrection: real

    /** A new element with no children, a template seeded from `template` and, if given, its orientation. */
    constructor (paneType: Option<Orientation>, template: string := "")
      ensures fresh(gridTemplate)
      ensures gridTemplate.splitter == DEFAULT_SPLITTER
      ensures gridTemplate.parsedTemplate == Parsed([], template, DEFAULT_SPLITTER)
      ensures orientation == typeAttribute
      ensures paneType.Some? ==> orientation == Some(paneType.value.Name())
      ensures paneType.None? ==> orientation == None
      ensures children == [] && gridTemplateProperty == ""
      ensures currentSplitter == None && currentSplitterIdx == Infinity && cursorCorrection == 0.0
    {
      gridTemplate := new GridTemplate(template);
      children := [];
      gridTemplateProperty := "";
      currentSplitter := None;
      currentSplitterIdx := Infinity;
      cursorCorrection := 0.0;
      var name := if paneType.Some? then Some(paneType.value.Name()) else None;
      orientation := name;
      typeAttribute := name;
    }

    /** `getAllPanes()`: the children that are not splitters, in order. */
    function GetAllPanes(): (r: seq<PaneId>)
      reads this
      ensures |r| <= |children|
      ensures WellFormed(children) ==> |r| == (|children| + 1) / 2
    {
      WellFormedPanesIfShaped(children);
      Panes(children)
    }

    /** `length`: the number of panes. */
    function Length(): (n: nat)
      reads this
      ensures n <= |children|
      ensures WellFormed(children) ==> SplitterCount(children) == if n == 0 then 0 else n - 1
    {
      WellFormedPanesIfShaped(children);
      |GetAllPanes()|
    }

    /** `getPane(idx)`: the pane with `idx` panes before it, or `None` (`null`). */
    function GetPane(idx: int): (r: Option<PaneId>)
      reads this
      ensures r.Some? <==> 0 <= idx < Length()
      ensures r.Some? ==> children[PanePosition(children, idx)] == Pane(r.value)
      ensures r.Some? && WellFormed(children) ==> children[2 * idx] == Pane(r.value)
    {
      WellFormedPanesIfShaped(children);
      Item(GetAllPanes(), idx)
    }

    /**
     * `connectedCallback`: checks the `type` attribute, re-reads the template
     * from the style property, gives every child a non-empty entry, puts a
     * splitter after every child but the last and writes the style back.
     */
    method Mount() returns (outcome: Outcome<string>)
      modifies this`orientation, this`children, this`gridTemplateProperty, gridTemplate
      ensures orientation == old(typeAttribute)
      ensures outcome.Fail? <==> typeAttribute != Some("horizontal") && typeAttribute != Some("vertical")
      ensures outcome.Fail? ==>
        && outcome.error == TYPE_ERROR
        && children == old(children)
        && gridTemplate.parsedTemplate == old(gridTemplate.parsedTemplate)
        && gridTemplateProperty == old(gridTemplateProperty)
      ensures outcome.Pass? ==>
        && children == Interleaved(old(children))
        && gridTemplate.parsedTemplate
           == Filled(Parsed(old(gridTemplate.parsedTemplate), old(gridTemplateProperty), gridTemplate.splitter),
                     |old(children)|)
        && gridTemplateProperty == gridTemplate.Build()
      ensures gridTemplate.splitter == old(gridTemplate.splitter)
    {
      orientation := typeAttribute;
      if orientation != Some("horizontal") && orientation != Some("vertical") {
        return Fail(TYPE_ERROR);
      }

      var property := gridTemplateProperty;
      gridTemplate.Parse(property);
      MountChildren();

      gridTemplateProperty := gridTemplate.Build();
      return Pass;
    }

    /**
     * The loop of `connectedCallback` over the children present at mount
     * time: the child with index `idx` gets the entry "1fr" inserted at `idx`
     * unless entry `idx` is present and non-empty, and a splitter right after
     * it unless it is the last child.
     */
    method MountChildren()
      modifies this`children, gridTemplate
      ensures children == Interleaved(old(children))
      ensures gridTemplate.parsedTemplate == Filled(old(gridTemplate.parsedTemplate), |old(children)|)
      ensures gridTemplate.splitter == old(gridTemplate.splitter)
    {
      var childrenLength := |children|;
      var elements := children;
      ghost var parsed := gridTemplate.parsedTemplate;
      MountProgressEnds(elements);
      for idx := 0 to childrenLength
        invariant children == MountProgress(elements, idx)
        invariant gridTemplate.parsedTemplate == Filled(parsed, idx)
        invariant gridTemplate.splitter == old(gridTemplate.splitter)
      {
        var entry := gridTemplate.Get(idx);
        if entry.None? || entry.value == "" {
          gridTemplate.Add(idx);
        }
        assert gridTemplate.parsedTemplate == Filled(parsed, idx + 1);
        InterleaveStep(elements, idx);
        if idx + 1 < childrenLength {
          children := SplitterAfter(children, 2 * idx);
        }
      }
    }

    /**
     * `removePane(idx)`: removes pane `idx` with the splitter before it (or
     * after it, for the first pane), removes its template entry, resets the
     * entry bordering the gap to "1fr" and writes the style back. Returns
     * false, changing nothing, when there is no pane `idx`.
     */
    method RemovePane(idx: int) returns (removed: bool)
      modifies this`children, this`gridTemplateProperty, gridTemplate
      ensures removed <==> 0 <= idx < |Panes(old(children))|
      ensures !removed ==>
        && children == old(children)
        && gridTemplate.parsedTemplate == old(gridTemplate.parsedTemplate)
        && gridTemplateProperty == old(gridTemplateProperty)
      ensures removed ==>
        && children == ChildrenAfterRemoval(old(children), PanePosition(old(children), idx))
        && gridTemplate.parsedTemplate
           == TemplateAfterRemoval(old(gridTemplate.parsedTemplate), idx, idx + 1 < |Panes(old(children))|, idx > 0)
        && gridTemplateProperty == gridTemplate.Build()
      ensures gridTemplate.splitter == old(gridTemplate.splitter)
    {
      var panes := GetAllPanes();
      var prevPane := Item(panes, idx - 1);
      var pane := Item(panes, idx);
      var nextPane := Item(panes, idx + 1);

      if pane.Some? {
        ghost var before := children;
        ghost var position := PanePosition(children, idx);
        var p := RemoveSplitterBeside(PanePosition(children, idx));
        RemoveTrack(idx, nextPane.Some?, prevPane.Some?);
        children := Without(children, p);
        assert children == ChildrenAfterRemoval(before, position) by {
          RemovalSteps(before, position);
        }
        return true;
      }
      return false;
    }

    /**
     * The first step of `removePane`: removes the splitter before the child
     * at position `p`, or else the one after it, and returns the child's new
     * position.
     */
    method RemoveSplitterBeside(p: nat) returns (q: nat)
      requires p < |children|
      modifies this`children
      ensures q < |children|
      ensures 0 < p ==> q == p - 1 && children == Without(old(children), p - 1)
      ensures p == 0 && 1 < |old(children)| ==> q == 0 && children == Without(old(children), 1)
      ensures p == 0 && 1 == |old(children)| ==> q == 0 && children == old(children)
    {
      q := p;
      if 0 < p {
        children := Without(children, p - 1);
        q := p - 1;
      } else if p + 1 < |children| {
        children := Without(children, p + 1);
      }
    }

    /**
     * The template step of `removePane`: drops entry `idx`, resets the entry
     * that now borders the gap to "1fr" and writes the style back.
     */
    method RemoveTrack(idx: int, hasNext: bool, hasPrev: bool)
      modifies this`gridTemplateProperty, gridTemplate
      ensures gridTemplate.parsedTemplate == TemplateAfterRemoval(old(gridTemplate.parsedTemplate), idx, hasNext, hasPrev)
      ensures gridTemplateProperty == gridTemplate.Build()
      ensures gridTemplate.splitter == old(gridTemplate.splitter)
    {
      var ignored := gridTemplate.Remove(idx);
      if hasNext {
        ignored := gridTemplate.Set(idx);
      } else if hasPrev {
        ignored := gridTemplate.Set(idx - 1);
      }
      gridTemplateProperty := gridTemplate.Build();
    }

    /**
     * `resizeRAF`: one frame of a drag. From the rounded size the pointer
     * gives the previous pane and the two panes' extents, moves the
     * difference to the next pane, clamps both, writes their percentage
     * tokens into entries `currentSplitterIdx` and `currentSplitterIdx + 1`
     * and writes the style back. Does nothing without a current splitter.
     * `percentage(size)` is the token `${size / wholeSize * 100}%`.
     */
    method ResizeFrame(pointerPrevSize: int, prevExtent: nat, nextExtent: nat, percentage: int -> string)
      returns (prevPaneSize: int, nextPaneSize: int)
      modifies this`gridTemplateProperty, gridTemplate
      ensures currentSplitter.None? ==>
        gridTemplate.parsedTemplate == old(gridTemplate.parsedTemplate) && gridTemplateProperty == old(gridTemplateProperty)
      ensures currentSplitter.Some? ==>
        && gridTemplate.parsedTemplate
           == (match currentSplitterIdx
               case Finite(n) =>
                 Assigned(Assigned(old(gridTemplate.parsedTemplate), n, percentage(prevPaneSize)),
                          n + 1, percentage(nextPaneSize))
               case Infinity => old(gridTemplate.parsedTemplate))
        && gridTemplateProperty == gridTemplate.Build()
      ensures |gridTemplate.parsedTemplate| == |old(gridTemplate.parsedTemplate)|
      ensures forall j ::
                (0 <= j < |gridTemplate.parsedTemplate| && currentSplitterIdx != Finite(j) && currentSplitterIdx != Finite(j - 1))
                ==> gridTemplate.parsedTemplate[j] == old(gridTemplate.parsedTemplate)[j]
      ensures currentSplitter.Some? && (orientation == Some("horizontal") || orientation == Some("vertical")) ==>
        && prevPaneSize + nextPaneSize == prevExtent + nextExtent
        && 0 <= prevPaneSize <= prevExtent + nextExtent
        && 0 <= nextPaneSize <= prevExtent + nextExtent
        && (0 <= pointerPrevSize <= prevExtent + nextExtent ==> prevPaneSize == pointerPrevSize)
        && (pointerPrevSize < 0 ==> prevPaneSize == 0 && nextPaneSize == prevExtent + nextExtent)
        && (pointerPrevSize > prevExtent + nextExtent ==> prevPaneSize == prevExtent + nextExtent && nextPaneSize == 0)
      ensures currentSplitter.Some? && orientation != Some("horizontal") && orientation != Some("vertical") ==>
        prevPaneSize == 0 && nextPaneSize == 0
      ensures gridTemplate.splitter == old(gridTemplate.splitter)
    {
      prevPaneSize, nextPaneSize := 0, 0;
      if currentSplitter.Some? {
        var idx := currentSplitterIdx;
        var measuredPrevSize, measuredPrevExtent, measuredNextExtent := 0, 0, 0;
        if orientation == Some("horizontal") || orientation == Some("vertical") {
          measuredPrevSize, measuredPrevExtent, measuredNextExtent := pointerPrevSize, prevExtent, nextExtent;
        }
        var bothPaneSize;
        prevPaneSize, nextPaneSize, bothPaneSize := ClampSizes(measuredPrevSize, measuredPrevExtent, measuredNextExtent);

        if idx.Finite? {
          var ignored := gridTemplate.Set(idx.n, percentage(prevPaneSize));
          ignored := gridTemplate.Set(idx.n + 1, percentage(nextPaneSize));
        }

        gridTemplateProperty := gridTemplate.Build();
      }
    }

    /**
     * The pointer-down handler: on a splitter child, starts a drag on it,
     * recording its index among the splitters and the pointer's offset along
     * the axis. Elsewhere it does nothing.
     */
    method PointerDown(target: int, offsetX: real, offsetY: real)
      modifies this`currentSplitter, this`currentSplitterIdx, this`cursorCorrection
      ensures 0 <= target < |children| && children[target] == Splitter ==>
        && currentSplitter == Some(target)
        && currentSplitterIdx == Finite(SplitterIndex(children, target))
        && cursorCorrection == (if orientation == Some("horizontal") then offsetX else offsetY)
      ensures 0 <= target < |children| && children[target] == Splitter && WellFormed(children) ==>
        currentSplitterIdx == Finite((target - 1) / 2)
      ensures !(0 <= target < |children| && children[target] == Splitter) ==>
        && currentSplitter == old(currentSplitter)
        && currentSplitterIdx == old(currentSplitterIdx)
        && cursorCorrection == old(cursorCorrection)
    {
      if 0 <= target < |children| && children[target] == Splitter {
        currentSplitter := Some(target);
        currentSplitterIdx := Finite(SplitterIndex(children, target));
        cursorCorrection := if orientation == Some("horizontal") then offsetX else offsetY;
        if WellFormed(children) {
          SplitterBetweenPanes(children, target);
          WellFormedPrefixPanes(children, target);
        }
      }
    }

    /** The pointer-up handler: while the element holds the pointer capture, ends the drag. */
    method PointerUp(hasCapture: bool)
      modifies this`currentSplitter, this`currentSplitterIdx, this`cursorCorrection
      ensures hasCapture ==> currentSplitter == None && currentSplitterIdx == Infinity && cursorCorrection == 0.0
      ensures !hasCapture ==>
        && currentSplitter == old(currentSplitter)
        && currentSplitterIdx == old(currentSplitterIdx)
        && cursorCorrection == old(cursorCorrection)
    {
      if hasCapture {
        currentSplitter := None;
        currentSplitterIdx := Infinity;
        cursorCorrection := 0.0;
      }
    }
  }

  /** A well-formed child sequence has as many panes as the shape says. */
  lemma WellFormedPanesIfShaped(cs: seq<Node>)
    ensures WellFormed(cs) ==> |Panes(cs)| == (|cs| + 1) / 2
    ensures WellFormed(cs) ==> forall i :: 0 <= i < |Panes(cs)| ==> cs[2 * i] == Pane(Panes(cs)[i])
  {
    if WellFormed(cs) {
      WellFormedPanes(cs);
    }
  }

  /**
   * Once panes `ids` are mounted, `length` is their number, `getPane(i)` is
   * pane `i` for every `i < length`, and `getPane(length)` is `null`.
   */
  lemma MountedQueries(sp: SplitPane, ids: seq<PaneId>)
    requires sp.children == Interleaved(PaneChildren(ids))
    ensures sp.Length() == |ids|
    ensures forall i :: 0 <= i < |ids| ==> sp.GetPane(i) == Some(ids[i])
    ensures sp.GetPane(|ids|) == None && sp.GetPane(-1) == None
  {
    var cs := PaneChildren(ids);
    InterleavedWellFormed(cs);
    AllPanes(cs);
  }

  /** The three-pane case: `length` is 3 and `getPane(3)` is `null`. */
  lemma ThreePaneQueries(sp: SplitPane, a: PaneId, b: PaneId, c: PaneId)
    requires sp.children == Interleaved([Pane(a), Pane(b), Pane(c)])
    ensures sp.Length() == 3
    ensures sp.GetPane(0) == Some(a) && sp.GetPane(1) == Some(b) && sp.GetPane(2) == Some(c)
    ensures sp.GetPane(3) == None
  {
    assert PaneChildren([a, b, c]) == [Pane(a), Pane(b), Pane(c)];
    MountedQueries(sp, [a, b, c]);
  }
}
