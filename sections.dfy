/**
 * The resume document as the editor sees it (public/js/main.js): the
 * `.section` elements of the one container, in document order, and the
 * section index panel built from them. Everything here is a value; the
 * class in resume_builder.dfy holds the mutable state.
 */
module Sections {
  import opened Wrappers

  /** Where a section came from: the rendered template, `addSection`, `saveObjective` or `saveCustomSection`. */
  datatype Kind = Rendered | Summary | Experience | Education | Skills | Objective | Custom

  /**
   * One `.section` element. `id` is the element's identity (the index panel's
   * handlers hold on to the element itself); `title` is the text of its
   * `.section-title` ("" when empty or absent); `body` the text a user typed
   * into the objective or custom-section dialog; `editable` whether its
   * contenteditable elements are "true"; `deleteShown` whether its delete
   * button is displayed; `titleColor` the inline colour of its heading.
   */
  datatype Section = Section(
    id: nat,
    kind: Kind,
    title: string,
    body: string,
    editable: bool,
    deleteShown: bool,
    titleColor: string)

  const DefaultHeadingColor: string := "#4d44db"
  const UntitledSection: string := "Untitled Section"
  const CustomSectionTitle: string := "Custom Section"

  /** The `switch` of `addSection` (main.js:165-213): kind and heading of each built-in skeleton. */
  function Skeleton(sectionType: string): (r: Option<(Kind, string)>)
    ensures r.Some? <==> sectionType in ["summary", "experience", "education", "skills"]
  {
    match sectionType
    case "summary" => Some((Summary, "Summary"))
    case "experience" => Some((Experience, "Work Experience"))
    case "education" => Some((Education, "Education"))
    case "skills" => Some((Skills, "Skills"))
    case _ => None
  }

  predicate DistinctIds(ss: seq<Section>)
  {
    forall i, j :: 0 <= i < j < |ss| ==> ss[i].id != ss[j].id
  }

  /** The same elements in the same order, whatever their look. */
  predicate SameOutline(a: seq<Section>, b: seq<Section>)
  {
    |a| == |b| &&
    forall i :: 0 <= i < |a| ==>
      a[i].id == b[i].id && a[i].kind == b[i].kind && a[i].title == b[i].title && a[i].body == b[i].body
  }

  // ---------------------------------------------------------------- look

  /** Every heading coloured `color` (`applyHeadingColor`, `switchTemplate`). */
  function Painted(ss: seq<Section>, color: string): (r: seq<Section>)
    ensures SameOutline(r, ss)
    ensures forall i :: 0 <= i < |r| ==>
      r[i].titleColor == color && r[i].deleteShown == ss[i].deleteShown && r[i].editable == ss[i].editable
  {
    seq(|ss|, i requires 0 <= i < |ss| => ss[i].(titleColor := color))
  }

  /** Every delete button shown iff `mode` (`setupEditableElements` and the second loop of `toggleEditMode`). */
  function WithButtons(ss: seq<Section>, mode: bool): (r: seq<Section>)
    ensures SameOutline(r, ss)
    ensures forall i :: 0 <= i < |r| ==>
      r[i].deleteShown == mode && r[i].titleColor == ss[i].titleColor && r[i].editable == ss[i].editable
  {
    seq(|ss|, i requires 0 <= i < |ss| => ss[i].(deleteShown := mode))
  }

  /** Colouring the headings changes the look only. */
  lemma PaintKeepsOutline(ss: seq<Section>, color: string)
    ensures var r := Painted(ss, color);
      SameOutline(r, ss) && (DistinctIds(ss) ==> DistinctIds(r)) &&
      forall i :: 0 <= i < |r| ==> r[i].deleteShown == ss[i].deleteShown && r[i].editable == ss[i].editable
  {
  }

  /** Colouring the headings twice leaves the second colour only. */
  lemma RepaintIsPaint(ss: seq<Section>, first: string, second: string)
    ensures Painted(Painted(ss, first), second) == Painted(ss, second)
  {
  }

  /** Showing or hiding the delete buttons and colouring the headings change the look only. */
  lemma LookKeepsOutline(ss: seq<Section>, mode: bool, color: string)
    ensures var r := Painted(WithButtons(ss, mode), color);
      SameOutline(r, ss) && (DistinctIds(ss) ==> DistinctIds(r)) &&
      forall i :: 0 <= i < |r| ==>
        r[i].deleteShown == mode && r[i].titleColor == color && r[i].editable == ss[i].editable
  {
  }

  /**
   * The first loop of `toggleEditMode`: only elements that are currently
   * contenteditable="true" are selected and set to the new mode.
   */
  function Locked(ss: seq<Section>, mode: bool): (r: seq<Section>)
    ensures SameOutline(r, ss)
    ensures forall i :: 0 <= i < |ss| ==>
      r[i].deleteShown == ss[i].deleteShown && r[i].titleColor == ss[i].titleColor &&
      (r[i].editable <==> ss[i].editable && mode)
  {
    seq(|ss|, i requires 0 <= i < |ss| => ss[i].(editable := ss[i].editable && mode))
  }

  /** The sections after one `toggleEditMode` that switches to `newMode`. */
  function Toggled(ss: seq<Section>, newMode: bool): (r: seq<Section>)
    ensures SameOutline(r, ss)
    ensures forall i :: 0 <= i < |ss| ==>
      r[i].deleteShown == newMode && r[i].titleColor == ss[i].titleColor && (r[i].editable <==> ss[i].editable && newMode)
  {
    WithButtons(Locked(ss, newMode), newMode)
  }

  /** The sections after `k` toggles starting in mode `mode`. */
  function ToggledTimes(ss: seq<Section>, mode: bool, k: nat): (r: seq<Section>)
    ensures SameOutline(r, ss)
    decreases k
  {
    if k == 0 then ss else ToggledTimes(Toggled(ss, !mode), !mode, k - 1)
  }

  /** The edit-mode flag after `k` toggles. */
  function ModeAfter(mode: bool, k: nat): bool
  {
    if k % 2 == 0 then mode else !mode
  }

  /**
   * Any number of toggles keeps the outline, never makes an element
   * editable that was not, leaves every delete button shown exactly when
   * the final mode is Edit, and after two or more toggles nothing is
   * editable any more.
   */
  lemma {:induction false} ToggledTimesFacts(ss: seq<Section>, mode: bool, k: nat)
    ensures SameOutline(ToggledTimes(ss, mode, k), ss)
    ensures forall i :: 0 <= i < |ss| && ToggledTimes(ss, mode, k)[i].editable ==> ss[i].editable
    ensures k >= 1 ==> forall i :: 0 <= i < |ss| ==> ToggledTimes(ss, mode, k)[i].deleteShown == ModeAfter(mode, k)
    ensures k >= 1 && !ModeAfter(mode, k) ==> forall i :: 0 <= i < |ss| ==> !ToggledTimes(ss, mode, k)[i].editable
    ensures k >= 2 ==> forall i :: 0 <= i < |ss| ==> !ToggledTimes(ss, mode, k)[i].editable
    decreases k
  {
    if k > 0 {
      var t := Toggled(ss, !mode);
      ToggledTimesFacts(t, !mode, k - 1);
      assert ModeAfter(mode, k) == ModeAfter(!mode, k - 1);
      if k == 2 {
        assert ToggledTimes(ss, mode, 2) == ToggledTimes(Toggled(t, mode), mode, 0);
      }
    }
  }

  /**
   * Two toggles give back the flag and every delete button's visibility,
   * but leave nothing editable.
   */
  lemma ToggleTwice(ss: seq<Section>, mode: bool)
    requires forall i :: 0 <= i < |ss| ==> ss[i].deleteShown == mode
    ensures ModeAfter(mode, 2) == mode
    ensures SameOutline(ToggledTimes(ss, mode, 2), ss)
    ensures forall i :: 0 <= i < |ss| ==>
      ToggledTimes(ss, mode, 2)[i].deleteShown == ss[i].deleteShown && !ToggledTimes(ss, mode, 2)[i].editable
  {
    ToggledTimesFacts(ss, mode, 2);
  }

  // ---------------------------------------------------------------- index panel

  /** The label of a panel entry (main.js:281). */
  function DisplayTitle(title: string): (t: string)
    ensures t != ""
    ensures title != "" ==> t == title
    ensures title == "" ==> t == UntitledSection
  {
    if title == "" then UntitledSection else title
  }

  /** One item of the section list: which element it was built for, at which index, with which arrows disabled. */
  datatype Entry = Entry(id: nat, index: nat, title: string, upDisabled: bool, downDisabled: bool)

  /** The section list: the "No sections added yet" placeholder, or one item per section. */
  datatype Panel = Placeholder | Entries(entries: seq<Entry>)

  function EntryFor(s: Section, index: nat, count: nat): (e: Entry)
    ensures e.id == s.id && e.index == index
    ensures e.title != "" && (s.title != "" ==> e.title == s.title)
    ensures (e.upDisabled <==> index == 0) && (e.downDisabled <==> index + 1 == count)
  {
    Entry(s.id, index, DisplayTitle(s.title), index == 0, index == count - 1)
  }

  /** The items for `ss`, the first of them standing at index `from` of `count`. */
  function PanelEntries(ss: seq<Section>, from: nat, count: nat): (r: seq<Entry>)
    ensures |r| == |ss|
    decreases |ss|
  {
    if ss == [] then [] else [EntryFor(ss[0], from, count)] + PanelEntries(ss[1..], from + 1, count)
  }

  /** Item `i` of the list is the one built for section `i`, at index `from + i`. */
  lemma {:induction false} PanelEntriesAt(ss: seq<Section>, from: nat, count: nat)
    ensures forall i :: 0 <= i < |ss| ==> PanelEntries(ss, from, count)[i] == EntryFor(ss[i], from + i, count)
    decreases |ss|
  {
    if ss != [] {
      PanelEntriesAt(ss[1..], from + 1, count);
      forall i | 0 < i < |ss|
        ensures PanelEntries(ss, from, count)[i] == EntryFor(ss[i], from + i, count)
      {
        assert ss[1..][i - 1] == ss[i];
      }
    }
  }

  /** What `updateSectionList` builds from the sections in document order (main.js:272-316). */
  function IndexPanel(ss: seq<Section>): (p: Panel)
    ensures p.Placeholder? <==> ss == []
    ensures p.Entries? ==> |p.entries| == |ss|
  {
    if ss == [] then Placeholder else Entries(PanelEntries(ss, 0, |ss|))
  }

  /**
   * The panel lists every section once, in document order, labelled with its
   * title or "Untitled Section"; an item's up arrow is disabled iff it is the
   * first and its down arrow iff it is the last; with no sections there is
   * only the placeholder.
   */
  lemma IndexPanelShape(ss: seq<Section>)
    ensures IndexPanel(ss).Placeholder? <==> ss == []
    ensures IndexPanel(ss).Entries? ==>
      |IndexPanel(ss).entries| == |ss| &&
      forall i :: 0 <= i < |ss| ==>
        IndexPanel(ss).entries[i].id == ss[i].id &&
        IndexPanel(ss).entries[i].index == i &&
        IndexPanel(ss).entries[i].title == (if ss[i].title == "" then "Untitled Section" else ss[i].title) &&
        (IndexPanel(ss).entries[i].upDisabled <==> i == 0) &&
        (IndexPanel(ss).entries[i].downDisabled <==> i == |ss| - 1)
  {
    PanelEntriesAt(ss, 0, |ss|);
  }

  /** The panel depends on identities and titles only, not on colours, buttons or editability. */
  lemma PanelIgnoresLook(a: seq<Section>, b: seq<Section>)
    requires SameOutline(a, b)
    ensures IndexPanel(a) == IndexPanel(b)
  {
    if a != [] {
      PanelEntriesAt(a, 0, |a|);
      PanelEntriesAt(b, 0, |b|);
      assert PanelEntries(a, 0, |a|) == PanelEntries(b, 0, |b|);
    }
  }

  // ---------------------------------------------------------------- moving

  /** Sections `i` and `i + 1` exchanged. */
  function Swapped(ss: seq<Section>, i: nat): (r: seq<Section>)
    requires i + 1 < |ss|
    ensures |r| == |ss| && r[i] == ss[i + 1] && r[i + 1] == ss[i]
    ensures forall j :: 0 <= j < |ss| && j != i && j != i + 1 ==> r[j] == ss[j]
    ensures multiset(r) == multiset(ss)
    ensures DistinctIds(ss) ==> DistinctIds(r)
  {
    assert ss == ss[..i] + [ss[i], ss[i + 1]] + ss[i + 2..];
    ss[..i] + [ss[i + 1], ss[i]] + ss[i + 2..]
  }

  /** Where the element `id` stands among the sections, -1 when it has been removed. */
  function PositionOf(ss: seq<Section>, id: nat): (p: int)
    ensures -1 <= p < |ss|
    ensures p == -1 <==> forall j :: 0 <= j < |ss| ==> ss[j].id != id
    ensures p >= 0 ==> ss[p].id == id
  {
    if ss == [] then -1
    else if ss[0].id == id then 0
    else
      var p := PositionOf(ss[1..], id);
      if p == -1 then -1 else p + 1
  }

  /**
   * A click on the up arrow of entry `e` (main.js:295-301). None when nothing
   * changes: the captured index is 0, or the captured element is no longer in
   * the document, so `section.parentNode` is null and the handler throws
   * before doing anything. When the element has no previous sibling,
   * `insertBefore(section, null)` moves it to the end.
   */
  function MoveUpOutcome(ss: seq<Section>, e: Entry): (r: Option<seq<Section>>)
    ensures r.None? <==> e.index == 0 || PositionOf(ss, e.id) < 0
    ensures r.Some? ==> multiset(r.value) == multiset(ss) && (DistinctIds(ss) ==> DistinctIds(r.value))
  {
    if e.index == 0 then None
    else
      var p := PositionOf(ss, e.id);
      if p < 0 then None
      else if p == 0 then RotationPermutes(ss); Some(ss[1..] + [ss[0]])
      else Some(Swapped(ss, p - 1))
  }

  /**
   * A click on the down arrow of entry `e`, `count` being the number of
   * sections when the panel was built (main.js:303-309). When the element
   * has no next sibling, `insertBefore(null, section)` throws.
   */
  function MoveDownOutcome(ss: seq<Section>, e: Entry, count: nat): (r: Option<seq<Section>>)
    ensures r.None? <==> e.index + 1 >= count || PositionOf(ss, e.id) < 0 || PositionOf(ss, e.id) == |ss| - 1
    ensures r.Some? ==> multiset(r.value) == multiset(ss) && (DistinctIds(ss) ==> DistinctIds(r.value))
  {
    if e.index >= count - 1 then None
    else
      var p := PositionOf(ss, e.id);
      if p < 0 || p == |ss| - 1 then None
      else Some(Swapped(ss, p))
  }

  /** On a panel that matches the document, the up arrow of item k > 0 swaps sections k - 1 and k. */
  lemma MoveUpSwapsAdjacent(ss: seq<Section>, k: nat)
    requires DistinctIds(ss) && 0 < k < |ss|
    ensures IndexPanel(ss).Entries? && |IndexPanel(ss).entries| == |ss|
    ensures MoveUpOutcome(ss, IndexPanel(ss).entries[k]) == Some(Swapped(ss, k - 1))
  {
    IndexPanelShape(ss);
    assert PositionOf(ss, ss[k].id) == k;
  }

  /** On a panel that matches the document, the down arrow of item k < n - 1 swaps sections k and k + 1. */
  lemma MoveDownSwapsAdjacent(ss: seq<Section>, k: nat)
    requires DistinctIds(ss) && k + 1 < |ss|
    ensures IndexPanel(ss).Entries? && |IndexPanel(ss).entries| == |ss|
    ensures MoveDownOutcome(ss, IndexPanel(ss).entries[k], |ss|) == Some(Swapped(ss, k))
  {
    IndexPanelShape(ss);
    assert PositionOf(ss, ss[k].id) == k;
  }

  /** The up arrow of the first item and the down arrow of the last change nothing. */
  lemma MovesAtTheEndsAreNoOps(ss: seq<Section>)
    requires ss != []
    ensures IndexPanel(ss).Entries? && |IndexPanel(ss).entries| == |ss|
    ensures MoveUpOutcome(ss, IndexPanel(ss).entries[0]) == None
    ensures MoveDownOutcome(ss, IndexPanel(ss).entries[|ss| - 1], |ss|) == None
  {
    IndexPanelShape(ss);
  }

  /** The first section moved to the end: same elements, identities still distinct. */
  lemma RotationPermutes(ss: seq<Section>)
    requires ss != []
    ensures multiset(ss[1..] + [ss[0]]) == multiset(ss)
    ensures DistinctIds(ss) ==> DistinctIds(ss[1..] + [ss[0]])
  {
    var r := ss[1..] + [ss[0]];
    assert ss == [ss[0]] + ss[1..];
    if DistinctIds(ss) {
      forall i, j | 0 <= i < j < |r| ensures r[i].id != r[j].id {
        assert r[i] == ss[i + 1];
        if j == |r| - 1 {
          assert r[j] == ss[0];
        } else {
          assert r[j] == ss[j + 1];
        }
      }
    }
  }

  /** A reordering keeps every per-element fact: here, the button state and an identity bound. */
  lemma ReorderingKeeps(r: seq<Section>, ss: seq<Section>, shown: bool, bound: nat)
    requires multiset(r) == multiset(ss)
    requires forall i :: 0 <= i < |ss| ==> ss[i].deleteShown == shown && ss[i].id < bound
    ensures forall i :: 0 <= i < |r| ==> r[i].deleteShown == shown && r[i].id < bound
  {
    forall i | 0 <= i < |r| ensures r[i].deleteShown == shown && r[i].id < bound {
      assert r[i] in multiset(r);
      assert r[i] in multiset(ss);
      var j :| 0 <= j < |ss| && ss[j] == r[i];
    }
  }

  /** What the editor keeps true of every section survives a move. */
  lemma MovesKeep(ss: seq<Section>, e: Entry, count: nat, shown: bool, bound: nat)
    requires DistinctIds(ss)
    requires forall i :: 0 <= i < |ss| ==> ss[i].deleteShown == shown && ss[i].id < bound
    ensures MoveUpOutcome(ss, e).Some? ==>
      var r := MoveUpOutcome(ss, e).value;
      DistinctIds(r) && forall i :: 0 <= i < |r| ==> r[i].deleteShown == shown && r[i].id < bound
    ensures MoveDownOutcome(ss, e, count).Some? ==>
      var r := MoveDownOutcome(ss, e, count).value;
      DistinctIds(r) && forall i :: 0 <= i < |r| ==> r[i].deleteShown == shown && r[i].id < bound
  {
    if MoveUpOutcome(ss, e).Some? {
      ReorderingKeeps(MoveUpOutcome(ss, e).value, ss, shown, bound);
    }
    if MoveDownOutcome(ss, e, count).Some? {
      ReorderingKeeps(MoveDownOutcome(ss, e, count).value, ss, shown, bound);
    }
  }

  /** The section removed from position p. */
  function Without(ss: seq<Section>, p: nat): (r: seq<Section>)
    requires p < |ss|
    ensures |r| == |ss| - 1
    ensures forall i :: 0 <= i < p ==> r[i] == ss[i]
    ensures forall i :: p <= i < |r| ==> r[i] == ss[i + 1]
    ensures DistinctIds(ss) ==> DistinctIds(r)
  {
    ss[..p] + ss[p + 1..]
  }

  /** Removing a section always leaves a panel that no longer matches the document. */
  lemma DeletionLeavesPanelStale(ss: seq<Section>, p: nat)
    requires p < |ss|
    ensures IndexPanel(Without(ss, p)) != IndexPanel(ss)
  {
    IndexPanelShape(ss);
    IndexPanelShape(Without(ss, p));
  }

  /**
   * After the first section is deleted, the stale panel's up arrow for the
   * section that is now first (captured index 1) sends it to the end of the
   * document instead of doing nothing.
   */
  lemma StaleUpArrowSendsFirstToEnd(ss: seq<Section>)
    requires DistinctIds(ss) && |ss| >= 2
    ensures IndexPanel(ss).Entries? && |IndexPanel(ss).entries| == |ss|
    ensures MoveUpOutcome(Without(ss, 0), IndexPanel(ss).entries[1]) == Some(ss[2..] + [ss[1]])
  {
    IndexPanelShape(ss);
    var rest := Without(ss, 0);
    assert rest[0] == ss[1];
    assert PositionOf(rest, ss[1].id) == 0;
    assert rest[1..] == ss[2..];
  }

  /** After a deletion, the stale panel's arrows for the deleted section do nothing. */
  lemma StaleArrowsOfDeletedSectionDoNothing(ss: seq<Section>, p: nat)
    requires DistinctIds(ss) && p < |ss|
    ensures IndexPanel(ss).Entries? && |IndexPanel(ss).entries| == |ss|
    ensures MoveUpOutcome(Without(ss, p), IndexPanel(ss).entries[p]) == None
    ensures MoveDownOutcome(Without(ss, p), IndexPanel(ss).entries[p], |ss|) == None
  {
    IndexPanelShape(ss);
    var rest := Without(ss, p);
    forall j | 0 <= j < |rest| ensures rest[j].id != ss[p].id {
      if j < p {
        assert rest[j] == ss[j];
      } else {
        assert rest[j] == ss[j + 1];
      }
    }
  }

  // ---------------------------------------------------------------- typing

  /**
   * Section `p` after the user has typed into its contenteditable heading and
   * body: its heading text is now `title` and its body text `body`.
   */
  function Typed(ss: seq<Section>, p: nat, title: string, body: string): (r: seq<Section>)
    requires p < |ss|
    ensures |r| == |ss| && r[p].title == title && r[p].body == body
    ensures r[p] == ss[p].(title := title, body := body)
    ensures forall i :: 0 <= i < |ss| && i != p ==> r[i] == ss[i]
    ensures DistinctIds(ss) ==> DistinctIds(r)
  {
    ss[p := ss[p].(title := title, body := body)]
  }

  /**
   * Typing leaves an earlier panel matching the document exactly when the
   * heading it displays for that section is unchanged; otherwise the panel
   * keeps showing the old heading until it is rebuilt.
   */
  lemma TypingAndPanel(ss: seq<Section>, p: nat, title: string, body: string)
    requires p < |ss|
    ensures IndexPanel(Typed(ss, p, title, body)) == IndexPanel(ss) <==>
      DisplayTitle(title) == DisplayTitle(ss[p].title)
  {
    var r := Typed(ss, p, title, body);
    IndexPanelShape(ss);
    IndexPanelShape(r);
    if DisplayTitle(title) == DisplayTitle(ss[p].title) {
      forall i | 0 <= i < |r|
        ensures IndexPanel(r).entries[i] == IndexPanel(ss).entries[i]
      {
      }
      assert IndexPanel(r).entries == IndexPanel(ss).entries;
    } else {
      assert IndexPanel(r).entries[p].title != IndexPanel(ss).entries[p].title;
    }
  }
}
