/**
 * The `ResumeBuilder` editor object (public/js/main.js:2-449) as a class
 * whose fields are the parts of the page it reads and changes: the edit-mode
 * flag, the `.section` elements in document order, the section index panel,
 * the settings controls, the alignment buttons and template cards, the
 * resume canvas's classes and the local-storage slot. The template's
 * primary colour, which the browser computes from the stylesheet, and the
 * user's answer to the confirmation dialog are parameters.
 */
module ResumeEditor {
  import opened Wrappers
  import opened Sections
  import opened Settings

  /** The classes `switchTemplate` removes before adding the new one (main.js:146). */
  const TemplateClasses: set<string> :=
    {"template-professional", "template-modern", "template-creative", "template-minimal"}

  /** The canvas classes after `switchTemplate(name)`. */
  function SwitchedClasses(classes: set<string>, name: string): (r: set<string>)
    ensures "template-" + name in r
    ensures forall c :: c != "template-" + name ==> (c in r <==> c in classes && c !in TemplateClasses)
  {
    (classes - TemplateClasses) + {"template-" + name}
  }

  /** Switching to one of the four templates leaves exactly that one of the four on the canvas. */
  lemma SwitchToKnownTemplate(classes: set<string>, name: string)
    requires "template-" + name in TemplateClasses
    ensures SwitchedClasses(classes, name) * TemplateClasses == {"template-" + name}
    ensures forall c :: c !in TemplateClasses ==> (c in SwitchedClasses(classes, name) <==> c in classes)
  {
  }

  /** A class for a name outside the four is never removed by a later switch. */
  lemma UnknownTemplateClassLingers(classes: set<string>, a: string, b: string)
    requires "template-" + a !in TemplateClasses
    ensures "template-" + a in SwitchedClasses(SwitchedClasses(classes, a), b)
  {
  }

  /** The colour `applyHeadingColor` uses: the control's value, or the default when it is empty (main.js:338). */
  function HeadingColor(c: Controls): (color: string)
    ensures color != ""
    ensures c.headingColor != "" ==> color == c.headingColor
    ensures c.headingColor == "" ==> color == DefaultHeadingColor
  {
    if c.headingColor == "" then DefaultHeadingColor else c.headingColor
  }

  /**
   * The click handlers' `classList.remove('active')` loop over every choice,
   * then `classList.add('active')` on the clicked one.
   */
  method SelectChoice(cs: seq<Choice>, k: nat) returns (r: seq<Choice>)
    requires k < |cs|
    ensures r == Selected(cs, k)
  {
    r := cs;
    var i := 0;
    while i < |r|
      invariant 0 <= i <= |r| == |cs|
      invariant forall j :: 0 <= j < i ==> r[j] == cs[j].(active := false)
      invariant forall j :: i <= j < |r| ==> r[j] == cs[j]
    {
      r := r[i := r[i].(active := false)];
      i := i + 1;
    }
    r := r[k := r[k].(active := true)];
  }

  /** The `classList.toggle('active', value === stored)` loops of `loadSettings`. */
  method MarkActive(cs: seq<Choice>, stored: Option<string>) returns (r: seq<Choice>)
    ensures r == Activated(cs, stored)
  {
    r := cs;
    var i := 0;
    while i < |r|
      invariant 0 <= i <= |r| == |cs|
      invariant forall j :: 0 <= j < i ==> r[j] == cs[j].(active := stored == Some(cs[j].value))
      invariant forall j :: i <= j < |r| ==> r[j] == cs[j]
    {
      r := r[i := r[i].(active := stored == Some(r[i].value))];
      i := i + 1;
    }
  }

  /** The `forEach` that sets every section title's colour. */
  method PaintLoop(ss: seq<Section>, color: string) returns (r: seq<Section>)
    ensures r == Painted(ss, color)
  {
    r := ss;
    var i := 0;
    while i < |r|
      invariant 0 <= i <= |r| == |ss|
      invariant forall j :: 0 <= j < i ==> r[j] == ss[j].(titleColor := color)
      invariant forall j :: i <= j < |r| ==> r[j] == ss[j]
    {
      r := r[i := r[i].(titleColor := color)];
      i := i + 1;
    }
  }

  /** The `forEach` that shows or hides every delete button. */
  method ButtonsLoop(ss: seq<Section>, mode: bool) returns (r: seq<Section>)
    ensures r == WithButtons(ss, mode)
  {
    r := ss;
    var i := 0;
    while i < |r|
      invariant 0 <= i <= |r| == |ss|
      invariant forall j :: 0 <= j < i ==> r[j] == ss[j].(deleteShown := mode)
      invariant forall j :: i <= j < |r| ==> r[j] == ss[j]
    {
      r := r[i := r[i].(deleteShown := mode)];
      i := i + 1;
    }
  }

  /** The `forEach` over the elements that are contenteditable="true", setting them to `mode`. */
  method LockLoop(ss: seq<Section>, mode: bool) returns (r: seq<Section>)
    ensures r == Locked(ss, mode)
  {
    r := ss;
    var i := 0;
    while i < |r|
      invariant 0 <= i <= |r| == |ss|
      invariant forall j :: 0 <= j < i ==> r[j] == ss[j].(editable := ss[j].editable && mode)
      invariant forall j :: i <= j < |r| ==> r[j] == ss[j]
    {
      if r[i].editable {
        r := r[i := r[i].(editable := mode)];
      }
      i := i + 1;
    }
  }

  /** The heading colour once `init` has run: the template's primary colour when one is stored, else the control's. */
  function InitialHeadingColor(c: Controls, stored: Option<Snapshot>, primary: string): (color: string)
    ensures stored.Some? && Truthy(stored.value.template) ==> color == primary
    ensures !(stored.Some? && Truthy(stored.value.template)) ==> color == HeadingColor(c) && color != ""
  {
    if stored.Some? && Truthy(stored.value.template) then primary else HeadingColor(c)
  }

  /** The canvas classes once `init` has run. */
  function InitialClasses(classes: set<string>, stored: Option<Snapshot>): (r: set<string>)
    ensures stored.Some? && Truthy(stored.value.template) ==> "template-" + stored.value.template.value in r
    ensures !(stored.Some? && Truthy(stored.value.template)) ==> r == classes
  {
    if stored.Some? && Truthy(stored.value.template) then SwitchedClasses(classes, stored.value.template.value)
    else classes
  }

  /** The sections once `init` has run: delete buttons set for the mode, every heading in the init-time colour. */
  function InitialSections(ss: seq<Section>, mode: bool, c: Controls, stored: Option<Snapshot>, primary: string): (r: seq<Section>)
    ensures SameOutline(r, ss)
    ensures forall i :: 0 <= i < |r| ==>
      r[i].deleteShown == mode && r[i].titleColor == InitialHeadingColor(c, stored, primary) && r[i].editable == ss[i].editable
  {
    Painted(WithButtons(ss, mode), InitialHeadingColor(c, stored, primary))
  }

  class ResumeBuilder {
    var editMode: bool
    /** The `.section` elements, all children of `.resume-inner`, in document order. */
    var sections: seq<Section>
    /** The identity the next inserted element gets. */
    var nextId: nat
    /** The `#sectionList` panel as last built. */
    var panel: Panel
    var controls: Controls
    var alignments: seq<Choice>
    var templateCards: seq<Choice>
    /** The class list of `#resumeCanvas`. */
    var canvasClasses: set<string>
    /** localStorage 'resumeSettings'. */
    var storage: Option<Snapshot>

    ghost predicate WellFormed()
      reads this`sections, this`nextId
    {
      DistinctIds(sections) && forall i :: 0 <= i < |sections| ==> sections[i].id < nextId
    }

    /** Between events, every delete button is shown exactly when edit mode is on. */
    ghost predicate Valid()
      reads this`sections, this`nextId, this`editMode
    {
      WellFormed() && forall i :: 0 <= i < |sections| ==> sections[i].deleteShown == editMode
    }

    /** The index panel lists the sections as they now stand. */
    ghost predicate PanelCurrent()
      reads this`panel, this`sections
    {
      panel == IndexPanel(sections)
    }

    /**
     * `new ResumeBuilder()` on a rendered page whose sections have the given
     * titles: Preview mode, every element still contenteditable, then `init()`.
     */
    constructor (titles: seq<string>, inputs: Controls, alignmentButtons: seq<Choice>,
                 cards: seq<Choice>, classes: set<string>, stored: Option<Snapshot>, primary: string)
      ensures Valid() && PanelCurrent() && !editMode
      ensures |sections| == |titles|
      ensures forall i :: 0 <= i < |titles| ==>
        sections[i].title == titles[i] && sections[i].kind == Rendered && sections[i].editable
      ensures storage == stored
      ensures forall i :: 0 <= i < |titles| ==> sections[i].titleColor == InitialHeadingColor(inputs, stored, primary)
      ensures canvasClasses == InitialClasses(classes, stored)
      ensures stored.None? ==>
        controls == inputs && alignments == alignmentButtons && templateCards == cards
      ensures stored.Some? ==>
        controls == AfterLoad(inputs, stored.value, primary) &&
        alignments == Activated(alignmentButtons, stored.value.textAlign) &&
        templateCards == Activated(cards, stored.value.template)
    {
      editMode := false;
      sections := seq(|titles|, i requires 0 <= i < |titles| => Section(i, Rendered, titles[i], "", true, true, ""));
      nextId := |titles|;
      panel := Placeholder;
      controls := inputs;
      alignments := alignmentButtons;
      templateCards := cards;
      canvasClasses := classes;
      storage := stored;
      new;
      Init(primary);
    }

    /**
     * `init` (main.js:28-35): build the panel, hide or show the delete
     * buttons, colour the headings, load the settings. Only the look of the
     * sections changes.
     */
    method Init(primary: string)
      requires WellFormed()
      modifies this`panel, this`sections, this`controls, this`canvasClasses, this`alignments, this`templateCards
      ensures Valid() && PanelCurrent()
      ensures sections == InitialSections(old(sections), editMode, old(controls), storage, primary)
      ensures canvasClasses == InitialClasses(old(canvasClasses), storage)
      ensures storage.None? ==>
        controls == old(controls) && alignments == old(alignments) && templateCards == old(templateCards)
      ensures storage.Some? ==>
        controls == AfterLoad(old(controls), storage.value, primary) &&
        alignments == Activated(old(alignments), storage.value.textAlign) &&
        templateCards == Activated(old(templateCards), storage.value.template)
    {
      RenderSections();
      LoadSettings(primary);
      if storage.Some? && Truthy(storage.value.template) {
        RepaintIsPaint(WithButtons(old(sections), editMode), HeadingColor(old(controls)), primary);
      }
    }

    /** The first three steps of `init` (main.js:31-33): the panel, the delete buttons, the heading colours. */
    method RenderSections()
      requires WellFormed()
      modifies this`panel, this`sections
      ensures Valid() && PanelCurrent()
      ensures sections == Painted(WithButtons(old(sections), editMode), HeadingColor(controls))
    {
      UpdateSectionList();
      SetupEditableElements();
      ApplyHeadingColor();
      LookKeepsOutline(old(sections), editMode, HeadingColor(controls));
      PanelIgnoresLook(sections, old(sections));
    }

    /**
     * `toggleEditMode` (main.js:123-142): flip the flag, set every element
     * that is still contenteditable="true" to the new mode, and show the
     * delete buttons exactly in Edit mode.
     */
    method ToggleEditMode()
      requires Valid()
      modifies this`editMode, this`sections
      ensures Valid()
      ensures editMode == !old(editMode)
      ensures sections == Toggled(old(sections), editMode)
      ensures old(PanelCurrent()) ==> PanelCurrent()
    {
      editMode := !editMode;
      sections := LockLoop(sections, editMode);
      sections := ButtonsLoop(sections, editMode);
      PanelIgnoresLook(sections, old(sections));
    }

    /** Colour every section heading. */
    method PaintTitles(color: string)
      modifies this`sections
      ensures sections == Painted(old(sections), color)
      ensures old(PanelCurrent()) ==> PanelCurrent()
      ensures old(Valid()) ==> Valid()
    {
      sections := PaintLoop(sections, color);
      PaintKeepsOutline(old(sections), color);
      PanelIgnoresLook(sections, old(sections));
    }

    /**
     * `switchTemplate(name)` (main.js:144-159): replace the template class,
     * then give every heading and the heading-colour control the template's
     * primary colour.
     */
    method SwitchTemplate(name: string, primary: string)
      modifies this`canvasClasses, this`sections, this`controls
      ensures canvasClasses == SwitchedClasses(old(canvasClasses), name)
      ensures sections == Painted(old(sections), primary)
      ensures controls == old(controls).(headingColor := primary)
      ensures old(PanelCurrent()) ==> PanelCurrent()
      ensures old(Valid()) ==> Valid()
    {
      canvasClasses := (canvasClasses - TemplateClasses) + {"template-" + name};
      PaintTitles(primary);
      controls := controls.(headingColor := primary);
    }

    /** `applyHeadingColor` (main.js:337-342). */
    method ApplyHeadingColor()
      modifies this`sections
      ensures sections == Painted(old(sections), HeadingColor(controls))
    {
      var color := if controls.headingColor == "" then DefaultHeadingColor else controls.headingColor;
      PaintTitles(color);
    }

    /** `setupEditableElements` (main.js:319-325): every delete button shown iff Edit mode. */
    method SetupEditableElements()
      modifies this`sections
      ensures sections == WithButtons(old(sections), editMode)
    {
      sections := ButtonsLoop(sections, editMode);
    }

    /** `updateSectionList` (main.js:269-317): rebuild the panel from the sections in document order. */
    method UpdateSectionList()
      modifies this`panel
      ensures PanelCurrent()
    {
      if |sections| == 0 {
        panel := Placeholder;
        return;
      }
      var n := |sections|;
      var items: seq<Entry> := [];
      var i := 0;
      while i < n
        invariant 0 <= i <= n
        invariant |items| == i
        invariant forall j :: 0 <= j < i ==> items[j] == EntryFor(sections[j], j, n)
      {
        var title := if sections[i].title == "" then UntitledSection else sections[i].title;
        items := items + [Entry(sections[i].id, i, title, i == 0, i == n - 1)];
        i := i + 1;
      }
      PanelEntriesAt(sections, 0, n);
      panel := Entries(items);
    }

    /** `insertAdjacentHTML('beforeend', …)`: a new element at the end of the container. */
    method InsertSection(kind: Kind, title: string, body: string)
      requires WellFormed()
      modifies this`sections, this`nextId
      ensures WellFormed()
      ensures sections == old(sections) + [Section(old(nextId), kind, title, body, true, true, "")]
      ensures nextId == old(nextId) + 1
    {
      sections := sections + [Section(nextId, kind, title, body, true, true, "")];
      nextId := nextId + 1;
    }

    /**
     * `setupEditableElements`, `updateSectionList` and `applyHeadingColor`
     * after an insertion (main.js:216-218 and `postSectionAddition`, 255-260).
     */
    method PostSectionAddition()
      requires WellFormed()
      modifies this`sections, this`panel
      ensures Valid() && PanelCurrent()
      ensures sections == Painted(WithButtons(old(sections), editMode), HeadingColor(controls))
    {
      SetupEditableElements();
      UpdateSectionList();
      ghost var listed := sections;
      ApplyHeadingColor();
      PanelIgnoresLook(sections, listed);
    }

    /**
     * `addSection` (main.js:161-220): append the skeleton for the selected
     * kind; an unknown kind inserts empty markup, so only the panel
     * rebuild and the heading colours take effect.
     */
    method AddSection(sectionType: string)
      requires Valid()
      modifies this`sections, this`nextId, this`panel
      ensures Valid() && PanelCurrent()
      ensures Skeleton(sectionType).None? ==>
        sections == Painted(old(sections), HeadingColor(controls)) && nextId == old(nextId)
      ensures Skeleton(sectionType).Some? ==>
        |sections| == |old(sections)| + 1 &&
        sections[..|old(sections)|] == Painted(old(sections), HeadingColor(controls)) &&
        sections[|old(sections)|] ==
          Section(old(nextId), Skeleton(sectionType).value.0, Skeleton(sectionType).value.1, "",
                  true, editMode, HeadingColor(controls))
    {
      var skeleton := Skeleton(sectionType);
      if skeleton.Some? {
        InsertSection(skeleton.value.0, skeleton.value.1, "");
      }
      PostSectionAddition();
    }

    /** `saveObjective` (main.js:231-238): append a section with the dialog's title and text as given. */
    method SaveObjective(title: string, content: string)
      requires Valid()
      modifies this`sections, this`nextId, this`panel
      ensures Valid() && PanelCurrent()
      ensures |sections| == |old(sections)| + 1
      ensures sections[..|old(sections)|] == Painted(old(sections), HeadingColor(controls))
      ensures sections[|old(sections)|] ==
        Section(old(nextId), Objective, title, content, true, editMode, HeadingColor(controls))
    {
      InsertSection(Objective, title, content);
      PostSectionAddition();
    }

    /**
     * `saveCustomSection` (main.js:246-253): append a section; an empty
     * title becomes "Custom Section".
     */
    method SaveCustomSection(title: string, content: string)
      requires Valid()
      modifies this`sections, this`nextId, this`panel
      ensures Valid() && PanelCurrent()
      ensures |sections| == |old(sections)| + 1
      ensures sections[..|old(sections)|] == Painted(old(sections), HeadingColor(controls))
      ensures sections[|old(sections)|] ==
        Section(old(nextId), Custom, if title == "" then CustomSectionTitle else title, content,
                true, editMode, HeadingColor(controls))
    {
      var heading := if title == "" then CustomSectionTitle else title;
      InsertSection(Custom, heading, content);
      PostSectionAddition();
    }

    /**
     * `deleteSectionHandler` (main.js:327-335) for the delete button of the
     * section at position p: removed only when the user confirms. The
     * 'sectionUpdated' event it dispatches has no listener in main.js, so the panel is
     * left as it was.
     */
    method DeleteSection(p: nat, confirmed: bool)
      requires Valid() && p < |sections|
      modifies this`sections
      ensures Valid()
      ensures sections == if confirmed then Without(old(sections), p) else old(sections)
    {
      if confirmed {
        sections := sections[..p] + sections[p + 1..];
      }
    }

    /**
     * The user typing into the contenteditable heading and body of the
     * section at position p, which the browser allows only while they are
     * editable. No handler rebuilds the panel, so it keeps the old heading.
     */
    method EditText(p: nat, title: string, body: string)
      requires Valid() && p < |sections| && sections[p].editable
      modifies this`sections
      ensures Valid()
      ensures sections == Typed(old(sections), p, title, body)
      ensures old(PanelCurrent()) ==>
        (PanelCurrent() <==> DisplayTitle(title) == DisplayTitle(old(sections)[p].title))
    {
      TypingAndPanel(sections, p, title, body);
      sections := sections[p := sections[p].(title := title, body := body)];
    }

    /** The up-arrow handler of panel item k (main.js:295-301). */
    method MoveUp(k: nat)
      requires Valid() && panel.Entries? && k < |panel.entries|
      modifies this`sections, this`panel
      ensures Valid()
      ensures MoveUpOutcome(old(sections), old(panel).entries[k]).None? ==>
        sections == old(sections) && panel == old(panel)
      ensures MoveUpOutcome(old(sections), old(panel).entries[k]).Some? ==>
        sections == MoveUpOutcome(old(sections), old(panel).entries[k]).value && PanelCurrent()
    {
      var e := panel.entries[k];
      ghost var before := sections;
      if e.index > 0 {
        var p := PositionOf(sections, e.id);
        if p < 0 {
          return;
        }
        if p == 0 {
          sections := sections[1..] + [sections[0]];
        } else {
          sections := Swapped(sections, p - 1);
        }
        assert sections == MoveUpOutcome(before, e).value;
        MovesKeep(before, e, 0, editMode, nextId);
        UpdateSectionList();
      }
    }

    /** The down-arrow handler of panel item k (main.js:303-309). */
    method MoveDown(k: nat)
      requires Valid() && panel.Entries? && k < |panel.entries|
      modifies this`sections, this`panel
      ensures Valid()
      ensures MoveDownOutcome(old(sections), old(panel).entries[k], |old(panel).entries|).None? ==>
        sections == old(sections) && panel == old(panel)
      ensures MoveDownOutcome(old(sections), old(panel).entries[k], |old(panel).entries|).Some? ==>
        sections == MoveDownOutcome(old(sections), old(panel).entries[k], |old(panel).entries|).value &&
        PanelCurrent()
    {
      var e := panel.entries[k];
      var count := |panel.entries|;
      ghost var before := sections;
      if e.index < count - 1 {
        var p := PositionOf(sections, e.id);
        if p < 0 || p == |sections| - 1 {
          return;
        }
        sections := Swapped(sections, p);
        assert sections == MoveDownOutcome(before, e, count).value;
        MovesKeep(before, e, count, editMode, nextId);
        UpdateSectionList();
      }
    }

    /** `saveSettings` (main.js:344-357): overwrite the stored snapshot with all eight fields. */
    method SaveSettings()
      modifies this`storage
      ensures storage == Some(Capture(controls, alignments, templateCards))
    {
      var snapshot := Snapshot(Some(controls.fontSize), Some(controls.fontFamily), Some(controls.fontColor),
                               Some(controls.bgColor), Some(controls.headingColor), Some(controls.lineHeight),
                               FirstActive(alignments), FirstActive(templateCards));
      storage := Some(snapshot);
    }

    /**
     * `loadSettings` (main.js:359-400): with nothing stored, nothing changes;
     * otherwise each control takes its stored value when that is non-empty,
     * a stored template is switched to, and each button and card is active
     * iff its value is the stored one.
     */
    method LoadSettings(primary: string)
      requires Valid()
      modifies this`controls, this`sections, this`canvasClasses, this`alignments, this`templateCards
      ensures Valid()
      ensures old(PanelCurrent()) ==> PanelCurrent()
      ensures storage.None? ==>
        controls == old(controls) && sections == old(sections) && canvasClasses == old(canvasClasses) &&
        alignments == old(alignments) && templateCards == old(templateCards)
      ensures storage.Some? ==>
        controls == AfterLoad(old(controls), storage.value, primary) &&
        alignments == Activated(old(alignments), storage.value.textAlign) &&
        templateCards == Activated(old(templateCards), storage.value.template)
      ensures storage.Some? && Truthy(storage.value.template) ==>
        sections == Painted(old(sections), primary) &&
        canvasClasses == SwitchedClasses(old(canvasClasses), storage.value.template.value)
      ensures storage.Some? && !Truthy(storage.value.template) ==>
        sections == old(sections) && canvasClasses == old(canvasClasses)
    {
      if storage.None? {
        return;
      }
      var s := storage.value;
      controls := Controls(
        Overwrite(controls.fontSize, s.fontSize), Overwrite(controls.fontFamily, s.fontFamily),
        Overwrite(controls.fontColor, s.fontColor), Overwrite(controls.bgColor, s.bgColor),
        Overwrite(controls.headingColor, s.headingColor), Overwrite(controls.lineHeight, s.lineHeight));
      if Truthy(s.template) {
        SwitchTemplate(s.template.value, primary);
      }
      alignments := MarkActive(alignments, s.textAlign);
      templateCards := MarkActive(templateCards, s.template);
    }

    /** The click handler of alignment button k (main.js:80-87). */
    method SelectAlignment(k: nat)
      requires k < |alignments|
      modifies this`alignments, this`storage
      ensures alignments == Selected(old(alignments), k)
      ensures storage == Some(Capture(controls, alignments, templateCards))
      ensures storage.value.textAlign == Some(old(alignments)[k].value)
    {
      alignments := SelectChoice(alignments, k);
      SelectedIsSaved(old(alignments), k);
      SaveSettings();
    }

    /** The click handler of template card k (main.js:90-97). */
    method SelectTemplate(k: nat, primary: string)
      requires Valid() && k < |templateCards|
      modifies this`templateCards, this`canvasClasses, this`sections, this`controls, this`storage
      ensures Valid()
      ensures old(PanelCurrent()) ==> PanelCurrent()
      ensures templateCards == Selected(old(templateCards), k)
      ensures canvasClasses == SwitchedClasses(old(canvasClasses), old(templateCards)[k].value)
      ensures sections == Painted(old(sections), primary)
      ensures controls == old(controls).(headingColor := primary)
      ensures storage == Some(Capture(controls, alignments, templateCards))
      ensures storage.value.template == Some(old(templateCards)[k].value)
    {
      templateCards := SelectChoice(templateCards, k);
      SelectedIsSaved(old(templateCards), k);
      SwitchTemplate(templateCards[k].value, primary);
      SaveSettings();
    }
  }
}
