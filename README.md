# Resume builder: template allow-list and in-browser editor

This project models two parts of the resume builder web application in Dafny.

The first part is the server's template allow-list in `app.js`. At start-up the
server reads the `views/resume_templates` directory. It keeps the files whose
names match `resume_<digits>.ejs` and uses the digits as template ids. An
upload endpoint accepts `.ejs` files, stores each under its original name and
then reloads the list. Two render routes answer 404 for an id that is not on
the list, and a third route returns the list itself.

- `NodePath` models the POSIX `path.extname` that the upload filter uses.
- `TemplateNames` models the name pattern, the id extraction and
  `loadAllowedTemplates`.
- `TemplateServer.Server` is a class over the directory listing and the list.
  Its methods are the upload handler and the three routes.

The second part is the `ResumeBuilder` editor object in `public/js/main.js`.

- `Sections` holds the value-level view of the page:
  - the `.section` elements in document order, each with an identity, title,
    editability, delete-button visibility and heading colour;
  - the section index panel;
  - what the panel's up and down arrows do;
  - what edit-mode toggling does.
- `Settings` holds the six input controls, the alignment buttons, the
  template cards and the snapshot saved in local storage.
- `ResumeEditor.ResumeBuilder` is a class with those parts as fields. Each of
  its methods is one of the object's methods or event handlers, and is
  specified against the functions of `Sections` and `Settings`.

Two quirks of the source are modelled and proved as written. The index
panel's move handlers hold on to the element and index captured when the
panel was built. Deleting a section does not rebuild the panel, so:
- the stale up arrow of the section that became first moves it to the end of
  the document (`Sections.StaleUpArrowSendsFirstToEnd`);
- the arrows of the deleted section do nothing.

Toggling edit mode only touches elements that are currently
`contenteditable="true"`. After two toggles nothing is editable any more
(`Sections.ToggledTimesFacts`).

## Model

| member | source | states |
|---|---|---|
| NodePath.StripTrailingSlashes | app.js:92 | the result is a prefix of the path that does not end in '/', and only '/' characters were removed |
| NodePath.LastSegment | app.js:92 | the result is a '/'-free suffix of the path, preceded by '/' unless it is the whole path |
| NodePath.LastDot | app.js:92 | the index of the last '.', or -1; no '.' follows it |
| NodePath.SegmentExt | app.js:92 | the extension of one segment: empty, or a proper suffix of the segment that starts with its last '.' and holds no other '.' |
| NodePath.Extname | app.js:92 | `path.extname` is empty or starts with '.' |
| NodePath.ExtnameIsTail | app.js:92 | the extension is a suffix of the path once trailing slashes are removed |
| NodePath.ExtnameHasNoSlash | app.js:92 | the extension never contains '/' |
| NodePath.SegmentExtIsEjs | app.js:92 | a segment's extension is ".ejs" iff the segment is longer than four characters and ends with ".ejs", case as written |
| NodePath.ExtnameIsEjs | app.js:92 | `path.extname(name) === '.ejs'` iff the last segment (trailing slashes ignored) ends with ".ejs" and has text before it |
| NodePath.PlainNameIsSegment | app.js:92 | a name without '/' is its own last segment |
| NodePath.UpperCaseExtensionRejected | app.js:92-95 | the filter is case-sensitive: no name without '/' that ends in ".EJS" has the extension ".ejs" |
| TemplateNames.IsTemplateFileName | app.js:69 | a name that passes `/^resume_\d+\.ejs$/` is "resume_" + the text between + ".ejs" and contains no '/' |
| TemplateNames.FileNameFor | app.js:124 | `resume_${id}.ejs` consists of the prefix, the id and the suffix |
| TemplateNames.LeadingDigits | app.js:70 | the longest run of ASCII digits at the start of the string |
| TemplateNames.FirstDigitRun | app.js:70 | `match(/\d+/)` is null iff there is no digit, and otherwise a non-empty digit string |
| TemplateNames.FirstDigitRunOfTemplateName | app.js:69-70 | for a name that passes the regular expression, the first digit run is exactly the digits between "resume_" and ".ejs" |
| TemplateNames.ExtractId | app.js:69-70 | the extracted id is a digit string from which `resume_${id}.ejs` rebuilds the file name |
| TemplateNames.IdRoundTrip | app.js:69-70 | every digit string names a matching file, and extracting that file's id gives back the string |
| TemplateNames.ExtractIdInjective | app.js:69-70 | two matching files with the same id are the same file |
| TemplateNames.LoadAllowedTemplates | app.js:67-71 | an id is on the list iff it is a digit string whose file `resume_<id>.ejs` is in the directory; the list is no longer than the directory |
| TemplateNames.LoadAllowedTemplatesAppend | app.js:68-70 | ids follow directory order: loading a concatenated listing concatenates the id lists |
| TemplateNames.LoadAllowedTemplatesSingle | app.js:69-70 | a single entry contributes its id when it matches the pattern, and nothing otherwise |
| TemplateNames.LoadAllowedTemplatesDistinct | app.js:67-71 | a listing without repeated names gives a list without repeated ids |
| TemplateNames.RejectedNames | app.js:69 | a name matches the pattern iff it is `resume_<id>.ejs` for a non-empty string of ASCII digits; every other name is rejected |
| TemplateNames.LoadSingleTemplate | app.js:67-71 | a directory holding only `resume_<id>.ejs` gives the list [id] |
| TemplateServer.AcceptsUpload | app.js:90-97 | accepted iff the last path segment (trailing slashes ignored) is longer than ".ejs" and ends with it, case as written |
| TemplateServer.TemplateNamesPassFilter | app.js:90-97 | every name that matches the template pattern is accepted by the upload filter |
| TemplateServer.NameBeforeIrreflexive | app.js:68 | no name sorts before itself in the byte order a directory read returns |
| TemplateServer.NameBeforeTotal | app.js:68 | of two different names, one sorts before the other |
| TemplateServer.NameBeforeTransitive | app.js:68 | the byte order is transitive |
| TemplateServer.InsertPosition | app.js:79-87 | the place of a new name in a sorted listing: every name before it sorts before the new one, no name from it on does |
| TemplateServer.InsertionSorted | app.js:79-87 | inserting a new name at its place keeps the listing sorted |
| TemplateServer.Stored | app.js:79-87 | after disk storage the listing is still sorted and holds exactly the old names plus the original name; an existing name is overwritten in place |
| TemplateServer.NewIds | app.js:69-70 | a single entry yields at most one id: the name's id iff the name matches the pattern |
| TemplateServer.ReloadAfterStore | app.js:101-105 | reloading after an overwrite gives the same list; after a new name, its id (if it matches the pattern) is inserted into the old list at the place its file takes in the sorted listing, and nothing else changes |
| TemplateServer.NonTemplateNeverAllowed | app.js:67-71 | a name outside the pattern is never the file of an allowed id |
| TemplateServer.Server.constructor | app.js:73 | at start-up, from the sorted listing a directory read returns, the list is loaded |
| TemplateServer.Server.UploadTemplate | app.js:88-109 | no file: 400 with the fixed message, nothing changes; non-.ejs name: filter error "Only .ejs files allowed!", nothing changes; otherwise the file is stored in its sorted place, the list is reloaded (an overwrite keeps it; a new template name inserts its id at its sorted place; the ids are exactly the old ones plus the new one), the reply carries success, the name and the list, and a non-template upload never becomes renderable |
| TemplateServer.Server.Resume | app.js:113-127 | 404 "Template not found" iff the id is not on the list; otherwise the editor page with `resume_templates/resume_<id>`, whose file is in the directory |
| TemplateServer.Server.ViewResume | app.js:129-141 | 404 "Template not found" iff the id is not on the list; otherwise the template `resume_templates/resume_<id>` itself, whose file is in the directory |
| TemplateServer.Server.ListTemplates | app.js:144-146 | returns the current list: exactly the ids whose template file is in the directory |
| Sections.Skeleton | public/js/main.js:165-213 | a skeleton exists iff the selected type is summary, experience, education or skills |
| Sections.Painted | public/js/main.js:338-340 | every heading gets the colour; the outline, delete buttons and editability are unchanged |
| Sections.WithButtons | public/js/main.js:320-324 | every delete button is shown iff the mode is Edit; the outline, heading colours and editability are unchanged |
| Sections.PaintKeepsOutline | public/js/main.js:152-154 | colouring the headings keeps the outline, the delete buttons, editability and distinct identities |
| Sections.RepaintIsPaint | public/js/main.js:152-154 | colouring the headings twice leaves only the second colour |
| Sections.LookKeepsOutline | public/js/main.js:32-33 | setting the delete buttons and then the heading colour keeps the outline, editability and distinct identities |
| Sections.Locked | public/js/main.js:125-130 | keeps the outline, the delete buttons and the heading colours; an element is editable afterwards iff it was and the new mode is Edit |
| Sections.Toggled | public/js/main.js:123-134 | keeps the outline and the heading colours; every delete button is shown iff the new mode is Edit; an element is editable iff it was and the new mode is Edit |
| Sections.ToggledTimes | public/js/main.js:123-134 | any number of toggles keeps the outline |
| Sections.ToggledTimesFacts | public/js/main.js:123-134 | any number of toggles keeps the outline and never makes an element editable that was not; after at least one toggle every delete button is shown iff the final mode is Edit; after a toggle into Preview, or after two or more toggles, nothing is editable |
| Sections.ToggleTwice | public/js/main.js:123-134 | two toggles restore the mode and the delete buttons but leave no element editable |
| Sections.DisplayTitle | public/js/main.js:281 | the label is never empty: the title when it is non-empty, "Untitled Section" otherwise |
| Sections.EntryFor | public/js/main.js:280-293 | an item carries its section's identity and index, a non-empty label that is the title when the title is non-empty, an up arrow disabled iff the index is 0 and a down arrow disabled iff it is the last |
| Sections.PanelEntries | public/js/main.js:280-316 | one item per section |
| Sections.PanelEntriesAt | public/js/main.js:280-316 | item i of the panel is built from section i at index i |
| Sections.IndexPanel | public/js/main.js:272-316 | the placeholder iff there are no sections, otherwise one item per section |
| Sections.IndexPanelShape | public/js/main.js:269-317 | placeholder iff there are no sections; otherwise one item per section in document order, titled with its heading or "Untitled Section", up arrow disabled iff first, down arrow disabled iff last |
| Sections.PanelIgnoresLook | public/js/main.js:280-293 | the panel depends on identities and titles only, not on colours, buttons or editability |
| Sections.Swapped | public/js/main.js:298 | two neighbours exchanged, everything else in place, same elements, identities still distinct |
| Sections.PositionOf | public/js/main.js:298 | the position of the captured element, or -1 iff it is no longer in the document |
| Sections.MoveUpOutcome | public/js/main.js:295-301 | no reorder iff the captured index is 0 or the element is gone from the document; otherwise only a reordering: the same sections, identities still distinct |
| Sections.MoveDownOutcome | public/js/main.js:303-309 | no change iff the captured index was the last, the element is gone, or it is now the last (the handler throws); otherwise only a reordering: the same sections, identities still distinct |
| Sections.MoveUpSwapsAdjacent | public/js/main.js:295-301 | on a current panel, the up arrow of item k > 0 swaps sections k-1 and k |
| Sections.MoveDownSwapsAdjacent | public/js/main.js:303-309 | on a current panel, the down arrow of item k < n-1 swaps sections k and k+1 |
| Sections.MovesAtTheEndsAreNoOps | public/js/main.js:287-309 | on a current panel, the first item's up arrow and the last item's down arrow change nothing |
| Sections.RotationPermutes | public/js/main.js:298 | moving the first section to the end keeps the same sections, and distinct identities stay distinct |
| Sections.MovesKeep | public/js/main.js:295-309 | every effective arrow click keeps each section's delete-button state and the identity bound |
| Sections.Without | public/js/main.js:331 | removing the section at p shifts the later ones down by one and keeps identities distinct |
| Sections.DeletionLeavesPanelStale | public/js/main.js:327-335 | after a deletion the panel built before it never matches the document |
| Sections.Typed | public/js/main.js:226 | typing into section p's editable heading and body replaces that section's title and body and leaves every other section, and distinct identities, as they were |
| Sections.TypingAndPanel | public/js/main.js:281 | after typing, the panel built before matches the document iff the heading it shows for that section ("Untitled Section" for an empty one) is unchanged |
| Sections.StaleUpArrowSendsFirstToEnd | public/js/main.js:295-301 | after the first section is deleted, the stale up arrow of the section now first moves it to the end of the document |
| Sections.StaleArrowsOfDeletedSectionDoNothing | public/js/main.js:295-309 | after a deletion, the stale arrows of the deleted section change nothing |
| Settings.FirstActive | public/js/main.js:352-353 | None iff no choice is active; otherwise the value of the first active choice |
| Settings.Capture | public/js/main.js:344-354 | every control value is recorded |
| Settings.CaptureRecordsActive | public/js/main.js:352-353 | no alignment (template) is recorded iff no button (card) is active |
| Settings.Restored | public/js/main.js:366-371 | each control whose stored value is truthy takes that value; when no stored value is truthy, the controls are unchanged |
| Settings.RestoredFieldwise | public/js/main.js:366-371 | each control takes the stored value when that is present and non-empty, and keeps its own value otherwise; with no non-empty stored value, nothing changes |
| Settings.AfterLoad | public/js/main.js:366-389 | the restored controls, with the heading colour replaced by the template's primary colour iff a non-empty template is stored |
| Settings.ActivatedFlags | public/js/main.js:392-399 | after loading, every value is unchanged and a button or card is active iff its value is the stored one; with distinct values at most one is active |
| Settings.Activated | public/js/main.js:392-399 | after loading there is still one choice per button or card |
| Settings.Selected | public/js/main.js:80-97 | after a click the clicked choice is active and the number of choices is unchanged |
| Settings.SaveThenLoadControls | public/js/main.js:344-389 | after saving and loading, each control gets its saved value when that value is non-empty and keeps its own otherwise; a saved template overrides the heading colour with the template's primary colour |
| Settings.SaveThenLoadSamePage | public/js/main.js:344-389 | loading what the same page just saved changes no control, except that a saved template sets the heading colour |
| Settings.LoadIsIdempotent | public/js/main.js:359-400 | loading the same snapshot twice gives the same controls as loading it once |
| Settings.ActivationRoundTrip | public/js/main.js:344-399 | with distinct values and at most one active choice, saving then loading gives back the same active flags |
| Settings.SelectedIsSaved | public/js/main.js:80-97 | after a click, at most the clicked choice is active, the values are unchanged, and saving records the clicked value |
| ResumeEditor.SwitchedClasses | public/js/main.js:144-147 | the new template's class is present; any other class is present iff it was before and is not one of the four template classes |
| ResumeEditor.SwitchToKnownTemplate | public/js/main.js:144-147 | switching to one of the four templates leaves exactly that template class of the four and no other class changes |
| ResumeEditor.UnknownTemplateClassLingers | public/js/main.js:144-147 | once a template `a` outside the four is switched to, its class "template-a" stays through any later switch |
| ResumeEditor.HeadingColor | public/js/main.js:338 | the heading-colour control's value when non-empty, "#4d44db" when empty; never empty |
| ResumeEditor.SelectChoice | public/js/main.js:80-97 | the choices become `Selected(cs, k)`: only the clicked one active |
| ResumeEditor.MarkActive | public/js/main.js:392-399 | the choices after the `classList.toggle('active', …)` loop: active iff the value is the stored one |
| ResumeEditor.PaintLoop | public/js/main.js:152-154 | every heading gets the colour: the sections become `Painted` |
| ResumeEditor.ButtonsLoop | public/js/main.js:132-134 | every delete button shown iff the mode is Edit: the sections become `WithButtons` |
| ResumeEditor.LockLoop | public/js/main.js:128-130 | only elements still editable take the new mode: the sections become `Locked` |
| ResumeEditor.InitialHeadingColor | public/js/main.js:33-34 | the heading colour after `init`: the template's primary colour when a non-empty template is stored, otherwise the control's colour or the default, never empty |
| ResumeEditor.InitialClasses | public/js/main.js:386-389 | the canvas classes after `init`: the stored template's class is present when a non-empty template is stored; otherwise the classes are unchanged |
| ResumeEditor.InitialSections | public/js/main.js:31-33 | the sections after `init`: same outline, every delete button shown iff the mode is Edit, every heading in the init-time colour, editability unchanged |
| ResumeEditor.ResumeBuilder.constructor | public/js/main.js:3-26 | starts in Preview mode with one editable section per rendered title, a current panel and every delete button hidden; every heading has the template's primary colour when a non-empty template is stored and the control's colour (or the default) otherwise; the template class is switched iff a non-empty template is stored; the stored settings are loaded |
| ResumeEditor.ResumeBuilder.Init | public/js/main.js:28-35 | builds a current panel; the sections become `InitialSections`: every delete button shown iff the mode is Edit and every heading in the template colour when a non-empty template is stored, in the control's colour otherwise, with outline and editability unchanged; switches the template class in the same case; loads the stored settings |
| ResumeEditor.ResumeBuilder.RenderSections | public/js/main.js:31-33 | the panel is current, every delete button is shown iff the mode is Edit, and every heading has the control's colour or the default; the class invariant holds |
| ResumeEditor.ResumeBuilder.ToggleEditMode | public/js/main.js:123-142 | flips the mode; elements still editable take the new mode; every delete button is shown iff the new mode is Edit; a current panel stays current |
| ResumeEditor.ResumeBuilder.PaintTitles | public/js/main.js:152-154 | every section heading gets the colour, nothing else changes; a current panel stays current, and the class invariant is kept |
| ResumeEditor.ResumeBuilder.SwitchTemplate | public/js/main.js:144-159 | replaces the template class, and gives every heading and the heading-colour control the primary colour; a current panel stays current, and the class invariant is kept |
| ResumeEditor.ResumeBuilder.ApplyHeadingColor | public/js/main.js:337-342 | every heading gets the control's colour or the default |
| ResumeEditor.ResumeBuilder.SetupEditableElements | public/js/main.js:319-325 | every delete button is shown iff in Edit mode |
| ResumeEditor.ResumeBuilder.UpdateSectionList | public/js/main.js:269-317 | the panel matches the sections as they now stand |
| ResumeEditor.ResumeBuilder.InsertSection | public/js/main.js:215 | a new element with a fresh identity is appended at the end of the container |
| ResumeEditor.ResumeBuilder.PostSectionAddition | public/js/main.js:255-260 | buttons match the mode, the panel is current, and every heading has the heading colour |
| ResumeEditor.ResumeBuilder.AddSection | public/js/main.js:161-220 | a known type appends its skeleton section with its heading; an unknown type appends nothing; in both cases buttons, panel and colours are refreshed |
| ResumeEditor.ResumeBuilder.SaveObjective | public/js/main.js:231-238 | appends one section with the dialog's title and text, then refreshes buttons, panel and colours |
| ResumeEditor.ResumeBuilder.SaveCustomSection | public/js/main.js:246-253 | appends one section titled "Custom Section" when the title is empty, and with the given title otherwise |
| ResumeEditor.ResumeBuilder.DeleteSection | public/js/main.js:327-335 | removes the section only when confirmed; the panel is not rebuilt |
| ResumeEditor.ResumeBuilder.EditText | public/js/main.js:125-130 | the user's typing, possible only while the section is editable: the sections become `Typed`, validity is kept, and a panel that was current stays current iff the displayed heading is unchanged; nothing rebuilds it |
| ResumeEditor.ResumeBuilder.MoveUp | public/js/main.js:295-301 | the sections become the up-arrow outcome for the clicked item and the panel is rebuilt; when the outcome is no change, nothing changes |
| ResumeEditor.ResumeBuilder.MoveDown | public/js/main.js:303-309 | the sections become the down-arrow outcome for the clicked item and the panel is rebuilt; when the outcome is no change, nothing changes |
| ResumeEditor.ResumeBuilder.SaveSettings | public/js/main.js:344-357 | storage holds the six control values and the first active alignment and template |
| ResumeEditor.ResumeBuilder.LoadSettings | public/js/main.js:359-400 | nothing stored: no change; otherwise the controls are restored from non-empty values, a stored template is switched to, and the buttons and cards are re-activated from the stored values; a current panel stays current |
| ResumeEditor.ResumeBuilder.SelectAlignment | public/js/main.js:80-87 | only the clicked button is active, and the saved alignment is its value |
| ResumeEditor.ResumeBuilder.SelectTemplate | public/js/main.js:89-97 | only the clicked card is active, its template is switched to, and the saved template is its value; a current panel stays current |

## Left out

- Reading the directory is represented by the sequence of entry names a read
  returns, sorted by byte order. Names are compared by character code, which
  orders them as their UTF-8 bytes do. The server is given such a listing at
  start-up.
- TemplateServer.Server.UploadTemplate, TemplateServer.ReloadAfterStore: the
  templates directory is assumed to change only through uploads. The reload at
  app.js:104 re-reads the whole directory, so a file added or removed by other
  means since start-up would appear in, or drop out of, the real list. The
  model's "nothing else changes" holds only under this assumption.
- Path rules for names containing '/' on upload, and Windows path rules, are
  not modelled. Node's `path` module is not part of this model; only the
  POSIX `extname` behaviour the filter relies on is written out.
- The error a filter rejection raises is modelled as its message only. The
  HTTP status Express's default error handler gives it is not modelled.
- Writing the file's bytes, the resume record passed to every render, EJS
  rendering, the database module and the schema model are not modelled.
- `exportToPDF` and `exportToPNG` (main.js:402-448) are not modelled. They
  call external canvas and PDF libraries.
- `checkDependencies`, event-listener wiring, the modal dialogs,
  `scrollToLastSection` and `scrollIntoView` are not modelled. They only log,
  wire or scroll.
- The toggle button's label and classes are not modelled.
- The input-change handlers that set canvas styles are not modelled. Neither
  is the alignment click handler's write of `resumeInner.style.textAlign`
  (main.js:84); only its button flags and the save are.
- The style assignments of `loadSettings` (main.js:374-384) are not modelled.
- The settings panel's mobile toggle is not modelled.
- The template's primary colour is a parameter, because `getComputedStyle`
  depends on the stylesheet. The confirmation dialog's answer is a parameter
  too.
- A malformed JSON string in local storage, which makes `JSON.parse` throw,
  is not modelled. Storage holds the parsed object.
- Every element the editor looks up is assumed present. The source's guards
  for missing elements are not modelled: the early return of
  `updateSectionList` without `#sectionList` (main.js:270), the `?.` fallback
  of `applyHeadingColor` (main.js:338), the skipped control update in
  `switchTemplate` (main.js:156), and the `undefined` fields that
  `saveSettings` records and JSON then drops (main.js:346-351).
- All `.section` elements are assumed to be siblings in the one container,
  with no other element siblings.
- Each section's editable elements are assumed to lie under `.resume-content`.
  Every section counts as one editable unit, and every section has a delete
  button.
- HTML markup, escaping of inserted text, and the skeleton's inner fields are
  not modelled. A section is represented by its kind, title and body text.
- Sections.Typed, ResumeEditor.ResumeBuilder.EditText: what the user types
  into a section is modelled as a new heading text and a new body text for
  that section. Keystrokes, the caret, and the separate fields of a skeleton
  (job title, period, list items) are not told apart.
- Sections rendered by the template start editable with their delete button
  displayed, before `init` hides the buttons.
