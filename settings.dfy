/**
 * The editor's presentation settings (public/js/main.js:344-400): six input
 * controls, the alignment buttons and template cards with their `active`
 * class, and the snapshot kept in local storage under 'resumeSettings'.
 * The JSON text in storage is represented by the object it encodes: a
 * field that was `undefined` when stringified is absent (None).
 */
module Settings {
  import opened Wrappers

  /** The values of the six input controls. */
  datatype Controls = Controls(
    fontSize: string,
    fontFamily: string,
    fontColor: string,
    bgColor: string,
    headingColor: string,
    lineHeight: string)

  /** An alignment button (`data-alignment`) or template card (`data-template`). */
  datatype Choice = Choice(value: string, active: bool)

  /** The object `saveSettings` stores. */
  datatype Snapshot = Snapshot(
    fontSize: Option<string>,
    fontFamily: Option<string>,
    fontColor: Option<string>,
    bgColor: Option<string>,
    headingColor: Option<string>,
    lineHeight: Option<string>,
    textAlign: Option<string>,
    template: Option<string>)

  /** `document.querySelector('….active')?.dataset.…`: the value of the first active choice. */
  function FirstActive(cs: seq<Choice>): (v: Option<string>)
    ensures v.None? <==> forall i :: 0 <= i < |cs| ==> !cs[i].active
    ensures v.Some? ==> exists i :: 0 <= i < |cs| && cs[i].active && cs[i].value == v.value &&
                                    forall j :: 0 <= j < i ==> !cs[j].active
  {
    if cs == [] then None
    else if cs[0].active then Some(cs[0].value)
    else
      var v := FirstActive(cs[1..]);
      assert v.Some? ==> exists i :: 1 <= i < |cs| && cs[i].active && cs[i].value == v.value &&
                                     forall j :: 0 <= j < i ==> !cs[j].active by {
        if v.Some? {
          var i :| 0 <= i < |cs[1..]| && cs[1..][i].active && cs[1..][i].value == v.value &&
                   forall j :: 0 <= j < i ==> !cs[1..][j].active;
          assert forall j :: 0 <= j < i + 1 ==> !cs[j].active by {
            forall j | 0 <= j < i + 1 ensures !cs[j].active {
              if j > 0 {
                assert cs[j] == cs[1..][j - 1];
              }
            }
          }
        }
      }
      v
  }

  /** What `saveSettings` writes (main.js:345-354). */
  function Capture(c: Controls, alignments: seq<Choice>, cards: seq<Choice>): (s: Snapshot)
    ensures s.fontSize.Some? && s.fontFamily.Some? && s.fontColor.Some? &&
            s.bgColor.Some? && s.headingColor.Some? && s.lineHeight.Some?
  {
    Snapshot(Some(c.fontSize), Some(c.fontFamily), Some(c.fontColor), Some(c.bgColor),
             Some(c.headingColor), Some(c.lineHeight), FirstActive(alignments), FirstActive(cards))
  }

  /** JavaScript truthiness of an optional string: present and non-empty. */
  predicate Truthy(v: Option<string>)
  {
    v.Some? && v.value != ""
  }

  function Overwrite(current: string, stored: Option<string>): string
  {
    if Truthy(stored) then stored.value else current
  }

  /** The six guarded assignments to the input controls (main.js:366-371). */
  function Restored(c: Controls, s: Snapshot): (r: Controls)
    ensures Truthy(s.fontSize) ==> r.fontSize == s.fontSize.value
    ensures Truthy(s.fontFamily) ==> r.fontFamily == s.fontFamily.value
    ensures Truthy(s.fontColor) ==> r.fontColor == s.fontColor.value
    ensures Truthy(s.bgColor) ==> r.bgColor == s.bgColor.value
    ensures Truthy(s.headingColor) ==> r.headingColor == s.headingColor.value
    ensures Truthy(s.lineHeight) ==> r.lineHeight == s.lineHeight.value
    ensures (!Truthy(s.fontSize) && !Truthy(s.fontFamily) && !Truthy(s.fontColor) &&
             !Truthy(s.bgColor) && !Truthy(s.headingColor) && !Truthy(s.lineHeight)) ==> r == c
  {
    Controls(Overwrite(c.fontSize, s.fontSize), Overwrite(c.fontFamily, s.fontFamily),
             Overwrite(c.fontColor, s.fontColor), Overwrite(c.bgColor, s.bgColor),
             Overwrite(c.headingColor, s.headingColor), Overwrite(c.lineHeight, s.lineHeight))
  }

  /**
   * The controls after `loadSettings` with snapshot `s`: the restored values,
   * then, when a template is stored, `switchTemplate` puts the template's
   * primary colour into the heading-colour control (main.js:387-389).
   */
  function AfterLoad(c: Controls, s: Snapshot, primary: string): (r: Controls)
    ensures r == Restored(c, s).(headingColor := r.headingColor)
    ensures r.headingColor == if Truthy(s.template) then primary else Restored(c, s).headingColor
  {
    var r := Restored(c, s);
    if Truthy(s.template) then r.(headingColor := primary) else r
  }

  /** The `classList.toggle('active', …)` loops (main.js:392-399). */
  function Activated(cs: seq<Choice>, v: Option<string>): (r: seq<Choice>)
    ensures |r| == |cs|
  {
    seq(|cs|, i requires 0 <= i < |cs| => cs[i].(active := v == Some(cs[i].value)))
  }

  /** The click handlers (main.js:80-97): every choice inactive but the clicked one. */
  function Selected(cs: seq<Choice>, k: nat): (r: seq<Choice>)
    requires k < |cs|
    ensures |r| == |cs| && r[k].active
  {
    seq(|cs|, i requires 0 <= i < |cs| => cs[i].(active := i == k))
  }

  predicate DistinctValues(cs: seq<Choice>)
  {
    forall i, j :: 0 <= i < j < |cs| ==> cs[i].value != cs[j].value
  }

  predicate AtMostOneActive(cs: seq<Choice>)
  {
    forall i, j :: 0 <= i < j < |cs| ==> !(cs[i].active && cs[j].active)
  }

  /** Each control takes the stored value when it is non-empty and keeps its own otherwise; with nothing usable stored, none changes. */
  lemma RestoredFieldwise(c: Controls, s: Snapshot)
    ensures var r := Restored(c, s);
      r.fontSize == (if Truthy(s.fontSize) then s.fontSize.value else c.fontSize) &&
      r.fontFamily == (if Truthy(s.fontFamily) then s.fontFamily.value else c.fontFamily) &&
      r.fontColor == (if Truthy(s.fontColor) then s.fontColor.value else c.fontColor) &&
      r.bgColor == (if Truthy(s.bgColor) then s.bgColor.value else c.bgColor) &&
      r.headingColor == (if Truthy(s.headingColor) then s.headingColor.value else c.headingColor) &&
      r.lineHeight == (if Truthy(s.lineHeight) then s.lineHeight.value else c.lineHeight)
    ensures (!Truthy(s.fontSize) && !Truthy(s.fontFamily) && !Truthy(s.fontColor) &&
             !Truthy(s.bgColor) && !Truthy(s.headingColor) && !Truthy(s.lineHeight)) ==> Restored(c, s) == c
  {
  }

  /** Saving records no alignment (template) exactly when no button (card) is active. */
  lemma CaptureRecordsActive(c: Controls, alignments: seq<Choice>, cards: seq<Choice>)
    ensures Capture(c, alignments, cards).textAlign.None? <==> forall i :: 0 <= i < |alignments| ==> !alignments[i].active
    ensures Capture(c, alignments, cards).template.None? <==> forall i :: 0 <= i < |cards| ==> !cards[i].active
  {
  }

  /**
   * Loading keeps every choice's value and makes it active iff it is the
   * stored one; with distinct values, at most one ends up active.
   */
  lemma ActivatedFlags(cs: seq<Choice>, v: Option<string>)
    ensures var r := Activated(cs, v);
      forall i :: 0 <= i < |cs| ==> r[i].value == cs[i].value && (r[i].active <==> v == Some(cs[i].value))
    ensures DistinctValues(cs) ==> AtMostOneActive(Activated(cs, v))
  {
  }

  /**
   * Save, then load into any page: each control whose saved value was
   * non-empty gets that value back, each other control keeps its own, except
   * that a saved template overrides the saved heading colour with the
   * template's primary colour.
   */
  lemma SaveThenLoadControls(saved: Controls, alignments: seq<Choice>, cards: seq<Choice>,
                             current: Controls, primary: string)
    ensures var r := AfterLoad(current, Capture(saved, alignments, cards), primary);
      (r.fontSize == if saved.fontSize != "" then saved.fontSize else current.fontSize) &&
      (r.fontFamily == if saved.fontFamily != "" then saved.fontFamily else current.fontFamily) &&
      (r.fontColor == if saved.fontColor != "" then saved.fontColor else current.fontColor) &&
      (r.bgColor == if saved.bgColor != "" then saved.bgColor else current.bgColor) &&
      (r.lineHeight == if saved.lineHeight != "" then saved.lineHeight else current.lineHeight) &&
      (r.headingColor ==
        if Truthy(FirstActive(cards)) then primary
        else if saved.headingColor != "" then saved.headingColor
        else current.headingColor)
  {
  }

  /** Loading what the same page just saved changes no control, bar the template override of the heading colour. */
  lemma SaveThenLoadSamePage(c: Controls, alignments: seq<Choice>, cards: seq<Choice>, primary: string)
    ensures AfterLoad(c, Capture(c, alignments, cards), primary) ==
            if Truthy(FirstActive(cards)) then c.(headingColor := primary) else c
  {
  }

  /** Loading the same snapshot a second time changes nothing more. */
  lemma LoadIsIdempotent(c: Controls, s: Snapshot, primary: string)
    ensures AfterLoad(AfterLoad(c, s, primary), s, primary) == AfterLoad(c, s, primary)
  {
  }

  /**
   * With distinct values and at most one active choice, saving and loading
   * gives back exactly the same active flags.
   */
  lemma ActivationRoundTrip(cs: seq<Choice>)
    requires DistinctValues(cs) && AtMostOneActive(cs)
    ensures Activated(cs, FirstActive(cs)) == cs
  {
    var v := FirstActive(cs);
    forall i | 0 <= i < |cs| ensures Activated(cs, v)[i] == cs[i] {
      if v.Some? {
        var k :| 0 <= k < |cs| && cs[k].active && cs[k].value == v.value &&
                 forall j :: 0 <= j < k ==> !cs[j].active;
        if i != k {
          assert cs[i].value != cs[k].value;
          assert !cs[i].active;
        }
      }
    }
  }

  /** A click on choice k leaves exactly that one active; saving records its value. */
  lemma SelectedIsSaved(cs: seq<Choice>, k: nat)
    requires k < |cs|
    ensures AtMostOneActive(Selected(cs, k))
    ensures forall i :: 0 <= i < |cs| ==> Selected(cs, k)[i].value == cs[i].value
    ensures FirstActive(Selected(cs, k)) == Some(cs[k].value)
  {
    var s := Selected(cs, k);
    var v := FirstActive(s);
    assert s[k].active;
    var i :| 0 <= i < |s| && s[i].active && s[i].value == v.value && forall j :: 0 <= j < i ==> !s[j].active;
    assert i == k;
  }
}
