/**
 * The template server's allow-list (app.js:62-146): a module-level list of
 * template ids loaded from the templates directory, refreshed after each
 * successful upload, and consulted by the two render routes and the
 * listing route. The directory is the sequence of entry names that reading
 * it returns; the fixed resume record passed to every render is not
 * represented.
 */
module TemplateServer {
  import opened Wrappers
  import opened TemplateNames
  import NodePath

  /** Folder, relative to the views directory, that holds the templates. */
  const TemplatesFolder: string := "resume_templates/"

  /** What a render route answers. */
  datatype Page =
    | NotFound(status: nat, body: string)
      /** res.render('editor', { resumeData, selectedTemplate, templateId }) */
    | Editor(selectedTemplate: string, templateId: string)
      /** res.render(view, { resumeData }) */
    | Template(view: string)

  /** What POST /upload-template answers. */
  datatype UploadReply =
      /** the file filter raised an error: the route handler never runs */
    | FilterRejected(message: string)
    | BadRequest(status: nat, success: bool, message: string)
    | Uploaded(success: bool, filename: string, allowedTemplates: seq<string>)

  /**
   * The upload file filter (app.js:90-97): only the extension ".ejs", case as
   * written, that is, a last path segment longer than ".ejs" that ends in it.
   */
  predicate AcceptsUpload(originalName: string)
    ensures AcceptsUpload(originalName) <==>
      NodePath.HasEjsEnding(NodePath.LastSegment(NodePath.StripTrailingSlashes(originalName)))
  {
    NodePath.ExtnameIsEjs(originalName);
    NodePath.Extname(originalName) == ".ejs"
  }

  /** Every name the template regular expression admits also passes the upload filter. */
  lemma TemplateNamesPassFilter(f: string)
    requires IsTemplateFileName(f)
    ensures AcceptsUpload(f)
  {
    assert '/' !in f by {
      TemplateNameSplits(f);
      PrefixHasNoDigit();
      forall i | 0 <= i < |f| ensures f[i] != '/' {
        if i < |Prefix| {
          assert f[i] == Prefix[i];
        } else if i >= |f| - |Suffix| {
          assert f[i] == Suffix[i - (|f| - |Suffix|)];
        } else {
          assert f[i] == f[|Prefix|..|f| - |Suffix|][i - |Prefix|];
        }
      }
    }
    NodePath.PlainNameIsSegment(f);
    NodePath.ExtnameIsEjs(f);
  }

  // ---------------------------------------------------------------- the directory listing

  /**
   * The order in which a directory read lists names: byte-wise `strcmp`
   * order, which for the code points of a name is the lexicographic order
   * of its characters, a proper prefix coming first.
   */
  predicate NameBefore(a: string, b: string)
    decreases |a|
  {
    b != [] && (a == [] || a[0] < b[0] || (a[0] == b[0] && NameBefore(a[1..], b[1..])))
  }

  lemma {:induction false} NameBeforeIrreflexive(a: string)
    ensures !NameBefore(a, a)
    decreases |a|
  {
    if a != [] {
      NameBeforeIrreflexive(a[1..]);
    }
  }

  lemma {:induction false} NameBeforeTotal(a: string, b: string)
    requires a != b
    ensures NameBefore(a, b) || NameBefore(b, a)
    decreases |a|
  {
    if a != [] && b != [] && a[0] == b[0] {
      assert a == [a[0]] + a[1..] && b == [b[0]] + b[1..];
      NameBeforeTotal(a[1..], b[1..]);
    }
  }

  lemma {:induction false} NameBeforeTransitive(a: string, b: string, c: string)
    requires NameBefore(a, b) && NameBefore(b, c)
    ensures NameBefore(a, c)
    decreases |a|
  {
    if a != [] && a[0] == b[0] && b[0] == c[0] {
      NameBeforeTransitive(a[1..], b[1..], c[1..]);
    }
  }

  /** A listing as a directory read returns it: strictly increasing, so without repeats. */
  predicate SortedNames(d: seq<string>)
  {
    forall i, j :: 0 <= i < j < |d| ==> NameBefore(d[i], d[j])
  }

  /** Where `name` falls in a sorted listing: after every name before it, before all others. */
  function InsertPosition(d: seq<string>, name: string): (k: nat)
    requires SortedNames(d)
    ensures k <= |d|
    ensures forall i :: 0 <= i < k ==> NameBefore(d[i], name)
    ensures forall i :: k <= i < |d| ==> !NameBefore(d[i], name)
  {
    if d == [] then 0
    else if !NameBefore(d[0], name) then
      assert forall i :: 0 < i < |d| ==> !NameBefore(d[i], name) by {
        forall i | 0 < i < |d| ensures !NameBefore(d[i], name) {
          if NameBefore(d[i], name) {
            NameBeforeTransitive(d[0], d[i], name);
          }
        }
      }
      0
    else
      1 + InsertPosition(d[1..], name)
  }

  /**
   * The listing after disk storage writes a file under its original name
   * (app.js:79-87): an existing file is overwritten, a new name takes its
   * place in the sorted listing.
   */
  function Stored(directory: seq<string>, name: string): (d: seq<string>)
    requires SortedNames(directory)
    ensures SortedNames(d)
    ensures forall x :: x in d <==> x in directory || x == name
  {
    if name in directory then directory
    else
      var k := InsertPosition(directory, name);
      InsertionSorted(directory, name, k);
      directory[..k] + [name] + directory[k..]
  }

  lemma InsertionSorted(d: seq<string>, name: string, k: nat)
    requires SortedNames(d) && name !in d && k == InsertPosition(d, name)
    ensures SortedNames(d[..k] + [name] + d[k..])
  {
    var r := d[..k] + [name] + d[k..];
    forall i, j | 0 <= i < j < |r| ensures NameBefore(r[i], r[j]) {
      if j < k {
        assert r[i] == d[i] && r[j] == d[j];
      } else if j == k {
        assert r[i] == d[i] && r[j] == name;
      } else if i == k {
        assert r[j] == d[j - 1] && d[j - 1] != name;
        NameBeforeTotal(d[j - 1], name);
      } else if i < k {
        assert r[i] == d[i] && r[j] == d[j - 1];
      } else {
        assert r[i] == d[i - 1] && r[j] == d[j - 1];
      }
    }
  }

  /** The ids a single directory entry contributes. */
  function NewIds(name: string): (ids: seq<string>)
    ensures |ids| <= 1
    ensures forall id :: id in ids <==> IsTemplateFileName(name) && id == ExtractId(name)
  {
    if IsTemplateFileName(name) then [ExtractId(name)] else []
  }

  /**
   * Reloading after a store: an overwrite leaves the list as it was; a new
   * name inserts its id, if it has one, into the old list at the place its
   * file takes in the sorted listing.
   */
  lemma ReloadAfterStore(directory: seq<string>, name: string)
    requires SortedNames(directory)
    ensures name in directory ==> LoadAllowedTemplates(Stored(directory, name)) == LoadAllowedTemplates(directory)
    ensures name !in directory ==>
      var old_ids := LoadAllowedTemplates(directory);
      var j := |LoadAllowedTemplates(directory[..InsertPosition(directory, name)])|;
      j <= |old_ids| &&
      LoadAllowedTemplates(Stored(directory, name)) == old_ids[..j] + NewIds(name) + old_ids[j..]
  {
    if name !in directory {
      var k := InsertPosition(directory, name);
      var a, b := directory[..k], directory[k..];
      assert directory == a + b;
      LoadAllowedTemplatesAppend(a, b);
      LoadAllowedTemplatesAppend(a + [name], b);
      LoadAllowedTemplatesAppend(a, [name]);
      LoadAllowedTemplatesSingle(name);
      var la, lb := LoadAllowedTemplates(a), LoadAllowedTemplates(b);
      assert (la + lb)[..|la|] == la && (la + lb)[|la|..] == lb;
    }
  }

  /** A stored name outside the pattern is never the file of an allowed id. */
  lemma NonTemplateNeverAllowed(listing: seq<string>, name: string)
    requires !IsTemplateFileName(name)
    ensures forall id :: id in LoadAllowedTemplates(listing) ==> FileNameFor(id) != name
  {
    forall id | id in LoadAllowedTemplates(listing) ensures FileNameFor(id) != name {
      IdRoundTrip(id);
    }
  }

  class Server {
    /** The entries of views/resume_templates, in the order a directory read yields them. */
    var directory: seq<string>
    /** The module-level `allowedTemplates` list. */
    var allowedTemplates: seq<string>

    ghost predicate Valid()
      reads this
    {
      SortedNames(directory) && allowedTemplates == LoadAllowedTemplates(directory)
    }

    /**
     * Start-up: `let allowedTemplates = loadAllowedTemplates()` over the
     * listing a directory read returns, which is sorted.
     */
    constructor (listing: seq<string>)
      requires SortedNames(listing)
      ensures Valid() && directory == listing
    {
      directory := listing;
      allowedTemplates := LoadAllowedTemplates(listing);
    }

    /**
     * POST /upload-template with an optional file (its original name).
     * A rejected file stops in the filter; a missing file gets 400; an
     * accepted one is stored under its original name and the list is
     * reloaded from the directory.
     */
    method UploadTemplate(file: Option<string>) returns (reply: UploadReply)
      requires Valid()
      modifies this
      ensures Valid()
      ensures file.None? ==>
        reply == BadRequest(400, false, "No file uploaded or file type incorrect.") &&
        directory == old(directory) && allowedTemplates == old(allowedTemplates)
      ensures file.Some? && !AcceptsUpload(file.value) ==>
        reply == FilterRejected("Only .ejs files allowed!") &&
        directory == old(directory) && allowedTemplates == old(allowedTemplates)
      ensures file.Some? && AcceptsUpload(file.value) ==>
        directory == Stored(old(directory), file.value) &&
        reply == Uploaded(true, file.value, allowedTemplates) &&
        forall id :: id in allowedTemplates <==> id in old(allowedTemplates) || id in NewIds(file.value)
      ensures file.Some? && AcceptsUpload(file.value) && file.value in old(directory) ==>
        allowedTemplates == old(allowedTemplates)
      ensures file.Some? && AcceptsUpload(file.value) && file.value !in old(directory) ==>
        var j := |LoadAllowedTemplates(old(directory)[..InsertPosition(old(directory), file.value)])|;
        j <= |old(allowedTemplates)| &&
        allowedTemplates == old(allowedTemplates)[..j] + NewIds(file.value) + old(allowedTemplates)[j..]
      ensures file.Some? && AcceptsUpload(file.value) && !IsTemplateFileName(file.value) ==>
        forall id :: id in allowedTemplates ==> FileNameFor(id) != file.value
    {
      if file.None? {
        return BadRequest(400, false, "No file uploaded or file type incorrect.");
      }
      var name := file.value;
      if !AcceptsUpload(name) {
        return FilterRejected("Only .ejs files allowed!");
      }
      ReloadAfterStore(directory, name);
      directory := Stored(directory, name);
      allowedTemplates := LoadAllowedTemplates(directory);
      if !IsTemplateFileName(name) {
        NonTemplateNeverAllowed(directory, name);
      }
      reply := Uploaded(true, name, allowedTemplates);
    }

    /** GET /resume/:templateId: the editor page around the chosen template, or 404. */
    method Resume(templateId: string) returns (page: Page)
      requires Valid()
      ensures page.NotFound? <==> templateId !in allowedTemplates
      ensures page.NotFound? ==> page == NotFound(404, "Template not found")
      ensures !page.NotFound? ==>
        page == Editor(TemplatesFolder + "resume_" + templateId, templateId) &&
        IsIdString(templateId) &&
        page.selectedTemplate + Suffix == TemplatesFolder + FileNameFor(templateId) &&
        FileNameFor(templateId) in directory
    {
      if templateId !in allowedTemplates {
        return NotFound(404, "Template not found");
      }
      page := Editor(TemplatesFolder + "resume_" + templateId, templateId);
    }

    /** GET /view-resume/:templateId: the bare template, or 404. */
    method ViewResume(templateId: string) returns (page: Page)
      requires Valid()
      ensures page.NotFound? <==> templateId !in allowedTemplates
      ensures page.NotFound? ==> page == NotFound(404, "Template not found")
      ensures !page.NotFound? ==>
        page == Template(TemplatesFolder + "resume_" + templateId) &&
        IsIdString(templateId) &&
        page.view + Suffix == TemplatesFolder + FileNameFor(templateId) &&
        FileNameFor(templateId) in directory
    {
      if templateId !in allowedTemplates {
        return NotFound(404, "Template not found");
      }
      page := Template(TemplatesFolder + "resume_" + templateId);
    }

    /** GET /list-templates: the current list, unchanged. */
    method ListTemplates() returns (ids: seq<string>)
      requires Valid()
      ensures ids == allowedTemplates
      ensures forall id :: id in ids <==> IsIdString(id) && FileNameFor(id) in directory
    {
      ids := allowedTemplates;
    }
  }
}
