/**
 * Template file names and template ids (app.js:67-71).
 *
 * The server keeps the directory entries that match the regular expression
 * /^resume_\d+\.ejs$/ and takes from each the first run of digits
 * (`file.match(/\d+/)[0]`) as the template id. In a JavaScript regular
 * expression without the `u` flag, \d is the ASCII digits '0'..'9', and `$`
 * without the `m` flag matches only at the very end of the string.
 */
module TemplateNames {
  import opened Wrappers

  const Prefix: string := "resume_"
  const Suffix: string := ".ejs"

  predicate IsDigit(c: char)
  {
    '0' <= c <= '9'
  }

  /** A string that \d+ matches in full: one or more ASCII digits. */
  predicate IsIdString(s: string)
  {
    |s| > 0 && forall i :: 0 <= i < |s| ==> IsDigit(s[i])
  }

  /** The test /^resume_\d+\.ejs$/.test(f). */
  predicate IsTemplateFileName(f: string)
    ensures IsTemplateFileName(f) ==>
      |f| > |Prefix| + |Suffix| && f == FileNameFor(f[|Prefix|..|f| - |Suffix|]) && '/' !in f
  {
    |f| > |Prefix| + |Suffix| &&
    f[..|Prefix|] == Prefix &&
    f[|f| - |Suffix|..] == Suffix &&
    IsIdString(f[|Prefix|..|f| - |Suffix|])
  }

  /** The file name `resume_${id}.ejs` that the render routes point at. */
  function FileNameFor(id: string): (f: string)
    ensures |f| == |id| + |Prefix| + |Suffix|
    ensures f[..|Prefix|] == Prefix && f[|f| - |Suffix|..] == Suffix
    ensures f[|Prefix|..|f| - |Suffix|] == id
  {
    Prefix + id + Suffix
  }

  /** The longest run of digits at the start of `s`. */
  function LeadingDigits(s: string): (d: string)
    ensures |d| <= |s| && d == s[..|d|]
    ensures forall i :: 0 <= i < |d| ==> IsDigit(d[i])
    ensures |d| < |s| ==> !IsDigit(s[|d|])
  {
    if s == [] || !IsDigit(s[0]) then [] else [s[0]] + LeadingDigits(s[1..])
  }

  /** `s.match(/\d+/)`: the first maximal run of digits, None when there is no digit. */
  function FirstDigitRun(s: string): (r: Option<string>)
    ensures r.None? <==> forall i :: 0 <= i < |s| ==> !IsDigit(s[i])
    ensures r.Some? ==> IsIdString(r.value)
  {
    if s == [] then None
    else if IsDigit(s[0]) then Some(LeadingDigits(s))
    else FirstDigitRun(s[1..])
  }

  lemma {:induction false} LeadingDigitsOfRun(d: string, t: string)
    requires forall i :: 0 <= i < |d| ==> IsDigit(d[i])
    requires t == [] || !IsDigit(t[0])
    ensures LeadingDigits(d + t) == d
  {
    if d != [] {
      assert (d + t)[1..] == d[1..] + t;
      LeadingDigitsOfRun(d[1..], t);
    }
  }

  lemma {:induction false} FirstDigitRunSkips(p: string, s: string)
    requires forall i :: 0 <= i < |p| ==> !IsDigit(p[i])
    ensures FirstDigitRun(p + s) == FirstDigitRun(s)
  {
    if p == [] {
      assert p + s == s;
    } else {
      assert (p + s)[0] == p[0];
      assert (p + s)[1..] == p[1..] + s;
      FirstDigitRunSkips(p[1..], s);
    }
  }

  lemma PrefixHasNoDigit()
    ensures forall i :: 0 <= i < |Prefix| ==> !IsDigit(Prefix[i])
  {
  }

  /** A matching name is the prefix, its digits and the suffix. */
  lemma TemplateNameSplits(f: string)
    requires IsTemplateFileName(f)
    ensures f == Prefix + (f[|Prefix|..|f| - |Suffix|] + Suffix)
  {
    assert f == f[..|Prefix|] + f[|Prefix|..|f| - |Suffix|] + f[|f| - |Suffix|..];
  }

  /** The first digit run of `resume_<d>.ejs` is `d`. */
  lemma FirstDigitRunOfParts(d: string)
    requires IsIdString(d)
    ensures FirstDigitRun(Prefix + (d + Suffix)) == Some(d)
  {
    PrefixHasNoDigit();
    FirstDigitRunSkips(Prefix, d + Suffix);
    assert FirstDigitRun(d + Suffix) == Some(LeadingDigits(d + Suffix));
    LeadingDigitsOfRun(d, Suffix);
  }

  /** For a matching name, the first digit run is exactly the digits between prefix and suffix. */
  lemma FirstDigitRunOfTemplateName(f: string)
    requires IsTemplateFileName(f)
    ensures FirstDigitRun(f) == Some(f[|Prefix|..|f| - |Suffix|])
  {
    TemplateNameSplits(f);
    FirstDigitRunOfParts(f[|Prefix|..|f| - |Suffix|]);
  }

  /**
   * `file.match(/\d+/)[0]` for a file that passed the filter: a non-empty
   * digit string from which `resume_${id}.ejs` rebuilds the file name.
   */
  function ExtractId(f: string): (id: string)
    requires IsTemplateFileName(f)
    ensures IsIdString(id)
    ensures FileNameFor(id) == f
  {
    FirstDigitRunOfTemplateName(f);
    var id := FirstDigitRun(f).value;
    assert f == Prefix + id + Suffix;
    id
  }

  /** Every id names a template file, and that file's id is the id again. */
  lemma IdRoundTrip(id: string)
    requires IsIdString(id)
    ensures IsTemplateFileName(FileNameFor(id))
    ensures ExtractId(FileNameFor(id)) == id
  {
  }

  /** Distinct template files have distinct ids. */
  lemma ExtractIdInjective(f: string, g: string)
    requires IsTemplateFileName(f) && IsTemplateFileName(g)
    requires ExtractId(f) == ExtractId(g)
    ensures f == g
  {
  }

  /**
   * `loadAllowedTemplates` on a directory listing: keep the names that match,
   * in listing order, and map each to its id.
   */
  function LoadAllowedTemplates(listing: seq<string>): (ids: seq<string>)
    ensures |ids| <= |listing|
    ensures forall id :: id in ids <==> IsIdString(id) && FileNameFor(id) in listing
  {
    if listing == [] then []
    else
      var rest := LoadAllowedTemplates(listing[1..]);
      assert forall x :: x in listing <==> x == listing[0] || x in listing[1..];
      if IsTemplateFileName(listing[0]) then
        var id := ExtractId(listing[0]);
        assert forall k :: IsIdString(k) && FileNameFor(k) == listing[0] ==> k == id by {
          forall k | IsIdString(k) && FileNameFor(k) == listing[0] ensures k == id {
            assert k == FileNameFor(k)[|Prefix|..|listing[0]| - |Suffix|];
          }
        }
        [id] + rest
      else
        rest
  }

  /** The ids follow the listing's order: loading a concatenation concatenates the results. */
  lemma {:induction false} LoadAllowedTemplatesAppend(a: seq<string>, b: seq<string>)
    ensures LoadAllowedTemplates(a + b) == LoadAllowedTemplates(a) + LoadAllowedTemplates(b)
  {
    if a == [] {
      assert a + b == b;
    } else {
      assert (a + b)[0] == a[0];
      assert (a + b)[1..] == a[1..] + b;
      LoadAllowedTemplatesAppend(a[1..], b);
    }
  }

  /** A single entry contributes its id when it matches, nothing otherwise. */
  lemma LoadAllowedTemplatesSingle(f: string)
    ensures LoadAllowedTemplates([f]) == if IsTemplateFileName(f) then [ExtractId(f)] else []
  {
    assert [f][1..] == [];
  }

  predicate NoDuplicates(s: seq<string>)
  {
    forall i, j :: 0 <= i < j < |s| ==> s[i] != s[j]
  }

  /** A listing without repeated names yields ids without repeats. */
  lemma {:induction false} LoadAllowedTemplatesDistinct(listing: seq<string>)
    requires NoDuplicates(listing)
    ensures NoDuplicates(LoadAllowedTemplates(listing))
  {
    if listing != [] {
      var tail := listing[1..];
      LoadAllowedTemplatesDistinct(tail);
      if IsTemplateFileName(listing[0]) {
        var id := ExtractId(listing[0]);
        assert FileNameFor(id) !in tail by {
          forall j | 0 <= j < |tail| ensures tail[j] != listing[0] {
            assert tail[j] == listing[j + 1];
          }
        }
        var rest := LoadAllowedTemplates(tail);
        var ids := [id] + rest;
        assert LoadAllowedTemplates(listing) == ids;
        forall i, j | 0 <= i < j < |ids| ensures ids[i] != ids[j] {
          assert ids[j] == rest[j - 1];
          if i > 0 {
            assert ids[i] == rest[i - 1];
          }
        }
      } else {
        assert LoadAllowedTemplates(listing) == LoadAllowedTemplates(tail);
      }
    }
  }

  /**
   * The names the filter accepts are exactly `resume_<id>.ejs` for a non-empty
   * string of ASCII digits; any other name (another extension, another case,
   * no digits) is rejected.
   */
  lemma RejectedNames(f: string)
    ensures IsTemplateFileName(f) <==> exists id :: IsIdString(id) && f == FileNameFor(id)
  {
    if exists id :: IsIdString(id) && f == FileNameFor(id) {
      var id :| IsIdString(id) && f == FileNameFor(id);
      IdRoundTrip(id);
    }
  }

  /** One matching directory entry contributes exactly its id. */
  lemma LoadSingleTemplate(id: string)
    requires IsIdString(id)
    ensures LoadAllowedTemplates([FileNameFor(id)]) == [id]
  {
    IdRoundTrip(id);
    LoadAllowedTemplatesSingle(FileNameFor(id));
  }
}
