/**
  The form editor's text handling and save-back.  Skills are edited as one
  comma-separated text, bullets and details as one line per item; each piece
  is stripped and empty pieces are dropped.  Saving back builds the new
  document from the widgets' values, keeping the old experience or education
  list when no edited block was produced.  "Add Experience" and "Add
  Education" append a placeholder entry to the current document.

  Whitespace is `str.isspace` restricted to ASCII plus the non-ASCII line
  breaks of `str.splitlines`; other Unicode spaces are not modelled.
*/
module FormEditing {
  import opened Common
  import opened ResumeModel

  // ---------------------------------------------------------------------
  // Characters
  // ---------------------------------------------------------------------

  /** The line boundaries of `str.splitlines`. */
  predicate IsLineBreak(c: char) {
    c == '\n' || c == '\r' || c == '\U{0B}' || c == '\U{0C}'
    || c == '\U{1C}' || c == '\U{1D}' || c == '\U{1E}'
    || c == '\U{85}' || c == '\U{2028}' || c == '\U{2029}'
  }

  /** Whitespace removed by `str.strip()`. */
  predicate IsSpace(c: char) {
    c == ' ' || c == '\t' || c == '\U{1F}' || IsLineBreak(c)
  }

  predicate LineFree(s: string) {
    forall i :: 0 <= i < |s| ==> !IsLineBreak(s[i])
  }

  /** No leading and no trailing whitespace. */
  predicate IsStripped(s: string) {
    s == [] || (!IsSpace(s[0]) && !IsSpace(s[|s| - 1]))
  }

  // ---------------------------------------------------------------------
  // str.strip
  // ---------------------------------------------------------------------

  /** `str.lstrip()`: the longest suffix that does not start with whitespace. */
  function TrimLeft(s: string): (r: string)
    ensures |r| <= |s| && r == s[|s| - |r|..]
    ensures forall i :: 0 <= i < |s| - |r| ==> IsSpace(s[i])
    ensures r == [] || !IsSpace(r[0])
    decreases |s|
  {
    if s != [] && IsSpace(s[0]) then TrimLeft(s[1..]) else s
  }

  /** `str.rstrip()`: the longest prefix that does not end with whitespace. */
  function TrimRight(s: string): (r: string)
    ensures |r| <= |s| && r == s[..|r|]
    ensures forall i :: |r| <= i < |s| ==> IsSpace(s[i])
    ensures r == [] || !IsSpace(r[|r| - 1])
    decreases |s|
  {
    if s != [] && IsSpace(s[|s| - 1]) then TrimRight(s[..|s| - 1]) else s
  }

  /** `str.strip()`: `s` is whitespace, then the result, then whitespace. */
  function Strip(s: string): (r: string)
    ensures IsStripped(r)
    ensures var k := |s| - |TrimLeft(s)|;
            k + |r| <= |s| && r == s[k..k + |r|]
            && (forall i :: 0 <= i < k ==> IsSpace(s[i]))
            && (forall i :: k + |r| <= i < |s| ==> IsSpace(s[i]))
  {
    TrimRight(TrimLeft(s))
  }

  /** Stripping leaves an already stripped text alone. */
  lemma StripStripped(s: string)
    requires IsStripped(s)
    ensures Strip(s) == s
  {
  }

  /** One leading space in front of a stripped text is removed by strip. */
  lemma StripLeadingSpace(s: string)
    requires IsStripped(s)
    ensures Strip([' '] + s) == s
  {
    var t := [' '] + s;
    assert t != [] && IsSpace(t[0]) && t[1..] == s;
    var l := TrimLeft(t);
    assert l == TrimLeft(s);
    assert s == [] || !IsSpace(s[0]);
    assert TrimLeft(s) == s;
    assert TrimRight(s) == s;
    assert Strip(t) == TrimRight(l);
  }

  // ---------------------------------------------------------------------
  // str.split(sep), str.join and str.splitlines
  // ---------------------------------------------------------------------

  /** `s.split(sep)` for a one-character separator: every occurrence cuts. */
  function Split(s: string, sep: char): (r: seq<string>)
    ensures |r| >= 1
    ensures forall i :: 0 <= i < |r| ==> sep !in r[i]
    decreases |s|
  {
    if s == [] then [[]]
    else
      var rest := Split(s[1..], sep);
      if s[0] == sep then [[]] + rest
      else [[s[0]] + rest[0]] + rest[1..]
  }

  /** The total length of a list of texts. */
  function TotalLength(parts: seq<string>): nat
    decreases |parts|
  {
    if parts == [] then 0 else |parts[0]| + TotalLength(parts[1..])
  }

  /** `sep.join(parts)`. */
  function Join(parts: seq<string>, sep: string): string
    decreases |parts|
  {
    if parts == [] then []
    else if |parts| == 1 then parts[0]
    else parts[0] + sep + Join(parts[1..], sep)
  }

  /**
    The shape of a join: the first part opens the text, the last one closes
    it, and the text holds every part plus one separator between neighbours.
  */
  lemma {:induction false} JoinShape(parts: seq<string>, sep: string)
    requires parts != []
    ensures |Join(parts, sep)| == TotalLength(parts) + (|parts| - 1) * |sep|
    ensures Join(parts, sep)[..|parts[0]|] == parts[0]
    ensures |parts[|parts| - 1]| <= |Join(parts, sep)|
    ensures Join(parts, sep)[|Join(parts, sep)| - |parts[|parts| - 1]|..] == parts[|parts| - 1]
    decreases |parts|
  {
    if |parts| > 1 {
      var rest := parts[1..];
      JoinShape(rest, sep);
      var j := Join(rest, sep);
      assert Join(parts, sep) == parts[0] + sep + j;
      assert rest[|rest| - 1] == parts[|parts| - 1];
      assert TotalLength(parts) == |parts[0]| + TotalLength(rest);
      assert (|parts| - 1) * |sep| == |sep| + (|rest| - 1) * |sep|;
      var last := parts[|parts| - 1];
      assert (parts[0] + sep + j)[|parts[0] + sep + j| - |last|..] == j[|j| - |last|..];
    }
  }

  /** Splitting and re-joining on the same separator gives the text back. */
  lemma {:induction false} JoinSplit(s: string, sep: char)
    ensures Join(Split(s, sep), [sep]) == s
    decreases |s|
  {
    if s != [] {
      var rest := Split(s[1..], sep);
      JoinSplit(s[1..], sep);
      if s[0] == sep {
        assert Split(s, sep) == [[]] + rest;
        assert Join([[]] + rest, [sep]) == [] + [sep] + Join(rest, [sep]);
        assert s == [s[0]] + s[1..];
      } else {
        var parts := [[s[0]] + rest[0]] + rest[1..];
        assert Split(s, sep) == parts;
        if |rest| == 1 {
          assert Join(rest, [sep]) == rest[0];
          assert s == [s[0]] + s[1..];
        } else {
          assert parts[1..] == rest[1..];
          assert Join(rest, [sep]) == rest[0] + [sep] + Join(rest[1..], [sep]);
          assert s == [s[0]] + s[1..];
        }
      }
    }
  }

  /** Splitting a text whose head has no separator: the head joins the first piece. */
  lemma {:induction false} SplitAfterClean(x: string, tail: string, sep: char)
    requires sep !in x
    ensures var t := Split(tail, sep);
            Split(x + tail, sep) == [x + t[0]] + t[1..]
    decreases |x|
  {
    if x == [] {
      var t := Split(tail, sep);
      assert x + tail == tail && x + t[0] == t[0];
      assert t == [t[0]] + t[1..];
    } else {
      var t := Split(tail, sep);
      assert (x + tail)[0] == x[0] && (x + tail)[1..] == x[1..] + tail;
      SplitAfterClean(x[1..], tail, sep);
      var r := Split(x[1..] + tail, sep);
      assert r == [x[1..] + t[0]] + t[1..];
      assert Split(x + tail, sep) == [[x[0]] + r[0]] + r[1..];
      assert [x[0]] + (x[1..] + t[0]) == x + t[0];
    }
  }

  /** The first position of a line break, or `|s|` when there is none. */
  function FirstBreak(s: string): (k: nat)
    ensures k <= |s|
    ensures forall i :: 0 <= i < k ==> !IsLineBreak(s[i])
    ensures k < |s| ==> IsLineBreak(s[k])
    decreases |s|
  {
    if s == [] || IsLineBreak(s[0]) then 0 else 1 + FirstBreak(s[1..])
  }

  /** `\r\n` is one boundary; any other line break is one character. */
  function BreakWidth(s: string, k: nat): (w: nat)
    requires k < |s|
    ensures 1 <= w <= |s| - k
  {
    if s[k] == '\r' && k + 1 < |s| && s[k + 1] == '\n' then 2 else 1
  }

  /** `s.splitlines()`: no empty last line after a final break, none at all for "". */
  function SplitLines(s: string): (r: seq<string>)
    ensures forall i :: 0 <= i < |r| ==> LineFree(r[i])
    ensures s != [] ==> |r| >= 1
    decreases |s|
  {
    if s == [] then []
    else
      var k := FirstBreak(s);
      if k == |s| then [s]
      else [s[..k]] + SplitLines(s[k + BreakWidth(s, k)..])
  }

  /** Non-empty lines without breaks, joined by `\n`, split back into themselves. */
  lemma {:induction false} SplitLinesJoin(lines: seq<string>)
    requires forall i :: 0 <= i < |lines| ==> lines[i] != [] && LineFree(lines[i])
    ensures SplitLines(Join(lines, "\n")) == lines
    decreases |lines|
  {
    if |lines| == 1 {
      assert FirstBreak(lines[0]) == |lines[0]|;
    } else if |lines| > 1 {
      var x, rest := lines[0], lines[1..];
      var j := Join(rest, "\n");
      var s := x + "\n" + j;
      assert Join(lines, "\n") == s;
      assert s[|x|] == '\n';
      assert forall i :: 0 <= i < |x| ==> s[i] == x[i];
      assert FirstBreak(s) == |x|;
      assert BreakWidth(s, |x|) == 1;
      assert s[|x| + 1..] == j;
      assert s[..|x|] == x;
      SplitLinesJoin(rest);
      assert j != [] by {
        JoinShape(rest, "\n");
      }
    }
  }

  /** A non-empty text without breaks is one line. */
  lemma SplitLinesOne(x: string)
    requires x != [] && LineFree(x)
    ensures SplitLines(x) == [x]
  {
    assert FirstBreak(x) == |x|;
  }

  /**
    A text is cut at its first boundary: the line before it, then the lines
    of what follows, with `\r\n` counting as one boundary.
  */
  lemma SplitLinesCut(x: string, y: string)
    requires LineFree(x) && y != [] && IsLineBreak(y[0])
    ensures y[0] == '\r' && |y| > 1 && y[1] == '\n' ==> SplitLines(x + y) == [x] + SplitLines(y[2..])
    ensures !(y[0] == '\r' && |y| > 1 && y[1] == '\n') ==> SplitLines(x + y) == [x] + SplitLines(y[1..])
  {
    var s := x + y;
    assert forall i :: 0 <= i < |x| ==> s[i] == x[i];
    assert s[|x|] == y[0];
    assert FirstBreak(s) == |x|;
    assert s[..|x|] == x;
    if y[0] == '\r' && |y| > 1 && y[1] == '\n' {
      assert s[|x| + 1] == '\n';
      assert s[|x| + 2..] == y[2..];
    } else {
      assert s[|x| + 1..] == y[1..];
    }
  }

  // ---------------------------------------------------------------------
  // Parsing the form's text areas
  // ---------------------------------------------------------------------

  /** An item the form keeps: non-empty and without surrounding whitespace. */
  predicate CleanItem(s: string) {
    s != [] && IsStripped(s)
  }

  /** `[p.strip() for p in pieces if p.strip()]` */
  function ParseItems(pieces: seq<string>): (r: seq<string>)
    ensures |r| <= |pieces|
    ensures forall i :: 0 <= i < |r| ==> CleanItem(r[i])
    decreases |pieces|
  {
    if pieces == [] then []
    else
      var t := Strip(pieces[0]);
      (if t == [] then [] else [t]) + ParseItems(pieces[1..])
  }

  /** A character absent from every piece is absent from every item. */
  lemma {:induction false} ParseItemsAvoid(pieces: seq<string>, c: char)
    requires forall i :: 0 <= i < |pieces| ==> c !in pieces[i]
    ensures forall i :: 0 <= i < |ParseItems(pieces)| ==> c !in ParseItems(pieces)[i]
    decreases |pieces|
  {
    if pieces != [] {
      ParseItemsAvoid(pieces[1..], c);
      var p := pieces[0];
      var t := Strip(p);
      var k := |p| - |TrimLeft(p)|;
      assert t == p[k..k + |t|];
    }
  }

  /** Clean items pass through parsing unchanged. */
  lemma {:induction false} ParseItemsClean(items: seq<string>)
    requires forall i :: 0 <= i < |items| ==> CleanItem(items[i])
    ensures ParseItems(items) == items
    decreases |items|
  {
    if items != [] {
      StripStripped(items[0]);
      assert Strip(items[0]) == items[0] != [];
      assert ParseItems(items) == [items[0]] + ParseItems(items[1..]);
      ParseItemsClean(items[1..]);
      assert items == [items[0]] + items[1..];
    }
  }

  /** The skills text area: split on commas, strip, drop empties. */
  function ParseSkills(text: string): (r: seq<string>)
    ensures forall i :: 0 <= i < |r| ==> CleanItem(r[i]) && ',' !in r[i]
  {
    ParseItemsAvoid(Split(text, ','), ',');
    ParseItems(Split(text, ','))
  }

  /** The bullets and details text areas: one item per line, stripped, empties dropped. */
  function ParseLines(text: string): (r: seq<string>)
    ensures forall i :: 0 <= i < |r| ==> CleanItem(r[i]) && LineFree(r[i])
  {
    ParseLinesLineFree(SplitLines(text));
    ParseItems(SplitLines(text))
  }

  /** Stripping a line without breaks leaves a line without breaks. */
  lemma StripLineFree(p: string)
    requires LineFree(p)
    ensures LineFree(Strip(p))
  {
    var t := Strip(p);
    var k := |p| - |TrimLeft(p)|;
    assert t == p[k..k + |t|];
    assert forall j :: 0 <= j < |t| ==> t[j] == p[k + j];
  }

  lemma {:induction false} ParseLinesLineFree(pieces: seq<string>)
    requires forall i :: 0 <= i < |pieces| ==> LineFree(pieces[i])
    ensures forall i :: 0 <= i < |ParseItems(pieces)| ==> LineFree(ParseItems(pieces)[i])
    decreases |pieces|
  {
    if pieces != [] {
      ParseLinesLineFree(pieces[1..]);
      StripLineFree(pieces[0]);
      var t := Strip(pieces[0]);
      var tail := ParseItems(pieces[1..]);
      assert ParseItems(pieces) == (if t == [] then [] else [t]) + tail;
      if t != [] {
        assert ParseItems(pieces)[0] == t;
        assert forall i :: 1 <= i < |ParseItems(pieces)| ==> ParseItems(pieces)[i] == tail[i - 1];
      }
    }
  }

  predicate CleanSkill(s: string) {
    CleanItem(s) && ',' !in s
  }

  predicate CleanLine(s: string) {
    CleanItem(s) && LineFree(s)
  }

  /** The padding in front of a skill: none for the first, one space after each `", "`. */
  function Pad(pad: bool): string {
    if pad then " " else ""
  }

  /** Parsing a list of pieces item by item. */
  lemma ParseItemsCons(p: string, ps: seq<string>)
    ensures ParseItems([p] + ps) == (if Strip(p) == [] then [] else [Strip(p)]) + ParseItems(ps)
  {
    assert ([p] + ps)[1..] == ps;
  }

  /** Stripping a padded clean item gives the item. */
  lemma StripPadded(x: string, pad: bool)
    requires IsStripped(x)
    ensures Strip(Pad(pad) + x) == x
  {
    if pad { StripLeadingSpace(x); } else { assert Pad(pad) + x == x; StripStripped(x); }
  }

  /** The pieces `split(",")` cuts from a padded `", ".join(...)` of two or more skills. */
  lemma SplitSkillsText(x: string, rest: seq<string>, pad: bool)
    requires ',' !in x && rest != []
    ensures Split(Pad(pad) + Join([x] + rest, ", "), ',')
            == [Pad(pad) + x] + Split(Pad(true) + Join(rest, ", "), ',')
  {
    var w, j := Pad(pad), Join(rest, ", ");
    assert ([x] + rest)[1..] == rest;
    assert Join([x] + rest, ", ") == x + ", " + j;
    assert w + (x + ", " + j) == (w + x) + ([','] + (" " + j));
    var tail := [','] + (" " + j);
    SplitAfterClean(w + x, tail, ',');
    assert tail[0] == ',' && tail[1..] == " " + j;
    var t0 := Split(tail, ',');
    assert t0 == [[]] + Split(" " + j, ',');
    assert (w + x) + t0[0] == w + x;
    assert t0[1..] == Split(" " + j, ',');
    assert Pad(true) == " ";
  }

  /** An empty skills list shows as a text that parses to no skills. */
  lemma SkillsRoundTripEmpty(pad: bool)
    ensures ParseSkills(Pad(pad) + Join([], ", ")) == []
  {
    var w := Pad(pad);
    assert w + Join([], ", ") == w;
    assert Split(w, ',') == [w] by {
      if pad { assert w[1..] == []; }
    }
    assert Strip(w) == [] by {
      if pad { assert w[1..] == []; }
    }
    ParseItemsCons(w, []);
  }

  /** A single clean skill shows as itself and parses back. */
  lemma SkillsRoundTripSingle(x: string, pad: bool)
    requires CleanSkill(x)
    ensures ParseSkills(Pad(pad) + Join([x], ", ")) == [x]
  {
    var w := Pad(pad);
    StripPadded(x, pad);
    assert Join([x], ", ") == x;
    SplitAfterClean(w + x, [], ',');
    assert w + x + [] == w + x;
    assert Split(w + x, ',') == [w + x];
    ParseItemsCons(w + x, []);
  }

  /** One more skill in front of a list that already round-trips. */
  lemma SkillsRoundTripStep(x: string, rest: seq<string>, pad: bool)
    requires CleanSkill(x) && rest != []
    requires ParseSkills(Pad(true) + Join(rest, ", ")) == rest
    ensures ParseSkills(Pad(pad) + Join([x] + rest, ", ")) == [x] + rest
  {
    StripPadded(x, pad);
    SplitSkillsText(x, rest, pad);
    var pieces := Split(Pad(true) + Join(rest, ", "), ',');
    assert ParseItems(pieces) == rest;
    ParseItemsCons(Pad(pad) + x, pieces);
  }

  /** The skills text offered by the form, `", ".join(skills)` (after an optional space), parses back. */
  lemma {:induction false} SkillsRoundTripFrom(skills: seq<string>, pad: bool)
    requires forall i :: 0 <= i < |skills| ==> CleanSkill(skills[i])
    ensures ParseSkills(Pad(pad) + Join(skills, ", ")) == skills
    decreases |skills|
  {
    if skills == [] {
      SkillsRoundTripEmpty(pad);
    } else if |skills| == 1 {
      SkillsRoundTripSingle(skills[0], pad);
      assert skills == [skills[0]];
    } else {
      SkillsRoundTripFrom(skills[1..], true);
      SkillsRoundTripStep(skills[0], skills[1..], pad);
      assert skills == [skills[0]] + skills[1..];
    }
  }

  /** Leaving the skills text area as displayed keeps the skills. */
  lemma SkillsRoundTrip(skills: seq<string>)
    requires forall i :: 0 <= i < |skills| ==> CleanSkill(skills[i])
    ensures ParseSkills(Join(skills, ", ")) == skills
  {
    SkillsRoundTripFrom(skills, false);
    assert Pad(false) + Join(skills, ", ") == Join(skills, ", ");
  }

  /** Leaving a bullets or details text area as displayed keeps its items. */
  lemma LinesRoundTrip(items: seq<string>)
    requires forall i :: 0 <= i < |items| ==> CleanLine(items[i])
    ensures ParseLines(Join(items, "\n")) == items
  {
    SplitLinesJoin(items);
    ParseItemsClean(items);
  }

  // ---------------------------------------------------------------------
  // Save-back
  // ---------------------------------------------------------------------

  /** The widget values of one experience expander. */
  datatype ExperienceInput = ExperienceInput(company: string, role: string, start: string, end: string, bulletsText: string)

  /** The widget values of one education expander. */
  datatype EducationInput = EducationInput(institution: string, degree: string, start: string, end: string, detailsText: string)

  /** Everything the form's widgets hold when the page is run. */
  datatype FormInput = FormInput(
    name: string,
    email: string,
    phone: string,
    location: string,
    website: string,
    summary: string,
    skillsText: string,
    experience: seq<ExperienceInput>,
    education: seq<EducationInput>)

  /** The entry built from one experience expander. */
  function ToExperience(input: ExperienceInput): (e: Experience)
    ensures forall i :: 0 <= i < |e.bullets| ==> CleanLine(e.bullets[i])
  {
    Experience(input.company, input.role, input.start, input.end, ParseLines(input.bulletsText))
  }

  /** The entry built from one education expander. */
  function ToEducation(input: EducationInput): (e: Education)
    ensures e.details.Some? && forall i :: 0 <= i < |e.details.value| ==> CleanLine(e.details.value[i])
  {
    Education(input.institution, input.degree, input.start, input.end, Some(ParseLines(input.detailsText)))
  }

  /** The loop building `exp_blocks`, one entry per expander, in order. */
  method BuildExperienceBlocks(inputs: seq<ExperienceInput>) returns (blocks: seq<Experience>)
    ensures |blocks| == |inputs|
    ensures forall i :: 0 <= i < |inputs| ==> blocks[i] == ToExperience(inputs[i])
  {
    blocks := [];
    for i := 0 to |inputs|
      invariant |blocks| == i
      invariant forall k :: 0 <= k < i ==> blocks[k] == ToExperience(inputs[k])
    {
      blocks := blocks + [ToExperience(inputs[i])];
    }
  }

  /** The loop building `edu_blocks`, one entry per expander, in order. */
  method BuildEducationBlocks(inputs: seq<EducationInput>) returns (blocks: seq<Education>)
    ensures |blocks| == |inputs|
    ensures forall i :: 0 <= i < |inputs| ==> blocks[i] == ToEducation(inputs[i])
  {
    blocks := [];
    for i := 0 to |inputs|
      invariant |blocks| == i
      invariant forall k :: 0 <= k < i ==> blocks[k] == ToEducation(inputs[k])
    {
      blocks := blocks + [ToEducation(inputs[i])];
    }
  }

  /** `website or None`: an empty text means no website. */
  function WebsiteFromText(text: string): (w: Option<string>)
    ensures w.None? <==> text == []
    ensures w.Some? ==> w.value == text
  {
    if text == [] then None else Some(text)
  }

  /** `updated` is what saving `form` back over `model` produces. */
  ghost predicate SavedBack(model: ResumeData, form: FormInput, updated: ResumeData) {
    && updated.name == form.name && updated.email == form.email
    && updated.phone == form.phone && updated.location == form.location
    && updated.website == WebsiteFromText(form.website)
    && updated.summary == form.summary
    && updated.skills == ParseSkills(form.skillsText)
    && (form.experience == [] ==> updated.experience == model.experience)
    && (form.experience != [] ==>
          |updated.experience| == |form.experience|
          && forall i :: 0 <= i < |form.experience| ==> updated.experience[i] == ToExperience(form.experience[i]))
    && (form.education == [] ==> updated.education == model.education)
    && (form.education != [] ==>
          |updated.education| == |form.education|
          && forall i :: 0 <= i < |form.education| ==> updated.education[i] == ToEducation(form.education[i]))
  }

  /** "Save back to JSON state": the new document from the form's widgets. */
  method SaveBack(model: ResumeData, form: FormInput) returns (updated: ResumeData)
    ensures SavedBack(model, form, updated)
  {
    var skills := ParseSkills(form.skillsText);
    var expBlocks := BuildExperienceBlocks(form.experience);
    var eduBlocks := BuildEducationBlocks(form.education);
    updated := ResumeData(
      form.name, form.email, form.phone, form.location,
      WebsiteFromText(form.website),
      form.summary,
      skills,
      if expBlocks != [] then expBlocks else model.experience,
      if eduBlocks != [] then eduBlocks else model.education);
  }

  /** The widget values when the user changes nothing: what the form displays for `model`. */
  function Unedited(model: ResumeData): (form: FormInput)
    ensures |form.experience| == |model.experience| && |form.education| == |model.education|
  {
    FormInput(
      model.name, model.email, model.phone, model.location,
      if model.website.Some? then model.website.value else "",
      model.summary,
      Join(model.skills, ", "),
      seq(|model.experience|, i requires 0 <= i < |model.experience| =>
        var e := model.experience[i];
        ExperienceInput(e.company, e.role, e.start, e.end, Join(e.bullets, "\n"))),
      seq(|model.education|, i requires 0 <= i < |model.education| =>
        var ed := model.education[i];
        EducationInput(ed.institution, ed.degree, ed.start, ed.end,
                       Join(if ed.details.Some? then ed.details.value else [], "\n"))))
  }

  /** A document whose lists are what the form can represent exactly. */
  predicate Representable(model: ResumeData) {
    && model.website != Some("")
    && (forall i :: 0 <= i < |model.skills| ==> CleanSkill(model.skills[i]))
    && (forall i :: 0 <= i < |model.experience| ==>
          forall j :: 0 <= j < |model.experience[i].bullets| ==> CleanLine(model.experience[i].bullets[j]))
    && (forall i :: 0 <= i < |model.education| ==>
          model.education[i].details.Some?
          && forall j :: 0 <= j < |model.education[i].details.value| ==> CleanLine(model.education[i].details.value[j]))
  }

  /** Saving back an untouched form reproduces the document exactly. */
  lemma UneditedSaveBack(model: ResumeData, updated: ResumeData)
    requires Representable(model)
    requires SavedBack(model, Unedited(model), updated)
    ensures updated == model
  {
    var form := Unedited(model);
    SkillsRoundTrip(model.skills);
    assert updated.website == model.website;
    forall i | 0 <= i < |model.experience|
      ensures ToExperience(form.experience[i]) == model.experience[i]
    {
      LinesRoundTrip(model.experience[i].bullets);
    }
    forall i | 0 <= i < |model.education|
      ensures ToEducation(form.education[i]) == model.education[i]
    {
      LinesRoundTrip(model.education[i].details.value);
    }
    assert updated.experience == model.experience;
    assert updated.education == model.education;
  }

  /** Conversely, a document that an untouched form saves back unchanged is representable. */
  lemma UneditedSaveBackOnlyIf(model: ResumeData, updated: ResumeData)
    requires SavedBack(model, Unedited(model), updated)
    requires updated == model
    ensures Representable(model)
  {
    var form := Unedited(model);
    assert |form.experience| == |model.experience| && |form.education| == |model.education|;
    forall i | 0 <= i < |model.experience|
      ensures forall j :: 0 <= j < |model.experience[i].bullets| ==> CleanLine(model.experience[i].bullets[j])
    {
      assert model.experience[i] == ToExperience(form.experience[i]);
    }
    forall i | 0 <= i < |model.education|
      ensures model.education[i].details.Some?
      ensures forall j :: 0 <= j < |model.education[i].details.value| ==> CleanLine(model.education[i].details.value[j])
    {
      assert model.education[i] == ToEducation(form.education[i]);
    }
  }

  /**
    The form shows one expander per entry, so the edited block list is empty
    only when the document's own list is: the fallback then keeps an empty list.
  */
  lemma FallbackKeepsLength(model: ResumeData, form: FormInput, updated: ResumeData)
    requires |form.experience| == |model.experience| && |form.education| == |model.education|
    requires SavedBack(model, form, updated)
    ensures |updated.experience| == |model.experience| && |updated.education| == |model.education|
    ensures model.experience == [] ==> updated.experience == []
    ensures model.education == [] ==> updated.education == []
  {
  }

  /** The placeholder "Add Experience" appends. */
  const NewExperience: Experience := Experience("New Company", "Title", "", "", ["Achievement 1"])

  /** The placeholder "Add Education" appends. */
  const NewEducation: Education := Education("New University", "Degree", "", "", Some(["Detail 1"]))

  /** The document held in the editing session (`session_state["data_json"]`, parsed). */
  class FormSession {
    var data: ResumeData

    /** A new session starts from the sample document. */
    constructor ()
      ensures data == DefaultResume()
    {
      data := DefaultResume();
    }

    /** "Add Experience": `model.experience.append(...)`, then stored. */
    method AddExperience()
      modifies this
      ensures data == old(data).(experience := old(data.experience) + [NewExperience])
      ensures |data.experience| == |old(data.experience)| + 1
      ensures data.experience[..|old(data.experience)|] == old(data.experience)
    {
      data := data.(experience := data.experience + [NewExperience]);
    }

    /** "Add Education": `model.education.append(...)`, then stored. */
    method AddEducation()
      modifies this
      ensures data == old(data).(education := old(data.education) + [NewEducation])
      ensures |data.education| == |old(data.education)| + 1
      ensures data.education[..|old(data.education)|] == old(data.education)
    {
      data := data.(education := data.education + [NewEducation]);
    }

    /**
      A form run without an "Add" click: the form's values replace the
      document.  The form shows one expander per existing entry, so the
      lists keep their lengths.
    */
    method Submit(form: FormInput)
      requires |form.experience| == |data.experience| && |form.education| == |data.education|
      modifies this
      ensures SavedBack(old(data), form, data)
      ensures |data.experience| == |old(data).experience| && |data.education| == |old(data).education|
    {
      data := SaveBack(data, form);
      FallbackKeepsLength(old(data), form, data);
    }
  }
}
